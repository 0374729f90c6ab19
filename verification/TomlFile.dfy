/** ParseTOML of internal/config/toml.go and UpsertTOML of
    internal/config/tomlwrite.go, text to text. */
module TomlFile {
  import opened Results
  import opened Joining
  import opened GoText
  import opened TomlSyntax

  // --------------------------------------------------------------------- lines

  /** The lines of a text: always one more than its newlines. */
  function Split(s: string): (r: seq<string>)
    ensures |r| >= 1
  {
    if s == "" then [""]
    else if s[0] == '\n' then [""] + Split(s[1..])
    else
      var r := Split(s[1..]);
      [[s[0]] + r[0]] + r[1..]
  }

  /** strings.TrimRight(s, "\n"). */
  function TrimNewlines(s: string): string {
    if s != "" && s[|s| - 1] == '\n' then TrimNewlines(s[..|s| - 1]) else s
  }

  ghost predicate OneLine(s: string) {
    '\n' !in s
  }

  ghost predicate Lines(ls: seq<string>) {
    forall l :: l in ls ==> OneLine(l)
  }

  lemma {:induction false} SplitGivesLines(s: string)
    ensures Lines(Split(s))
  {
    if s != "" {
      SplitGivesLines(s[1..]);
      var r := Split(s[1..]);
      assert r[0] in r;
      if s[0] != '\n' {
        forall l | l in Split(s) ensures OneLine(l) {
          if l != Split(s)[0] { assert l in r[1..]; assert l in r; }
        }
      }
    }
  }

  lemma {:induction false} JoinOfSplit(s: string)
    ensures Join(Split(s), '\n') == s
  {
    if s != "" {
      JoinOfSplit(s[1..]);
      var r := Split(s[1..]);
      if s[0] == '\n' {
        assert ([""] + r)[1..] == r;
        assert Join([""] + r, '\n') == "" + ['\n'] + s[1..];
      } else {
        assert ([[s[0]] + r[0]] + r[1..])[1..] == r[1..];
        assert |r| > 1 ==> [s[0]] + r[0] + ['\n'] + Join(r[1..], '\n') == [s[0]] + (r[0] + ['\n'] + Join(r[1..], '\n'));
      }
      assert s == [s[0]] + s[1..];
    }
  }

  lemma {:induction false} SplitOfLine(l: string, rest: string)
    requires OneLine(l)
    ensures Split(l) == [l]
    ensures Split(l + ['\n'] + rest) == [l] + Split(rest)
    decreases |l|
  {
    var t := l + ['\n'] + rest;
    if l == "" {
      assert t[1..] == rest;
    } else {
      SplitOfLine(l[1..], rest);
      assert t[1..] == l[1..] + ['\n'] + rest;
      assert l == [l[0]] + l[1..];
    }
  }

  lemma {:induction false} SplitOfJoin(ls: seq<string>)
    requires ls != [] && Lines(ls)
    ensures Split(Join(ls, '\n')) == ls
  {
    assert ls[0] in ls;
    if |ls| == 1 {
      SplitOfLine(ls[0], "");
    } else {
      assert forall l :: l in ls[1..] ==> l in ls;
      SplitOfJoin(ls[1..]);
      SplitOfLine(ls[0], Join(ls[1..], '\n'));
    }
  }

  /** n empty lines. */
  function Empties(n: nat): seq<string> {
    seq(n, _ => "")
  }

  /** A trailing newline is one more empty line. */
  lemma {:induction false} SplitOfTrailingNewline(s: string)
    ensures Split(s + ['\n']) == Split(s) + [""]
  {
    JoinOfSplit(s);
    SplitGivesLines(s);
    JoinAppendEmpty(Split(s));
    SplitOfJoin(Split(s) + [""]);
  }

  lemma {:induction false} JoinAppendEmpty(ls: seq<string>)
    requires ls != []
    ensures Join(ls + [""], '\n') == Join(ls, '\n') + ['\n']
  {
    var t := ls + [""];
    assert t[1..] == ls[1..] + [""];
    if |ls| == 1 {
      assert Join(t, '\n') == ls[0] + ['\n'] + "";
    } else {
      JoinAppendEmpty(ls[1..]);
    }
  }

  /** The trimmed newlines are exactly the trailing empty lines. */
  lemma {:induction false} SplitOfTrimmed(s: string) returns (n: nat)
    ensures Split(s) == Split(TrimNewlines(s)) + Empties(n)
    decreases |s|
  {
    if s != "" && s[|s| - 1] == '\n' {
      var init := s[..|s| - 1];
      var m := SplitOfTrimmed(init);
      assert s == init + ['\n'];
      SplitOfTrailingNewline(init);
      n := m + 1;
      assert Empties(n) == Empties(m) + [""];
    } else {
      n := 0;
    }
  }

  // ---------------------------------------------------------------- the parser

  /** The settings iris.toml is limited to, by the form each takes. */
  datatype Kind = StringKind | IntKind | ListKind

  const STRING_KEYS: set<string> :=
    {"socket", "host", "token", "pg_dsn", "objects_path", "workspace", "tcp", "tls_cert", "tls_key"}
  const INT_KEYS: set<string> := {"retain", "journal_partition_rows"}

  function KindOf(key: string): Option<Kind> {
    if key in STRING_KEYS then Some(StringKind)
    else if key in INT_KEYS then Some(IntKind)
    else if key == "catalogs" then Some(ListKind)
    else None
  }

  datatype Value = Str(s: string) | Num(n: int) | List(l: seq<string>)

  predicate HasKind(v: Value, k: Kind) {
    match k
    case StringKind => v.Str?
    case IntKind => v.Num?
    case ListKind => v.List?
  }

  /** The parsed file: the settings it made, under their keys, and the keys it
      carried that are no settings, in file order. */
  datatype Toml = Toml(layer: map<string, Value>, ignored: seq<string>)

  predicate IsBareChar(c: char) {
    'a' <= c <= 'z' || 'A' <= c <= 'Z' || '0' <= c <= '9' || c == '_' || c == '-'
  }

  predicate IsBareKey(key: string) {
    key != "" && forall i :: 0 <= i < |key| ==> IsBareChar(key[i])
  }

  function ParsedQuoted(v: string): Result<string, ValueError>
    requires StartsWith(v, '"')
  {
    match Scan(v[1..])
    case Err(e) => Err(BadString(e))
    case Ok((s, rest)) => if OnlyComment(rest) then Ok(s) else Err(TrailingContent)
  }

  function BeforeComment(v: string): string {
    match CutAt(v, '#')
    case None => v
    case Some((a, _)) => TrimSpace(a)
  }

  /** The right-hand side of a line: a string, a list, or a bare integer. */
  function ParsedValue(raw: string): Result<Value, ValueError> {
    var v := TrimSpace(raw);
    if StartsWith(v, '"') then
      match ParsedQuoted(v) case Err(e) => Err(e) case Ok(s) => Ok(Str(s))
    else if StartsWith(v, '[') then
      match ParsedArray(v) case Err(e) => Err(e) case Ok(l) => Ok(List(l))
    else
      var bare := BeforeComment(v);
      if bare == "" then Err(EmptyValue)
      else match ParseInt(bare) case None => Err(NotAValue) case Some(n) => Ok(Num(n))
  }

  datatype LineError =
    | TableUnsupported
    | MissingEquals
    | MalformedKey
    | BadValue(e: ValueError)
    | WrongKind(key: string)

  datatype Line = Blank | Setting(key: string, value: Value) | Bad(e: LineError)

  function ParsedLine(raw: string): Line {
    var line := TrimSpace(raw);
    if line == "" || line[0] == '#' then Blank
    else if line[0] == '[' then Bad(TableUnsupported)
    else
      match CutAt(line, '=')
      case None => Bad(MissingEquals)
      case Some((k, v)) =>
        var key := TrimSpace(k);
        if !IsBareKey(key) then Bad(MalformedKey)
        else
          match ParsedValue(v)
          case Err(e) => Bad(BadValue(e))
          case Ok(value) => Setting(key, value)
  }

  function Assign(t: Toml, key: string, value: Value): Result<Toml, LineError> {
    match KindOf(key)
    case None => Ok(t.(ignored := t.ignored + [key]))
    case Some(k) => if HasKind(value, k) then Ok(t.(layer := t.layer[key := value])) else Err(WrongKind(key))
  }

  function ApplyLine(t: Toml, raw: string): Result<Toml, LineError> {
    match ParsedLine(raw)
    case Blank => Ok(t)
    case Bad(e) => Err(e)
    case Setting(key, value) => Assign(t, key, value)
  }

  datatype FileError = FileError(line: nat, e: LineError)

  /** The lines' settings, later ones winning; the first bad line refuses the file. */
  function ParsedLines(lines: seq<string>): Result<Toml, FileError> {
    if lines == [] then Ok(Toml(map[], []))
    else
      match ParsedLines(lines[..|lines| - 1])
      case Err(e) => Err(e)
      case Ok(t) =>
        match ApplyLine(t, lines[|lines| - 1])
        case Err(e) => Err(FileError(|lines|, e))
        case Ok(t') => Ok(t')
  }

  function Parsed(text: string): Result<Toml, FileError> {
    ParsedLines(Split(text))
  }

  lemma ParseErrStays(lines: seq<string>, i: nat)
    requires i <= |lines| && ParsedLines(lines[..i]).Err?
    ensures ParsedLines(lines) == ParsedLines(lines[..i])
    decreases |lines|
  {
    if i == |lines| {
      assert lines[..i] == lines;
    } else {
      var init := lines[..|lines| - 1];
      assert init[..i] == lines[..i];
      ParseErrStays(init, i);
    }
  }

  /** parseTOMLValue. */
  method ParseTOMLValue(raw: string) returns (r: Result<Value, ValueError>)
    ensures r == ParsedValue(raw)
  {
    var v := TrimSpace(raw);
    if StartsWith(v, '"') {
      var scanned := ScanQuoted(v, 0);
      if scanned.Err? { return Err(BadString(scanned.error)); }
      var rest := TrimSpace(v[scanned.value.1..]);
      if rest != "" && rest[0] != '#' { return Err(TrailingContent); }
      return Ok(Str(scanned.value.0));
    }
    if StartsWith(v, '[') {
      var list := ParseStringArray(v);
      if list.Err? { return Err(list.error); }
      return Ok(List(list.value));
    }
    v := BeforeComment(v);
    if v == "" { return Err(EmptyValue); }
    var n := ParseInt(v);
    if n.None? { return Err(NotAValue); }
    return Ok(Num(n.value));
  }

  /** Parses an iris.toml. */
  method ParseTOML(text: string) returns (r: Result<Toml, FileError>)
    ensures r == Parsed(text)
  {
    var out := Toml(map[], []);
    var lines := Split(text);
    for i := 0 to |lines|
      invariant ParsedLines(lines[..i]) == Ok(out)
    {
      assert lines[..i + 1][..i] == lines[..i];
      if ParsedLines(lines[..i + 1]).Err? { ParseErrStays(lines, i + 1); }
      var line := TrimSpace(lines[i]);
      if line == "" || line[0] == '#' { continue; }
      if line[0] == '[' { return Err(FileError(i + 1, TableUnsupported)); }
      var cut := CutAt(line, '=');
      if cut.None? { return Err(FileError(i + 1, MissingEquals)); }
      var key := TrimSpace(cut.value.0);
      if !IsBareKey(key) { return Err(FileError(i + 1, MalformedKey)); }
      var value := ParseTOMLValue(cut.value.1);
      if value.Err? { return Err(FileError(i + 1, BadValue(value.error))); }
      var next := Assign(out, key, value.value);
      if next.Err? { return Err(FileError(i + 1, next.error)); }
      out := next.value;
    }
    assert lines[..|lines|] == lines;
    return Ok(out);
  }
}
