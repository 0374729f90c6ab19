/** The values of an iris.toml line: internal/config/toml.go's scanners and
    internal/config/tomlwrite.go's printers. Texts are sequences of code points. */
module TomlSyntax {
  import opened Results
  import opened GoText

  // ------------------------------------------------------------------ printing

  /** strings.ReplaceAll for a one-character pattern. */
  function ReplaceAll(s: string, c: char, sub: string): string {
    if s == "" then ""
    else (if s[0] == c then sub else [s[0]]) + ReplaceAll(s[1..], c, sub)
  }

  function QuoteTOML(v: string): string {
    "\"" + ReplaceAll(ReplaceAll(v, '\\', "\\\\"), '"', "\\\"") + "\""
  }

  /** What each character becomes between the quotes. */
  function Escape(v: string): string {
    if v == "" then ""
    else (if v[0] == '\\' || v[0] == '"' then ['\\', v[0]] else [v[0]]) + Escape(v[1..])
  }

  lemma {:induction false} ReplaceAllAppend(a: string, b: string, c: char, sub: string)
    ensures ReplaceAll(a + b, c, sub) == ReplaceAll(a, c, sub) + ReplaceAll(b, c, sub)
  {
    if a == "" {
      assert a + b == b;
    } else {
      ReplaceAllAppend(a[1..], b, c, sub);
      assert (a + b)[1..] == a[1..] + b;
      Assoc(if a[0] == c then sub else [a[0]], ReplaceAll(a[1..], c, sub), ReplaceAll(b, c, sub));
    }
  }

  lemma Assoc(x: string, y: string, z: string)
    ensures x + (y + z) == x + y + z
  {}

  /** The two replacements, backslashes first, are one per-character escape. */
  lemma {:induction false} TwoReplacementsEscape(v: string)
    ensures ReplaceAll(ReplaceAll(v, '\\', "\\\\"), '"', "\\\"") == Escape(v)
  {
    if v != "" {
      var head := if v[0] == '\\' then "\\\\" else [v[0]];
      TwoReplacementsEscape(v[1..]);
      ReplaceAllAppend(head, ReplaceAll(v[1..], '\\', "\\\\"), '"', "\\\"");
      assert ReplaceAll(v, '\\', "\\\\") == head + ReplaceAll(v[1..], '\\', "\\\\");
      if v[0] == '\\' {
        assert head == ['\\'] + ['\\'];
        ReplaceAllAppend(['\\'], ['\\'], '"', "\\\"");
        assert ReplaceAll(['\\'], '"', "\\\"") == ['\\'];
      } else if v[0] == '"' {
        assert ReplaceAll(['"'], '"', "\\\"") == "\\\"";
      } else {
        assert ReplaceAll([v[0]], '"', "\\\"") == [v[0]];
      }
    }
  }

  function JoinComma(parts: seq<string>): string {
    if |parts| == 0 then ""
    else if |parts| == 1 then parts[0]
    else parts[0] + ", " + JoinComma(parts[1..])
  }

  function Quoted(l: seq<string>): seq<string> {
    if l == [] then [] else [QuoteTOML(l[0])] + Quoted(l[1..])
  }

  function QuoteTOMLList(l: seq<string>): string {
    if l == [] then "[]" else "[" + JoinComma(Quoted(l)) + "]"
  }

  // ------------------------------------------------------------------ scanning

  datatype ScanError = UnterminatedString | UnsupportedEscape(c: char)

  /** Reads up to the closing quote: the contents and what follows it. */
  function Scan(s: string): (r: Result<(string, string), ScanError>)
    ensures r.Ok? ==> |r.value.1| < |s|
  {
    if s == "" then Err(UnterminatedString)
    else if s[0] == '"' then Ok(("", s[1..]))
    else if s[0] == '\\' then
      if |s| < 2 then Err(UnterminatedString)
      else if s[1] != '"' && s[1] != '\\' then Err(UnsupportedEscape(s[1]))
      else Prepend(s[1], Scan(s[2..]))
    else Prepend(s[0], Scan(s[1..]))
  }

  function Prepend(c: char, r: Result<(string, string), ScanError>): Result<(string, string), ScanError> {
    match r
    case Ok((s, rest)) => Ok(([c] + s, rest))
    case Err(e) => Err(e)
  }

  function PrependAll(b: string, r: Result<(string, string), ScanError>): Result<(string, string), ScanError> {
    match r
    case Ok((s, rest)) => Ok((b + s, rest))
    case Err(e) => Err(e)
  }

  lemma Nest(head: string, s: string, rest: string)
    ensures head + s + "\"" + rest == head + (s + "\"" + rest)
  {}

  /** Scanning an escaped string gives the string back and stops at its quote. */
  lemma {:induction false} ScanOfEscape(v: string, rest: string)
    ensures Scan(Escape(v) + "\"" + rest) == Ok((v, rest))
  {
    if v == "" {
      assert Escape(v) + "\"" + rest == ['"'] + rest;
    } else {
      ScanOfEscape(v[1..], rest);
      var head := if v[0] == '\\' || v[0] == '"' then ['\\', v[0]] else [v[0]];
      Nest(head, Escape(v[1..]), rest);
      var tail := Escape(v[1..]) + "\"" + rest;
      assert (head + tail)[|head|..] == tail;
      assert v == [v[0]] + v[1..];
    }
  }

  /** scanQuoted: from the opening quote at start, the contents and the index past
      the closing quote. */
  method ScanQuoted(v: string, start: nat) returns (r: Result<(string, nat), ScanError>)
    requires start < |v|
    ensures r.Ok? ==> start + 1 < r.value.1 <= |v| && Scan(v[start + 1..]) == Ok((r.value.0, v[r.value.1..]))
    ensures r.Err? ==> Scan(v[start + 1..]) == Err(r.error)
  {
    var b := "";
    var i := start + 1;
    PrependNothing(Scan(v[i..]));
    while i < |v|
      invariant start + 1 <= i <= |v|
      invariant Scan(v[start + 1..]) == PrependAll(b, Scan(v[i..]))
    {
      var c := v[i];
      assert v[i..][0] == c && v[i..][1..] == v[i + 1..];
      if c == '\\' {
        if i + 1 >= |v| { return Err(UnterminatedString); }
        var next := v[i + 1];
        if next != '"' && next != '\\' { return Err(UnsupportedEscape(next)); }
        assert v[i..][2..] == v[i + 2..];
        PrependMoves(b, next, Scan(v[i + 2..]));
        b := b + [next];
        i := i + 2;
      } else if c == '"' {
        assert b + "" == b;
        return Ok((b, i + 1));
      } else {
        PrependMoves(b, c, Scan(v[i + 1..]));
        b := b + [c];
        i := i + 1;
      }
    }
    return Err(UnterminatedString);
  }

  lemma PrependNothing(r: Result<(string, string), ScanError>)
    ensures PrependAll("", r) == r
  {
    if r.Ok? { assert "" + r.value.0 == r.value.0; }
  }

  lemma PrependMoves(b: string, c: char, r: Result<(string, string), ScanError>)
    ensures PrependAll(b, Prepend(c, r)) == PrependAll(b + [c], r)
  {
    if r.Ok? { assert b + ([c] + r.value.0) == b + [c] + r.value.0; }
  }

  /** A printed string read back: its value and exactly the text after it. */
  lemma QuotedRoundTrip(v: string, rest: string)
    ensures StartsWith(QuoteTOML(v) + rest, '"') && Scan((QuoteTOML(v) + rest)[1..]) == Ok((v, rest))
  {
    TwoReplacementsEscape(v);
    ScanOfEscape(v, rest);
    assert (QuoteTOML(v) + rest)[1..] == Escape(v) + "\"" + rest;
  }

  // ------------------------------------------------------------- string arrays

  datatype ArrayError =
    | UnterminatedArray
    | NotSeparated(c: char)
    | TrailingComma
    | NestedArray
    | NotQuoted
    | BadElement(e: ScanError)

  predicate IsBlank(c: char) {
    c == ' ' || c == '\t'
  }

  function DropBlanks(s: string): (r: string)
    ensures |r| <= |s|
  {
    if s != "" && IsBlank(s[0]) then DropBlanks(s[1..]) else s
  }

  /** Reads the elements up to the closing bracket: the list and what follows. */
  function Items(s: string, first: bool): (r: Result<(seq<string>, string), ArrayError>)
    decreases |s|
  {
    var t := DropBlanks(s);
    if t == "" then Err(UnterminatedArray)
    else if t[0] == ']' then Ok(([], t[1..]))
    else if first then Element(t)
    else if t[0] != ',' then Err(NotSeparated(t[0]))
    else
      var u := DropBlanks(t[1..]);
      if u == "" then Err(UnterminatedArray)
      else if u[0] == ']' then Err(TrailingComma)
      else Element(u)
  }

  /** One quoted element, then the rest. */
  function Element(t: string): Result<(seq<string>, string), ArrayError>
    requires t != ""
    decreases |t|, 0
  {
    if t[0] == '[' then Err(NestedArray)
    else if t[0] != '"' then Err(NotQuoted)
    else
      match Scan(t[1..])
      case Err(e) => Err(BadElement(e))
      case Ok((s, rest)) => PrependItem([s], Items(rest, false))
  }

  function PrependItem(l: seq<string>, r: Result<(seq<string>, string), ArrayError>): Result<(seq<string>, string),
                       ArrayError> {
    match r
    case Ok((more, rest)) => Ok((l + more, rest))
    case Err(e) => Err(e)
  }

  datatype ValueError =
    | BadString(s: ScanError)
    | BadArray(a: ArrayError)
    | TrailingContent
    | EmptyValue
    | NotAValue

  /** Nothing but space and an inline comment may follow a value. */
  predicate OnlyComment(rest: string) {
    var t := TrimSpace(rest);
    t == "" || t[0] == '#'
  }

  function ParsedArray(v: string): Result<seq<string>, ValueError>
    requires StartsWith(v, '[')
  {
    match Items(v[1..], true)
    case Err(e) => Err(BadArray(e))
    case Ok((l, rest)) => if OnlyComment(rest) then Ok(l) else Err(TrailingContent)
  }

  method SkipBlanks(v: string, start: nat) returns (i: nat)
    requires start <= |v|
    ensures start <= i <= |v| && v[i..] == DropBlanks(v[start..])
  {
    i := start;
    while i < |v| && (v[i] == ' ' || v[i] == '\t')
      invariant start <= i <= |v|
      invariant DropBlanks(v[start..]) == DropBlanks(v[i..])
    {
      assert v[i..][1..] == v[i + 1..];
      i := i + 1;
    }
  }

  lemma PrependItems(l: seq<string>, s: string, r: Result<(seq<string>, string), ArrayError>)
    ensures PrependItem(l, PrependItem([s], r)) == PrependItem(l + [s], r)
    ensures PrependItem([], r) == r
  {
    if r.Ok? {
      assert l + ([s] + r.value.0) == l + [s] + r.value.0;
      assert [] + r.value.0 == r.value.0;
    }
  }

  /** parseStringArray: a flat single-line array spanning v, a comment aside. */
  method ParseStringArray(v: string) returns (r: Result<seq<string>, ValueError>)
    requires StartsWith(v, '[')
    ensures r == ParsedArray(v)
  {
    var list: seq<string> := [];
    var i: nat := 1;
    ghost var whole := Items(v[1..], true);
    PrependItems([], "", whole);
    while true
      invariant 1 <= i <= |v|
      invariant whole == PrependItem(list, Items(v[i..], list == []))
      decreases |v| - i
    {
      ghost var from := i;
      i := SkipBlanks(v, i);
      if i >= |v| { return Err(BadArray(UnterminatedArray)); }
      assert v[i..][0] == v[i] && v[i..][1..] == v[i + 1..];
      if v[i] == ']' {
        assert list + [] == list;
        i := i + 1;
        break;
      }
      if |list| > 0 {
        if v[i] != ',' { return Err(BadArray(NotSeparated(v[i]))); }
        i := SkipBlanks(v, i + 1);
        if i >= |v| { return Err(BadArray(UnterminatedArray)); }
        if v[i] == ']' { return Err(BadArray(TrailingComma)); }
      }
      assert whole == PrependItem(list, Element(v[i..]));
      if v[i] == '[' { return Err(BadArray(NestedArray)); }
      if v[i] != '"' { return Err(BadArray(NotQuoted)); }
      assert v[i..][1..] == v[i + 1..];
      var scanned := ScanQuoted(v, i);
      if scanned.Err? { return Err(BadArray(BadElement(scanned.error))); }
      var (s, end) := scanned.value;
      PrependItems(list, s, Items(v[end..], false));
      list := list + [s];
      i := end;
    }
    assert whole == Ok((list, v[i..]));
    var rest := TrimSpace(v[i..]);
    if rest != "" && rest[0] != '#' { return Err(TrailingContent); }
    return Ok(list);
  }

  /** What follows a printed element. */
  function AfterElement(more: seq<string>, rest: string): string {
    if more == [] then "]" + rest else ", " + (JoinComma(Quoted(more)) + "]" + rest)
  }

  lemma PrintedFromFirst(l: seq<string>, rest: string)
    requires l != []
    ensures JoinComma(Quoted(l)) + "]" + rest == QuoteTOML(l[0]) + AfterElement(l[1..], rest)
  {
    assert Quoted(l)[1..] == Quoted(l[1..]);
    if |l| > 1 { Regroup(QuoteTOML(l[0]), JoinComma(Quoted(l[1..])), rest); }
    else { RegroupLast(QuoteTOML(l[0]), rest); }
  }

  lemma Regroup(q: string, j: string, rest: string)
    ensures q + ", " + j + "]" + rest == q + (", " + (j + "]" + rest))
  {}

  lemma RegroupLast(q: string, rest: string)
    ensures q + "]" + rest == q + ("]" + rest)
  {}

  /** A separator, a blank, and the next element. */
  lemma ItemsAfterSeparator(body: string)
    requires StartsWith(body, '"')
    ensures Items(", " + body, false) == Element(body)
  {
    var t := ", " + body;
    assert t[0] == ',' && t[1..] == " " + body;
    assert (" " + body)[1..] == body;
    assert DropBlanks(t) == t;
    assert DropBlanks(" " + body) == DropBlanks(body) == body;
  }

  lemma {:induction false} ItemsOfPrinted(l: seq<string>, rest: string)
    requires l != []
    ensures var body := JoinComma(Quoted(l)) + "]" + rest;
            StartsWith(body, '"') && Element(body) == Ok((l, rest))
  {
    var body, tail := JoinComma(Quoted(l)) + "]" + rest, AfterElement(l[1..], rest);
    PrintedFromFirst(l, rest);
    QuotedRoundTrip(l[0], tail);
    assert Element(body) == PrependItem([l[0]], Items(tail, false));
    assert l == [l[0]] + l[1..];
    if |l| == 1 {
      assert tail[0] == ']' && tail[1..] == rest;
    } else {
      ItemsOfPrinted(l[1..], rest);
      ItemsAfterSeparator(JoinComma(Quoted(l[1..])) + "]" + rest);
    }
  }

  /** A printed list read back, empty included. */
  lemma ListRoundTrip(l: seq<string>)
    ensures StartsWith(QuoteTOMLList(l), '[') && ParsedArray(QuoteTOMLList(l)) == Ok(l)
  {
    var v := QuoteTOMLList(l);
    if l == [] {
      var t := v[1..];
      assert |t| == 1 && t[0] == ']' && t[1..] == "";
      assert DropBlanks(t) == t;
    } else {
      var body := JoinComma(Quoted(l)) + "]" + "";
      assert v[1..] == body;
      ItemsOfPrinted(l, "");
      assert DropBlanks(body) == body;
    }
  }
}
