/** The language internal/config/toml.go reads, as a grammar over the text itself, and
    the proof that the parser reads exactly it. */
module TomlGrammar {
  import opened Results
  import opened Joining
  import opened GoText
  import opened TomlSyntax
  import opened TomlFile

  // ------------------------------------------------------------------- remarks

  ghost predicate RemarkFrom(s: string, i: int) {
    0 <= i <= |s| && AllSpace(s[..i]) && (i < |s| ==> s[i] == '#')
  }

  /** Nothing but space and perhaps a comment. */
  ghost predicate Remark(s: string) {
    exists i :: RemarkFrom(s, i)
  }

  lemma RemarkOfTrimmed(s: string, i: nat, j: nat)
    requires Trims(s, i, j)
    ensures Remark(s) <==> i == j || s[i] == '#'
  {
    SpaceOutside(s, i, j);
    if i == j {
      assert RemarkFrom(s, |s|);
    } else {
      assert s[i] == s[i..j][0];
      if s[i] == '#' { assert RemarkFrom(s, i); }
      if Remark(s) {
        var k :| RemarkFrom(s, k);
        SpaceOutside(s, k, |s|);
      }
    }
  }

  ghost predicate OpensAt(s: string, i: int, c: char) {
    0 <= i < |s| && AllSpace(s[..i]) && s[i] == c
  }

  /** c is the first character but for space. */
  ghost predicate Opens(s: string, c: char) {
    exists i :: OpensAt(s, i, c)
  }

  lemma OpeningOfTrimmed(s: string, i: nat, j: nat, c: char)
    requires Trims(s, i, j) && !IsSpace(c)
    ensures Opens(s, c) <==> i < j && s[i] == c
  {
    SpaceOutside(s, i, j);
    assert i < j ==> s[i] == s[i..j][0];
    if i < j && s[i] == c { assert OpensAt(s, i, c); }
    if Opens(s, c) {
      var k :| OpensAt(s, k, c);
      SpaceOutside(s, k, |s|);
    }
  }

  lemma OnlyCommentIsRemark(s: string)
    ensures OnlyComment(s) <==> Remark(s)
  {
    TrimSpaceCuts(s);
    var i, j :| Trims(s, i, j) && TrimSpace(s) == s[i..j];
    RemarkOfTrimmed(s, i, j);
  }

  lemma RemarkGrows(s: string, t: string)
    requires Remark(s) && Remark(t)
    ensures Remark(s + t)
  {
    var i :| RemarkFrom(s, i);
    var k :| RemarkFrom(t, k);
    if i < |s| {
      assert (s + t)[..i] == s[..i];
      assert RemarkFrom(s + t, i);
    } else {
      assert (s + t)[..i + k] == s[..i] + t[..k];
      assert RemarkFrom(s + t, i + k);
    }
  }

  lemma SpaceIsRemark(s: string)
    requires AllSpace(s)
    ensures Remark(s)
  {
    assert s[..|s|] == s;
    assert RemarkFrom(s, |s|);
  }

  /** Trimmed at its end, a remark is empty or holds its comment. */
  lemma RemarkEnds(s: string) returns (t: string, z: string)
    requires Remark(s)
    ensures s == t + z && AllSpace(z) && Remark(t)
    ensures t != "" ==> '#' in t && !IsSpace(t[|t| - 1])
  {
    var i :| RemarkFrom(s, i);
    var j := TrimRightCuts(s);
    t, z := s[..j], s[j..];
    SpaceOutside(s, i, j);
    if i < |s| {
      assert t[i] == '#' && t[..i] == s[..i];
      assert RemarkFrom(t, i);
    } else {
      assert j <= i;
      assert RemarkFrom(t, 0);
    }
  }

  // -------------------------------------------------------------------- values

  /** The escaped text between quotes. */
  ghost predicate SpellsString(text: string, s: string) {
    text == "\"" + Escape(s) + "\""
  }

  ghost predicate Blanks(s: string) {
    forall i :: 0 <= i < |s| ==> s[i] == ' ' || s[i] == '\t'
  }

  ghost predicate Begins(body: string, l: seq<string>, pre: string, item: string, rest: string)
    requires l != []
    decreases |l|, 0
  {
    Blanks(pre) && SpellsString(item, l[0]) && body == pre + (item + rest) && Follow(rest, l[1..])
  }

  /** The text between the brackets, from an element on. */
  ghost predicate Elements(body: string, l: seq<string>)
    decreases |l|, 1
  {
    if l == [] then Blanks(body) else exists pre, item, rest :: Begins(body, l, pre, item, rest)
  }

  ghost predicate Separates(body: string, l: seq<string>, pre: string, rest: string)
    decreases |l|, 2
  {
    Blanks(pre) && body == pre + ("," + rest) && Elements(rest, l)
  }

  /** The text between an element and the closing bracket. */
  ghost predicate Follow(body: string, l: seq<string>)
    decreases |l|, 3
  {
    if l == [] then Blanks(body) else exists pre, rest :: Separates(body, l, pre, rest)
  }

  ghost predicate SpellsList(text: string, l: seq<string>) {
    exists body :: text == "[" + body + "]" && Elements(body, l)
  }

  /** The text of a value. */
  ghost predicate SpellsValue(text: string, v: Value) {
    match v
    case Str(s) => SpellsString(text, s)
    case List(l) => SpellsList(text, l)
    case Num(n) => Spells(text, n) && FitsInt64(n)
  }

  ghost predicate ValueParts(raw: string, v: Value, pre: string, text: string, rest: string) {
    raw == pre + (text + rest) && AllSpace(pre) && SpellsValue(text, v) && Remark(rest)
  }

  /** The right-hand side says v: its text amid space, perhaps with a comment. */
  ghost predicate SaysValue(raw: string, v: Value) {
    exists pre, text, rest :: ValueParts(raw, v, pre, text, rest)
  }

  // --------------------------------------------------------- strings and lists

  lemma {:induction false} ScanGivesEscape(s: string)
    requires Scan(s).Ok?
    ensures s == Escape(Scan(s).value.0) + ("\"" + Scan(s).value.1)
    decreases |s|
  {
    if s[0] == '"' {
      assert s == [s[0]] + s[1..];
    } else {
      var k := if s[0] == '\\' then 2 else 1;
      ScanGivesEscape(s[k..]);
      var (v, rest) := Scan(s[k..]).value;
      assert s == s[..k] + s[k..];
      assert Scan(s).value.0[1..] == v;
      EscapePrepends(s[k - 1], v);
      assert s[..k] == if k == 2 then ['\\', s[1]] else [s[0]];
      Assoc(s[..k], Escape(v), "\"" + rest);
    }
  }

  lemma EscapePrepends(c: char, v: string)
    ensures Escape([c] + v) == (if c == '\\' || c == '"' then ['\\', c] else [c]) + Escape(v)
  {
    assert ([c] + v)[1..] == v;
  }

  /** A string is scanned exactly from its escaped text and a closing quote. */
  lemma ScanReads(text: string, s: string, rest: string)
    ensures StartsWith(text, '"') && Scan(text[1..]) == Ok((s, rest))
            <==> exists item :: SpellsString(item, s) && text == item + rest
  {
    var item := "\"" + Escape(s) + "\"";
    if StartsWith(text, '"') && Scan(text[1..]) == Ok((s, rest)) {
      ScanGivesEscape(text[1..]);
      assert text == "\"" + text[1..];
      assert text == item + rest;
      assert SpellsString(item, s);
    }
    if text == item + rest {
      ScanOfEscape(s, rest);
      assert text[1..] == Escape(s) + "\"" + rest;
    }
  }

  lemma {:induction false} BlanksDropped(pre: string, t: string)
    requires Blanks(pre) && (t != "" ==> t[0] != ' ' && t[0] != '\t')
    ensures DropBlanks(pre + t) == t
  {
    if pre == "" {
      assert pre + t == t;
    } else {
      assert (pre + t)[1..] == pre[1..] + t;
      BlanksDropped(pre[1..], t);
    }
  }

  lemma {:induction false} BlanksBefore(s: string) returns (pre: string)
    ensures Blanks(pre) && s == pre + DropBlanks(s)
    ensures DropBlanks(s) != "" ==> DropBlanks(s)[0] != ' ' && DropBlanks(s)[0] != '\t'
  {
    pre := "";
    if s != "" && IsBlank(s[0]) {
      pre := BlanksBefore(s[1..]);
      assert s == [s[0]] + s[1..];
      assert s == [s[0]] + pre + DropBlanks(s[1..]);
      pre := [s[0]] + pre;
    }
  }

  lemma {:induction false} ItemsSound(s: string, first: bool) returns (body: string)
    requires Items(s, first).Ok?
    ensures var (l, rest) := Items(s, first).value;
            s == body + ("]" + rest) && if first then Elements(body, l) else Follow(body, l)
    decreases |s|, 2
  {
    var (l, rest) := Items(s, first).value;
    var t := DropBlanks(s);
    var pre := BlanksBefore(s);
    if t[0] == ']' {
      body := pre;
      assert t == "]" + rest;
    } else if first {
      body := OpenedSound(pre, t);
    } else {
      var u := DropBlanks(t[1..]);
      var gap := BlanksBefore(t[1..]);
      var inner := OpenedSound(gap, u);
      body := pre + ("," + inner);
      assert Separates(body, l, pre, inner);
      assert t == "," + t[1..];
      Assoc(",", inner, "]" + rest);
      Assoc(pre, "," + inner, "]" + rest);
    }
  }

  /** Elements behind blanks. */
  lemma {:induction false} OpenedSound(pre: string, t: string) returns (body: string)
    requires Blanks(pre) && t != "" && Element(t).Ok?
    ensures var (l, rest) := Element(t).value; pre + t == body + ("]" + rest) && l != [] && Elements(body, l)
    decreases |t|, 1
  {
    var (l, rest) := Element(t).value;
    var item, more := ElementSound(t);
    body := pre + (item + more);
    Assoc(item, more, "]" + rest);
    Assoc(pre, item + more, "]" + rest);
    assert Begins(body, l, pre, item, more);
  }

  lemma {:induction false} ElementSound(t: string) returns (item: string, more: string)
    requires t != "" && Element(t).Ok?
    ensures var (l, rest) := Element(t).value;
            && l != [] && SpellsString(item, l[0]) && Follow(more, l[1..])
            && t == item + (more + ("]" + rest))
    decreases |t|, 0
  {
    var (s, after) := Scan(t[1..]).value;
    var (l, rest) := Element(t).value;
    ScanReads(t, s, after);
    item :| SpellsString(item, s) && t == item + after;
    more := ItemsSound(after, false);
    assert l == [s] + Items(after, false).value.0;
  }

  lemma {:induction false} ElementComplete(item: string, more: string, l: seq<string>, rest: string)
    requires l != [] && SpellsString(item, l[0]) && Follow(more, l[1..])
    ensures StartsWith(item, '"') && Element(item + (more + ("]" + rest))) == Ok((l, rest))
    decreases |l|, 0
  {
    var after := more + ("]" + rest);
    ScanReads(item + after, l[0], after);
    FollowComplete(more, l[1..], rest);
    assert l == [l[0]] + l[1..];
  }

  lemma {:induction false} ElementsComplete(body: string, l: seq<string>, rest: string)
    requires Elements(body, l)
    ensures Items(body + ("]" + rest), true) == Ok((l, rest))
    decreases |l|, 1
  {
    if l == [] {
      BlanksDropped(body, "]" + rest);
      assert ("]" + rest)[1..] == rest;
    } else {
      var pre, item, more :| Begins(body, l, pre, item, more);
      ElementComplete(item, more, l, rest);
      var t := item + (more + ("]" + rest));
      assert body + ("]" + rest) == pre + t;
      BlanksDropped(pre, t);
    }
  }

  lemma {:induction false} FollowComplete(body: string, l: seq<string>, rest: string)
    requires Follow(body, l)
    ensures Items(body + ("]" + rest), false) == Ok((l, rest))
    decreases |l|, 3
  {
    if l == [] {
      BlanksDropped(body, "]" + rest);
      assert ("]" + rest)[1..] == rest;
    } else {
      var pre, inner :| Separates(body, l, pre, inner);
      ElementsComplete(inner, l, rest);
      var t := "," + (inner + ("]" + rest));
      assert body + ("]" + rest) == pre + t;
      BlanksDropped(pre, t);
      assert t[1..] == inner + ("]" + rest);
    }
  }

  lemma ParsedListIsSpelled(text: string, l: seq<string>, rest: string) returns (list: string)
    requires StartsWith(text, '[') && Items(text[1..], true) == Ok((l, rest))
    ensures SpellsList(list, l) && text == list + rest
  {
    var body := ItemsSound(text[1..], true);
    list := "[" + body + "]";
    assert text == "[" + text[1..];
    Assoc("[", body, "]" + rest);
    Assoc("[" + body, "]", rest);
  }

  lemma SpelledListParses(list: string, l: seq<string>, rest: string)
    requires SpellsList(list, l)
    ensures StartsWith(list, '[') && Items((list + rest)[1..], true) == Ok((l, rest))
  {
    var body :| list == "[" + body + "]" && Elements(body, l);
    ElementsComplete(body, l, rest);
    assert (list + rest)[1..] == body + ("]" + rest);
  }

  /** A list is read exactly from its text between brackets. */
  lemma ItemsRead(text: string, l: seq<string>, rest: string)
    ensures StartsWith(text, '[') && Items(text[1..], true) == Ok((l, rest))
            <==> exists list :: SpellsList(list, l) && text == list + rest
  {
    if StartsWith(text, '[') && Items(text[1..], true) == Ok((l, rest)) {
      var list := ParsedListIsSpelled(text, l, rest);
    }
    if exists list :: SpellsList(list, l) && text == list + rest {
      var list :| SpellsList(list, l) && text == list + rest;
      SpelledListParses(list, l, rest);
      assert text[0] == list[0];
    }
  }

  // ------------------------------------------------------------ the value rule

  lemma SpeltValueIsTrimmed(text: string, v: Value)
    requires SpellsValue(text, v)
    ensures text != "" && !IsSpace(text[0]) && !IsSpace(text[|text| - 1])
    ensures match v
            case Str(_) => text[0] == '"'
            case List(_) => text[0] == '['
            case Num(_) => text[0] != '"' && text[0] != '[' && text[0] != '#' && '#' !in text
  {
    if v.Num? {
      var digits :| SpelledBy(digits, text, v.n);
      assert text[0] == '+' || text[0] == '-' || text[0] == digits[0];
      assert text[|text| - 1] == digits[|digits| - 1];
    }
  }

  lemma TrimsBetween(pre: string, m: string, z: string)
    requires AllSpace(pre) && AllSpace(z) && Trimmed(m)
    ensures TrimSpace(pre + m + z) == m
  {
    var raw, i, j := pre + m + z, |pre|, |pre + m|;
    assert raw[..i] == pre;
    assert raw[i..j] == m;
    assert raw[j..] == z;
    TrimSpaceIs(raw, i, j);
  }

  /** The text a trimmed right-hand side leaves. */
  lemma SaidIsTrimmed(raw: string, v: Value) returns (text: string, rest: string)
    requires SaysValue(raw, v)
    ensures TrimSpace(raw) == text + rest && SpellsValue(text, v) && Remark(rest)
    ensures rest != "" ==> '#' in rest
  {
    var pre, text', rest' :| ValueParts(raw, v, pre, text', rest');
    var t, z := RemarkEnds(rest');
    text, rest := text', t;
    SpeltValueIsTrimmed(text, v);
    Rebracket(pre, text, t, z);
    TrimsBetween(pre, text + t, z);
  }

  lemma Rebracket(pre: string, text: string, t: string, z: string)
    ensures pre + (text + (t + z)) == pre + (text + t) + z
  {}

  lemma BareSaid(text: string, rest: string, n: int)
    requires SpellsValue(text, Num(n)) && Remark(rest) && (rest != "" ==> '#' in rest)
    ensures BeforeComment(text + rest) == text
  {
    var v := text + rest;
    SpeltValueIsTrimmed(text, Num(n));
    CutAtCuts(v, '#');
    if rest == "" {
      assert v == text;
    } else {
      var i :| RemarkFrom(rest, i);
      SpaceOutside(rest, i, |rest|);
      var space := rest[..i];
      var (a, b) := CutAt(v, '#').value;
      assert v == (text + space) + ['#'] + rest[i + 1..];
      CutIsUnique('#', a, b, text + space, rest[i + 1..]);
      assert a[..0] == "" && a[0..|text|] == text && a[|text|..] == space;
      assert Trims(a, 0, |text|);
      TrimSpaceIs(a, 0, |text|);
    }
  }

  lemma SaidIsParsed(raw: string, v: Value)
    requires SaysValue(raw, v)
    ensures ParsedValue(raw) == Ok(v)
  {
    var text, rest := SaidIsTrimmed(raw, v);
    var t := text + rest;
    SpeltValueIsTrimmed(text, v);
    OnlyCommentIsRemark(rest);
    match v
    case Str(s) => ScanReads(t, s, rest);
    case List(l) => ItemsRead(t, l, rest);
    case Num(n) =>
      BareSaid(text, rest, n);
      ParseIntReads(text, n);
  }

  lemma SaysAmidSpace(raw: string, v: Value, pre: string, text: string, rest: string, z: string)
    requires raw == pre + (text + rest) + z && AllSpace(pre) && AllSpace(z) && SpellsValue(text, v) && Remark(rest)
    ensures SaysValue(raw, v)
  {
    SpaceIsRemark(z);
    RemarkGrows(rest, z);
    assert raw == pre + (text + (rest + z));
    assert ValueParts(raw, v, pre, text, rest + z);
  }

  lemma Rejoin(a: string, i: nat, j: nat, b: string)
    requires i <= j <= |a|
    ensures a + ['#'] + b == a[..i] + (a[i..j] + (a[j..] + ['#'] + b))
  {}

  lemma CommentIsRemark(y: string, b: string)
    requires AllSpace(y)
    ensures Remark(y + ['#'] + b)
  {
    var tail := y + ['#'] + b;
    assert tail[..|y|] == y;
    assert RemarkFrom(tail, |y|);
  }

  /** What BeforeComment leaves, and what it drops. */
  lemma BareParts(v: string) returns (x: string, rest: string)
    ensures v == x + (BeforeComment(v) + rest) && AllSpace(x) && Remark(rest)
  {
    CutAtCuts(v, '#');
    if CutAt(v, '#').None? {
      x, rest := "", "";
      SpaceIsRemark("");
    } else {
      var (a, b) := CutAt(v, '#').value;
      TrimSpaceCuts(a);
      var i, j :| Trims(a, i, j) && TrimSpace(a) == a[i..j];
      x, rest := a[..i], a[j..] + ['#'] + b;
      CommentIsRemark(a[j..], b);
      Rejoin(a, i, j, b);
    }
  }

  lemma ParsedBareIsSaid(raw: string, pre: string, v: string, z: string, n: int)
    requires raw == pre + v + z && AllSpace(pre) && AllSpace(z) && ParseInt(BeforeComment(v)) == Some(n)
    ensures SaysValue(raw, Num(n))
  {
    var text := BeforeComment(v);
    ParseIntReads(text, n);
    var x, rest := BareParts(v);
    assert raw == (pre + x) + (text + rest) + z;
    SaysAmidSpace(raw, Num(n), pre + x, text, rest, z);
  }

  lemma ParsedIsSaid(raw: string, v: Value)
    requires ParsedValue(raw) == Ok(v)
    ensures SaysValue(raw, v)
  {
    TrimSpaceCuts(raw);
    var i, j :| Trims(raw, i, j) && TrimSpace(raw) == raw[i..j];
    var t := raw[i..j];
    assert raw == raw[..i] + t + raw[j..];
    match v
    case Str(s) =>
      var rest := Scan(t[1..]).value.1;
      ScanReads(t, s, rest);
      var text :| SpellsString(text, s) && t == text + rest;
      OnlyCommentIsRemark(rest);
      SaysAmidSpace(raw, v, raw[..i], text, rest, raw[j..]);
    case List(l) =>
      var rest := Items(t[1..], true).value.1;
      ItemsRead(t, l, rest);
      var text :| SpellsList(text, l) && t == text + rest;
      OnlyCommentIsRemark(rest);
      SaysAmidSpace(raw, v, raw[..i], text, rest, raw[j..]);
    case Num(n) =>
      ParsedBareIsSaid(raw, raw[..i], t, raw[j..], n);
  }

  /** A value is parsed exactly from a right-hand side that says it. */
  lemma ValueReads(raw: string, v: Value)
    ensures ParsedValue(raw) == Ok(v) <==> SaysValue(raw, v)
  {
    if SaysValue(raw, v) { SaidIsParsed(raw, v); }
    if ParsedValue(raw) == Ok(v) { ParsedIsSaid(raw, v); }
  }

  // -------------------------------------------------------------- value faults

  ghost predicate BreaksOff(raw: string, pre: string, s: string, post: string) {
    && AllSpace(pre) && AllSpace(post)
    && (raw == pre + ("\"" + Escape(s)) + post || raw == pre + ("\"" + Escape(s) + "\\") + post)
  }

  ghost predicate Misescapes(raw: string, pre: string, s: string, c: char, post: string) {
    AllSpace(pre) && c != '"' && c != '\\' && raw == pre + ("\"" + Escape(s) + ['\\', c]) + post
  }

  ghost predicate TrailedBy(raw: string, v: Value, pre: string, text: string, rest: string) {
    AllSpace(pre) && !v.Num? && SpellsValue(text, v) && !Remark(rest) && raw == pre + (text + rest)
  }

  /** What is wrong with a right-hand side. */
  ghost predicate ValueFault(raw: string, e: ValueError) {
    match e
    case EmptyValue => Remark(raw)
    case NotAValue => !Remark(raw) && !Opens(raw, '"') && !Opens(raw, '[')
    case TrailingContent => exists v, pre, text, rest :: TrailedBy(raw, v, pre, text, rest)
    case BadString(UnterminatedString) => exists pre, s, post :: BreaksOff(raw, pre, s, post)
    case BadString(UnsupportedEscape(c)) => exists pre, s, post :: Misescapes(raw, pre, s, c, post)
    case BadArray(_) => Opens(raw, '[')
  }

  ghost predicate Broken(text: string, e: ScanError, s: string, post: string) {
    match e
    case UnterminatedString => text == Escape(s) || text == Escape(s) + "\\"
    case UnsupportedEscape(c) => c != '"' && c != '\\' && text == Escape(s) + ['\\', c] + post
  }

  lemma BrokenBehind(head: string, c: char, text: string, e: ScanError, s: string, post: string)
    requires Broken(text, e, s, post) && head == if c == '\\' || c == '"' then ['\\', c] else [c]
    ensures Broken(head + text, e, [c] + s, post)
  {
    EscapePrepends(c, s);
    if e.UnterminatedString? {
      Assoc(head, Escape(s), "\\");
    } else {
      Assoc(head, Escape(s), ['\\', e.c]);
      Assoc(head, Escape(s) + ['\\', e.c], post);
    }
  }

  lemma {:induction false} ScanBreaks(text: string) returns (s: string, post: string)
    requires Scan(text).Err?
    ensures Broken(text, Scan(text).error, s, post)
    decreases |text|
  {
    s, post := "", "";
    if |text| == 1 && text[0] == '\\' {
      assert text == "" + "\\";
    } else if text != "" {
      var k := if text[0] == '\\' then 2 else 1;
      assert text == text[..k] + text[k..];
      if k == 2 && text[1] != '"' && text[1] != '\\' {
        post := text[2..];
      } else {
        s, post := ScanBreaks(text[k..]);
        BrokenBehind(text[..k], text[k - 1], text[k..], Scan(text).error, s, post);
        s := [text[k - 1]] + s;
      }
    }
  }

  lemma StringFault(raw: string, pre: string, t: string, z: string)
    requires raw == pre + t + z && AllSpace(pre) && AllSpace(z)
    requires StartsWith(t, '"') && Scan(t[1..]).Err?
    ensures ValueFault(raw, BadString(Scan(t[1..]).error))
  {
    var s, post := ScanBreaks(t[1..]);
    assert t == "\"" + t[1..];
    match Scan(t[1..]).error
    case UnterminatedString =>
      Assoc("\"", Escape(s), "\\");
      assert BreaksOff(raw, pre, s, z);
    case UnsupportedEscape(c) =>
      Assoc("\"", Escape(s), ['\\', c]);
      Assoc("\"", Escape(s) + ['\\', c], post);
      var head := "\"" + Escape(s) + ['\\', c];
      assert t == head + post;
      Assoc(pre, head, post);
      Assoc(pre + head, post, z);
      assert Misescapes(raw, pre, s, c, post + z);
  }

  lemma RemarkCut(s: string, z: string)
    requires AllSpace(z) && Remark(s + z)
    ensures Remark(s)
  {
    var i :| RemarkFrom(s + z, i);
    SpaceOutside(s + z, i, |s + z|);
    if i < |s| {
      assert (s + z)[..i] == s[..i];
      assert RemarkFrom(s, i);
    } else {
      assert forall k :: 0 <= k < |s| ==> s[k] == (s + z)[k];
      SpaceIsRemark(s);
    }
  }

  lemma TrailingFault(raw: string, v: Value, pre: string, text: string, rest: string, z: string)
    requires raw == pre + (text + rest) + z && AllSpace(pre) && AllSpace(z)
    requires !v.Num? && SpellsValue(text, v) && !OnlyComment(rest)
    ensures ValueFault(raw, TrailingContent)
  {
    OnlyCommentIsRemark(rest);
    if Remark(rest + z) { RemarkCut(rest, z); }
    assert raw == pre + (text + (rest + z));
    assert TrailedBy(raw, v, pre, text, rest + z);
  }

  /** Only a remark leaves nothing before its comment. */
  lemma EmptyIsRemark(raw: string, i: nat, j: nat)
    requires Trims(raw, i, j) && BeforeComment(raw[i..j]) == ""
    ensures Remark(raw)
  {
    var v := raw[i..j];
    RemarkOfTrimmed(raw, i, j);
    CutAtCuts(v, '#');
    if CutAt(v, '#').Some? {
      var (a, b) := CutAt(v, '#').value;
      TrimSpaceCuts(a);
    }
  }

  /** A right-hand side is refused for what is wrong with it. */
  lemma ValueFaults(raw: string)
    requires ParsedValue(raw).Err?
    ensures ValueFault(raw, ParsedValue(raw).error)
  {
    TrimSpaceCuts(raw);
    var i, j :| Trims(raw, i, j) && TrimSpace(raw) == raw[i..j];
    var pre, t, z := raw[..i], raw[i..j], raw[j..];
    assert raw == pre + t + z;
    OpeningOfTrimmed(raw, i, j, '"');
    OpeningOfTrimmed(raw, i, j, '[');
    RemarkOfTrimmed(raw, i, j);
    if StartsWith(t, '"') {
      if Scan(t[1..]).Err? {
        StringFault(raw, pre, t, z);
      } else {
        var (s, rest) := Scan(t[1..]).value;
        ScanReads(t, s, rest);
        var text :| SpellsString(text, s) && t == text + rest;
        TrailingFault(raw, Str(s), pre, text, rest, z);
      }
    } else if StartsWith(t, '[') {
      if Items(t[1..], true).Ok? {
        var (l, rest) := Items(t[1..], true).value;
        ItemsRead(t, l, rest);
        var text :| SpellsList(text, l) && t == text + rest;
        TrailingFault(raw, List(l), pre, text, rest, z);
      }
    } else if BeforeComment(t) == "" {
      EmptyIsRemark(raw, i, j);
    } else {
      NoRemarkBare(t);
    }
  }

  lemma NoRemarkBare(t: string)
    requires BeforeComment(t) != ""
    ensures t != "" && t[0] != '#'
  {}

  // ------------------------------------------------------------- the line rule

  ghost predicate Cuts(raw: string, left: string, right: string) {
    raw == left + "=" + right && '=' !in left
  }

  ghost predicate Pads(s: string, pre: string, m: string, post: string) {
    s == pre + m + post && AllSpace(pre) && AllSpace(post) && Trimmed(m)
  }

  /** m amid space. */
  ghost predicate Padded(s: string, m: string) {
    exists pre, post :: Pads(s, pre, m, post)
  }

  lemma PaddedIsTrimmed(s: string, m: string)
    ensures Padded(s, m) <==> TrimSpace(s) == m
  {
    if Padded(s, m) {
      var pre, post :| Pads(s, pre, m, post);
      assert s[..|pre|] == pre && s[|pre|..|pre + m|] == m && s[|pre + m|..] == post;
      assert Trims(s, |pre|, |pre + m|);
      TrimSpaceIs(s, |pre|, |pre + m|);
    }
    TrimSpaceCuts(s);
    var i, j :| Trims(s, i, j) && TrimSpace(s) == s[i..j];
    assert s == s[..i] + s[i..j] + s[j..];
    assert Pads(s, s[..i], s[i..j], s[j..]);
  }

  /** The letters of a bare name, and its other characters. */
  const LOWER: set<char> :=
    {'a', 'b', 'c', 'd', 'e', 'f', 'g', 'h', 'i', 'j', 'k', 'l', 'm',
     'n', 'o', 'p', 'q', 'r', 's', 't', 'u', 'v', 'w', 'x', 'y', 'z'}
  const UPPER: set<char> :=
    {'A', 'B', 'C', 'D', 'E', 'F', 'G', 'H', 'I', 'J', 'K', 'L', 'M',
     'N', 'O', 'P', 'Q', 'R', 'S', 'T', 'U', 'V', 'W', 'X', 'Y', 'Z'}
  const OTHERS: set<char> := {'0', '1', '2', '3', '4', '5', '6', '7', '8', '9', '_', '-'}

  ghost predicate BareName(key: string) {
    key != "" && forall c :: c in key ==> c in LOWER || c in UPPER || c in OTHERS
  }

  ghost predicate SettingParts(raw: string, key: string, v: Value, left: string, right: string) {
    Cuts(raw, left, right) && Padded(left, key) && SaysValue(right, v)
  }

  /** The line sets key to v. */
  ghost predicate Sets(raw: string, key: string, v: Value) {
    BareName(key) && exists left, right :: SettingParts(raw, key, v, left, right)
  }

  /** The line opens a table. */
  ghost predicate Heading(raw: string) {
    Opens(raw, '[')
  }

  lemma BareKeyIs(key: string)
    ensures IsBareKey(key) <==> BareName(key)
  {
    forall c ensures IsBareChar(c) <==> c in LOWER || c in UPPER || c in OTHERS {
      LowerIs(c);
      UpperIs(c);
    }
    assert forall i :: 0 <= i < |key| ==> key[i] in key;
  }

  lemma LowerIs(c: char)
    ensures c in LOWER <==> 'a' <= c <= 'z'
  {}

  lemma UpperIs(c: char)
    ensures c in UPPER <==> 'A' <= c <= 'Z'
  {}

  lemma SpaceJoins(a: string, b: string)
    requires AllSpace(a) && AllSpace(b)
    ensures AllSpace(a + b)
  {}

  /** Outer space is trimmed away. */
  lemma TrimIgnores(a: string, m: string, z: string)
    requires AllSpace(a) && AllSpace(z)
    ensures TrimSpace(a + m + z) == TrimSpace(m)
  {
    TrimSpaceCuts(m);
    var i, j :| Trims(m, i, j) && TrimSpace(m) == m[i..j];
    var s := a + m + z;
    var i', j' := |a| + i, |a| + j;
    assert s[..i'] == a + m[..i];
    assert s[i'..j'] == m[i..j];
    assert s[j'..] == m[j..] + z;
    SpaceJoins(a, m[..i]);
    SpaceJoins(m[j..], z);
    TrimSpaceIs(s, i', j');
  }

  lemma Regroup3(a: string, k: string, v: string, z: string)
    ensures a + (k + ['='] + v) + z == (a + k) + ['='] + (v + z)
  {}

  lemma TrimIgnoresLeft(a: string, m: string)
    requires AllSpace(a)
    ensures TrimSpace(a + m) == TrimSpace(m)
  {
    TrimIgnores(a, m, "");
    assert a + m + "" == a + m;
  }

  lemma TrimIgnoresRight(m: string, z: string)
    requires AllSpace(z)
    ensures TrimSpace(m + z) == TrimSpace(m)
  {
    TrimIgnores("", m, z);
    assert "" + m + z == m + z;
  }

  /** The trimmed line is cut where the line is. */
  lemma CutOfTrimmed(raw: string, left: string, right: string, a: string, line: string, z: string)
    requires Cuts(raw, left, right) && raw == a + line + z && AllSpace(a) && AllSpace(z) && '=' in line
    ensures var cut := CutAt(line, '=');
            && cut.Some? && TrimSpace(cut.value.0) == TrimSpace(left) && TrimSpace(cut.value.1) == TrimSpace(right)
  {
    CutAtCuts(line, '=');
    var (k, v) := CutAt(line, '=').value;
    Regroup3(a, k, v, z);
    CutIsUnique('=', left, right, a + k, v + z);
    TrimIgnoresLeft(a, k);
    TrimIgnoresRight(v, z);
  }

  lemma NoCutOfTrimmed(raw: string)
    ensures CutAt(TrimSpace(raw), '=').None? <==> '=' !in raw
  {
    TrimSpaceCuts(raw);
    var i, j :| Trims(raw, i, j) && TrimSpace(raw) == raw[i..j];
    SpaceOutside(raw, i, j);
    assert raw == raw[..i] + raw[i..j] + raw[j..];
    CutAtCuts(raw[i..j], '=');
  }

  /** What the parser makes of a line, told of the line itself. */
  function LineOf(left: string, right: string): Line {
    var key := TrimSpace(left);
    if !IsBareKey(key) then Bad(MalformedKey)
    else match ParsedValue(right) case Err(e) => Bad(BadValue(e)) case Ok(v) => Setting(key, v)
  }

  lemma LineKinds(raw: string)
    ensures ParsedLine(raw).Blank? <==> Remark(raw)
    ensures ParsedLine(raw) == Bad(TableUnsupported) <==> Heading(raw)
    ensures ParsedLine(raw) == Bad(MissingEquals) <==> !Remark(raw) && !Heading(raw) && '=' !in raw
  {
    TrimSpaceCuts(raw);
    var i, j :| Trims(raw, i, j) && TrimSpace(raw) == raw[i..j];
    RemarkOfTrimmed(raw, i, j);
    OpeningOfTrimmed(raw, i, j, '[');
    NoCutOfTrimmed(raw);
  }

  lemma CutInside(raw: string, left: string, right: string, i: nat, j: nat)
    requires Trims(raw, i, j) && Cuts(raw, left, right)
    ensures var cut := CutAt(raw[i..j], '=');
            && cut.Some? && TrimSpace(cut.value.0) == TrimSpace(left) && TrimSpace(cut.value.1) == TrimSpace(right)
  {
    assert raw[|left|] == '=';
    SpaceOutside(raw, i, j);
    assert raw[i..j][|left| - i] == '=';
    assert raw == raw[..i] + raw[i..j] + raw[j..];
    CutOfTrimmed(raw, left, right, raw[..i], raw[i..j], raw[j..]);
  }

  lemma SameValue(a: string, b: string)
    requires TrimSpace(a) == TrimSpace(b)
    ensures ParsedValue(a) == ParsedValue(b)
  {}

  /** A line that is cut is read by its parts. */
  lemma LineFromParts(raw: string, k: string, v: string)
    requires ParsedLine(raw) != Blank && ParsedLine(raw) != Bad(TableUnsupported)
    requires CutAt(TrimSpace(raw), '=') == Some((k, v))
    ensures ParsedLine(raw) == LineOf(k, v)
  {}

  lemma CutLine(raw: string, left: string, right: string)
    requires !Remark(raw) && !Heading(raw) && Cuts(raw, left, right)
    ensures ParsedLine(raw) == LineOf(left, right)
  {
    LineKinds(raw);
    TrimSpaceCuts(raw);
    var i, j :| Trims(raw, i, j) && TrimSpace(raw) == raw[i..j];
    CutInside(raw, left, right, i, j);
    var (k, v) := CutAt(raw[i..j], '=').value;
    LineFromParts(raw, k, v);
    SameValue(v, right);
  }

  lemma NamedLine(raw: string, left: string, right: string, key: string)
    requires Cuts(raw, left, right) && Padded(left, key) && BareName(key)
    ensures !Remark(raw) && !Heading(raw)
  {
    var pre, post :| Pads(left, pre, key, post);
    assert key[0] in key && !IsSpace(key[0]);
    assert raw[|pre|] == key[0] && raw[..|pre|] == pre;
    SpaceOutside(raw, |pre|, |raw|);
    assert IsBareChar(key[0]) by { BareKeyIs(key); }
    if Remark(raw) {
      var k :| RemarkFrom(raw, k);
      SpaceOutside(raw, k, |raw|);
    }
    if Heading(raw) {
      var k :| OpensAt(raw, k, '[');
      SpaceOutside(raw, k, |raw|);
    }
  }

  /** A line makes a setting exactly when it says so. */
  lemma LineSets(raw: string, key: string, v: Value)
    ensures ParsedLine(raw) == Setting(key, v) <==> Sets(raw, key, v)
  {
    if Sets(raw, key, v) {
      var left, right :| SettingParts(raw, key, v, left, right);
      NamedLine(raw, left, right, key);
      CutLine(raw, left, right);
      PaddedIsTrimmed(left, key);
      BareKeyIs(key);
      ValueReads(right, v);
    }
    if ParsedLine(raw) == Setting(key, v) {
      LineKinds(raw);
      CutAtCuts(raw, '=');
      var (left, right) := CutAt(raw, '=').value;
      assert Cuts(raw, left, right);
      CutLine(raw, left, right);
      PaddedIsTrimmed(left, key);
      BareKeyIs(key);
      ValueReads(right, v);
      assert SettingParts(raw, key, v, left, right);
    }
  }

  lemma SaysValueGrows(raw: string, v: Value, comment: string)
    requires SaysValue(raw, v) && Remark(comment)
    ensures SaysValue(raw + comment, v)
  {
    var pre, text, rest :| ValueParts(raw, v, pre, text, rest);
    RemarkGrows(rest, comment);
    assert raw + comment == pre + (text + (rest + comment));
    assert ValueParts(raw + comment, v, pre, text, rest + comment);
  }

  lemma SetsGrows(raw: string, key: string, v: Value, comment: string)
    requires Sets(raw, key, v) && Remark(comment)
    ensures Sets(raw + comment, key, v)
  {
    var left, right :| SettingParts(raw, key, v, left, right);
    SaysValueGrows(right, v, comment);
    assert raw + comment == left + "=" + (right + comment);
    assert SettingParts(raw + comment, key, v, left, right + comment);
  }

  /** A comment may follow any setting. */
  lemma CommentEndsLine(raw: string, key: string, v: Value, comment: string)
    requires ParsedLine(raw) == Setting(key, v) && Remark(comment)
    ensures ParsedLine(raw + comment) == Setting(key, v)
  {
    LineSets(raw, key, v);
    SetsGrows(raw, key, v, comment);
    LineSets(raw + comment, key, v);
  }

  // ------------------------------------------------------------- the file rule

  /** A text's lines are what a newline joins to it. */
  lemma LinesAre(text: string, lines: seq<string>)
    ensures Split(text) == lines <==> lines != [] && Lines(lines) && Join(lines, '\n') == text
  {
    SplitGivesLines(text);
    JoinOfSplit(text);
    if lines != [] && Lines(lines) { SplitOfJoin(lines); }
  }

  /** The settings of an iris.toml and the form each takes. */
  ghost predicate Takes(key: string, v: Value) {
    || (&& key in {"socket", "host", "token", "pg_dsn", "objects_path", "workspace", "tcp", "tls_cert", "tls_key"}
        && v.Str?)
    || (key in {"retain", "journal_partition_rows"} && v.Num?)
    || (key == "catalogs" && v.List?)
  }

  ghost predicate Recognized(key: string) {
    exists v :: Takes(key, v)
  }

  lemma KindsAre(key: string, v: Value)
    ensures KindOf(key).Some? <==> Recognized(key)
    ensures Takes(key, v) <==> KindOf(key).Some? && HasKind(v, KindOf(key).value)
  {
    match KindOf(key)
    case None =>
    case Some(StringKind) => assert Takes(key, Str(""));
    case Some(IntKind) => assert Takes(key, Num(0));
    case Some(ListKind) => assert Takes(key, List([]));
  }

  /** The line says something the file may hold. */
  ghost predicate Good(raw: string) {
    Remark(raw) || exists key, v :: Sets(raw, key, v) && (Recognized(key) ==> Takes(key, v))
  }

  lemma GoodApplies(t: Toml, raw: string)
    ensures ApplyLine(t, raw).Ok? <==> Good(raw)
  {
    LineKinds(raw);
    match ParsedLine(raw)
    case Blank =>
    case Setting(key, v) =>
      LineSets(raw, key, v);
      KindsAre(key, v);
      if Good(raw) { OneSaying(raw, key, v); }
    case Bad(_) =>
      if Good(raw) {
        var key, v :| Sets(raw, key, v);
        LineSets(raw, key, v);
      }
  }

  lemma OneSaying(raw: string, key: string, v: Value)
    requires Sets(raw, key, v)
    ensures !Remark(raw) && forall key', v' :: Sets(raw, key', v') ==> key' == key && v' == v
  {
    LineKinds(raw);
    LineSets(raw, key, v);
    forall key', v' | Sets(raw, key', v') ensures key' == key && v' == v { LineSets(raw, key', v'); }
  }

  /** A file is accepted exactly when all its lines are good. */
  lemma {:induction false} GoodLinesParse(lines: seq<string>)
    ensures ParsedLines(lines).Ok? <==> forall l :: l in lines ==> Good(l)
  {
    if lines != [] {
      var init, last := lines[..|lines| - 1], lines[|lines| - 1];
      GoodLinesParse(init);
      if ParsedLines(init).Ok? { GoodApplies(ParsedLines(init).value, last); }
      assert lines == init + [last];
    }
  }

  /** Line i is the last to set key, and sets it to v. */
  ghost predicate LastSets(lines: seq<string>, key: string, v: Value, i: int) {
    && 0 <= i < |lines| && Sets(lines[i], key, v)
    && forall j, w :: i < j < |lines| ==> !Sets(lines[j], key, w)
  }

  ghost predicate SetLast(lines: seq<string>, key: string, v: Value) {
    exists i :: LastSets(lines, key, v, i)
  }

  ghost predicate Holds(lines: seq<string>, layer: map<string, Value>, key: string, v: Value) {
    (key in layer && layer[key] == v) <==> (Recognized(key) && SetLast(lines, key, v))
  }

  /** The layer holds each recognized key as the last line setting it does. */
  ghost predicate LayerSays(lines: seq<string>, layer: map<string, Value>) {
    forall key, v :: Holds(lines, layer, key, v)
  }

  lemma LastGrows(lines: seq<string>, raw: string, key: string, v: Value)
    ensures SetLast(lines + [raw], key, v)
            <==> Sets(raw, key, v) || (SetLast(lines, key, v) && forall w :: !Sets(raw, key, w))
  {
    var more := lines + [raw];
    if SetLast(more, key, v) {
      var i :| LastSets(more, key, v, i);
      if i < |lines| {
        assert more[|lines|] == raw;
        assert forall j :: i < j < |lines| ==> lines[j] == more[j];
        assert LastSets(lines, key, v, i);
      }
    }
    if Sets(raw, key, v) {
      assert LastSets(more, key, v, |lines|);
    } else if SetLast(lines, key, v) && forall w :: !Sets(raw, key, w) {
      var i :| LastSets(lines, key, v, i);
      assert forall j :: i < j < |more| ==> more[j] == if j < |lines| then lines[j] else raw;
      assert LastSets(more, key, v, i);
    }
  }

  lemma HoldsStep(lines: seq<string>, raw: string, t: Toml, key: string, v: Value)
    requires Holds(lines, t.layer, key, v) && ApplyLine(t, raw).Ok?
    ensures Holds(lines + [raw], ApplyLine(t, raw).value.layer, key, v)
  {
    LastGrows(lines, raw, key, v);
    KindsAre(key, v);
    forall w ensures Sets(raw, key, w) <==> ParsedLine(raw) == Setting(key, w) { LineSets(raw, key, w); }
  }

  lemma {:induction false} LayerIs(lines: seq<string>)
    requires ParsedLines(lines).Ok?
    ensures LayerSays(lines, ParsedLines(lines).value.layer)
  {
    if lines != [] {
      var init, last := lines[..|lines| - 1], lines[|lines| - 1];
      LayerIs(init);
      assert lines == init + [last];
      forall key, v ensures Holds(lines, ParsedLines(lines).value.layer, key, v) {
        HoldsStep(init, last, ParsedLines(init).value, key, v);
      }
    }
  }

  /** The line sets a key that is no setting. */
  ghost predicate Ignores(raw: string, key: string) {
    !Recognized(key) && exists v :: Sets(raw, key, v)
  }

  /** keys are what the lines numbered by at set in vain, and no other line does. */
  ghost predicate IgnoredAt(lines: seq<string>, keys: seq<string>, at: seq<int>) {
    && |at| == |keys|
    && (forall n :: 0 <= n < |at| ==> 0 <= at[n] < |lines| && Ignores(lines[at[n]], keys[n]))
    && (forall m, n :: 0 <= m < n < |at| ==> at[m] < at[n])
    && (forall i, key :: 0 <= i < |lines| && Ignores(lines[i], key) ==> i in at)
  }

  lemma IgnoredGrows(lines: seq<string>, raw: string, keys: seq<string>, at: seq<int>, key: string)
    requires IgnoredAt(lines, keys, at) && Ignores(raw, key)
    ensures IgnoredAt(lines + [raw], keys + [key], at + [|lines|])
  {
    var more, at' := lines + [raw], at + [|lines|];
    assert forall n :: 0 <= n < |at| ==> at'[n] == at[n] && more[at[n]] == lines[at[n]];
    forall i, k | 0 <= i < |more| && Ignores(more[i], k) ensures i in at' {
      if i < |lines| { assert more[i] == lines[i]; } else { assert at'[|at|] == i; }
    }
  }

  lemma IgnoredStays(lines: seq<string>, raw: string, keys: seq<string>, at: seq<int>)
    requires IgnoredAt(lines, keys, at) && forall key :: !Ignores(raw, key)
    ensures IgnoredAt(lines + [raw], keys, at)
  {
    var more := lines + [raw];
    forall i, k | 0 <= i < |more| && Ignores(more[i], k) ensures i in at {
      assert i < |lines| ==> more[i] == lines[i];
    }
  }

  lemma {:induction false} IgnoredAre(lines: seq<string>) returns (at: seq<int>)
    requires ParsedLines(lines).Ok?
    ensures IgnoredAt(lines, ParsedLines(lines).value.ignored, at)
  {
    at := [];
    if lines != [] {
      var init, last := lines[..|lines| - 1], lines[|lines| - 1];
      var keys := ParsedLines(init).value.ignored;
      at := IgnoredAre(init);
      assert lines == init + [last];
      IgnoredLine(last);
      var said := ParsedLine(last);
      if said.Setting? && Ignores(last, said.key) {
        KindsAre(said.key, said.value);
        IgnoredGrows(init, last, keys, at, said.key);
        at := at + [|init|];
      } else {
        IgnoredStays(init, last, keys, at);
        if said.Setting? { KindsAre(said.key, said.value); }
      }
    }
  }

  lemma IgnoredLine(raw: string)
    ensures forall key :: Ignores(raw, key) <==>
              ParsedLine(raw).Setting? && ParsedLine(raw).key == key && !Recognized(key)
  {
    if ParsedLine(raw).Setting? { LineSets(raw, ParsedLine(raw).key, ParsedLine(raw).value); }
    forall key, v | Sets(raw, key, v) ensures ParsedLine(raw) == Setting(key, v) { LineSets(raw, key, v); }
  }

  /** The parsed file, told of its lines alone. */
  ghost predicate Reads(lines: seq<string>, t: Toml) {
    LayerSays(lines, t.layer) && exists at :: IgnoredAt(lines, t.ignored, at)
  }

  /** Line n is the first bad one, and e its fault. */
  ghost predicate Faults(lines: seq<string>, n: int, e: LineError) {
    1 <= n <= |lines| && (forall i :: 0 <= i < n - 1 ==> Good(lines[i])) && Fault(lines[n - 1], e)
  }

  ghost predicate MalformedAt(raw: string, left: string, right: string) {
    Cuts(raw, left, right) && forall key :: Padded(left, key) ==> !BareName(key)
  }

  ghost predicate UnreadableAt(raw: string, left: string, right: string, e: ValueError) {
    && Cuts(raw, left, right) && (forall v :: !SaysValue(right, v)) && ValueFault(right, e)
    && exists key :: Padded(left, key) && BareName(key)
  }

  /** What is wrong with a bad line. */
  ghost predicate Fault(raw: string, e: LineError) {
    match e
    case TableUnsupported => Heading(raw)
    case MissingEquals => !Remark(raw) && !Heading(raw) && '=' !in raw
    case MalformedKey => !Remark(raw) && !Heading(raw) && exists left, right :: MalformedAt(raw, left, right)
    case BadValue(v) => exists left, right :: UnreadableAt(raw, left, right, v)
    case WrongKind(key) => Recognized(key) && exists v :: Sets(raw, key, v) && !Takes(key, v)
  }

  lemma BadIsFault(raw: string)
    requires ParsedLine(raw).Bad?
    ensures Fault(raw, ParsedLine(raw).e)
  {
    LineKinds(raw);
    if !Heading(raw) && '=' in raw {
      CutAtCuts(raw, '=');
      var (left, right) := CutAt(raw, '=').value;
      assert Cuts(raw, left, right);
      CutLine(raw, left, right);
      var key := TrimSpace(left);
      PaddedIsTrimmed(left, key);
      BareKeyIs(key);
      if IsBareKey(key) {
        forall v ensures !SaysValue(right, v) { ValueReads(right, v); }
        ValueFaults(right);
        assert UnreadableAt(raw, left, right, ParsedValue(right).error);
      } else {
        forall key' | Padded(left, key') ensures !BareName(key') { PaddedIsTrimmed(left, key'); }
        assert MalformedAt(raw, left, right);
      }
    }
  }

  lemma RefusedIsFault(t: Toml, raw: string)
    requires ApplyLine(t, raw).Err?
    ensures Fault(raw, ApplyLine(t, raw).error)
  {
    if ParsedLine(raw).Bad? {
      BadIsFault(raw);
    } else {
      var (key, v) := (ParsedLine(raw).key, ParsedLine(raw).value);
      LineSets(raw, key, v);
      KindsAre(key, v);
    }
  }

  lemma {:induction false} RefusalFaults(lines: seq<string>)
    requires ParsedLines(lines).Err?
    ensures Faults(lines, ParsedLines(lines).error.line, ParsedLines(lines).error.e)
  {
    var init, last := lines[..|lines| - 1], lines[|lines| - 1];
    assert lines == init + [last];
    if ParsedLines(init).Err? {
      RefusalFaults(init);
    } else {
      GoodLinesParse(init);
      assert forall i :: 0 <= i < |init| ==> init[i] in init;
      RefusedIsFault(ParsedLines(init).value, last);
    }
  }

  /** The parser over the text's lines: accepted exactly when all are good, with what they
      say; refused at the first bad one. */
  lemma FileReads(text: string, lines: seq<string>)
    requires lines != [] && Lines(lines) && Join(lines, '\n') == text
    ensures Parsed(text).Ok? <==> forall l :: l in lines ==> Good(l)
    ensures Parsed(text).Ok? ==> Reads(lines, Parsed(text).value)
    ensures Parsed(text).Err? ==> Faults(lines, Parsed(text).error.line, Parsed(text).error.e)
  {
    LinesAre(text, lines);
    GoodLinesParse(lines);
    if Parsed(text).Ok? {
      LayerIs(lines);
      var at := IgnoredAre(lines);
    } else {
      RefusalFaults(lines);
    }
  }

  // ------------------------------------------------------------------ comments

  /** The result with the lines after the first i counted one further. */
  function Shifted(r: Result<Toml, FileError>, i: nat): Result<Toml, FileError> {
    match r
    case Ok(t) => Ok(t)
    case Err(FileError(n, e)) => Err(TomlFile.FileError(if n <= i then n else n + 1, e))
  }

  lemma {:induction false} ErrorLineBound(lines: seq<string>)
    requires ParsedLines(lines).Err?
    ensures 1 <= ParsedLines(lines).error.line <= |lines|
  {
    if ParsedLines(lines[..|lines| - 1]).Err? { ErrorLineBound(lines[..|lines| - 1]); }
  }

  lemma OneMoreLine(lines: seq<string>, raw: string)
    ensures var before := ParsedLines(lines);
            (ParsedLines(lines + [raw])
             == if before.Err? then before
                else
                  var applied := ApplyLine(before.value, raw);
                  if applied.Err? then Err(TomlFile.FileError(|lines| + 1, applied.error)) else Ok(applied.value))
  {
    assert (lines + [raw])[..|lines|] == lines;
  }

  lemma ShiftedLine(longer: seq<string>, lines: seq<string>, i: nat, raw: string)
    requires i <= |lines| && |longer| == |lines| + 1 && ParsedLines(longer) == Shifted(ParsedLines(lines), i)
    ensures ParsedLines(longer + [raw]) == Shifted(ParsedLines(lines + [raw]), i)
  {
    OneMoreLine(longer, raw);
    OneMoreLine(lines, raw);
  }

  lemma {:induction false} RemarkSkipped(a: seq<string>, remark: string, b: seq<string>)
    requires Remark(remark)
    ensures ParsedLines(a + [remark] + b) == Shifted(ParsedLines(a + b), |a|)
    decreases |b|
  {
    if b == [] {
      LineKinds(remark);
      OneMoreLine(a, remark);
      assert a + b == a && a + [remark] + b == a + [remark];
      if ParsedLines(a).Err? { ErrorLineBound(a); }
    } else {
      var init, last := b[..|b| - 1], b[|b| - 1];
      RemarkSkipped(a, remark, init);
      ShiftedLine(a + [remark] + init, a + init, |a|, last);
      assert a + [remark] + b == a + [remark] + init + [last];
      assert a + b == a + init + [last];
    }
  }

  lemma LinesInserted(lines: seq<string>, i: nat, l: string)
    requires i <= |lines| && Lines(lines) && OneLine(l)
    ensures Lines(lines[..i] + [l] + lines[i..])
  {}

  /** A blank or comment line put in anywhere changes no setting and no verdict; it only
      moves the line numbers behind it. */
  lemma RemarksAreSkipped(text: string, i: nat, remark: string)
    requires i <= |Split(text)| && Remark(remark) && OneLine(remark)
    ensures Parsed(Join(Split(text)[..i] + [remark] + Split(text)[i..], '\n')) == Shifted(Parsed(text), i)
  {
    var lines := Split(text);
    SplitGivesLines(text);
    LinesInserted(lines, i, remark);
    RemarkIn(lines, lines[..i], remark, lines[i..]);
  }

  lemma RemarkIn(lines: seq<string>, a: seq<string>, remark: string, b: seq<string>)
    requires lines == a + b && Remark(remark) && Lines(a + [remark] + b)
    ensures Parsed(Join(a + [remark] + b, '\n')) == Shifted(ParsedLines(lines), |a|)
  {
    SplitOfJoin(a + [remark] + b);
    RemarkSkipped(a, remark, b);
  }
}
