/** The text functions of Go's standard library the model relies on, over sequences
    of code points. */
module GoText {
  import opened Results

  /** unicode.IsSpace. */
  predicate IsSpace(c: char) {
    || c == ' ' || '\U{9}' <= c <= '\U{D}' || c == '\U{85}' || c == '\U{A0}' || c == '\U{1680}'
    || '\U{2000}' <= c <= '\U{200A}' || c == '\U{2028}' || c == '\U{2029}' || c == '\U{202F}'
    || c == '\U{205F}' || c == '\U{3000}'
  }

  function TrimLeft(s: string): string {
    if s != "" && IsSpace(s[0]) then TrimLeft(s[1..]) else s
  }

  function TrimRight(s: string): string {
    if s != "" && IsSpace(s[|s| - 1]) then TrimRight(s[..|s| - 1]) else s
  }

  function TrimSpace(s: string): string {
    TrimRight(TrimLeft(s))
  }

  /** No space at either end. */
  predicate Trimmed(s: string) {
    s == "" || (!IsSpace(s[0]) && !IsSpace(s[|s| - 1]))
  }

  predicate StartsWith(s: string, c: char) {
    s != "" && s[0] == c
  }

  /** strings.Cut at the first c. */
  function CutAt(s: string, c: char): Option<(string, string)> {
    if s == "" then None
    else if s[0] == c then Some(("", s[1..]))
    else
      match CutAt(s[1..], c)
      case None => None
      case Some((a, b)) => Some(([s[0]] + a, b))
  }

  function Digits(s: string, acc: nat): Option<nat> {
    if s == "" then Some(acc)
    else if '0' <= s[0] <= '9' then Digits(s[1..], acc * 10 + (s[0] as int - '0' as int))
    else None
  }

  /** strconv.ParseInt(s, 10, 64). */
  function ParseInt(s: string): Option<int> {
    var negative := StartsWith(s, '-');
    var body := if negative || StartsWith(s, '+') then s[1..] else s;
    if body == "" then None
    else
      match Digits(body, 0)
      case None => None
      case Some(n) =>
        var v := if negative then -(n as int) else n;
        if -0x8000_0000_0000_0000 <= v < 0x8000_0000_0000_0000 then Some(v) else None
  }

  // ------------------------------------------------------- what these functions do

  /** The space characters, one by one. */
  lemma SpacesAre(c: char)
    ensures IsSpace(c) <==>
              || c in {'\t', '\n', '\U{B}', '\U{C}', '\r', ' ', '\U{85}', '\U{A0}', '\U{1680}', '\U{2028}', '\U{2029}'}
              || c in {'\U{2000}', '\U{2001}', '\U{2002}', '\U{2003}', '\U{2004}', '\U{2005}', '\U{2006}'}
              || c in {'\U{2007}', '\U{2008}', '\U{2009}', '\U{200A}', '\U{202F}', '\U{205F}', '\U{3000}'}
  {}

  ghost predicate AllSpace(s: string) {
    forall i :: 0 <= i < |s| ==> IsSpace(s[i])
  }

  lemma {:induction false} TrimLeftCuts(s: string) returns (i: nat)
    ensures i <= |s| && AllSpace(s[..i]) && TrimLeft(s) == s[i..] && (i < |s| ==> !IsSpace(s[i]))
  {
    i := 0;
    if s != "" && IsSpace(s[0]) {
      i := TrimLeftCuts(s[1..]);
      assert s[..i + 1] == [s[0]] + s[1..][..i];
      i := i + 1;
    }
  }

  lemma {:induction false} TrimRightCuts(s: string) returns (j: nat)
    ensures j <= |s| && AllSpace(s[j..]) && TrimRight(s) == s[..j] && (j > 0 ==> !IsSpace(s[j - 1]))
  {
    j := |s|;
    if s != "" && IsSpace(s[|s| - 1]) {
      var init := s[..|s| - 1];
      j := TrimRightCuts(init);
      assert s[j..] == init[j..] + [s[|s| - 1]] && init[..j] == s[..j];
    }
  }

  /** s[i..j] is s without the spaces at its ends. */
  ghost predicate Trims(s: string, i: int, j: int) {
    0 <= i <= j <= |s| && AllSpace(s[..i]) && AllSpace(s[j..]) && Trimmed(s[i..j])
  }

  lemma TrimSpaceCuts(s: string)
    ensures exists i, j :: Trims(s, i, j) && TrimSpace(s) == s[i..j]
  {
    var i := TrimLeftCuts(s);
    var j := TrimRightCuts(s[i..]);
    assert s[i..][..j] == s[i..i + j] && s[i..][j..] == s[i + j..];
    assert Trims(s, i, i + j);
  }

  lemma SpaceOutside(s: string, i: nat, j: nat)
    requires i <= |s| && j <= |s| && AllSpace(s[..i]) && AllSpace(s[j..])
    ensures forall k :: 0 <= k < i || j <= k < |s| ==> IsSpace(s[k])
  {
    forall k | 0 <= k < i || j <= k < |s| ensures IsSpace(s[k]) {
      assert if k < i then s[k] == s[..i][k] else s[k] == s[j..][k - j];
    }
  }

  lemma TrimSpaceIs(s: string, i: nat, j: nat)
    requires Trims(s, i, j)
    ensures TrimSpace(s) == s[i..j]
  {
    TrimSpaceCuts(s);
    var i', j' :| Trims(s, i', j') && TrimSpace(s) == s[i'..j'];
    assert i < j ==> !IsSpace(s[i..j][0]) && !IsSpace(s[i..j][j - i - 1]);
    assert i' < j' ==> !IsSpace(s[i'..j'][0]) && !IsSpace(s[i'..j'][j' - i' - 1]);
    SpaceOutside(s, i, j);
    SpaceOutside(s, i', j');
  }

  lemma {:induction false} CutAtCuts(s: string, c: char)
    ensures CutAt(s, c).None? <==> c !in s
    ensures CutAt(s, c).Some? ==> var (a, b) := CutAt(s, c).value; s == a + [c] + b && c !in a
  {
    if s != "" && s[0] != c {
      CutAtCuts(s[1..], c);
      assert s == [s[0]] + s[1..];
    }
  }

  predicate AllDigits(s: string) {
    forall i :: 0 <= i < |s| ==> '0' <= s[i] <= '9'
  }

  /** The number the digits spell, read from the right. */
  function PlaceValue(s: string): (v: int)
    requires AllDigits(s)
    ensures v >= 0
  {
    if s == "" then 0 else PlaceValue(s[..|s| - 1]) * 10 + (s[|s| - 1] as int - '0' as int)
  }

  lemma {:induction false} DigitsSnoc(s: string, c: char, acc: nat)
    ensures var r := Digits(s, acc);
            (Digits(s + [c], acc)
             == if r.Some? && '0' <= c <= '9' then Some(r.value * 10 + (c as int - '0' as int)) else None)
  {
    if s == "" {
      assert s + [c] == [c] && [c][1..] == "";
    } else {
      assert (s + [c])[1..] == s[1..] + [c];
      if '0' <= s[0] <= '9' { DigitsSnoc(s[1..], c, acc * 10 + (s[0] as int - '0' as int)); }
    }
  }

  lemma {:induction false} DigitsArePlaces(s: string)
    ensures Digits(s, 0) == if AllDigits(s) then Some(PlaceValue(s)) else None
  {
    if s != "" {
      var init, c := s[..|s| - 1], s[|s| - 1];
      DigitsArePlaces(init);
      DigitsSnoc(init, c, 0);
      assert s == init + [c];
      assert forall i :: 0 <= i < |s| ==> s[i] == if i < |init| then init[i] else c;
      assert forall i :: 0 <= i < |init| ==> init[i] == s[i];
    }
  }

  /** The digits, perhaps behind a sign, are s, a numeral of v. */
  ghost predicate SpelledBy(digits: string, s: string, v: int) {
    && digits != "" && AllDigits(digits)
    && (((s == digits || s == "+" + digits) && v == PlaceValue(digits))
        || (s == "-" + digits && v == -PlaceValue(digits)))
  }

  /** s is a decimal numeral of v. */
  ghost predicate Spells(s: string, v: int) {
    exists digits :: SpelledBy(digits, s, v)
  }

  predicate FitsInt64(v: int) {
    -0x8000_0000_0000_0000 <= v < 0x8000_0000_0000_0000
  }

  lemma SpelledParses(digits: string, s: string, v: int)
    requires SpelledBy(digits, s, v)
    ensures ParseInt(s) == if FitsInt64(v) then Some(v) else None
  {
    DigitsArePlaces(digits);
    assert '0' <= digits[0] <= '9';
    assert ("+" + digits)[1..] == digits && ("-" + digits)[1..] == digits;
  }

  lemma ParsedIsSpelled(s: string)
    requires ParseInt(s).Some?
    ensures Spells(s, ParseInt(s).value) && FitsInt64(ParseInt(s).value)
  {
    var signed := StartsWith(s, '-') || StartsWith(s, '+');
    var digits := if signed then s[1..] else s;
    DigitsArePlaces(digits);
    if signed { assert s == [s[0]] + digits; }
    assert SpelledBy(digits, s, ParseInt(s).value);
  }

  /** An integer parses exactly if it is spelled and fits 64 bits. */
  lemma ParseIntReads(s: string, v: int)
    ensures ParseInt(s) == Some(v) <==> Spells(s, v) && FitsInt64(v)
  {
    if Spells(s, v) {
      var digits :| SpelledBy(digits, s, v);
      SpelledParses(digits, s, v);
    }
    if ParseInt(s).Some? { ParsedIsSpelled(s); }
  }
}
