/** Strings built by joining parts with a separator character. */
module Joining {

  /** parts[0] + sep + parts[1] + sep + ... */
  function Join(parts: seq<string>, sep: char): string {
    if |parts| == 0 then ""
    else if |parts| == 1 then parts[0]
    else parts[0] + [sep] + Join(parts[1..], sep)
  }

  predicate Free(sep: char, s: string) {
    sep !in s
  }

  /** A prefix up to the first separator determines both sides. */
  lemma CutIsUnique(sep: char, a: string, b: string, a': string, b': string)
    requires Free(sep, a) && Free(sep, a')
    requires a + [sep] + b == a' + [sep] + b'
    ensures a == a' && b == b'
  {
    var t := a + [sep] + b;
    assert t[|a|] == sep && t[|a'|] == sep;
    assert forall i :: 0 <= i < |a| ==> t[i] == a[i] && t[i] in a;
    assert forall i :: 0 <= i < |a'| ==> t[i] == a'[i] && t[i] in a';
    assert |a| == |a'|;
    assert a == t[..|a|] && a' == t[..|a'|];
    assert b == t[|a| + 1..] && b' == t[|a'| + 1..];
  }

  /** Joining non-empty lists of separator-free parts loses nothing. */
  lemma {:induction false} JoinInjective(sep: char, a: seq<string>, b: seq<string>)
    requires a != [] && b != []
    requires forall s :: s in a || s in b ==> Free(sep, s)
    requires Join(a, sep) == Join(b, sep)
    ensures a == b
  {
    assert a[0] in a && b[0] in b;
    assert |a| > 1 ==> Join(a, sep)[|a[0]|] == sep;
    assert |b| > 1 ==> Join(b, sep)[|b[0]|] == sep;
    if |a| > 1 && |b| > 1 {
      CutIsUnique(sep, a[0], Join(a[1..], sep), b[0], Join(b[1..], sep));
      JoinInjective(sep, a[1..], b[1..]);
      assert a == [a[0]] + a[1..] && b == [b[0]] + b[1..];
    }
  }
}
