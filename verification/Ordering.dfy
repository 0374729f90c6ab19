/** Strict orders, least elements and sorting: what the modelled code gets from
    Go's `<` on strings, `sort.Strings` and `sort.Slice`. */
module Ordering {

  /** Code-point order of strings, which is Go's byte order on UTF-8 text. */
  predicate Before(a: string, b: string) {
    if |b| == 0 then false
    else if |a| == 0 then true
    else if a[0] != b[0] then a[0] < b[0]
    else Before(a[1..], b[1..])
  }

  /** `less` is a strict order in which any two distinct values compare. */
  ghost predicate StrictTotal<T(!new)>(less: (T, T) -> bool) {
    && (forall a :: !less(a, a))
    && (forall a, b, c :: less(a, b) && less(b, c) ==> less(a, c))
    && (forall a, b :: a != b ==> less(a, b) || less(b, a))
  }

  ghost predicate Ascending<T(!new)>(less: (T, T) -> bool, s: seq<T>) {
    forall i, j :: 0 <= i < j < |s| ==> less(s[i], s[j])
  }

  ghost function Elements<T>(s: seq<T>): set<T> {
    set x | x in s
  }

  ghost predicate Distinct<T(!new)>(s: seq<T>) {
    forall i, j :: 0 <= i < j < |s| ==> s[i] != s[j]
  }

  /** At position k the strings first differ: a ends there, or has the smaller code point. */
  ghost predicate DiffersAt(a: string, b: string, k: nat) {
    k <= |a| && k < |b| && a[..k] == b[..k] && (k == |a| || a[k] < b[k])
  }

  /** Before is the order of code points at the first difference. */
  lemma {:induction false} BeforeIsTextOrder(a: string, b: string)
    ensures Before(a, b) <==> exists k :: DiffersAt(a, b, k)
  {
    if a == "" || b == "" || a[0] != b[0] {
      if Before(a, b) { assert DiffersAt(a, b, 0); }
      if k: nat :| DiffersAt(a, b, k) {
        if k > 0 { assert a[..k][0] == b[..k][0]; }
      }
    } else {
      BeforeIsTextOrder(a[1..], b[1..]);
      if k: nat :| DiffersAt(a[1..], b[1..], k) {
        assert a[..k + 1] == [a[0]] + a[1..][..k] && b[..k + 1] == [b[0]] + b[1..][..k];
        assert DiffersAt(a, b, k + 1);
      }
      if k: nat :| DiffersAt(a, b, k) {
        if k > 0 {
          assert a[1..][..k - 1] == a[..k][1..] && b[1..][..k - 1] == b[..k][1..];
          assert DiffersAt(a[1..], b[1..], k - 1);
        }
      }
    }
  }

  lemma BeforeIrreflexive(a: string)
    ensures !Before(a, a)
  {
    if a != "" { BeforeIrreflexive(a[1..]); }
  }

  lemma BeforeTransitive(a: string, b: string, c: string)
    requires Before(a, b) && Before(b, c)
    ensures Before(a, c)
  {
    if a != "" && a[0] == b[0] && b[0] == c[0] {
      BeforeTransitive(a[1..], b[1..], c[1..]);
    }
  }

  lemma BeforeTotal(a: string, b: string)
    requires a != b
    ensures Before(a, b) || Before(b, a)
  {
    if a != "" && b != "" && a[0] == b[0] {
      assert a == [a[0]] + a[1..] && b == [b[0]] + b[1..];
      BeforeTotal(a[1..], b[1..]);
    }
  }

  lemma BeforeIsStrictTotal()
    ensures StrictTotal(Before)
  {
    forall a ensures !Before(a, a) { BeforeIrreflexive(a); }
    forall a, b, c | Before(a, b) && Before(b, c) ensures Before(a, c) { BeforeTransitive(a, b, c); }
    forall a, b: string | a != b ensures Before(a, b) || Before(b, a) { BeforeTotal(a, b); }
  }

  /** m is the least element of s. */
  ghost predicate IsLeast<T(!new)>(less: (T, T) -> bool, s: set<T>, m: T) {
    m in s && forall x :: x in s && x != m ==> less(m, x)
  }

  lemma LeastExists<T(!new)>(less: (T, T) -> bool, s: set<T>)
    requires StrictTotal(less) && s != {}
    ensures exists m :: IsLeast(less, s, m)
  {
    var x :| x in s;
    var rest := s - {x};
    assert s == rest + {x};
    if rest == {} {
      assert IsLeast(less, s, x);
    } else {
      LeastExists(less, rest);
      var m :| IsLeast(less, rest, m);
      assert IsLeast(less, s, if less(x, m) then x else m);
    }
  }

  ghost function Least<T(!new)>(less: (T, T) -> bool, s: set<T>): (m: T)
    requires StrictTotal(less) && s != {}
    ensures IsLeast(less, s, m)
  {
    LeastExists(less, s);
    var m :| IsLeast(less, s, m);
    m
  }

  lemma LeastIsUnique<T(!new)>(less: (T, T) -> bool, s: set<T>, m: T, n: T)
    requires StrictTotal(less) && IsLeast(less, s, m) && IsLeast(less, s, n)
    ensures m == n
  {}

  /** Of an ascending list, the first element in a set is its least. */
  lemma FirstIsLeast<T(!new)>(less: (T, T) -> bool, s: seq<T>, hits: set<T>, i: nat)
    requires Ascending(less, s) && hits <= Elements(s) && i < |s|
    requires s[i] in hits && forall j :: 0 <= j < i ==> s[j] !in hits
    ensures IsLeast(less, hits, s[i])
  {
    forall x | x in hits && x != s[i] ensures less(s[i], x) {
      assert x in Elements(s);
      var j :| 0 <= j < |s| && s[j] == x;
      assert j >= i;
    }
  }

  /** The strings of s in ascending order. */
  ghost function SortedNames(s: set<string>): (r: seq<string>)
    ensures Elements(r) == s && Ascending(Before, r) && |r| == |s|
    decreases |s|
  {
    if s == {} then []
    else
      BeforeIsStrictTotal();
      var m := Least(Before, s);
      var tail := SortedNames(s - {m});
      assert forall x :: x in tail <==> x in Elements(tail);
      [m] + tail
  }

  /** Ascending sequences are determined by their elements. */
  lemma AscendingUnique<T(!new)>(less: (T, T) -> bool, a: seq<T>, b: seq<T>)
    requires StrictTotal(less)
    requires Ascending(less, a) && Ascending(less, b)
    requires Elements(a) == Elements(b)
    ensures a == b
  {
    assert a != [] ==> a[0] in Elements(b);
    assert b != [] ==> b[0] in Elements(a);
    if a != [] && b != [] {
      assert a[0] == b[0] by {
        assert a[0] in Elements(b) && b[0] in Elements(a);
      }
      forall x ensures x in Elements(a[1..]) <==> x in Elements(b[1..]) {
        assert x in Elements(a[1..]) <==> x in Elements(a) && x != a[0];
        assert x in Elements(b[1..]) <==> x in Elements(b) && x != b[0];
      }
      AscendingUnique(less, a[1..], b[1..]);
    }
  }

  /** sort.Slice under a weak order given by its strict part: the result is a
      rearrangement in which nothing precedes something less than it. */
  ghost predicate WeakOrder<T(!new)>(less: (T, T) -> bool) {
    && (forall a :: !less(a, a))
    && (forall a, b, c :: !less(b, a) && !less(c, b) ==> !less(c, a))
    && (forall a, b :: less(a, b) ==> !less(b, a))
  }

  ghost predicate InOrder<T(!new)>(less: (T, T) -> bool, s: seq<T>) {
    forall i, j :: 0 <= i < j < |s| ==> !less(s[j], s[i])
  }

  function Insert<T>(less: (T, T) -> bool, x: T, s: seq<T>): (r: seq<T>)
    ensures multiset(r) == multiset(s) + multiset{x}
  {
    if s == [] then [x]
    else if less(x, s[0]) then [x] + s
    else
      assert s == [s[0]] + s[1..];
      [s[0]] + Insert(less, x, s[1..])
  }

  /** The sorting the library call performs. */
  function Sort<T>(less: (T, T) -> bool, s: seq<T>): (r: seq<T>)
    ensures multiset(r) == multiset(s) && |r| == |s|
  {
    if s == [] then []
    else
      assert s == [s[0]] + s[1..];
      var r := Insert(less, s[0], Sort(less, s[1..]));
      assert |multiset(r)| == |multiset(s)|;
      r
  }

  lemma InsertInOrder<T(!new)>(less: (T, T) -> bool, x: T, s: seq<T>)
    requires WeakOrder(less) && InOrder(less, s)
    ensures InOrder(less, Insert(less, x, s))
  {
    if s != [] && !less(x, s[0]) {
      InsertInOrder(less, x, s[1..]);
      var tail := Insert(less, x, s[1..]);
      forall j | 0 <= j < |tail| ensures !less(tail[j], s[0]) {
        assert tail[j] in multiset(tail);
        assert tail[j] == x || tail[j] in s[1..];
      }
    }
  }

  lemma SortInOrder<T(!new)>(less: (T, T) -> bool, s: seq<T>)
    requires WeakOrder(less)
    ensures InOrder(less, Sort(less, s))
  {
    if s != [] {
      SortInOrder(less, s[1..]);
      InsertInOrder(less, s[0], Sort(less, s[1..]));
    }
  }

  lemma SameElements<T(!new)>(s: seq<T>, r: seq<T>)
    requires multiset(r) == multiset(s)
    ensures Elements(r) == Elements(s)
  {
    forall x ensures x in Elements(r) <==> x in Elements(s) {
      assert x in multiset(r) <==> x in multiset(s);
    }
  }

  lemma StrictTotalIsWeak<T(!new)>(less: (T, T) -> bool)
    requires StrictTotal(less)
    ensures WeakOrder(less)
  {}

  lemma DistinctCount<T(!new)>(s: seq<T>)
    ensures Distinct(s) <==> forall x :: multiset(s)[x] <= 1
  {
    if s != [] {
      assert s == [s[0]] + s[1..];
      DistinctCount(s[1..]);
      if Distinct(s) {
        forall x ensures multiset(s)[x] <= 1 {
          assert x == s[0] ==> x !in s[1..];
        }
      } else if Distinct(s[1..]) {
        var j :| 0 < j < |s| && s[0] == s[j];
        assert s[0] in s[1..];
        assert multiset(s)[s[0]] >= 2;
      } else {
        var x :| multiset(s[1..])[x] > 1;
        assert multiset(s)[x] > 1;
      }
    }
  }

  /** Distinct names gathered in whatever order a map walk yields them sort to
      one answer. */
  lemma SortedStrings(s: seq<string>)
    requires Distinct(s)
    ensures Sort(Before, s) == SortedNames(Elements(s))
  {
    BeforeIsStrictTotal();
    SortAscends(Before, s);
    AscendingUnique(Before, Sort(Before, s), SortedNames(Elements(s)));
  }

  /** A map's keys, walked and then sorted. */
  method SortedKeys(keys: set<string>) returns (r: seq<string>)
    ensures r == SortedNames(keys)
  {
    var walk := WalkKeys(keys);
    SortedStrings(walk);
    r := Sort(Before, walk);
  }

  lemma SortAscends<T(!new)>(less: (T, T) -> bool, s: seq<T>)
    requires StrictTotal(less) && Distinct(s)
    ensures Ascending(less, Sort(less, s)) && Elements(Sort(less, s)) == Elements(s)
  {
    var r := Sort(less, s);
    StrictTotalIsWeak(less);
    SortInOrder(less, s);
    DistinctCount(s);
    DistinctCount(r);
    SameElements(s, r);
  }

  /** A list without repeats drawn from a set exhausts it exactly when it is as long. */
  lemma SizeTellsAll<T(!new)>(s: seq<T>, all: set<T>)
    requires Distinct(s) && Elements(s) <= all
    ensures |Elements(s)| == |s|
    ensures |s| == |all| <==> Elements(s) == all
  {
    if s != [] {
      var last, init := s[|s| - 1], s[..|s| - 1];
      assert s == init + [last];
      assert last in Elements(s) && last !in Elements(init);
      assert Elements(s) == Elements(init) + {last};
      SizeTellsAll(init, all - {last});
    }
    if Elements(s) != all {
      assert Elements(s) < all;
      ProperSubsetIsSmaller(Elements(s), all);
    }
  }

  lemma ProperSubsetIsSmaller<T>(a: set<T>, b: set<T>)
    requires a < b
    ensures |a| < |b|
  {
    var x :| x in b && x !in a;
    if a != {} {
      var y :| y in a;
      assert x in b - {y} && x !in a - {y};
      assert a - {y} < b - {y};
      ProperSubsetIsSmaller(a - {y}, b - {y});
    }
  }

  function Mapped<A, B>(f: A -> B, s: seq<A>): (r: seq<B>)
    ensures |r| == |s|
  {
    seq(|s|, i requires 0 <= i < |s| => f(s[i]))
  }

  lemma MappedWithoutOne<A, B>(f: A -> B, s: seq<A>, k: nat)
    requires k < |s|
    ensures multiset(s) == multiset(s[..k] + s[k + 1..]) + multiset{s[k]}
    ensures multiset(Mapped(f, s)) == multiset(Mapped(f, s[..k] + s[k + 1..])) + multiset{f(s[k])}
  {
    assert s == s[..k] + [s[k]] + s[k + 1..];
    var m := Mapped(f, s);
    assert m == m[..k] + [f(s[k])] + m[k + 1..];
    assert Mapped(f, s[..k] + s[k + 1..]) == m[..k] + m[k + 1..];
  }

  lemma CancelOne<T>(a: multiset<T>, b: multiset<T>, x: T)
    requires a + multiset{x} == b + multiset{x}
    ensures a == b
  {
    assert (a + multiset{x}) - multiset{x} == a;
    assert (b + multiset{x}) - multiset{x} == b;
  }

  /** Rearranged lists map to rearranged lists. */
  lemma MappedKeepsMultiset<A, B>(f: A -> B, a: seq<A>, b: seq<A>)
    requires multiset(a) == multiset(b)
    ensures multiset(Mapped(f, a)) == multiset(Mapped(f, b))
    decreases |a|
  {
    if a == [] {
      assert |multiset(b)| == 0;
    } else {
      assert a[0] in multiset(b);
      var k :| 0 <= k < |b| && b[k] == a[0];
      var a', b' := a[..0] + a[0 + 1..], b[..k] + b[k + 1..];
      MappedWithoutOne(f, a, 0);
      MappedWithoutOne(f, b, k);
      CancelOne(multiset(a'), multiset(b'), a[0]);
      MappedKeepsMultiset(f, a', b');
    }
  }

  lemma ElementsOneMore<T(!new)>(s: seq<T>, i: nat)
    requires i < |s|
    ensures s[..i + 1] == s[..i] + [s[i]]
    ensures Elements(s[..i + 1]) == Elements(s[..i]) + {s[i]}
  {}

  lemma NextInWalk<T(!new)>(s: seq<T>, i: nat)
    requires Distinct(s) && i < |s|
    ensures s[i] in Elements(s) && s[i] !in Elements(s[..i])
  {}

  lemma ElementsLast<T(!new)>(w: set<T>, s: seq<T>)
    requires s != []
    ensures w + Elements(s) == w + Elements(s[..|s| - 1]) + {s[|s| - 1]}
    ensures forall x :: x in s[..|s| - 1] ==> x in s
  {
    assert s == s[..|s| - 1] + [s[|s| - 1]];
  }

  lemma AppendAssoc<T>(a: seq<T>, b: seq<T>, x: T)
    ensures a + (b + [x]) == a + b + [x]
  {}

  /** The keys of a map, walked in an unspecified order. */
  method WalkKeys(keys: set<string>) returns (r: seq<string>)
    ensures Distinct(r) && Elements(r) == keys
  {
    r := [];
    var rest := keys;
    while rest != {}
      invariant rest <= keys
      invariant Distinct(r) && Elements(r) == keys - rest
      decreases |rest|
    {
      var k :| k in rest;
      assert k !in Elements(r);
      assert Elements(r + [k]) == Elements(r) + {k};
      r := r + [k];
      rest := rest - {k};
    }
  }
}
