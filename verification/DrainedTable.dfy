/** The drain of a table that does not change: when it is whole, and how many reads
    it takes. */
module DrainedTable {
  import opened Results
  import opened Ordering
  import opened EndpointDrain
  import opened DrainRuns

  /** n reads of one table, none failing. */
  function Same<K, D>(rows: seq<Row<K, D>>, n: nat): seq<Read<K, D>> {
    seq(n, _ => Table(rows, None))
  }

  lemma SameNext<K(!new), D(!new)>(rows: seq<Row<K, D>>, n: nat)
    requires n > 0
    ensures |Same(rows, n)| == n && Same(rows, n)[0] == Table(rows, None) && Same(rows, n)[1..] == Same(rows, n - 1)
  {}

  lemma PageIsBehind<K(!new), D(!new)>(less: (K, K) -> bool, s: seq<Row<K, D>>, n: nat, r: Row<K, D>)
    requires StrictTotal(less) && Rising(less, s) && 0 < n <= |s| && s[n - 1].key.Some?
    ensures r in s[..n] ==> !Past(less, s[n - 1].key, r)
    ensures r in s[n..] && r.key.Some? ==> Past(less, s[n - 1].key, r)
  {
    if i :| 0 <= i < n && s[i] == r {
      if i < n - 1 { Asymmetric(less, r.key.value, s[n - 1].key.value); }
    }
    if r in s[n..] {
      var i :| 0 <= i < |s[n..]| && s[n..][i] == r;
      assert s[n + i] == r;
    }
  }

  lemma PastIsFurther<K(!new), D(!new)>(less: (K, K) -> bool, start: Option<K>, last: Row<K, D>, r: Row<K, D>)
    requires StrictTotal(less) && last.key.Some? && Past(less, start, last) && Past(less, last.key, r)
    ensures Past(less, start, r)
  {}

  lemma CountSplits<T>(s: seq<T>, n: nat, r: T)
    requires n <= |s|
    ensures multiset(s)[r] == multiset(s[..n])[r] + multiset(s[n..])[r]
  {
    assert s == s[..n] + s[n..];
  }

  /** Beyond a page's last key lie the keyed rows of the rest of the result. */
  lemma RestOfResult<K(!new), D(!new)>(less: (K, K) -> bool, rows: seq<Row<K, D>>, start: Option<K>, s: seq<Row<K, D>>,
                       n: nat, r: Row<K, D>)
    requires StrictTotal(less) && Rising(less, s) && 0 < n <= |s|
    requires s[n - 1].key.Some? && Past(less, start, s[n - 1])
    requires multiset(s)[r] == if Past(less, start, r) then multiset(rows)[r] else 0
    ensures multiset(Matching(less, rows, s[n - 1].key))[r] == if r.key.Some? then multiset(s[n..])[r] else 0
  {
    MatchingCounts(less, rows, s[n - 1].key, r);
    PageIsBehind(less, s, n, r);
    CountSplits(s, n, r);
    if Past(less, s[n - 1].key, r) { PastIsFurther(less, start, s[n - 1], r); }
  }

  lemma SmallerMultiset<T>(a: multiset<T>, b: multiset<T>)
    requires a <= b
    ensures |a| <= |b|
  {
    assert b == a + (b - a);
  }

  lemma KeyedPart<K(!new), D(!new)>(m: seq<Row<K, D>>, rest: seq<Row<K, D>>)
    requires forall r :: multiset(m)[r] == if r.key.Some? then multiset(rest)[r] else 0
    ensures |m| <= |rest| && AllKeyed(m)
    ensures AllKeyed(rest) ==> multiset(m) == multiset(rest)
  {
    assert multiset(m) <= multiset(rest);
    SmallerMultiset(multiset(m), multiset(rest));
    assert |multiset(m)| == |m| && |multiset(rest)| == |rest|;
    forall r | r in m ensures r.key.Some? { assert r in multiset(m); }
    if AllKeyed(rest) {
      forall r ensures multiset(m)[r] == multiset(rest)[r] { assert r in multiset(rest) ==> r in rest; }
    }
  }

  lemma RestIsShorter<K(!new), D(!new)>(less: (K, K) -> bool, rows: seq<Row<K, D>>, start: Option<K>,
                        s: seq<Row<K, D>>, limit: nat)
    requires StrictTotal(less) && UniqueKeys(rows) && s == Sorted(less, rows, start)
    requires 0 < limit <= |s| && s[limit - 1].key.Some?
    ensures var m := Matching(less, rows, s[limit - 1].key);
            && |m| <= |s| - limit && AllKeyed(m)
            && (AllKeyed(s[limit..]) ==> multiset(m) == multiset(s[limit..]))
  {
    SortedRises(less, rows, start);
    assert s[limit - 1] in multiset(s);
    forall r: Row<K, D> { RestOfResult(less, rows, start, s, limit, r); }
    KeyedPart(Matching(less, rows, s[limit - 1].key), s[limit..]);
  }

  lemma KeyedPage<K(!new), D(!new)>(less: (K, K) -> bool, s: seq<Row<K, D>>, n: nat)
    requires Rising(less, s) && 0 < n <= |s| && s[n - 1].key.Some?
    ensures AllKeyed(s[..n])
  {
    forall i | 0 <= i < n ensures s[i].key.Some? { assert i < n - 1 ==> s[i].key.Some?; }
  }

  lemma DrainsShort<K(!new), D(!new)>(less: (K, K) -> bool, projected: bool, limit: nat, start: Option<K>,
                      rows: seq<Row<K, D>>, n: nat)
    requires n > 0 && |Sorted(less, rows, start)| < limit
    ensures Drained(less, projected, limit, start, Same(rows, n)) == Stream(Sorted(less, rows, start), Complete, 1)
  {
    SameNext(rows, n);
  }

  lemma SelectsFullPage<K(!new), D(!new)>(less: (K, K) -> bool, limit: nat, start: Option<K>, rows: seq<Row<K, D>>)
    requires 0 < limit <= |Sorted(less, rows, start)|
    ensures Select(less, rows, start, limit) == Sorted(less, rows, start)[..limit]
  {
    var s := Sorted(less, rows, start);
    assert |s| == limit ==> s[..limit] == s;
  }

  lemma DrainsOn<K(!new), D(!new)>(less: (K, K) -> bool, projected: bool, limit: nat, start: Option<K>,
                   rows: seq<Row<K, D>>, n: nat)
    requires n > 0 && 0 < limit <= |Sorted(less, rows, start)|
    ensures var page := Sorted(less, rows, start)[..limit];
            (Drained(less, projected, limit, start, Same(rows, n))
             == After(page, 1, Continued(less, projected, limit, NextAfter(page, projected, limit), Same(rows, n - 1))))
  {
    SelectsFullPage(less, limit, start, rows);
    SameNext(rows, n);
    FullRead(less, projected, limit, start, Same(rows, n), Select(less, rows, start, limit));
  }

  lemma SortedHoldsMatches<K(!new), D(!new)>(less: (K, K) -> bool, rows: seq<Row<K, D>>, start: Option<K>)
    ensures AllKeyed(Sorted(less, rows, start)) <==> AllKeyed(Matching(less, rows, start))
  {
    SameElements(Matching(less, rows, start), Sorted(less, rows, start));
    forall r: Row<K, D> ensures r in Sorted(less, rows, start) <==> r in Matching(less, rows, start) {
      assert r in Elements(Sorted(less, rows, start)) <==> r in Elements(Matching(less, rows, start));
    }
  }

  /** The reads that count rows take: one per full batch, and a short one. */
  function Reads(count: nat, limit: nat): nat
    requires limit > 0
  {
    count / limit + 1
  }

  lemma QuotientUnique(c: nat, limit: nat, q: nat, r: nat)
    requires r < limit && c == limit * q + r
    ensures q == c / limit
  {
    var k := c / limit;
    assert q < k ==> limit * k >= limit * (q + 1) == limit * q + limit;
    assert q > k ==> limit * q >= limit * (k + 1) == limit * k + limit;
  }

  lemma ReadsOneMore(count: nat, limit: nat)
    requires limit > 0
    ensures if count < limit then Reads(count, limit) == 1 else Reads(count, limit) == 1 + Reads(count - limit, limit)
  {
    if count >= limit {
      var q := (count - limit) / limit;
      assert limit * (q + 1) == limit * q + limit;
      QuotientUnique(count, limit, q + 1, (count - limit) % limit);
    } else {
      QuotientUnique(count, limit, 0, count);
    }
  }

  /** The stream ends by itself, having sent exactly the matching rows, in order and in
      as many reads as that takes. */
  ghost predicate SendsAll<K, D>(less: (K, K) -> bool, limit: nat, rows: seq<Row<K, D>>, start: Option<K>,
                                 s: Stream<K, D>)
    requires limit > 0
  {
    s == Stream(Sorted(less, rows, start), Complete, Reads(|Sorted(less, rows, start)|, limit))
  }

  lemma LastAgrees<K(!new), D(!new)>(less: (K, K) -> bool, a: seq<Row<K, D>>, b: seq<Row<K, D>>, n: nat)
    requires StrictTotal(less) && Rising(less, a) && Rising(less, b) && AllKeyed(a) && AllKeyed(b)
    requires |a| == |b| == n + 1 && a[n] in b && b[n] in a
    ensures a[n] == b[n]
  {
    var i :| 0 <= i < |b| && b[i] == a[n];
    var j :| 0 <= j < |a| && a[j] == b[n];
    if i < n { assert false; }
  }

  /** Keyed rows are in key order in one way only. */
  lemma {:induction false} RisingUnique<K(!new), D(!new)>(less: (K, K) -> bool, a: seq<Row<K, D>>, b: seq<Row<K, D>>)
    requires StrictTotal(less) && Rising(less, a) && Rising(less, b) && AllKeyed(a) && AllKeyed(b)
    requires multiset(a) == multiset(b)
    ensures a == b
  {
    assert |multiset(a)| == |a| && |multiset(b)| == |b|;
    if a != [] {
      var n := |a| - 1;
      assert a[n] in multiset(b) && b[n] in multiset(a);
      LastAgrees(less, a, b, n);
      WithoutLast(a, b, n);
      RisingUnique(less, a[..n], b[..n]);
      assert a == a[..n] + [a[n]] && b == b[..n] + [b[n]];
    }
  }

  lemma WithoutLast<T>(a: seq<T>, b: seq<T>, n: nat)
    requires |a| == |b| == n + 1 && a[n] == b[n] && multiset(a) == multiset(b)
    ensures multiset(a[..n]) == multiset(b[..n])
  {
    assert a == a[..n] + [a[n]] && b == b[..n] + [b[n]];
    CancelOne(multiset(a[..n]), multiset(b[..n]), a[n]);
  }

  /** The keyed rows beyond a page's last key are the rest of the result, in order. */
  lemma SortedBeyond<K(!new), D(!new)>(less: (K, K) -> bool, limit: nat, start: Option<K>, rows: seq<Row<K, D>>)
    requires StrictTotal(less) && UniqueKeys(rows) && AllKeyed(Sorted(less, rows, start))
    requires 0 < limit <= |Sorted(less, rows, start)|
    ensures var s := Sorted(less, rows, start);
            s[limit - 1].key.Some? && Sorted(less, rows, s[limit - 1].key) == s[limit..]
  {
    var s := Sorted(less, rows, start);
    var k := s[limit - 1].key;
    RestIsShorter(less, rows, start, s, limit);
    SortedRises(less, rows, start);
    SortedRises(less, rows, k);
    SortedHoldsMatches(less, rows, k);
    RisingUnique(less, Sorted(less, rows, k), s[limit..]);
  }

  lemma PageThenRest<K(!new), D(!new)>(less: (K, K) -> bool, limit: nat, start: Option<K>, rows: seq<Row<K, D>>,
                                       rest: Stream<K, D>)
    requires StrictTotal(less) && UniqueKeys(rows) && AllKeyed(Sorted(less, rows, start))
    requires 0 < limit <= |Sorted(less, rows, start)|
    requires var k := Sorted(less, rows, start)[limit - 1].key; k.Some? && SendsAll(less, limit, rows, k, rest)
    ensures SendsAll(less, limit, rows, start, After(Sorted(less, rows, start)[..limit], 1, rest))
  {
    var s := Sorted(less, rows, start);
    SortedBeyond(less, limit, start, rows);
    ReadsOneMore(|s|, limit);
    assert s == s[..limit] + s[limit..];
  }

  /** How many rows n full batches hold. */
  function Capacity(n: nat, limit: nat): nat {
    if n == 0 then 0 else limit + Capacity(n - 1, limit)
  }

  lemma {:induction false} CapacityIsProduct(n: nat, limit: nat)
    ensures Capacity(n, limit) == n * limit
  {
    if n > 0 {
      CapacityIsProduct(n - 1, limit);
      assert n * limit == limit + (n - 1) * limit;
    }
  }

  /** All matching rows are keyed and fewer than n full batches. */
  ghost predicate Enough<K(!new), D(!new)>(less: (K, K) -> bool, limit: nat, start: Option<K>, rows: seq<Row<K, D>>,
                           n: nat) {
    AllKeyed(Matching(less, rows, start)) && |Matching(less, rows, start)| < Capacity(n, limit)
  }

  lemma EnoughLeft<K(!new), D(!new)>(less: (K, K) -> bool, limit: nat, start: Option<K>, rows: seq<Row<K, D>>, n: nat)
    requires StrictTotal(less) && UniqueKeys(rows) && n > 0 && Enough(less, limit, start, rows, n)
    requires 0 < limit <= |Sorted(less, rows, start)|
    ensures AllKeyed(Sorted(less, rows, start))
    ensures var k := Sorted(less, rows, start)[limit - 1].key; k.Some? && Enough(less, limit, k, rows, n - 1)
  {
    SortedHoldsMatches(less, rows, start);
    assert Sorted(less, rows, start)[limit - 1] in Sorted(less, rows, start);
    RestIsShorter(less, rows, start, Sorted(less, rows, start), limit);
  }

  lemma DrainsKeyedPage<K(!new), D(!new)>(less: (K, K) -> bool, limit: nat, start: Option<K>, rows: seq<Row<K, D>>,
                          n: nat)
    requires n > 0 && 0 < limit <= |Sorted(less, rows, start)| && Sorted(less, rows, start)[limit - 1].key.Some?
    ensures var s := Sorted(less, rows, start);
            (Drained(less, true, limit, start, Same(rows, n))
             == After(s[..limit], 1, Drained(less, true, limit, s[limit - 1].key, Same(rows, n - 1))))
  {
    DrainsOn(less, true, limit, start, rows, n);
    assert NextAfter(Sorted(less, rows, start)[..limit], true, limit) == Sorted(less, rows, start)[limit - 1].key;
  }

  lemma {:induction false} KeyedDrain<K(!new), D(!new)>(less: (K, K) -> bool, limit: nat, start: Option<K>,
                                                        rows: seq<Row<K, D>>, n: nat)
    requires StrictTotal(less) && limit > 0 && UniqueKeys(rows)
    requires n > 0 && Enough(less, limit, start, rows, n)
    ensures SendsAll(less, limit, rows, start, Drained(less, true, limit, start, Same(rows, n)))
    decreases n
  {
    if |Sorted(less, rows, start)| < limit {
      DrainsShort(less, true, limit, start, rows, n);
      ReadsOneMore(|Sorted(less, rows, start)|, limit);
    } else {
      EnoughLeft(less, limit, start, rows, n);
      var k := Sorted(less, rows, start)[limit - 1].key;
      DrainsKeyedPage(less, limit, start, rows, n);
      KeyedDrain(less, limit, k, rows, n - 1);
      PageThenRest(less, limit, start, rows, Drained(less, true, limit, k, Same(rows, n - 1)));
    }
  }

  /** Read often enough, an unchanging table whose matching rows are keyed, the key
      projected, is streamed whole and in key order, in a read per full batch and one. */
  lemma {:induction false} DrainsKeyedTable<K(!new), D(!new)>(less: (K, K) -> bool, limit: nat, start: Option<K>,
                                                              rows: seq<Row<K, D>>, n: nat)
    requires StrictTotal(less) && limit > 0 && UniqueKeys(rows)
    requires AllKeyed(Matching(less, rows, start)) && n * limit > |Matching(less, rows, start)|
    ensures (Drained(less, true, limit, start, Same(rows, n))
             == Stream(Sorted(less, rows, start), Complete, Reads(|Matching(less, rows, start)|, limit)))
  {
    CapacityIsProduct(n, limit);
    KeyedDrain(less, limit, start, rows, n);
  }

  lemma RowsDiffer<K(!new), D(!new)>(a: seq<Row<K, D>>, b: seq<Row<K, D>>)
    requires |a| != |b| || (AllKeyed(a) && !AllKeyed(b))
    ensures multiset(a) != multiset(b)
  {
    if |a| != |b| {
      assert |multiset(a)| == |a| && |multiset(b)| == |b|;
    } else {
      var r :| r in b && r.key.None?;
      assert r in multiset(b) && r !in multiset(a);
    }
  }

  /** A first page whose last key leads on: the NULL rows behind it are lost. */
  lemma NullsAreLost<K(!new), D(!new)>(less: (K, K) -> bool, limit: nat, start: Option<K>, rows: seq<Row<K, D>>, n: nat)
    requires StrictTotal(less) && UniqueKeys(rows) && !AllKeyed(Sorted(less, rows, start))
    requires 0 < limit <= |Sorted(less, rows, start)| < Capacity(n, limit)
             && Sorted(less, rows, start)[limit - 1].key.Some?
    ensures var s, end := Sorted(less, rows, start), Drained(less, true, limit, start, Same(rows, n));
            end.end.Complete? && |s| != limit && AllKeyed(end.out)
  {
    var s := Sorted(less, rows, start);
    var k := s[limit - 1].key;
    DrainsKeyedPage(less, limit, start, rows, n);
    SortedRises(less, rows, start);
    assert s[..|s|] == s;
    KeyedPage(less, s, limit);
    RestIsShorter(less, rows, start, s, limit);
    KeyedDrain(less, limit, k, rows, n - 1);
    SortedHoldsMatches(less, rows, k);
  }

  /** A full first page that leads nowhere ends the stream. */
  lemma StreamStops<K(!new), D(!new)>(less: (K, K) -> bool, projected: bool, limit: nat, start: Option<K>,
                      rows: seq<Row<K, D>>, n: nat)
    requires n > 0 && 0 < limit <= |Sorted(less, rows, start)|
    requires !projected || Sorted(less, rows, start)[limit - 1].key.None?
    ensures Drained(less, projected, limit, start, Same(rows, n))
             == Stream(Sorted(less, rows, start)[..limit], Unkeyed, 1)
  {
    DrainsOn(less, projected, limit, start, rows, n);
    AfterNothing(Sorted(less, rows, start)[..limit], 1, Unkeyed);
  }

  /** An unchanging table is streamed whole exactly when it fits one batch, or the
      projection holds the sort column and no matching row's sort value is NULL. In
      every other case rows are left out although no read failed. */
  lemma UnchangingTable<K(!new), D(!new)>(less: (K, K) -> bool, projected: bool, limit: nat, start: Option<K>,
                          rows: seq<Row<K, D>>, n: nat)
    requires StrictTotal(less) && limit > 0 && UniqueKeys(rows)
    requires n * limit > |Matching(less, rows, start)|
    ensures var s, all := Drained(less, projected, limit, start, Same(rows, n)), Matching(less, rows, start);
            && !s.end.Aborted?
            && (multiset(s.out) == multiset(all) <==> |all| <= limit || (projected && AllKeyed(all)))
  {
    CapacityIsProduct(n, limit);
    ReadOften(less, projected, limit, start, rows, n);
  }

  lemma ReadOften<K(!new), D(!new)>(less: (K, K) -> bool, projected: bool, limit: nat, start: Option<K>,
                    rows: seq<Row<K, D>>, n: nat)
    requires StrictTotal(less) && limit > 0 && UniqueKeys(rows)
    requires Capacity(n, limit) > |Matching(less, rows, start)|
    ensures var s, all := Drained(less, projected, limit, start, Same(rows, n)), Matching(less, rows, start);
            && !s.end.Aborted?
            && (multiset(s.out) == multiset(all) <==> |all| <= limit || (projected && AllKeyed(all)))
  {
    SortedHoldsMatches(less, rows, start);
    if |Sorted(less, rows, start)| < limit {
      DrainsShort(less, projected, limit, start, rows, n);
    } else if projected && AllKeyed(Sorted(less, rows, start)) {
      KeyedDrain(less, limit, start, rows, n);
    } else if projected && Sorted(less, rows, start)[limit - 1].key.Some? {
      NullsAreLost(less, limit, start, rows, n);
      RowsDiffer(Drained(less, true, limit, start, Same(rows, n)).out, Sorted(less, rows, start));
    } else {
      StreamStops(less, projected, limit, start, rows, n);
      var s := Sorted(less, rows, start);
      if |s| == limit { assert s[..limit] == s; } else { RowsDiffer(s[..limit], s); }
    }
  }
}
