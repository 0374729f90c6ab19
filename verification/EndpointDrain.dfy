/** The NDJSON drain of internal/api/endpoint.go: a declared endpoint's rows streamed
    in bounded batches, each continuing beyond the last key served. A table is the
    rows its fixed filters match; it may change between any two reads. */
module EndpointDrain {
  import opened Results
  import opened Ordering

  /** A matching row: the value of the sort column, NULL for None, and the rest. */
  datatype Row<K, D> = Row(key: Option<K>, data: D)

  /** One read of the table: it fails, or yields the rows then stored, of which the
      broken-th served one does not marshal. */
  datatype Read<K, D> = Failed | Table(rows: seq<Row<K, D>>, broken: Option<nat>)

  /** How a stream ends; the client sees no difference once it has begun. */
  datatype Ending = Complete | Aborted | Unkeyed

  datatype Stream<K, D> = Stream(out: seq<Row<K, D>>, end: Ending, used: nat)

  // ------------------------------------------------------------ the fixed query

  /** ORDER BY the sort column, ascending; NULLs come last. */
  function RowLess<K, D>(less: (K, K) -> bool): (Row<K, D>, Row<K, D>) -> bool {
    (a: Row<K, D>, b: Row<K, D>) => a.key.Some? && (b.key.None? || less(a.key.value, b.key.value))
  }

  /** Beyond the cursor: NULL compares with nothing. */
  predicate Past<K, D>(less: (K, K) -> bool, bound: Option<K>, r: Row<K, D>) {
    bound.Some? ==> r.key.Some? && less(bound.value, r.key.value)
  }

  function Matching<K, D>(less: (K, K) -> bool, rows: seq<Row<K, D>>, bound: Option<K>): seq<Row<K, D>> {
    if rows == [] then []
    else
      var last, init := rows[|rows| - 1], Matching(less, rows[..|rows| - 1], bound);
      if Past(less, bound, last) then init + [last] else init
  }

  /** The page of at most limit rows beyond the cursor. */
  function Select<K, D>(less: (K, K) -> bool, rows: seq<Row<K, D>>, bound: Option<K>, limit: nat): seq<Row<K, D>> {
    var sorted := Sort(RowLess(less), Matching(less, rows, bound));
    if |sorted| <= limit then sorted else sorted[..limit]
  }

  /** The sort column is UNIQUE: no two rows share a non-NULL key. */
  ghost predicate UniqueKeys<K(!new), D(!new)>(rows: seq<Row<K, D>>) {
    forall i, j :: 0 <= i < j < |rows| ==> rows[i].key.None? || rows[i].key != rows[j].key
  }

  // ----------------------------------------------------------------- the stream

  /** The continuation cursor: the last row's key when the page is full, if the
      projection holds it. */
  function NextAfter<K, D>(page: seq<Row<K, D>>, projected: bool, limit: nat): Option<K> {
    if limit == 0 || |page| < limit then None
    else if projected then page[|page| - 1].key else None
  }

  /** A stream continued after out was sent over n reads. */
  function After<K, D>(out: seq<Row<K, D>>, n: nat, rest: Stream<K, D>): Stream<K, D> {
    Stream(out + rest.out, rest.end, n + rest.used)
  }

  function Drained<K, D>(less: (K, K) -> bool, projected: bool, limit: nat, start: Option<K>,
                         script: seq<Read<K, D>>): Stream<K, D>
    decreases |script|, 0
  {
    if script == [] || script[0].Failed? then Stream([], Aborted, 0)
    else
      var page := Select(less, script[0].rows, start, limit);
      if script[0].broken.Some? && script[0].broken.value < |page| then
        Stream(page[..script[0].broken.value], Aborted, 1)
      else if |page| < limit then Stream(page, Complete, 1)
      else
        After(page, 1, Continued(less, projected, limit, NextAfter(page, projected, limit), script[1..]))
  }

  /** The stream from a continuation cursor: without one it just ends. */
  function Continued<K, D>(less: (K, K) -> bool, projected: bool, limit: nat, next: Option<K>,
                           script: seq<Read<K, D>>): Stream<K, D>
    decreases |script|, 1
  {
    if next.None? then Stream([], Unkeyed, 0) else Drained(less, projected, limit, next, script)
  }

  lemma AfterTwo<K, D>(out: seq<Row<K, D>>, n: nat, page: seq<Row<K, D>>, m: nat, rest: Stream<K, D>)
    ensures After(out, n, After(page, m, rest)) == After(out + page, n + m, rest)
  {}

  lemma AfterNothing<K, D>(out: seq<Row<K, D>>, n: nat, end: Ending)
    ensures After(out, n, Stream([], end, 0)) == Stream(out, end, n)
  {}

  const BATCH := 1000

  /** Some row of a page does not marshal. */
  predicate Breaks<K, D>(broken: Option<nat>, page: seq<Row<K, D>>) {
    broken.Some? && broken.value < |page|
  }

  /** What a page sends: all of it, or its rows before the broken one. */
  function Sent<K, D>(broken: Option<nat>, page: seq<Row<K, D>>): seq<Row<K, D>> {
    if Breaks(broken, page) then page[..broken.value] else page
  }

  /** Writes a page row by row, up to one that does not marshal. */
  method Emit<K, D>(out: seq<Row<K, D>>, page: seq<Row<K, D>>, broken: Option<nat>)
    returns (out': seq<Row<K, D>>, ok: bool)
    ensures ok <==> !Breaks(broken, page)
    ensures out' == out + Sent(broken, page)
  {
    out', ok := out, true;
    for i := 0 to |page|
      invariant out' == out + page[..i] && ok && !(broken.Some? && broken.value < i)
    {
      if broken == Some(i) { return out', false; }
      out' := out' + [page[i]];
      assert page[..i + 1] == page[..i] + [page[i]];
    }
    assert page[..|page|] == page;
  }

  /** The stream ends with what this read could send. */
  function LastRead<K, D>(broken: Option<nat>, page: seq<Row<K, D>>): Stream<K, D> {
    Stream(Sent(broken, page), if Breaks(broken, page) then Aborted else Complete, 1)
  }

  lemma EndingRead<K, D>(less: (K, K) -> bool, projected: bool, limit: nat, start: Option<K>, script: seq<Read<K, D>>,
                         page: seq<Row<K, D>>)
    requires script != [] && script[0].Table? && page == Select(less, script[0].rows, start, limit)
    requires Breaks(script[0].broken, page) || |page| < limit
    ensures Drained(less, projected, limit, start, script) == LastRead(script[0].broken, page)
  {}

  lemma FullRead<K, D>(less: (K, K) -> bool, projected: bool, limit: nat, start: Option<K>, script: seq<Read<K, D>>,
                       page: seq<Row<K, D>>)
    requires script != [] && script[0].Table? && page == Select(less, script[0].rows, start, limit)
    requires !Breaks(script[0].broken, page) && |page| == limit > 0
    ensures Drained(less, projected, limit, start, script)
         == After(page, 1, Continued(less, projected, limit, NextAfter(page, projected, limit), script[1..]))
  {}

  /** Ahead keeps its stream folded: a proof that looks inside mentions Unfolded(0). */
  predicate Unfolded(k: int) { true }

  /** rest is the stream from a continuation cursor. */
  ghost predicate Ahead<K, D>(less: (K, K) -> bool, projected: bool, limit: nat, next: Option<K>,
                              script: seq<Read<K, D>>, rest: Stream<K, D>) {
    forall k {:trigger Unfolded(k)} :: Unfolded(k) ==> rest == Continued(less, projected, limit, next, script)
  }

  /** One read in the middle of a stream: what it sends, and the stream beyond it. */
  lemma ReadNext<K, D>(less: (K, K) -> bool, projected: bool, limit: nat, next: Option<K>, script: seq<Read<K, D>>,
                       n: nat, page: seq<Row<K, D>>, rest: Stream<K, D>)
    returns (more: Stream<K, D>)
    requires next.Some? && limit > 0 && n < |script| && script[n].Table?
             && page == Select(less, script[n].rows, next, limit)
    requires Ahead(less, projected, limit, next, script[n..], rest)
    ensures if Breaks(script[n].broken, page) || |page| < limit then
              more == Stream([], if Breaks(script[n].broken, page) then Aborted else Complete, 0)
            else Ahead(less, projected, limit, NextAfter(page, projected, limit), script[n + 1..], more)
    ensures rest == After(Sent(script[n].broken, page), 1, more)
  {
    assert Unfolded(0);
    if Breaks(script[n].broken, page) || |page| < limit {
      EndingRead(less, projected, limit, next, script[n..], page);
      more := Stream([], if Breaks(script[n].broken, page) then Aborted else Complete, 0);
      AfterNothing(Sent(script[n].broken, page), 1, more.end);
    } else {
      FullRead(less, projected, limit, next, script[n..], page);
      assert script[n..][1..] == script[n + 1..];
      more := Continued(less, projected, limit, NextAfter(page, projected, limit), script[n + 1..]);
    }
  }

  lemma ReadFails<K, D>(less: (K, K) -> bool, projected: bool, limit: nat, next: Option<K>, script: seq<Read<K, D>>,
                        n: nat, rest: Stream<K, D>)
    requires n <= |script| && (next.None? || n == |script| || script[n].Failed?)
    requires Ahead(less, projected, limit, next, script[n..], rest)
    ensures rest == Stream([], if next.None? then Unkeyed else Aborted, 0)
  {
    assert Unfolded(0);
    if next.Some? { assert Drained(less, projected, limit, next, script[n..]) == Stream([], Aborted, 0); }
  }

  /** Reads on from a continuation cursor, after sent went out over the first n reads. */
  method DrainOn<K, D>(less: (K, K) -> bool, projected: bool, sent: seq<Row<K, D>>, n: nat, cursor: Option<K>,
                       script: seq<Read<K, D>>, ghost rest: Stream<K, D>)
    returns (out: seq<Row<K, D>>, end: Ending, used: nat)
    requires n <= |script| && Ahead(less, projected, BATCH, cursor, script[n..], rest)
    ensures Stream(out, end, used) == After(sent, n, rest)
  {
    var next, ok := cursor, true;
    ghost var ahead := rest;
    out, end, used := sent, Unkeyed, n;
    while next.Some?
      invariant n <= used <= |script| && end == Unkeyed
      invariant Ahead(less, projected, BATCH, next, script[used..], ahead)
      invariant After(sent, n, rest) == After(out, used, ahead)
      decreases |script| - used, if next.Some? then 1 else 0
    {
      if used == |script| || script[used].Failed? {
        ReadFails(less, projected, BATCH, next, script, used, ahead);
        AfterNothing(out, used, Aborted);
        end := Aborted;
        return;
      }
      var read, batch := script[used], Select(less, script[used].rows, next, BATCH);
      ghost var more := ReadNext(less, projected, BATCH, next, script, used, batch, ahead);
      AfterTwo(out, used, Sent(read.broken, batch), 1, more);
      out, ok := Emit(out, batch, read.broken);
      used, ahead := used + 1, more;
      if !ok || |batch| < BATCH {
        end := if ok then Complete else Aborted;
        AfterNothing(out, used, end);
        return;
      }
      next := NextAfter(batch, projected, BATCH);
    }
    ReadFails(less, projected, BATCH, next, script, used, ahead);
    AfterNothing(out, used, Unkeyed);
  }

  /** Streams an endpoint from the given cursor to the end of its result, with each
      read's outcome supplied; a read beyond them fails. */
  method Drain<K, D>(less: (K, K) -> bool, projected: bool, start: Option<K>, script: seq<Read<K, D>>)
    returns (out: seq<Row<K, D>>, end: Ending, used: nat)
    ensures Stream(out, end, used) == Drained(less, projected, 1000, start, script)
  {
    if |script| == 0 || script[0].Failed? { return [], Aborted, 0; }
    var read, first := script[0], Select(less, script[0].rows, start, BATCH);
    var ok;
    out, ok := Emit([], first, read.broken);
    if !ok || |first| < BATCH {
      EndingRead(less, projected, BATCH, start, script, first);
      return out, if ok then Complete else Aborted, 1;
    }
    assert out == first;
    FullRead(less, projected, BATCH, start, script, first);
    ghost var rest := Continued(less, projected, BATCH, NextAfter(first, projected, BATCH), script[1..]);
    out, end, used := DrainOn(less, projected, first, 1, NextAfter(first, projected, BATCH), script, rest);
  }

  // ---------------------------------------------------------- what a stream holds

  /** Keyed rows strictly ascending, NULL-keyed ones after them. */
  ghost predicate Rising<K(!new), D(!new)>(less: (K, K) -> bool, out: seq<Row<K, D>>) {
    forall i, j :: 0 <= i < j < |out| && out[j].key.Some? ==>
      out[i].key.Some? && less(out[i].key.value, out[j].key.value)
  }

  /** The stream has passed r's place. */
  ghost predicate Reached<K(!new), D(!new)>(less: (K, K) -> bool, out: seq<Row<K, D>>, r: Row<K, D>) {
    out != [] && (out[|out| - 1].key.Some? && r.key.Some? ==> !less(out[|out| - 1].key.value, r.key.value))
  }

  ghost predicate InEvery<K(!new), D(!new)>(tables: seq<seq<Row<K, D>>>, r: Row<K, D>) {
    forall i :: 0 <= i < |tables| ==> r in tables[i]
  }

  ghost predicate InSome<K(!new), D(!new)>(tables: seq<seq<Row<K, D>>>, r: Row<K, D>) {
    exists i :: 0 <= i < |tables| && r in tables[i]
  }

  /** A stream from a cursor over the table states it read: in key order, nothing it
      did not read, and every keyed row that stayed put throughout and lies beyond the
      cursor: up to the last row sent, or without end if it is complete. */
  ghost predicate Covers<K(!new), D(!new)>(less: (K, K) -> bool, start: Option<K>, tables: seq<seq<Row<K, D>>>,
                                           out: seq<Row<K, D>>, complete: bool) {
    && Rising(less, out)
    && (forall r :: r in out ==> (start.Some? ==> r.key.Some? && less(start.value, r.key.value)) && InSome(tables, r))
    && (forall r: Row<K, D> ::
          && r.key.Some? && (start.Some? ==> less(start.value, r.key.value))
          && InEvery(tables, r) && (complete || Reached(less, out, r)) ==>
          r in out)
  }

  /** No duplicates: a keyed row is streamed at most once. */
  lemma KeyedOnce<K(!new), D(!new)>(less: (K, K) -> bool, out: seq<Row<K, D>>)
    requires StrictTotal(less) && Rising(less, out)
    ensures UniqueKeys(out)
    ensures forall r :: r in out && r.key.Some? ==> multiset(out)[r] == 1
  {
    UniqueCounts(out);
  }

  /** Rows of one key are one row, held once. */
  ghost predicate OneEach<K(!new), D(!new)>(m: multiset<Row<K, D>>) {
    && (forall a, b :: a in m && b in m && a.key.Some? && a.key == b.key ==> a == b)
    && (forall a :: a in m && a.key.Some? ==> m[a] == 1)
  }

  lemma {:induction false} UniqueCountsOne<K(!new), D(!new)>(s: seq<Row<K, D>>, a: Row<K, D>)
    requires UniqueKeys(s) && a in s && a.key.Some?
    ensures multiset(s)[a] == 1
  {
    var n := |s| - 1;
    assert s == s[..n] + [s[n]];
    if a == s[n] {
      assert a !in s[..n];
    } else {
      UniqueCountsOne(s[..n], a);
    }
  }

  lemma TwiceCountsTwo<T>(s: seq<T>, i: nat, j: nat)
    requires i < j < |s| && s[i] == s[j]
    ensures multiset(s)[s[i]] >= 2
  {
    assert s == s[..j] + [s[j]] + s[j + 1..];
    assert s[..j][i] == s[i];
  }

  lemma UniqueCounts<K(!new), D(!new)>(s: seq<Row<K, D>>)
    ensures UniqueKeys(s) <==> OneEach(multiset(s))
  {
    if UniqueKeys(s) {
      forall a | a in s && a.key.Some? ensures multiset(s)[a] == 1 { UniqueCountsOne(s, a); }
    } else {
      var i, j :| 0 <= i < j < |s| && s[i].key.Some? && s[i].key == s[j].key;
      if s[i] == s[j] { TwiceCountsTwo(s, i, j); }
    }
  }

  lemma {:induction false} MatchingCounts<K(!new), D(!new)>(less: (K, K) -> bool, rows: seq<Row<K, D>>,
                                            bound: Option<K>, r: Row<K, D>)
    ensures multiset(Matching(less, rows, bound))[r] == if Past(less, bound, r) then multiset(rows)[r] else 0
  {
    if rows != [] {
      var n := |rows| - 1;
      assert rows == rows[..n] + [rows[n]];
      MatchingCounts(less, rows[..n], bound, r);
    }
  }

  function Sorted<K, D>(less: (K, K) -> bool, rows: seq<Row<K, D>>, bound: Option<K>): seq<Row<K, D>> {
    Sort(RowLess(less), Matching(less, rows, bound))
  }

  lemma Asymmetric<K(!new)>(less: (K, K) -> bool, x: K, y: K)
    requires StrictTotal(less) && less(x, y)
    ensures !less(y, x)
  {}

  lemma NotLessChains<K(!new)>(less: (K, K) -> bool, x: K, y: K, z: K)
    requires StrictTotal(less) && !less(y, x) && !less(z, y)
    ensures !less(z, x)
  {
    if x != z {
      assert less(x, z) || less(z, x);
      Asymmetric(less, if less(x, z) then x else z, if less(x, z) then z else x);
    }
  }

  lemma RowLessAt<K, D>(less: (K, K) -> bool, a: Row<K, D>, b: Row<K, D>)
    ensures RowLess(less)(a, b) <==> a.key.Some? && (b.key.None? || less(a.key.value, b.key.value))
  {}

  lemma RowLessIsWeak<K(!new), D(!new)>(less: (K, K) -> bool)
    requires StrictTotal(less)
    ensures WeakOrder<Row<K, D>>(RowLess(less))
  {
    var rowLess: (Row<K, D>, Row<K, D>) -> bool := RowLess(less);
    forall a, b | rowLess(a, b) ensures !rowLess(b, a) {
      RowLessAt(less, a, b);
      RowLessAt(less, b, a);
      if b.key.Some? { Asymmetric(less, a.key.value, b.key.value); }
    }
    forall a, b, c | !rowLess(b, a) && !rowLess(c, b) ensures !rowLess(c, a) {
      RowLessAt(less, b, a);
      RowLessAt(less, c, b);
      RowLessAt(less, c, a);
      if c.key.Some? { NotLessChains(less, a.key.value, b.key.value, c.key.value); }
    }
  }

  /** The whole result: in order, and exactly the matching rows. */
  lemma SortedRises<K(!new), D(!new)>(less: (K, K) -> bool, rows: seq<Row<K, D>>, bound: Option<K>)
    requires StrictTotal(less) && UniqueKeys(rows)
    ensures Rising(less, Sorted(less, rows, bound))
    ensures forall r :: multiset(Sorted(less, rows, bound))[r] == if Past(less, bound, r) then multiset(rows)[r] else 0
  {
    var s := Sorted(less, rows, bound);
    RowLessIsWeak<K, D>(less);
    SortInOrder(RowLess(less), Matching(less, rows, bound));
    forall r ensures multiset(s)[r] == if Past(less, bound, r) then multiset(rows)[r] else 0 {
      MatchingCounts(less, rows, bound, r);
    }
    UniqueCounts(rows);
    forall a | a in multiset(s) ensures a in multiset(rows) {}
    assert OneEach(multiset(s));
    UniqueCounts(s);
    InOrderRises(less, s);
  }

  lemma InOrderRises<K(!new), D(!new)>(less: (K, K) -> bool, s: seq<Row<K, D>>)
    requires StrictTotal(less) && InOrder(RowLess(less), s) && UniqueKeys(s)
    ensures Rising(less, s)
  {
    forall i, j | 0 <= i < j < |s| && s[j].key.Some? ensures s[i].key.Some? && less(s[i].key.value, s[j].key.value) {
      assert !RowLess(less)(s[j], s[i]);
    }
  }

  /** Each page, or the part of it sent, is itself such a stream. */
  lemma PageCovers<K(!new), D(!new)>(less: (K, K) -> bool, rows: seq<Row<K, D>>, bound: Option<K>, limit: nat, n: nat)
    requires StrictTotal(less) && UniqueKeys(rows) && n <= |Select(less, rows, bound, limit)|
    ensures var page := Select(less, rows, bound, limit);
            Covers(less, bound, [rows], page[..n], n == |page| < limit)
  {
    var s, page := Sorted(less, rows, bound), Select(less, rows, bound, limit);
    SortedRises(less, rows, bound);
    PrefixCovers(less, rows, bound, s, n);
    assert page[..n] == s[..n];
  }

  lemma PrefixCovers<K(!new), D(!new)>(less: (K, K) -> bool, rows: seq<Row<K, D>>, bound: Option<K>, s: seq<Row<K, D>>,
                       n: nat)
    requires StrictTotal(less) && n <= |s| && Rising(less, s)
    requires forall r :: multiset(s)[r] == if Past(less, bound, r) then multiset(rows)[r] else 0
    ensures Covers(less, bound, [rows], s[..n], n == |s|)
  {
    var out := s[..n];
    assert n > 0 ==> out[n - 1] == s[n - 1];
    forall r | r in out ensures Past(less, bound, r) && InSome([rows], r) {
      assert r in multiset(s);
      assert r in multiset(rows);
      assert r in [rows][0];
    }
    forall r: Row<K, D> | r.key.Some? && Past(less, bound, r) && InEvery([rows], r)
                          && (n == |s| || Reached(less, out, r))
      ensures r in out
    {
      assert r in [rows][0];
      assert r in multiset(rows);
      assert r in multiset(s);
      var i :| 0 <= i < |s| && s[i] == r;
      if i < n { assert out[i] == r; } else { assert false; }
    }
  }

  /** A stream taken up again at the last key sent is one stream over both runs'
      table states. */
  lemma ResumeJoins<K(!new), D(!new)>(less: (K, K) -> bool, start: Option<K>, tables: seq<seq<Row<K, D>>>,
                      out: seq<Row<K, D>>,
                                      more: seq<seq<Row<K, D>>>, rest: seq<Row<K, D>>, complete: bool)
    requires StrictTotal(less) && Covers(less, start, tables, out, false)
    requires out != [] && out[|out| - 1].key.Some?
    requires Covers(less, out[|out| - 1].key, more, rest, complete)
    ensures Covers(less, start, tables + more, out + rest, complete)
  {
    var all, last := out + rest, out[|out| - 1];
    assert last in out;
    JoinRises(less, out, rest);
    forall r | r in all ensures Past(less, start, r) && InSome(tables + more, r) {
      if r in out {
        var i :| 0 <= i < |tables| && r in tables[i];
        assert r in (tables + more)[i];
      } else {
        assert r in rest;
        var i :| 0 <= i < |more| && r in more[i];
        assert r in (tables + more)[|tables| + i];
      }
    }
    forall r: Row<K, D> | r.key.Some? && Past(less, start, r) && InEvery(tables + more, r)
                          && (complete || Reached(less, all, r))
      ensures r in all
    {
      EveryParts(tables, more, r);
      if less(last.key.value, r.key.value) {
        assert rest != [] ==> all[|all| - 1] == rest[|rest| - 1];
        assert rest == [] ==> all == out;
        assert r in rest;
      } else {
        assert r in out;
      }
    }
  }

  lemma EveryParts<K(!new), D(!new)>(tables: seq<seq<Row<K, D>>>, more: seq<seq<Row<K, D>>>, r: Row<K, D>)
    requires InEvery(tables + more, r)
    ensures InEvery(tables, r) && InEvery(more, r)
  {
    forall i | 0 <= i < |tables| ensures r in tables[i] { assert (tables + more)[i] == tables[i]; }
    forall i | 0 <= i < |more| ensures r in more[i] { assert (tables + more)[|tables| + i] == more[i]; }
  }

  lemma JoinRises<K(!new), D(!new)>(less: (K, K) -> bool, out: seq<Row<K, D>>, rest: seq<Row<K, D>>)
    requires StrictTotal(less) && Rising(less, out) && Rising(less, rest)
    requires out != [] && out[|out| - 1].key.Some? && forall r :: r in rest ==> Past(less, out[|out| - 1].key, r)
    ensures Rising(less, out + rest)
  {
    var all, last := out + rest, out[|out| - 1];
    forall i, j | 0 <= i < j < |all| && all[j].key.Some?
      ensures all[i].key.Some? && less(all[i].key.value, all[j].key.value)
    {
      if i < |out| <= j {
        assert rest[j - |out|] in rest;
        assert i < |out| - 1 ==> out[i].key.Some? && less(out[i].key.value, last.key.value);
      }
    }
  }
}
