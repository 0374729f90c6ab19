/** What a stream is, page by page: which rows each read serves, what of them goes out,
    and why the stream ends. */
module DrainTrace {
  import opened Results
  import opened Ordering
  import opened EndpointDrain

  // ----------------------------------------------------------------- one page

  /** Keyed rows by key, NULL-keyed ones last. */
  ghost predicate InKeyOrder<K(!new), D(!new)>(less: (K, K) -> bool, s: seq<Row<K, D>>) {
    forall i, j :: 0 <= i < j < |s| && s[j].key.Some? ==>
      s[i].key.Some? && !less(s[j].key.value, s[i].key.value)
  }

  ghost predicate PageOf<K(!new), D(!new)>(less: (K, K) -> bool, rows: seq<Row<K, D>>, bound: Option<K>, limit: nat,
                                           page: seq<Row<K, D>>, whole: seq<Row<K, D>>) {
    && page == (if |whole| <= limit then whole else whole[..limit]) && InKeyOrder(less, whole)
    && forall r :: multiset(whole)[r]
                   == if bound.Some? ==> r.key.Some? && less(bound.value, r.key.value) then multiset(rows)[r] else 0
  }

  /** The first rows, limit at most, of those beyond the bound in key order. */
  ghost predicate IsPage<K(!new), D(!new)>(less: (K, K) -> bool, rows: seq<Row<K, D>>, bound: Option<K>, limit: nat,
                                           page: seq<Row<K, D>>) {
    exists whole :: PageOf(less, rows, bound, limit, page, whole)
  }

  lemma SortedInKeyOrder<K(!new), D(!new)>(less: (K, K) -> bool, rows: seq<Row<K, D>>, bound: Option<K>)
    requires StrictTotal(less)
    ensures InKeyOrder(less, Sorted(less, rows, bound))
  {
    var s := Sorted(less, rows, bound);
    RowLessIsWeak<K, D>(less);
    SortInOrder(RowLess(less), Matching(less, rows, bound));
    forall i, j | 0 <= i < j < |s| && s[j].key.Some?
      ensures s[i].key.Some? && !less(s[j].key.value, s[i].key.value)
    {
      assert !RowLess(less)(s[j], s[i]);
    }
  }

  lemma SortedHolds<K(!new), D(!new)>(less: (K, K) -> bool, rows: seq<Row<K, D>>, bound: Option<K>)
    ensures forall r :: multiset(Sorted(less, rows, bound))[r]
                   == if bound.Some? ==> r.key.Some? && less(bound.value, r.key.value) then multiset(rows)[r] else 0
  {
    forall r { MatchingCounts(less, rows, bound, r); }
  }

  lemma SelectIsPage<K(!new), D(!new)>(less: (K, K) -> bool, rows: seq<Row<K, D>>, bound: Option<K>, limit: nat)
    requires StrictTotal(less)
    ensures IsPage(less, rows, bound, limit, Select(less, rows, bound, limit))
  {
    SortedInKeyOrder(less, rows, bound);
    SortedHolds(less, rows, bound);
    assert PageOf(less, rows, bound, limit, Select(less, rows, bound, limit), Sorted(less, rows, bound));
  }

  // -------------------------------------------------------------- the whole run

  /** The key a page leaves off at. */
  function LastOf<K, D>(page: seq<Row<K, D>>): Option<K> {
    if page == [] then None else page[|page| - 1].key
  }

  /** Where read i goes on: at the start, or beyond the page before. */
  function CursorOf<K, D>(start: Option<K>, pages: seq<seq<Row<K, D>>>, i: nat): Option<K>
    requires i <= |pages|
  {
    if i == 0 then start else LastOf(pages[i - 1])
  }

  /** A full page whose last key the client was served leads on. */
  ghost predicate GoesOn<K, D>(projected: bool, limit: nat, page: seq<Row<K, D>>) {
    |page| == limit && projected && LastOf(page).Some?
  }

  /** The read's page holds a row that does not marshal. */
  ghost predicate CutShort<K, D>(read: Read<K, D>, page: seq<Row<K, D>>) {
    read.Table? && read.broken.Some? && read.broken.value < |page|
  }

  type Reader<!K, !D> = (Read<K, D>, Option<K>, seq<Row<K, D>>) -> bool

  /** The read serves the page beyond the cursor. */
  ghost function Serves<K(!new), D(!new)>(less: (K, K) -> bool, limit: nat): Reader<K, D> {
    (read: Read<K, D>, cursor: Option<K>, page: seq<Row<K, D>>) =>
      read.Table? && IsPage(less, read.rows, cursor, limit, page)
  }

  ghost predicate PassesOn<K, D>(projected: bool, limit: nat, read: Read<K, D>, page: seq<Row<K, D>>) {
    !CutShort(read, page) && GoesOn(projected, limit, page)
  }

  ghost function Flat<T>(pages: seq<seq<T>>): seq<T> {
    if pages == [] then [] else pages[0] + Flat(pages[1..])
  }

  /** Each read that succeeded serves the page beyond the one before, and every page but
      the last leads on. */
  ghost predicate Served<K, D>(serves: Reader<K, D>, projected: bool, limit: nat, start: Option<K>,
                               script: seq<Read<K, D>>, pages: seq<seq<Row<K, D>>>) {
    && |pages| <= |script|
    && (forall i :: 0 <= i < |pages| ==> serves(script[i], CursorOf(start, pages, i), pages[i]))
    && (forall i :: 0 <= i < |pages| - 1 ==> PassesOn(projected, limit, script[i], pages[i]))
  }

  /** The stream sends those pages whole, the last one up to a row that does not marshal,
      and ends there; or on a short page; or on a full one that leads nowhere; or where
      the next read fails. */
  ghost predicate Sends<K, D>(projected: bool, limit: nat, script: seq<Read<K, D>>, pages: seq<seq<Row<K, D>>>,
                              s: Stream<K, D>)
    requires |pages| <= |script|
  {
    var n := |pages|;
    && s.used == n
    && if n > 0 && CutShort(script[n - 1], pages[n - 1]) then
         s.out == Flat(pages[..n - 1]) + pages[n - 1][..script[n - 1].broken.value] && s.end == Aborted
       else
         && s.out == Flat(pages)
         && if n == 0 || GoesOn(projected, limit, pages[n - 1]) then
              (n == |script| || script[n].Failed?) && s.end == Aborted
            else s.end == if |pages[n - 1]| < limit then Complete else Unkeyed
  }

  ghost predicate Traces<K, D>(serves: Reader<K, D>, projected: bool, limit: nat, start: Option<K>,
                               script: seq<Read<K, D>>, pages: seq<seq<Row<K, D>>>, s: Stream<K, D>) {
    Served(serves, projected, limit, start, script, pages) && Sends(projected, limit, script, pages, s)
  }

  lemma FlatOne<T>(page: seq<T>, pages: seq<seq<T>>)
    ensures Flat([page] + pages) == page + Flat(pages)
    ensures Flat([page]) == page
  {
    assert ([page] + pages)[1..] == pages;
    assert [page][1..] == [];
  }

  lemma OnePage<K, D>(serves: Reader<K, D>, projected: bool, limit: nat, start: Option<K>, script: seq<Read<K, D>>,
                      page: seq<Row<K, D>>, s: Stream<K, D>)
    requires script != [] && serves(script[0], start, page) && s.used == 1
    requires if CutShort(script[0], page) then s.out == page[..script[0].broken.value] && s.end == Aborted
             else s.out == page && !GoesOn(projected, limit, page)
                  && s.end == if |page| < limit then Complete else Unkeyed
    ensures Traces(serves, projected, limit, start, script, [page], s)
  {
    FlatOne(page, []);
    assert [page][..0] == [];
    assert [] + s.out == s.out;
  }

  lemma ServedOn<K, D>(serves: Reader<K, D>, projected: bool, limit: nat, start: Option<K>, script: seq<Read<K, D>>,
                       page: seq<Row<K, D>>, pages: seq<seq<Row<K, D>>>)
    requires script != [] && serves(script[0], start, page) && PassesOn(projected, limit, script[0], page)
    requires Served(serves, projected, limit, LastOf(page), script[1..], pages)
    ensures Served(serves, projected, limit, start, script, [page] + pages)
  {
    var all, rest := [page] + pages, script[1..];
    forall i | 0 <= i < |all| ensures serves(script[i], CursorOf(start, all, i), all[i]) {
      if i > 0 { assert serves(rest[i - 1], CursorOf(LastOf(page), pages, i - 1), pages[i - 1]); }
    }
    forall i | 0 <= i < |all| - 1 ensures PassesOn(projected, limit, script[i], all[i]) {
      if i > 0 { assert PassesOn(projected, limit, rest[i - 1], pages[i - 1]); }
    }
  }

  lemma SendsOn<K, D>(projected: bool, limit: nat, script: seq<Read<K, D>>, page: seq<Row<K, D>>,
                      pages: seq<seq<Row<K, D>>>, rest: Stream<K, D>)
    requires script != [] && PassesOn(projected, limit, script[0], page)
    requires |pages| <= |script| - 1 && Sends(projected, limit, script[1..], pages, rest)
    ensures Sends(projected, limit, script, [page] + pages, After(page, 1, rest))
  {
    var all, n := [page] + pages, |pages|;
    FlatOne(page, pages);
    if n > 0 {
      assert all[n] == pages[n - 1] && script[n] == script[1..][n - 1];
      assert all[..n] == [page] + pages[..n - 1];
      FlatOne(page, pages[..n - 1]);
    } else {
      assert all == [page];
    }
    assert n < |script| - 1 ==> script[1..][n] == script[n + 1];
  }

  lemma {:induction false} TraceOf<K, D>(less: (K, K) -> bool, serves: Reader<K, D>, projected: bool, limit: nat,
                                         start: Option<K>, script: seq<Read<K, D>>)
    returns (pages: seq<seq<Row<K, D>>>)
    requires limit > 0 && forall read: Read<K, D>, cursor ::
               read.Table? ==> serves(read, cursor, Select(less, read.rows, cursor, limit))
    ensures Traces(serves, projected, limit, start, script, pages, Drained(less, projected, limit, start, script))
    decreases |script|
  {
    if script == [] || script[0].Failed? {
      pages := [];
    } else {
      var page := Select(less, script[0].rows, start, limit);
      var s := Drained(less, projected, limit, start, script);
      pages := [page];
      if CutShort(script[0], page) || |page| < limit {
        EndingRead(less, projected, limit, start, script, page);
        OnePage(serves, projected, limit, start, script, page, s);
      } else {
        FullRead(less, projected, limit, start, script, page);
        if GoesOn(projected, limit, page) {
          var more := TraceOf(less, serves, projected, limit, LastOf(page), script[1..]);
          pages := [page] + more;
          ServedOn(serves, projected, limit, start, script, page, more);
          SendsOn(projected, limit, script, page, more, Drained(less, projected, limit, LastOf(page), script[1..]));
        } else {
          AfterNothing(page, 1, Unkeyed);
          OnePage(serves, projected, limit, start, script, page, s);
        }
      }
    }
  }

  /** Every stream is such a run of pages, whatever happens to the table between reads. */
  lemma DrainTraces<K(!new), D(!new)>(less: (K, K) -> bool, projected: bool, limit: nat, start: Option<K>,
                                      script: seq<Read<K, D>>)
    returns (pages: seq<seq<Row<K, D>>>)
    requires StrictTotal(less) && limit > 0
    ensures Traces(Serves(less, limit), projected, limit, start, script, pages,
                   Drained(less, projected, limit, start, script))
  {
    var serves: Reader<K, D> := Serves(less, limit);
    forall read: Read<K, D>, cursor | read.Table?
      ensures serves(read, cursor, Select(less, read.rows, cursor, limit))
    {
      SelectIsPage(less, read.rows, cursor, limit);
    }
    pages := TraceOf(less, serves, projected, limit, start, script);
  }
}
