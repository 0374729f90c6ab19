/** Every drain: what a stream holds whatever happens to the table between reads and
    however it ends. */
module DrainRuns {
  import opened Results
  import opened Ordering
  import opened EndpointDrain

  ghost predicate Unique<K(!new), D(!new)>(script: seq<Read<K, D>>) {
    forall i :: 0 <= i < |script| && script[i].Table? ==> UniqueKeys(script[i].rows)
  }

  function RowsRead<K, D>(r: Read<K, D>): seq<Row<K, D>> {
    if r.Table? then r.rows else []
  }

  /** The table states of the first n reads. */
  function TablesOf<K, D>(script: seq<Read<K, D>>, n: nat): seq<seq<Row<K, D>>>
    requires n <= |script|
  {
    seq(n, i requires 0 <= i < n => RowsRead(script[i]))
  }

  /** The stream covers the table states it read. */
  ghost predicate Sound<K(!new), D(!new)>(less: (K, K) -> bool, start: Option<K>, script: seq<Read<K, D>>,
                          s: Stream<K, D>) {
    && s.used <= |script| && (forall i :: 0 <= i < s.used ==> script[i].Table?)
    && Covers(less, start, TablesOf(script, s.used), s.out, s.end.Complete?)
  }

  lemma SoundOne<K(!new), D(!new)>(less: (K, K) -> bool, start: Option<K>, script: seq<Read<K, D>>,
                   out: seq<Row<K, D>>, end: Ending)
    requires script != [] && script[0].Table? && Covers(less, start, [script[0].rows], out, end.Complete?)
    ensures Sound(less, start, script, Stream(out, end, 1))
  {
    assert TablesOf(script, 1) == [script[0].rows];
  }

  lemma SoundOn<K(!new), D(!new)>(less: (K, K) -> bool, start: Option<K>, script: seq<Read<K, D>>,
                  page: seq<Row<K, D>>, rest: Stream<K, D>)
    requires StrictTotal(less) && script != [] && script[0].Table?
    requires Covers(less, start, [script[0].rows], page, false)
    requires page != [] && page[|page| - 1].key.Some? && Sound(less, page[|page| - 1].key, script[1..], rest)
    ensures Sound(less, start, script, After(page, 1, rest))
  {
    forall i | 0 <= i < rest.used + 1 ensures script[i].Table? {
      if i > 0 { assert script[1..][i - 1].Table?; }
    }
    assert TablesOf(script, rest.used + 1) == [script[0].rows] + TablesOf(script[1..], rest.used);
    ResumeJoins(less, start, [script[0].rows], page, TablesOf(script[1..], rest.used), rest.out, rest.end.Complete?);
  }

  /** Whatever happens to the table between reads and however the stream ends, it is
      ordered, sends no keyed row twice and skips none that stayed put up to the last
      key sent; ended by a short batch, it skips none at all. */
  lemma {:induction false} DrainCovers<K(!new), D(!new)>(less: (K, K) -> bool, projected: bool, limit: nat,
                                         start: Option<K>,
                                                        script: seq<Read<K, D>>)
    requires StrictTotal(less) && limit > 0 && Unique(script)
    ensures Sound(less, start, script, Drained(less, projected, limit, start, script))
    decreases |script|
  {
    if script != [] && script[0].Table? {
      var rows, broken := script[0].rows, script[0].broken;
      var page := Select(less, rows, start, limit);
      var sent := if broken.Some? && broken.value < |page| then broken.value else |page|;
      PageCovers(less, rows, start, limit, sent);
      assert page[..|page|] == page;
      if sent < |page| {
        SoundOne(less, start, script, page[..sent], Aborted);
      } else if |page| < limit {
        SoundOne(less, start, script, page, Complete);
      } else {
        var next := NextAfter(page, projected, limit);
        if next.Some? {
          DrainCovers(less, projected, limit, next, script[1..]);
          SoundOn(less, start, script, page, Drained(less, projected, limit, next, script[1..]));
        } else {
          SoundOne(less, start, script, page, Unkeyed);
          assert After(page, 1, Stream([], Unkeyed, 0)) == Stream(page, Unkeyed, 1);
        }
      }
    }
  }

  /** Every row is served a non-NULL sort value. */
  ghost predicate AllKeyed<K(!new), D(!new)>(rows: seq<Row<K, D>>) {
    forall r :: r in rows ==> r.key.Some?
  }

  /** The key a client resumes from: the last row's. */
  function LastKey<K, D>(s: Stream<K, D>): Option<K> {
    if s.out == [] then None else s.out[|s.out| - 1].key
  }

  /** Both streams in a row cover all the table states the two runs read. */
  ghost predicate Resumes<K(!new), D(!new)>(less: (K, K) -> bool, start: Option<K>, script: seq<Read<K, D>>,
                            s: Stream<K, D>,
                                            again: seq<Read<K, D>>, t: Stream<K, D>) {
    && s.used <= |script| && t.used <= |again|
    && Covers(less, start, TablesOf(script, s.used) + TablesOf(again, t.used), s.out + t.out, t.end.Complete?)
  }

  lemma SoundResumes<K(!new), D(!new)>(less: (K, K) -> bool, start: Option<K>, script: seq<Read<K, D>>, s: Stream<K, D>,
                                       again: seq<Read<K, D>>, t: Stream<K, D>)
    requires StrictTotal(less) && Sound(less, start, script, s) && LastKey(s).Some? && Sound(less, LastKey(s), again, t)
    ensures Resumes(less, start, script, s, again, t)
  {
    ResumeJoins(less, start, TablesOf(script, s.used), s.out, TablesOf(again, t.used), t.out, t.end.Complete?);
  }

  /** However a stream ended, taking it up again at the last key sent gives one
      stream over both runs' table states; complete if the second run is. */
  lemma ResumedDrain<K(!new), D(!new)>(less: (K, K) -> bool, projected: bool, limit: nat, start: Option<K>,
                                       script: seq<Read<K, D>>, again: seq<Read<K, D>>)
    requires StrictTotal(less) && limit > 0 && Unique(script) && Unique(again)
    ensures var s := Drained(less, projected, limit, start, script);
            var t := Drained(less, projected, limit, LastKey(s), again);
            LastKey(s).Some? ==> Resumes(less, start, script, s, again, t)
  {
    var s := Drained(less, projected, limit, start, script);
    var t := Drained(less, projected, limit, LastKey(s), again);
    DrainCovers(less, projected, limit, start, script);
    DrainCovers(less, projected, limit, LastKey(s), again);
    if LastKey(s).Some? { SoundResumes(less, start, script, s, again, t); }
  }

  ghost predicate KeysGiven<K(!new), D(!new)>(script: seq<Read<K, D>>) {
    forall i :: 0 <= i < |script| && script[i].Table? ==> AllKeyed(script[i].rows)
  }

  lemma PageFromTable<K(!new), D(!new)>(less: (K, K) -> bool, rows: seq<Row<K, D>>, bound: Option<K>, limit: nat,
                        r: Row<K, D>)
    requires r in Select(less, rows, bound, limit)
    ensures r in rows
  {
    MatchingCounts(less, rows, bound, r);
    assert r in Sorted(less, rows, bound);
    assert r in multiset(Sorted(less, rows, bound));
    assert r in multiset(rows);
  }

  /** A full page of keyed rows leads on. */
  lemma FullPageKey<K(!new), D(!new)>(less: (K, K) -> bool, limit: nat, start: Option<K>, rows: seq<Row<K, D>>)
    returns (key: Option<K>)
    requires |Select(less, rows, start, limit)| == limit > 0 && AllKeyed(rows)
    ensures key.Some? && key == NextAfter(Select(less, rows, start, limit), true, limit)
  {
    var page := Select(less, rows, start, limit);
    PageFromTable(less, rows, start, limit, page[limit - 1]);
    key := page[limit - 1].key;
  }

  lemma KeysGivenAfter<K(!new), D(!new)>(script: seq<Read<K, D>>)
    requires KeysGiven(script) && script != []
    ensures KeysGiven(script[1..]) && (script[0].Table? ==> AllKeyed(script[0].rows))
  {}

  /** With the sort column projected and never NULL, a stream ends only on a short
      batch or a failed read. */
  lemma {:induction false} NeverUnkeyed<K(!new), D(!new)>(less: (K, K) -> bool, limit: nat, start: Option<K>,
                                          script: seq<Read<K, D>>)
    requires limit > 0 && KeysGiven(script)
    ensures !Drained(less, true, limit, start, script).end.Unkeyed?
    decreases |script|
  {
    if script != [] && script[0].Table? {
      var page := Select(less, script[0].rows, start, limit);
      if Breaks(script[0].broken, page) || |page| < limit {
        EndingRead(less, true, limit, start, script, page);
      } else {
        KeysGivenAfter(script);
        var key := FullPageKey(less, limit, start, script[0].rows);
        FullRead(less, true, limit, start, script, page);
        NeverUnkeyed(less, limit, key, script[1..]);
        assert Drained(less, true, limit, start, script)
                == After(page, 1, Drained(less, true, limit, key, script[1..]));
      }
    }
  }
}
