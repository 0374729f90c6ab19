/** The load collector of internal/daemon/loadhistory.go: series pushed in lockstep
    each tick, sealed each thirty ticks, and retired when idle. */
module LoadHistory {
  import opened Results
  import opened Ordering
  import opened LoadSeries
  import opened LoadSeed

  /** One tick's attributed reading. */
  datatype Sample = Sample(probed: bool, rowsOK: bool, engine: Option<Load>, entity: map<string, Load>,
                           rows: map<string, int>)

  const ENGINE := "engine"
  const PRUNE_SEALS := 60

  /** What the sample says of one entity: idle where the host answered and did not
      name it, unknown where nobody answered. */
  function TickFor(key: string, ts: Sample): Tick {
    Tick(if key == ENGINE then ts.engine
         else if key in ts.entity then Some(ts.entity[key])
         else if ts.probed then Some(Load(0.0, 0)) else None,
         if ts.rowsOK then Some(if key in ts.rows then ts.rows[key] else 0) else None)
  }

  /** slot is what the sample itself says of the series: the engine's own load, a named
      entity's, zero for one not named when the host answered, and else nothing (-1);
      and the rows captured, if the journal answered. */
  ghost predicate Reads(key: string, ts: Sample, slot: Slot) {
    && (if key == "engine" then
          if ts.engine.Some? then slot.cpu == ts.engine.value.cpu && slot.rss == ts.engine.value.rss
          else slot.cpu == -1.0 && slot.rss == 0
        else if key in ts.entity then slot.cpu == ts.entity[key].cpu && slot.rss == ts.entity[key].rss
        else slot.cpu == (if ts.probed then 0.0 else -1.0) && slot.rss == 0)
    && slot.rows == if !ts.rowsOK then -1 else if key in ts.rows then ts.rows[key] else 0
  }

  lemma TickReads(key: string, ts: Sample)
    ensures Reads(key, ts, FineSlot(TickFor(key, ts)))
  {}

  /** The persisted row of a bucket. */
  function BucketRow(key: string, at: int, b: seq<Tick>): LoadBucket {
    LoadBucket(key, at, if MaxCpu(b) > 0.0 then MaxCpu(b) else 0.0, MaxRss(b), MaxCpu(b) != NO_CPU,
               SumRows(b), RowsSampled(b))
  }

  // -------------------------------------------------------------- the state machine

  /** The collector's state, each series by its whole history. */
  datatype Collector = Collector(tick: nat, bucketTicks: nat, seals: nat, series: map<string, History>)

  function Named(ts: Sample): set<string> {
    {ENGINE} + ts.entity.Keys + ts.rows.Keys
  }

  function Newborn(birth: nat): History {
    History(birth, [], [], [], [])
  }

  /** Every named key with its history, newborn where it had none. */
  function Minted(m: map<string, History>, keys: set<string>, birth: nat): map<string, History> {
    map key | key in m.Keys + keys :: if key in m then m[key] else Newborn(birth)
  }

  /** The histories with the sample's tick pushed into those done. */
  function PushedTo(m: map<string, History>, ts: Sample, done: set<string>): map<string, History> {
    map key | key in m :: if key in done then Pushed(m[key], TickFor(key, ts)) else m[key]
  }

  function PushedAll(c: Collector, ts: Sample): map<string, History> {
    var m := Minted(c.series, Named(ts), c.tick);
    PushedTo(m, ts, m.Keys)
  }

  ghost predicate Kept(key: string, h: History) {
    key == ENGINE || !Idle(Sealed(h))
  }

  /** The histories with those done sealed, or dropped if idle then. */
  ghost function SealedFor(m: map<string, History>, done: set<string>): map<string, History> {
    map key | key in m && (key in done ==> Kept(key, m[key])) :: if key in done then Sealed(m[key]) else m[key]
  }

  ghost function SealedAll(m: map<string, History>): map<string, History> {
    SealedFor(m, m.Keys)
  }

  /** One recorded tick. */
  ghost function Step(c: Collector, ts: Sample): Collector {
    if c.bucketTicks + 1 < BUCKET_TICKS then Collector(c.tick + 1, c.bucketTicks + 1, c.seals, PushedAll(c, ts))
    else Collector(c.tick + 1, 0, c.seals + 1, SealedAll(PushedAll(c, ts)))
  }

  // ---------------------------------------------------------------- the collector

  lemma PushedOneMore(m: map<string, History>, ts: Sample, done: set<string>, key: string)
    requires key in m && key !in done
    ensures PushedTo(m, ts, done + {key}) == PushedTo(m, ts, done)[key := Pushed(m[key], TickFor(key, ts))]
  {}

  lemma MintedOneMore(m: map<string, History>, keys: set<string>, birth: nat, key: string)
    ensures Minted(m, keys + {key}, birth) == if key in Minted(m, keys, birth) then Minted(m, keys, birth)
                                              else Minted(m, keys, birth)[key := Newborn(birth)]
  {}

  lemma SealedOneMore(m: map<string, History>, done: set<string>, key: string)
    requires key in m && key !in done
    ensures key in SealedFor(m, done) && SealedFor(m, done)[key] == m[key]
    ensures SealedFor(m, done + {key}) == if Kept(key, m[key]) then SealedFor(m, done)[key := Sealed(m[key])]
                                          else SealedFor(m, done) - {key}
  {}

  /** The row of a series' running bucket, read before the seal resets it. */
  method RowOf(s: Series, key: string, at: int) returns (row: LoadBucket)
    requires s.Valid()
    ensures row == BucketRow(key, at, s.hist.partial)
  {
    assert Opened(0);
    row := LoadBucket(key, at, if s.bucketCPU > 0.0 then s.bucketCPU else 0.0, s.bucketRSS,
                      s.bucketCPU != NO_CPU, s.bucketRows, s.rowsSampled);
  }

  /** A series' own buckets, in order. */
  function OfSeries(rows: seq<LoadBucket>, key: string): seq<LoadBucket> {
    if rows == [] then []
    else
      var before, last := OfSeries(rows[..|rows| - 1], key), rows[|rows| - 1];
      if last.series == key then before + [last] else before
  }

  function SeriesIn(rows: seq<LoadBucket>): set<string> {
    set r | r in rows :: r.series
  }

  method GroupBySeries(rows: seq<LoadBucket>) returns (groups: map<string, seq<LoadBucket>>)
    ensures groups.Keys == SeriesIn(rows) && forall k :: k in groups ==> groups[k] == OfSeries(rows, k)
  {
    groups := map[];
    for i := 0 to |rows|
      invariant groups.Keys == SeriesIn(rows[..i])
      invariant forall k :: if k in groups then groups[k] == OfSeries(rows[..i], k) else OfSeries(rows[..i], k) == []
    {
      var b := rows[i];
      assert rows[..i + 1] == rows[..i] + [b];
      assert rows[..i + 1][..i] == rows[..i];
      groups := groups[b.series := (if b.series in groups then groups[b.series] else []) + [b]];
    }
    assert rows[..|rows|] == rows;
  }

  /** The histories with the read series replaced by seeded ones. */
  function SeededAll(m: map<string, History>, rows: seq<LoadBucket>, now: int, birth: nat,
                     keys: set<string>): map<string, History> {
    map k | k in m.Keys + keys :: if k in keys then History(birth, Seeded(OfSeries(rows, k), now), [], [], []) else m[k]
  }

  lemma SeededOneMore(m: map<string, History>, rows: seq<LoadBucket>, now: int, birth: nat, keys: set<string>,
                      key: string)
    ensures SeededAll(m, rows, now, birth, keys + {key})
         == SeededAll(m, rows, now, birth, keys)[key := History(birth, Seeded(OfSeries(rows, key), now), [], [], [])]
  {}

  /** One series as shown. */
  datatype Readout = Readout(key: string, cpu: seq<real>, rss: seq<int>, rows: seq<int>,
                             coarseCPU: seq<real>, coarseRSS: seq<int>, coarseRows: seq<int>)

  /** The coarse ring, with the running bucket's slot if it holds any tick. */
  function CoarseShown(h: History, running: bool): seq<Slot> {
    Coarse(h) + if running then [BucketSlot(h.partial)] else []
  }

  function ReadoutOf(key: string, h: History, running: bool): Readout {
    var fine, coarse := Fine(h), CoarseShown(h, running);
    Readout(key, Mapped(CpuOf(), fine), Mapped(RssOf(), fine), Mapped(RowsOf(), fine),
            Mapped(CpuOf(), coarse), Mapped(RssOf(), coarse), Mapped(RowsOf(), coarse))
  }

  /** One readout per series. */
  ghost predicate Shows(doc: seq<Readout>, hist: map<string, History>, running: bool) {
    forall u {:trigger Listed(u)} :: Listed(u) ==>
      && |doc| == |hist|
      && (forall r :: r in doc ==> r.key in hist && r == ReadoutOf(r.key, hist[r.key], running))
      && (forall k :: k in hist ==> ReadoutOf(k, hist[k], running) in doc)
  }

  method ReadSeries(key: string, s: Series, running: bool) returns (r: Readout)
    requires s.Valid()
    ensures r == ReadoutOf(key, s.hist, running)
  {
    assert Opened(0);
    r := Readout(key, s.cpu, s.rss, s.rows, s.coarseCPU, s.coarseRSS, s.coarseRows);
    if running {
      var partial := Slot(s.bucketCPU, s.bucketRSS, if s.rowsSampled then s.bucketRows else NO_SAMPLE);
      MappedPush(CpuOf(), Coarse(s.hist), partial);
      MappedPush(RssOf(), Coarse(s.hist), partial);
      MappedPush(RowsOf(), Coarse(s.hist), partial);
      r := r.(coarseCPU := r.coarseCPU + [partial.cpu], coarseRSS := r.coarseRSS + [partial.rss],
              coarseRows := r.coarseRows + [partial.rows]);
    } else {
      assert CoarseShown(s.hist, false) == Coarse(s.hist);
    }
  }

  class Loads {
    var tick: nat
    var bucketTicks: nat
    var seals: nat
    var engineLoad: Option<Load>
    var series: map<string, Series>
    ghost var hist: map<string, History>
    ghost var repr: set<object>

    /** Each key has its own series, holding that key's history. */
    ghost predicate Valid()
      reads `series, `hist, `repr, repr
    {
      && this !in repr && series.Keys == hist.Keys
      && (forall k :: k in series ==> series[k] in repr && series[k].Valid() && series[k].hist == hist[k])
      && (forall k, l :: k in series && l in series && series[k] == series[l] ==> k == l)
    }

    ghost function State(): Collector
      reads this
    {
      Collector(tick, bucketTicks, seals, hist)
    }

    constructor ()
      ensures Valid() && State() == Collector(0, 0, 0, map[]) && repr == {}
    {
      tick, bucketTicks, seals, engineLoad, series, hist, repr := 0, 0, 0, None, map[], map[], {};
    }

    /** Mints an empty series. */
    method Mint(key: string, ghost birth: nat)
      requires Valid() && key !in series
      modifies `series, `hist, `repr
      ensures Valid() && hist == old(hist)[key := Newborn(birth)]
      ensures fresh(repr - old(repr))
    {
      var s := new Series([], birth);
      series := series[key := s];
      hist, repr := hist[key := Newborn(birth)], repr + {s};
    }

    /** Mints an empty series for every key without one. */
    method Ensure(keys: set<string>, ghost birth: nat)
      requires Valid()
      modifies `series, `hist, `repr
      ensures Valid() && hist == Minted(old(hist), keys, birth)
      ensures fresh(repr - old(repr))
    {
      var walk := WalkKeys(keys);
      for i := 0 to |walk|
        invariant Valid() && hist == Minted(old(hist), Elements(walk[..i]), birth)
        invariant fresh(repr - old(repr))
      {
        ElementsOneMore(walk, i);
        MintedOneMore(old(hist), Elements(walk[..i]), birth, walk[i]);
        if walk[i] !in series { Mint(walk[i], birth); }
      }
      assert walk[..|walk|] == walk;
    }

    method PushOne(key: string, t: Tick)
      requires Valid() && key in series
      modifies `hist, repr
      ensures Valid() && hist == old(hist)[key := Pushed(old(hist)[key], t)]
    {
      series[key].Push(t);
      hist := hist[key := Pushed(hist[key], t)];
    }

    /** Every live series takes exactly one slot. */
    method PushAll(ts: Sample)
      requires Valid()
      modifies `hist, repr
      ensures Valid() && hist == PushedTo(old(hist), ts, old(hist).Keys)
    {
      var walk := WalkKeys(series.Keys);
      for i := 0 to |walk|
        invariant Valid() && hist == PushedTo(old(hist), ts, Elements(walk[..i]))
      {
        var key := walk[i];
        ElementsOneMore(walk, i);
        NextInWalk(walk, i);
        PushedOneMore(old(hist), ts, Elements(walk[..i]), key);
        PushOne(key, TickFor(key, ts));
      }
      assert walk[..|walk|] == walk;
    }

    method SealBucket(key: string)
      requires Valid() && key in series
      modifies `hist, repr
      ensures Valid() && hist == old(hist)[key := Sealed(old(hist)[key])]
    {
      series[key].Seal();
      hist := hist[key := Sealed(hist[key])];
    }

    /** Seals one series' bucket and drops the series if idle; its row to persist. */
    method SealOne(key: string, at: int) returns (row: LoadBucket)
      requires Valid() && key in series
      modifies `series, `hist, repr
      ensures Valid() && row == BucketRow(key, at, old(hist)[key].partial)
      ensures hist == if Kept(key, old(hist)[key]) then old(hist)[key := Sealed(old(hist)[key])] else old(hist) - {key}
    {
      row := RowOf(series[key], key, at);
      SealBucket(key);
      var dead := series[key].Dead();
      if key != ENGINE && dead {
        series, hist := series - {key}, hist - {key};
        assert hist == old(hist) - {key};
      }
    }

    /** Seals every series, keeping the rows to persist. */
    method SealAll(at: int) returns (sealed: seq<LoadBucket>)
      requires Valid()
      modifies `series, `hist, repr
      ensures Valid() && hist == SealedAll(old(hist)) && Rows(sealed, at, old(hist))
    {
      ghost var before := hist;
      var walk := WalkKeys(series.Keys);
      sealed := [];
      for i := 0 to |walk|
        invariant Valid() && hist == SealedFor(before, Elements(walk[..i]))
        invariant RowsSoFar(sealed, walk, i, at, before)
      {
        ElementsOneMore(walk, i);
        assert walk[i] in Elements(walk) && walk[i] !in walk[..i];
        SealedOneMore(before, Elements(walk[..i]), walk[i]);
        var row := SealOne(walk[i], at);
        RowsGrow(sealed, walk, i, at, before, row);
        sealed := sealed + [row];
      }
      assert walk[..|walk|] == walk;
      RowsOfWalk(sealed, walk, at, before);
    }

    /** Advances the tick and gives every series, newly named ones included, its slot. */
    method RecordTick(ts: Sample)
      requires Valid()
      modifies this, repr
      ensures Valid() && fresh(repr - old(repr)) && engineLoad == ts.engine
      ensures State() == Collector(old(tick) + 1, old(bucketTicks) + 1, old(seals), PushedAll(old(State()), ts))
    {
      ghost var birth := tick;
      tick, engineLoad, bucketTicks := tick + 1, ts.engine, bucketTicks + 1;
      Ensure({ENGINE} + ts.entity.Keys + ts.rows.Keys, birth);
      PushAll(ts);
    }

    /** Seals a full bucket; every sixtieth seal also prunes. */
    method CloseBucket(at: int) returns (sealed: seq<LoadBucket>, prune: bool)
      requires Valid()
      modifies `bucketTicks, `seals, `series, `hist, repr
      ensures Valid() && bucketTicks == 0 && seals == old(seals) + 1
      ensures hist == SealedAll(old(hist)) && Rows(sealed, at, old(hist))
      ensures prune <==> seals % 60 == 0
      ensures unchanged(`tick, `engineLoad, `repr)
    {
      bucketTicks := 0;
      sealed := SealAll(at);
      seals := seals + 1;
      prune := seals % PRUNE_SEALS == 0;
    }

    /** Takes one tick's sample: every series one slot, and a full bucket sealed. at
        is the clock's reading if it seals. */
    method Record(ts: Sample, at: int) returns (sealed: seq<LoadBucket>, prune: bool)
      requires Valid()
      modifies this, repr
      ensures Valid() && State() == Step(old(State()), ts) && fresh(repr - old(repr))
      ensures (if old(bucketTicks) < 29 then sealed == [] && !prune
               else Rows(sealed, at, PushedAll(old(State()), ts)) && (prune <==> seals % 60 == 0))
      ensures engineLoad == ts.engine
    {
      StepParts(State(), ts);
      RecordTick(ts);
      sealed, prune := [], false;
      if bucketTicks >= BUCKET_TICKS { sealed, prune := CloseBucket(at); }
    }

    /** Replays the persisted buckets, if they could be read, into a ring per series. */
    method Seed(read: Option<seq<LoadBucket>>, now: int)
      requires Valid()
      modifies `series, `hist, `repr
      ensures Valid() && fresh(repr - old(repr))
      ensures hist ==
              if read.None? then old(hist) else SeededAll(old(hist), read.value, now, tick, SeriesIn(read.value))
    {
      if read.None? { return; }
      var groups := GroupBySeries(read.value);
      var walk := WalkKeys(groups.Keys);
      for i := 0 to |walk|
        invariant Valid() && fresh(repr - old(repr))
        invariant hist == SeededAll(old(hist), read.value, now, tick, Elements(walk[..i]))
      {
        ElementsOneMore(walk, i);
        assert walk[i] in Elements(walk);
        SeededOneMore(old(hist), read.value, now, tick, Elements(walk[..i]), walk[i]);
        var ring := SeedRing(groups[walk[i]], now);
        SeedOne(walk[i], ring);
      }
      assert walk[..|walk|] == walk;
    }

    method SeedOne(key: string, ring: seq<Slot>)
      requires Valid() && |ring| <= COARSE_CAP
      modifies `series, `hist, `repr
      ensures Valid() && hist == old(hist)[key := History(tick, ring, [], [], [])]
      ensures fresh(repr - old(repr))
    {
      var s := new Series(ring, tick);
      series := series[key := s];
      hist, repr := hist[key := History(tick, ring, [], [], [])], repr + {s};
    }

    /** The recorded history as a document: nothing before the first tick; then every
        series with its rings, the running bucket as the newest coarse slot. */
    method Snapshot() returns (doc: Option<seq<Readout>>)
      requires Valid()
      ensures doc.None? <==> tick == 0
      ensures doc.Some? ==> Shows(doc.value, hist, bucketTicks > 0)
    {
      if tick == 0 { return None; }
      var walk := WalkKeys(series.Keys);
      var out: seq<Readout> := [];
      for i := 0 to |walk|
        invariant |out| == i && forall j :: 0 <= j < i ==>
                    walk[j] in hist && out[j] == ReadoutOf(walk[j], hist[walk[j]], bucketTicks > 0)
      {
        assert walk[i] in Elements(walk);
        var r := ReadSeries(walk[i], series[walk[i]], bucketTicks > 0);
        out := out + [r];
      }
      ReadoutsOfWalk(out, walk, hist, bucketTicks > 0);
      return Some(out);
    }
  }

  lemma StepParts(c: Collector, ts: Sample)
    ensures Step(c, ts).tick == c.tick + 1
    ensures Step(c, ts).bucketTicks == if c.bucketTicks + 1 < BUCKET_TICKS then c.bucketTicks + 1 else 0
    ensures Step(c, ts).seals == if c.bucketTicks + 1 < BUCKET_TICKS then c.seals else c.seals + 1
    ensures Step(c, ts).series ==
            if c.bucketTicks + 1 < BUCKET_TICKS then PushedAll(c, ts) else SealedAll(PushedAll(c, ts))
  {}

  /** The rows of the first n keys walked. */
  ghost predicate RowsSoFar(rows: seq<LoadBucket>, walk: seq<string>, n: nat, at: int, hist: map<string, History>) {
    && n == |rows| <= |walk|
    && forall j :: 0 <= j < n ==> walk[j] in hist && rows[j] == BucketRow(walk[j], at, hist[walk[j]].partial)
  }

  lemma RowsGrow(rows: seq<LoadBucket>, walk: seq<string>, n: nat, at: int, hist: map<string, History>, row: LoadBucket)
    requires RowsSoFar(rows, walk, n, at, hist) && n < |walk| && walk[n] in hist
    requires row == BucketRow(walk[n], at, hist[walk[n]].partial)
    ensures RowsSoFar(rows + [row], walk, n + 1, at, hist)
  {}

  lemma RowsOfWalk(rows: seq<LoadBucket>, walk: seq<string>, at: int, hist: map<string, History>)
    requires Distinct(walk) && Elements(walk) == hist.Keys && RowsSoFar(rows, walk, |walk|, at, hist)
    ensures Rows(rows, at, hist)
  {
    SizeTellsAll(walk, hist.Keys);
    forall k | k in hist ensures BucketRow(k, at, hist[k].partial) in rows {
      assert k in Elements(walk);
      var j :| 0 <= j < |walk| && walk[j] == k;
      assert rows[j] in rows;
    }
  }

  /** Rows keeps its details folded: a proof that looks inside mentions Listed(0). */
  predicate Listed(k: int) { true }

  /** One row per series, each its running bucket. */
  ghost predicate Rows(rows: seq<LoadBucket>, at: int, hist: map<string, History>) {
    forall u {:trigger Listed(u)} :: Listed(u) ==>
      && |rows| == |hist|
      && (forall i, j :: 0 <= i < j < |rows| ==> rows[i].series != rows[j].series)
      && (forall r :: r in rows ==> r.series in hist && r == BucketRow(r.series, at, hist[r.series].partial))
      && (forall k :: k in hist ==> BucketRow(k, at, hist[k].partial) in rows)
  }

  lemma ReadoutsOfWalk(doc: seq<Readout>, walk: seq<string>, hist: map<string, History>, running: bool)
    requires Distinct(walk) && Elements(walk) == hist.Keys && |doc| == |walk|
    requires forall j :: 0 <= j < |walk| ==> walk[j] in hist && doc[j] == ReadoutOf(walk[j], hist[walk[j]], running)
    ensures Shows(doc, hist, running)
  {
    SizeTellsAll(walk, hist.Keys);
    forall k | k in hist ensures ReadoutOf(k, hist[k], running) in doc {
      assert k in Elements(walk);
      var j :| 0 <= j < |walk| && walk[j] == k;
      assert doc[j] in doc;
    }
  }

  // ------------------------------------------------------------------ every run

  ghost function Run(c: Collector, samples: seq<Sample>): Collector {
    if samples == [] then c else Step(Run(c, samples[..|samples| - 1]), samples[|samples| - 1])
  }

  /** Before the first tick: no series, or seeded ones. */
  ghost predicate Starts(c: Collector) {
    c.tick == c.bucketTicks == c.seals == 0 && forall k :: k in c.series ==>
      c.series[k] == History(0, c.series[k].base, [], [], [])
  }

  /** The tick counter counts samples, thirty to a seal. */
  lemma {:induction false} ClockKeepsTime(c: Collector, samples: seq<Sample>)
    requires Starts(c)
    ensures var r := Run(c, samples);
            r.tick == |samples| && r.bucketTicks < 30 && r.tick == 30 * r.seals + r.bucketTicks
  {
    if samples != [] { ClockKeepsTime(c, samples[..|samples| - 1]); }
  }

  /** What samples lo to hi say of one entity. */
  function TicksOf(key: string, samples: seq<Sample>, lo: nat, hi: nat): (r: seq<Tick>)
    requires lo <= hi <= |samples|
    ensures |r| == hi - lo
  {
    seq(hi - lo, i requires 0 <= i < hi - lo => TickFor(key, samples[lo + i]))
  }

  function Later(a: nat, b: nat): nat {
    if a < b then b else a
  }

  /** The first tick, after birth, of bucket b. */
  function BucketStart(birth: nat, b: nat): nat {
    Later(birth, BUCKET_TICKS * b)
  }

  /** A history is exactly what the samples since its birth say, cut into the
      collector's own buckets. */
  ghost predicate Faithful(key: string, h: History, samples: seq<Sample>, seals: nat) {
    var first := h.birth / BUCKET_TICKS;
    && h.birth <= |samples| && BUCKET_TICKS * seals <= |samples| && |h.sealed| == seals - first
    && h.log == TicksOf(key, samples, h.birth, |samples|)
    && h.partial == TicksOf(key, samples, BucketStart(h.birth, seals), |samples|)
    && forall b :: first <= b < seals ==> HoldsBucket(key, h, samples, b)
  }

  /** Sealed bucket b, counted over the collector's whole life. */
  ghost predicate HoldsBucket(key: string, h: History, samples: seq<Sample>, b: int) {
    var i := b - h.birth / BUCKET_TICKS;
    0 <= i < |h.sealed| && BUCKET_TICKS * (b + 1) <= |samples| && BucketStart(h.birth, b) <= BUCKET_TICKS * (b + 1)
    && h.sealed[i] == TicksOf(key, samples, BucketStart(h.birth, b), BUCKET_TICKS * (b + 1))
  }

  lemma TicksOfMore(key: string, samples: seq<Sample>, ts: Sample, lo: nat)
    requires lo <= |samples|
    ensures TicksOf(key, samples + [ts], lo, |samples| + 1) == TicksOf(key, samples, lo, |samples|) + [TickFor(key, ts)]
  {}

  lemma TicksOfPrefix(key: string, samples: seq<Sample>, ts: Sample, lo: nat, hi: nat)
    requires lo <= hi <= |samples|
    ensures TicksOf(key, samples + [ts], lo, hi) == TicksOf(key, samples, lo, hi)
  {}

  lemma FaithfulPush(key: string, h: History, samples: seq<Sample>, seals: nat, ts: Sample)
    requires Faithful(key, h, samples, seals)
    ensures Faithful(key, Pushed(h, TickFor(key, ts)), samples + [ts], seals)
  {
    TicksOfMore(key, samples, ts, h.birth);
    TicksOfMore(key, samples, ts, BucketStart(h.birth, seals));
    forall b | h.birth / BUCKET_TICKS <= b < seals
      ensures HoldsBucket(key, Pushed(h, TickFor(key, ts)), samples + [ts], b)
    {
      assert HoldsBucket(key, h, samples, b);
      TicksOfPrefix(key, samples, ts, BucketStart(h.birth, b), BUCKET_TICKS * (b + 1));
    }
  }

  lemma FaithfulSeal(key: string, h: History, samples: seq<Sample>, seals: nat)
    requires Faithful(key, h, samples, seals) && |samples| == BUCKET_TICKS * (seals + 1)
    ensures Faithful(key, Sealed(h), samples, seals + 1)
  {
    var first := h.birth / BUCKET_TICKS;
    assert h.birth < BUCKET_TICKS * (first + 1);
    forall b | first <= b < seals + 1 ensures HoldsBucket(key, Sealed(h), samples, b) {
      if b < seals { assert HoldsBucket(key, h, samples, b); }
    }
  }

  lemma NewbornIsFaithful(key: string, samples: seq<Sample>, seals: nat)
    requires BUCKET_TICKS * seals <= |samples| < BUCKET_TICKS * (seals + 1)
    ensures Faithful(key, Newborn(|samples|), samples, seals) && |samples| / BUCKET_TICKS == seals
  {}

  /** Every live series holds exactly the samples since its birth. */
  ghost predicate AllFaithful(c: Collector, samples: seq<Sample>) {
    forall k :: k in c.series ==> Faithful(k, c.series[k], samples, c.seals)
  }

  /** The collector's clock after the samples. */
  ghost predicate OnTime(c: Collector, samples: seq<Sample>) {
    c.tick == |samples| && c.bucketTicks < BUCKET_TICKS && c.tick == BUCKET_TICKS * c.seals + c.bucketTicks
  }

  lemma PushedIsFaithful(c: Collector, samples: seq<Sample>, ts: Sample, k: string)
    requires AllFaithful(c, samples) && OnTime(c, samples) && k in PushedAll(c, ts)
    ensures Faithful(k, PushedAll(c, ts)[k], samples + [ts], c.seals)
  {
    if k in c.series {
      FaithfulPush(k, c.series[k], samples, c.seals, ts);
    } else {
      NewbornIsFaithful(k, samples, c.seals);
      FaithfulPush(k, Newborn(c.tick), samples, c.seals, ts);
    }
  }

  lemma StepIsFaithful(c: Collector, samples: seq<Sample>, ts: Sample)
    requires AllFaithful(c, samples) && OnTime(c, samples)
    ensures AllFaithful(Step(c, ts), samples + [ts])
  {
    var next := Step(c, ts);
    forall k | k in next.series ensures Faithful(k, next.series[k], samples + [ts], next.seals) {
      PushedIsFaithful(c, samples, ts, k);
      if c.bucketTicks + 1 == BUCKET_TICKS { FaithfulSeal(k, PushedAll(c, ts)[k], samples + [ts], c.seals); }
    }
  }

  /** After any run, each live series' history is exactly its samples since birth,
      cut into buckets at the collector's seals. */
  lemma {:induction false} RunIsFaithful(c: Collector, samples: seq<Sample>)
    requires Starts(c)
    ensures OnTime(Run(c, samples), samples) && AllFaithful(Run(c, samples), samples)
  {
    ClockKeepsTime(c, samples);
    if samples == [] {
      forall k | k in c.series ensures Faithful(k, c.series[k], samples, 0) {}
    } else {
      var init, last := samples[..|samples| - 1], samples[|samples| - 1];
      assert samples == init + [last];
      RunIsFaithful(c, init);
      StepIsFaithful(Run(c, init), init, last);
    }
  }

  // --------------------------------------------------------------- what rings show

  /** Counted from the end, a ring's slots are the history's. */
  lemma FromTheEnd(h: History, d: nat)
    ensures d < |Fine(h)| ==> d < |h.log| && Fine(h)[|Fine(h)| - 1 - d] == FineSlot(h.log[|h.log| - 1 - d])
    ensures d < |h.sealed| && d < COARSE_CAP ==>
              d < |Coarse(h)| && Coarse(h)[|Coarse(h)| - 1 - d] == BucketSlot(h.sealed[|h.sealed| - 1 - d])
  {
    var slots := h.base + Mapped(BucketSlot, h.sealed);
    if d < |h.sealed| && d < COARSE_CAP {
      assert slots[|slots| - 1 - d] == BucketSlot(h.sealed[|h.sealed| - 1 - d]);
    }
  }

  /** d slots back, the fine ring shows what the sample d ticks ago says. */
  ghost predicate ShowsTick(key: string, h: History, samples: seq<Sample>, d: nat) {
    d < |Fine(h)| <= |samples| && Reads(key, samples[|samples| - 1 - d], Fine(h)[|Fine(h)| - 1 - d])
  }

  /** slot sums up what the samples from lo to hi say. */
  ghost predicate BucketReads(key: string, samples: seq<Sample>, lo: nat, hi: nat, slot: Slot) {
    lo <= hi <= |samples|
    && exists fine: seq<Slot> ::
         |fine| == hi - lo && (forall i :: 0 <= i < |fine| ==> Reads(key, samples[lo + i], fine[i]))
         && SumsUp(fine, slot)
  }

  ghost predicate AllSensibleSamples(samples: seq<Sample>) {
    forall i :: 0 <= i < |samples| ==> SensibleSample(samples[i])
  }

  lemma TicksRead(key: string, samples: seq<Sample>, lo: nat, hi: nat)
    requires lo <= hi <= |samples| && AllSensibleSamples(samples)
    ensures BucketReads(key, samples, lo, hi, BucketSlot(TicksOf(key, samples, lo, hi)))
  {
    var b := TicksOf(key, samples, lo, hi);
    TicksAreSensible(key, samples, lo, hi);
    BucketSumsUp(b);
    forall i | 0 <= i < |b| ensures Reads(key, samples[lo + i], FineSlots(b)[i]) { TickReads(key, samples[lo + i]); }
  }

  /** d slots back, the coarse ring shows the bucket sealed d seals ago, over the
      ticks the series lived through. */
  ghost predicate ShowsBucket(key: string, h: History, samples: seq<Sample>, seals: nat, d: nat) {
    var b := seals - 1 - d;
    && d < |Coarse(h)| && 0 <= b && BucketStart(h.birth, b) <= BUCKET_TICKS * (b + 1) <= |samples|
    && BucketReads(key, samples, BucketStart(h.birth, b), BUCKET_TICKS * (b + 1), Coarse(h)[|Coarse(h)| - 1 - d])
  }

  lemma FaithfulShowsTick(key: string, h: History, samples: seq<Sample>, seals: nat, d: nat)
    requires Faithful(key, h, samples, seals) && d < |samples| - h.birth && d < 300
    ensures ShowsTick(key, h, samples, d)
  {
    FromTheEnd(h, d);
    TickReads(key, samples[|samples| - 1 - d]);
  }

  lemma CoarseIsTicks(key: string, h: History, samples: seq<Sample>, seals: nat, d: nat)
    requires Faithful(key, h, samples, seals) && d < seals - h.birth / 30 && d < 1440
    ensures var b := seals - 1 - d;
            && d < |Coarse(h)| && 0 <= b && BucketStart(h.birth, b) <= BUCKET_TICKS * (b + 1) <= |samples|
            && (Coarse(h)[|Coarse(h)| - 1 - d]
                == BucketSlot(TicksOf(key, samples, BucketStart(h.birth, b), BUCKET_TICKS * (b + 1))))
  {
    FromTheEnd(h, d);
    assert HoldsBucket(key, h, samples, seals - 1 - d);
  }

  lemma FaithfulShowsBucket(key: string, h: History, samples: seq<Sample>, seals: nat, d: nat)
    requires Faithful(key, h, samples, seals) && d < seals - h.birth / 30 && d < 1440 && AllSensibleSamples(samples)
    ensures ShowsBucket(key, h, samples, seals, d)
  {
    CoarseIsTicks(key, h, samples, seals, d);
    TicksRead(key, samples, BucketStart(h.birth, seals - 1 - d), BUCKET_TICKS * (seals - d));
  }

  /** Series of any age align from their ends: every live series' fine ring shows what
      its last 300 samples say, one slot each, and its coarse ring what the samples of
      its last 1440 buckets sum up to, each slot at the same distance from the end in
      all of them. */
  lemma RingsShowTheRun(c: Collector, samples: seq<Sample>, key: string, d: nat)
    requires Starts(c) && key in Run(c, samples).series
    ensures var r := Run(c, samples);
            var h := r.series[key];
            && (|Fine(h)| == if |samples| - h.birth <= 300 then |samples| - h.birth else 300)
            && (d < |samples| - h.birth && d < 300 ==> ShowsTick(key, h, samples, d))
            && (d < r.seals - h.birth / 30 && d < 1440 && AllSensibleSamples(samples) ==>
                  ShowsBucket(key, h, samples, r.seals, d))
  {
    RunIsFaithful(c, samples);
    var r := Run(c, samples);
    var h := r.series[key];
    if d < |samples| - h.birth && d < 300 { FaithfulShowsTick(key, h, samples, r.seals, d); }
    if d < r.seals - h.birth / 30 && d < 1440 && AllSensibleSamples(samples) {
      FaithfulShowsBucket(key, h, samples, r.seals, d);
    }
  }

  /** Every series a sample names is there from that tick on, until a seal can retire it;
      none is there that was not named. */
  lemma NamedAreLive(c: Collector, samples: seq<Sample>, ts: Sample, key: string)
    requires Starts(c)
    ensures var r, r' := Run(c, samples), Run(c, samples + [ts]);
            var named := key == "engine" || key in ts.entity || key in ts.rows;
            && (key in r'.series ==> key in r.series || named)
            && (r'.bucketTicks > 0 && (key in r.series || named) ==>
                  key in r'.series
                  && r'.series[key].birth == if key in r.series then r.series[key].birth else |samples|)
  {
    var r := Run(c, samples);
    ClockKeepsTime(c, samples);
    assert (samples + [ts])[..|samples|] == samples;
    StepParts(r, ts);
  }

  /** The slot of the running bucket sums up the samples since the last seal. */
  lemma RunningBucketShows(c: Collector, samples: seq<Sample>, key: string)
    requires Starts(c) && key in Run(c, samples).series && AllSensibleSamples(samples)
    ensures var r := Run(c, samples);
            var h := r.series[key];
            BucketReads(key, samples, BucketStart(h.birth, r.seals), |samples|, BucketSlot(h.partial))
  {
    RunIsFaithful(c, samples);
    var r := Run(c, samples);
    TicksRead(key, samples, BucketStart(r.series[key].birth, r.seals), |samples|);
  }

  /** Three parallel lists show a ring's slots. */
  ghost predicate Columns(cpu: seq<real>, rss: seq<int>, rows: seq<int>, ring: seq<Slot>) {
    && |cpu| == |rss| == |rows| == |ring|
    && forall i :: 0 <= i < |ring| ==> cpu[i] == ring[i].cpu && rss[i] == ring[i].rss && rows[i] == ring[i].rows
  }

  /** A readout is the series' two rings, the running bucket its newest coarse slot. */
  lemma ReadoutIs(key: string, h: History, running: bool)
    ensures var r, n := ReadoutOf(key, h, running), |Coarse(h)|;
            && r.key == key && Columns(r.cpu, r.rss, r.rows, Fine(h))
            && |r.coarseCPU| == |r.coarseRSS| == |r.coarseRows| == (if running then n + 1 else n)
            && Columns(r.coarseCPU[..n], r.coarseRSS[..n], r.coarseRows[..n], Coarse(h))
            && (running ==>
                  var now := BucketSlot(h.partial);
                  r.coarseCPU[n] == now.cpu && r.coarseRSS[n] == now.rss && r.coarseRows[n] == now.rows)
  {}

  // ------------------------------------------------------------------- retirement

  predicate SensibleSample(ts: Sample) {
    && (ts.engine.Some? ==> ts.engine.value.cpu >= 0.0 && ts.engine.value.rss >= 0)
    && (forall k :: k in ts.entity ==> ts.entity[k].cpu >= 0.0 && ts.entity[k].rss >= 0)
    && (forall k :: k in ts.rows ==> ts.rows[k] >= 0)
  }

  lemma TicksAreSensible(key: string, samples: seq<Sample>, lo: nat, hi: nat)
    requires lo <= hi <= |samples| && forall i :: 0 <= i < |samples| ==> SensibleSample(samples[i])
    ensures AllSensible(TicksOf(key, samples, lo, hi))
  {
    var ticks := TicksOf(key, samples, lo, hi);
    forall i | 0 <= i < |ticks| ensures Sensible(ticks[i]) {
      assert SensibleSample(samples[lo + i]) && ticks[i] == TickFor(key, samples[lo + i]);
    }
  }

  /** The sample has a positive reading of the series. */
  ghost predicate PositiveReading(key: string, ts: Sample) {
    || (key == "engine" && ts.engine.Some? && (ts.engine.value.cpu > 0.0 || ts.engine.value.rss > 0))
    || (key != "engine" && key in ts.entity && (ts.entity[key].cpu > 0.0 || ts.entity[key].rss > 0))
    || (ts.rowsOK && key in ts.rows && ts.rows[key] > 0)
  }

  lemma PositiveReadingTicks(key: string, ts: Sample)
    ensures PositiveReading(key, ts) <==> PositiveTick(TickFor(key, ts))
  {}

  /** A history with a positive tick in one of its last 1440 buckets is not idle. */
  lemma PositiveIsNotIdle(key: string, h: History, samples: seq<Sample>, seals: nat, u: nat)
    requires Faithful(key, h, samples, seals) && (forall i :: 0 <= i < |samples| ==> SensibleSample(samples[i]))
    requires h.birth <= u < BUCKET_TICKS * seals && seals - COARSE_CAP <= u / BUCKET_TICKS
    requires PositiveTick(TickFor(key, samples[u]))
    ensures !Idle(h)
  {
    var b := u / BUCKET_TICKS;
    assert HoldsBucket(key, h, samples, b);
    var lo := BucketStart(h.birth, b);
    TicksAreSensible(key, samples, lo, BUCKET_TICKS * (b + 1));
    PositiveTickShows(TicksOf(key, samples, lo, BUCKET_TICKS * (b + 1)), u - lo);
    RecentBucketKeeps(h, b - h.birth / BUCKET_TICKS);
  }

  /** One more sample keeps such a series. */
  lemma KeptByStep(c: Collector, samples: seq<Sample>, ts: Sample, key: string, u: nat)
    requires AllFaithful(c, samples) && OnTime(c, samples) && u <= |samples|
    requires forall i :: 0 <= i <= |samples| ==> SensibleSample((samples + [ts])[i])
    requires key in PushedAll(c, ts) && PushedAll(c, ts)[key].birth <= u
             && PositiveTick(TickFor(key, (samples + [ts])[u]))
    requires Step(c, ts).seals - COARSE_CAP <= u / BUCKET_TICKS
    ensures key in Step(c, ts).series && Step(c, ts).series[key].birth <= u
  {
    PushedIsFaithful(c, samples, ts, key);
    if c.bucketTicks + 1 == BUCKET_TICKS {
      var pushed := PushedAll(c, ts)[key];
      FaithfulSeal(key, pushed, samples + [ts], c.seals);
      PositiveIsNotIdle(key, Sealed(pushed), samples + [ts], c.seals + 1, u);
    }
  }

  lemma {:induction false} PositiveTickKeeps(c: Collector, samples: seq<Sample>, key: string, u: nat)
    requires Starts(c) && (forall i :: 0 <= i < |samples| ==> SensibleSample(samples[i]))
    requires u < |samples| && PositiveTick(TickFor(key, samples[u]))
    requires Run(c, samples).seals - COARSE_CAP <= u / BUCKET_TICKS
    ensures key in Run(c, samples).series && Run(c, samples).series[key].birth <= u
    decreases |samples|
  {
    var init, last := samples[..|samples| - 1], samples[|samples| - 1];
    var before := Run(c, init);
    assert samples == init + [last];
    RunIsFaithful(c, init);
    if u < |init| {
      PositiveTickKeeps(c, init, key, u);
    } else {
      assert key in Named(last);
    }
    KeptByStep(before, init, last, key, u);
  }

  /** Retirement never loses live history: a series of which a sample read something
      positive, in a bucket not older than the last 1440 seals, is still there, and was
      since that tick. */
  lemma PositiveKeepsSeries(c: Collector, samples: seq<Sample>, key: string, u: nat)
    requires Starts(c) && AllSensibleSamples(samples) && u < |samples| && PositiveReading(key, samples[u])
    requires Run(c, samples).seals - 1440 <= u / 30
    ensures key in Run(c, samples).series && Run(c, samples).series[key].birth <= u
  {
    PositiveReadingTicks(key, samples[u]);
    PositiveTickKeeps(c, samples, key, u);
  }

  /** Some slot the series keeps is positive. */
  ghost predicate HoldsPositive(h: History) {
    exists s :: (s in Fine(h) || s in Coarse(h)) && (s.cpu > 0.0 || s.rss > 0 || s.rows > 0)
  }

  lemma ClosingTick(n: nat, seals: nat, ticks: nat)
    requires n == 30 * seals + ticks && ticks < 30 && (n + 1) % 30 == 0
    ensures ticks + 1 == 30
  {}

  lemma {:induction false} StepRetires(c: Collector, ts: Sample, key: string)
    requires c.bucketTicks + 1 == 30 && key in Step(c, ts).series && key != "engine"
    ensures HoldsPositive(Step(c, ts).series[key])
  {
    var pushed := PushedAll(c, ts);
    assert key in SealedAll(pushed) && Kept(key, pushed[key]);
    NotIdleIsPositive(Step(c, ts).series[key]);
  }

  /** And it keeps nothing else: right after a seal every series but the engine's holds
      a positive slot, of one of the last 300 ticks or 1440 buckets. */
  lemma {:induction false} SealRetires(c: Collector, samples: seq<Sample>, key: string)
    requires Starts(c) && samples != [] && |samples| % 30 == 0 && key in Run(c, samples).series && key != "engine"
    ensures HoldsPositive(Run(c, samples).series[key])
  {
    var init := samples[..|samples| - 1];
    ClockKeepsTime(c, init);
    ClosingTick(|init|, Run(c, init).seals, Run(c, init).bucketTicks);
    StepRetires(Run(c, init), samples[|samples| - 1], key);
  }

  lemma NotIdleIsPositive(h: History)
    requires !Idle(h) && h.partial == []
    ensures HoldsPositive(h)
  {
    assert BucketSlot([]) == ABSENT;
    if i :| 0 <= i < |Fine(h)| && PositiveSlot(Fine(h)[i]) { assert Fine(h)[i] in Fine(h); }
    if i :| 0 <= i < |Coarse(h)| && PositiveSlot(Coarse(h)[i]) { assert Coarse(h)[i] in Coarse(h); }
  }

  /** The engine's series is never retired: it holds every sample since the first tick. */
  lemma {:induction false} EngineIsKept(c: Collector, samples: seq<Sample>)
    requires Starts(c) && samples != []
    ensures ENGINE in Run(c, samples).series
    ensures Run(c, samples).series[ENGINE].log == TicksOf(ENGINE, samples, 0, |samples|)
  {
    EngineBornFirst(c, samples);
    RunIsFaithful(c, samples);
  }

  lemma {:induction false} EngineBornFirst(c: Collector, samples: seq<Sample>)
    requires Starts(c) && samples != []
    ensures ENGINE in Run(c, samples).series && Run(c, samples).series[ENGINE].birth == 0
  {
    var init, last := samples[..|samples| - 1], samples[|samples| - 1];
    var before := Run(c, init);
    if init != [] { EngineBornFirst(c, init); }
    assert ENGINE in PushedAll(before, last) && PushedAll(before, last)[ENGINE].birth == 0;
  }
}
