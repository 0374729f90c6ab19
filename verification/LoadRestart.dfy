/** A daemon restart: the collecting loop of internal/daemon/loadhistory.go, the table its
    seals are written to, and what the next start seeds from it. */
module LoadRestart {
  import opened Results
  import opened LoadSeries
  import opened LoadSeed
  import opened LoadHistory

  // ------------------------------------------------------------------ the loop

  /** A collector as it starts: blank, or seeded if the table could be read. */
  function Fresh(read: Option<seq<LoadBucket>>, now: int): Collector {
    Collector(0, 0, 0, if read.None? then map[] else SeededAll(map[], read.value, now, 0, SeriesIn(read.value)))
  }

  /** The collector before the tick that closes bucket b. */
  ghost function BeforeSeal(c: Collector, samples: seq<Sample>, b: nat): Collector
    requires BUCKET_TICKS * (b + 1) <= |samples|
  {
    Run(c, samples[..BUCKET_TICKS * (b + 1) - 1])
  }

  /** The series as seal b finds them. */
  ghost function AtSeal(c: Collector, samples: seq<Sample>, b: nat): map<string, History>
    requires BUCKET_TICKS * (b + 1) <= |samples|
  {
    PushedAll(BeforeSeal(c, samples, b), samples[BUCKET_TICKS * (b + 1) - 1])
  }

  /** Wrote and SealRows keep their details folded: a proof that looks inside mentions
      Written(0) or Closed(0). */
  predicate Written(k: int) { true }

  predicate Closed(k: int) { true }

  /** A batch holds a row of each series live at seal b. */
  ghost predicate SealRows(batch: seq<LoadBucket>, at: int, c: Collector, samples: seq<Sample>, b: nat) {
    forall u {:trigger Closed(u)} :: Closed(u) ==>
      BUCKET_TICKS * (b + 1) <= |samples| && Rows(batch, at, AtSeal(c, samples, b))
  }

  /** What a run hands the table: a batch per seal. */
  ghost predicate Wrote(batches: seq<seq<LoadBucket>>, c: Collector, samples: seq<Sample>, stamp: int -> int) {
    forall u {:trigger Written(u)} :: Written(u) ==>
      && BUCKET_TICKS * |batches| <= |samples| < BUCKET_TICKS * (|batches| + 1)
      && forall b :: 0 <= b < |batches| ==> SealRows(batches[b], stamp(b), c, samples, b)
  }

  lemma TakeMore<T>(s: seq<T>, i: nat)
    requires i < |s|
    ensures s[..i] + [s[i]] == s[..i + 1]
  {}

  lemma {:induction false} BeforeOfPrefix(c: Collector, samples: seq<Sample>, ts: Sample, b: nat)
    requires BUCKET_TICKS * (b + 1) <= |samples|
    ensures BeforeSeal(c, samples + [ts], b) == BeforeSeal(c, samples, b)
    ensures (samples + [ts])[BUCKET_TICKS * (b + 1) - 1] == samples[BUCKET_TICKS * (b + 1) - 1]
  {
    var n := BUCKET_TICKS * (b + 1) - 1;
    assert (samples + [ts])[..n] == samples[..n];
  }

  lemma SamePushed(r: Collector, ts: Sample, r': Collector, ts': Sample)
    requires r == r' && ts == ts'
    ensures PushedAll(r, ts) == PushedAll(r', ts')
  {}

  lemma {:induction false} RunMore(c: Collector, samples: seq<Sample>, ts: Sample)
    ensures Run(c, samples + [ts]) == Step(Run(c, samples), ts)
  {
    assert (samples + [ts])[..|samples|] == samples;
  }

  lemma {:induction false} SealRowsStay(batch: seq<LoadBucket>, at: int, c: Collector, samples: seq<Sample>,
                                        ts: Sample, b: nat)
    requires SealRows(batch, at, c, samples, b)
    ensures SealRows(batch, at, c, samples + [ts], b)
  {
    assert Closed(0);
    BeforeOfPrefix(c, samples, ts, b);
    var n := BUCKET_TICKS * (b + 1) - 1;
    SamePushed(BeforeSeal(c, samples, b), samples[n], BeforeSeal(c, samples + [ts], b), (samples + [ts])[n]);
  }

  lemma {:induction false} AllRowsStay(batches: seq<seq<LoadBucket>>, c: Collector, samples: seq<Sample>, ts: Sample,
                                       stamp: int -> int)
    requires forall b :: 0 <= b < |batches| ==> SealRows(batches[b], stamp(b), c, samples, b)
    ensures forall b :: 0 <= b < |batches| ==> SealRows(batches[b], stamp(b), c, samples + [ts], b)
  {
    forall b | 0 <= b < |batches| ensures SealRows(batches[b], stamp(b), c, samples + [ts], b) {
      SealRowsStay(batches[b], stamp(b), c, samples, ts, b);
    }
  }

  lemma {:induction false} WroteTick(batches: seq<seq<LoadBucket>>, c: Collector, samples: seq<Sample>, ts: Sample,
                                     stamp: int -> int)
    requires Wrote(batches, c, samples, stamp) && |samples| + 1 < BUCKET_TICKS * (|batches| + 1)
    ensures Wrote(batches, c, samples + [ts], stamp)
  {
    assert Written(0);
    AllRowsStay(batches, c, samples, ts, stamp);
  }

  lemma AllAppended<T>(s: seq<T>, x: T, p: (T, int) -> bool)
    requires (forall i :: 0 <= i < |s| ==> p(s[i], i)) && p(x, |s|)
    ensures forall i :: 0 <= i < |s + [x]| ==> p((s + [x])[i], i)
  {}

  lemma {:induction false} WroteSeal(batches: seq<seq<LoadBucket>>, c: Collector, samples: seq<Sample>, ts: Sample,
                                     sealed: seq<LoadBucket>, stamp: int -> int)
    requires Wrote(batches, c, samples, stamp) && |samples| + 1 == BUCKET_TICKS * (|batches| + 1)
    requires SealRows(sealed, stamp(|batches|), c, samples + [ts], |batches|)
    ensures Wrote(batches + [sealed], c, samples + [ts], stamp)
  {
    assert Written(0);
    AllRowsStay(batches, c, samples, ts, stamp);
    AllAppended(batches, sealed, (batch, b) => 0 <= b ==> SealRows(batch, stamp(b), c, samples + [ts], b));
  }

  /** r is what the samples make of c, folded as Wrote is. */
  ghost predicate Reached(r: Collector, c: Collector, samples: seq<Sample>) {
    forall u {:trigger Closed(u)} :: Closed(u) ==> Starts(c) && r == Run(c, samples)
  }

  lemma {:induction false} ReachedMore(r: Collector, c: Collector, samples: seq<Sample>, ts: Sample)
    requires Reached(r, c, samples)
    ensures OnTime(r, samples) && Reached(Step(r, ts), c, samples + [ts])
  {
    assert Closed(0);
    ClockKeepsTime(c, samples);
    RunMore(c, samples, ts);
  }

  /** Rows of what r pushes are rows of the seal that closes its bucket. */
  lemma {:induction false} RowsOfSeal(r: Collector, c: Collector, samples: seq<Sample>, ts: Sample,
                                      sealed: seq<LoadBucket>,
                                      at: int, b: nat)
    requires Reached(r, c, samples) && BUCKET_TICKS * (b + 1) == |samples| + 1 && Rows(sealed, at, PushedAll(r, ts))
    ensures SealRows(sealed, at, c, samples + [ts], b)
  {
    assert Closed(0);
    assert (samples + [ts])[..|samples|] == samples;
  }

  lemma BatchesAreSeals(n: nat, batches: nat, seals: nat, ticks: nat)
    requires n == BUCKET_TICKS * seals + ticks && ticks < BUCKET_TICKS
    requires BUCKET_TICKS * batches <= n < BUCKET_TICKS * (batches + 1)
    ensures seals == batches
  {}

  lemma {:induction false} SealsSomething(sealed: seq<LoadBucket>, at: int, c: Collector, ts: Sample)
    requires Rows(sealed, at, PushedAll(c, ts))
    ensures sealed != []
  {
    assert ENGINE in Named(ts) && ENGINE in PushedAll(c, ts) && Listed(0);
  }

  /** One more tick recorded by the collector r, at its seal if it closes a bucket. */
  lemma {:induction false} RecordedMore(batches: seq<seq<LoadBucket>>, c: Collector, r: Collector, samples: seq<Sample>,
                                        ts: Sample, sealed: seq<LoadBucket>, stamp: int -> int)
    requires Reached(r, c, samples) && Wrote(batches, c, samples, stamp)
    requires if r.bucketTicks + 1 < BUCKET_TICKS then sealed == [] else Rows(sealed, stamp(|batches|), PushedAll(r, ts))
    ensures Reached(Step(r, ts), c, samples + [ts])
    ensures Wrote(if sealed == [] then batches else batches + [sealed], c, samples + [ts], stamp)
  {
    ReachedMore(r, c, samples, ts);
    assert Written(0);
    BatchesAreSeals(|samples|, |batches|, r.seals, r.bucketTicks);
    if r.bucketTicks + 1 < BUCKET_TICKS {
      WroteTick(batches, c, samples, ts, stamp);
    } else {
      SealsSomething(sealed, stamp(|batches|), r, ts);
      RowsOfSeal(r, c, samples, ts, sealed, stamp(|batches|), |batches|);
      WroteSeal(batches, c, samples, ts, sealed, stamp);
    }
  }

  lemma {:induction false} NothingRecorded(read: Option<seq<LoadBucket>>, now: int, stamp: int -> int)
    ensures Reached(Fresh(read, now), Fresh(read, now), []) && Wrote([], Fresh(read, now), [], stamp)
  {}

  lemma {:induction false} IsReached(r: Collector, c: Collector, samples: seq<Sample>)
    requires Reached(r, c, samples)
    ensures Starts(c) && r == Run(c, samples)
  {
    assert Closed(0);
  }

  method Start(read: Option<seq<LoadBucket>>, now: int) returns (h: Loads)
    ensures h.Valid() && fresh(h) && fresh(h.repr) && h.State() == Fresh(read, now)
  {
    h := new Loads();
    h.Seed(read, now);
  }

  /** The collector's loop: the seed, then a sample a tick, each seal's rows written.
      stamp(b) is the clock's reading at seal b. */
  method Collect(read: Option<seq<LoadBucket>>, now: int, samples: seq<Sample>, stamp: int -> int)
    returns (h: Loads, batches: seq<seq<LoadBucket>>)
    ensures h.Valid() && h.State() == Run(Fresh(read, now), samples)
    ensures Starts(Fresh(read, now)) && Wrote(batches, Fresh(read, now), samples, stamp)
  {
    h := Start(read, now);
    batches := [];
    ghost var c := h.State();
    NothingRecorded(read, now, stamp);
    for i := 0 to |samples|
      invariant fresh(h) && fresh(h.repr) && h.Valid()
      invariant Reached(h.State(), c, samples[..i]) && Wrote(batches, c, samples[..i], stamp)
    {
      ghost var r := h.State();
      var sealed, _ := h.Record(samples[i], stamp(|batches|));
      RecordedMore(batches, c, r, samples[..i], samples[i], sealed, stamp);
      TakeMore(samples, i);
      if sealed != [] { batches := batches + [sealed]; }
    }
    assert samples[..|samples|] == samples;
    IsReached(h.State(), c, samples);
  }

  // ------------------------------------------------------------------ the table

  /** What the next start reads: the batches kept, in seal order. A batch is not kept
      if its write failed, it was pruned, or it is outside the window read. */
  function Table(batches: seq<seq<LoadBucket>>, kept: int -> bool): seq<LoadBucket> {
    if batches == [] then []
    else
      var n := |batches| - 1;
      Table(batches[..n], kept) + if kept(n) then batches[n] else []
  }

  lemma {:induction false} OfSeriesConcat(a: seq<LoadBucket>, b: seq<LoadBucket>, key: string)
    ensures OfSeries(a + b, key) == OfSeries(a, key) + OfSeries(b, key)
  {
    if b == [] {
      assert a + b == a;
    } else {
      OfSeriesConcat(a, b[..|b| - 1], key);
      assert (a + b)[..|a + b| - 1] == a + b[..|b| - 1];
    }
  }

  lemma {:induction false} NoneOfSeries(rows: seq<LoadBucket>, key: string)
    requires forall i :: 0 <= i < |rows| ==> rows[i].series != key
    ensures OfSeries(rows, key) == []
  {
    if rows != [] { NoneOfSeries(rows[..|rows| - 1], key); }
  }

  lemma {:induction false} OneOfSeries(rows: seq<LoadBucket>, key: string, k: nat)
    requires k < |rows| && rows[k].series == key
    requires forall i :: 0 <= i < |rows| && i != k ==> rows[i].series != key
    ensures OfSeries(rows, key) == [rows[k]]
  {
    if k == |rows| - 1 {
      NoneOfSeries(rows[..k], key);
    } else {
      OneOfSeries(rows[..|rows| - 1], key, k);
    }
  }

  /** A batch holds one row of each live series. */
  lemma BatchOfSeries(batch: seq<LoadBucket>, at: int, hist: map<string, History>, key: string)
    requires Rows(batch, at, hist)
    ensures OfSeries(batch, key) == if key in hist then [BucketRow(key, at, hist[key].partial)] else []
  {
    assert Listed(0);
    if key in hist {
      var k :| 0 <= k < |batch| && batch[k] == BucketRow(key, at, hist[key].partial);
      OneOfSeries(batch, key, k);
    } else {
      forall i | 0 <= i < |batch| ensures batch[i].series != key { assert batch[i] in batch; }
      NoneOfSeries(batch, key);
    }
  }

  /** The numbers below n that p holds of, in order. */
  ghost function Picked(p: int -> bool, n: nat): (nums: seq<int>)
    ensures forall i :: 0 <= i < |nums| ==> 0 <= nums[i] < n && p(nums[i])
    ensures forall i, j :: 0 <= i < j < |nums| ==> nums[i] < nums[j]
    ensures forall b :: 0 <= b < n && p(b) ==> b in nums
  {
    if n == 0 then [] else Picked(p, n - 1) + if p(n - 1) then [n - 1] else []
  }

  function Both(p: int -> bool, q: int -> bool): int -> bool {
    b => p(b) && q(b)
  }

  /** If batch b's row of the series is row(b) when live(b) and it has none otherwise,
      the series' rows in the table are those of the seals kept and live. */
  lemma {:induction false} TableOfSeries(batches: seq<seq<LoadBucket>>, kept: int -> bool, key: string,
                                         live: int -> bool,
                                         row: int -> LoadBucket, n: nat)
    requires n <= |batches|
    requires forall b :: 0 <= b < n ==> OfSeries(batches[b], key) == if live(b) then [row(b)] else []
    ensures var nums := Picked(Both(kept, live), n);
            OfSeries(Table(batches[..n], kept), key) == seq(|nums|, i requires 0 <= i < |nums| => row(nums[i]))
  {
    if n > 0 {
      assert batches[..n][..n - 1] == batches[..n - 1];
      TableOfSeries(batches, kept, key, live, row, n - 1);
      OfSeriesConcat(Table(batches[..n - 1], kept), if kept(n - 1) then batches[n - 1] else [], key);
      assert OfSeries([], key) == [];
    }
  }

  /** Whether seal b finds the series live. */
  ghost predicate IsLive(c: Collector, samples: seq<Sample>, key: string, b: int) {
    0 <= b && BUCKET_TICKS * (b + 1) <= |samples| && key in AtSeal(c, samples, b)
  }

  ghost function Live(c: Collector, samples: seq<Sample>, key: string): int -> bool {
    b => IsLive(c, samples, key, b)
  }

  /** What seal b persists of the series. */
  ghost function RowAt(c: Collector, samples: seq<Sample>, stamp: int -> int, key: string): int -> LoadBucket {
    b => BucketRow(key, stamp(b), if IsLive(c, samples, key, b) then AtSeal(c, samples, b)[key].partial else [])
  }

  /** The seals whose row of the series the table still holds, in order. */
  ghost function HeldSeals(c: Collector, samples: seq<Sample>, kept: int -> bool, key: string): seq<int> {
    Picked(Both(kept, Live(c, samples, key)), |samples| / BUCKET_TICKS)
  }

  lemma {:induction false} BatchRead(batch: seq<LoadBucket>, c: Collector, samples: seq<Sample>, stamp: int -> int,
                                     key: string,
                                     b: nat)
    requires SealRows(batch, stamp(b), c, samples, b)
    ensures OfSeries(batch, key) == if Live(c, samples, key)(b) then [RowAt(c, samples, stamp, key)(b)] else []
  {
    assert Closed(0);
    BatchOfSeries(batch, stamp(b), AtSeal(c, samples, b), key);
  }

  /** The series' rows as the next start reads them. */
  lemma {:induction false} RowsRead(batches: seq<seq<LoadBucket>>, c: Collector, samples: seq<Sample>,
                                    stamp: int -> int,
                                    kept: int -> bool, key: string)
    requires Wrote(batches, c, samples, stamp)
    ensures var rows, nums := OfSeries(Table(batches, kept), key), HeldSeals(c, samples, kept, key);
            rows == seq(|nums|, i requires 0 <= i < |nums| => RowAt(c, samples, stamp, key)(nums[i]))
  {
    assert Written(0);
    forall b | 0 <= b < |batches|
      ensures OfSeries(batches[b], key) == if Live(c, samples, key)(b) then [RowAt(c, samples, stamp, key)(b)] else []
    {
      BatchRead(batches[b], c, samples, stamp, key, b);
    }
    TableOfSeries(batches, kept, key, Live(c, samples, key), RowAt(c, samples, stamp, key), |batches|);
    assert batches[..|batches|] == batches;
  }

  lemma {:induction false} UnsampledHasNoRss(b: seq<Tick>)
    requires forall i :: 0 <= i < |b| ==> b[i].load.None?
    ensures MaxRss(b) == 0
  {
    if b != [] { UnsampledHasNoRss(b[..|b| - 1]); }
  }

  /** A persisted row says its bucket's slot in its own columns: peaks not below zero,
      and whether anything was sampled or counted. */
  lemma RowSays(key: string, at: int, b: seq<Tick>)
    requires AllSensible(b)
    ensures var row, slot := BucketRow(key, at, b), BucketSlot(b);
            && row.series == key && row.bucket == at
            && (row.sampled <==> slot.cpu != -1.0) && row.cpuMax == (if slot.cpu != -1.0 then slot.cpu else 0.0)
            && row.rssMax == slot.rss
            && (row.rowsSampled <==> slot.rows != -1) && row.rowsSum == (if slot.rows != -1 then slot.rows else 0)
  {
    MaxCpuIsPeak(b);
    SumRowsCovers(b);
    if !RowsSampled(b) { UnsampledSumIsZero(b); }
  }

  /** A persisted bucket reads back as the coarse slot its seal pushed. */
  lemma RowReadsBack(key: string, at: int, b: seq<Tick>)
    requires AllSensible(b)
    ensures SlotOf(BucketRow(key, at, b)) == BucketSlot(b)
  {
    MaxCpuIsPeak(b);
    if MaxCpu(b) == NO_CPU { UnsampledHasNoRss(b); }
  }

  // ------------------------------------------------------------- run, then restart

  lemma {:induction false} SealIsFaithful(r: Collector, init: seq<Sample>, ts: Sample, key: string, b: nat)
    requires AllFaithful(r, init) && OnTime(r, init) && |init| == BUCKET_TICKS * (b + 1) - 1 && key in PushedAll(r, ts)
    ensures Faithful(key, PushedAll(r, ts)[key], init + [ts], b)
  {
    SealsInTime(|init|, b, r.seals, r.bucketTicks);
    PushedIsFaithful(r, init, ts, key);
  }

  lemma {:induction false} AtSealIsFaithful(c: Collector, samples: seq<Sample>, key: string, b: nat)
    requires Starts(c) && IsLive(c, samples, key, b)
    ensures Faithful(key, AtSeal(c, samples, b)[key], samples[..BUCKET_TICKS * (b + 1)], b)
  {
    var n := BUCKET_TICKS * (b + 1) - 1;
    RunIsFaithful(c, samples[..n]);
    SealIsFaithful(BeforeSeal(c, samples, b), samples[..n], samples[n], key, b);
    TakeMore(samples, n);
  }

  /** What a seal finds in a series' bucket: every tick of the bucket it lived through. */
  lemma {:induction false} SealFindsTicks(c: Collector, samples: seq<Sample>, key: string, b: nat)
    requires Starts(c) && IsLive(c, samples, key, b)
    ensures var h := AtSeal(c, samples, b)[key];
            && BucketStart(h.birth, b) <= BUCKET_TICKS * (b + 1)
            && h.partial == TicksOf(key, samples, BucketStart(h.birth, b), BUCKET_TICKS * (b + 1))
  {
    AtSealIsFaithful(c, samples, key, b);
    FaithfulPartial(key, AtSeal(c, samples, b)[key], samples, BUCKET_TICKS * (b + 1), b);
  }

  lemma SealsInTime(n: nat, b: nat, seals: nat, ticks: nat)
    requires n == BUCKET_TICKS * (b + 1) - 1 && n == BUCKET_TICKS * seals + ticks && ticks < BUCKET_TICKS
    ensures seals == b
  {}

  lemma FaithfulPartial(key: string, h: History, samples: seq<Sample>, n: nat, seals: nat)
    requires n <= |samples| && Faithful(key, h, samples[..n], seals)
    ensures BucketStart(h.birth, seals) <= n && h.partial == TicksOf(key, samples, BucketStart(h.birth, seals), n)
  {
    assert TicksOf(key, samples, BucketStart(h.birth, seals), n)
            == TicksOf(key, samples[..n], BucketStart(h.birth, seals), n);
  }

  /** The clock goes forward from seal to seal. */
  ghost predicate Forward(stamp: int -> int) {
    forall a, b :: 0 <= a < b ==> 0 < stamp(a) < stamp(b)
  }

  /** Between seals held in turn, the minutes passed count the seals. */
  ghost predicate MinutesCount(stamp: int -> int, nums: seq<int>) {
    forall i, j :: 0 <= i < j < |nums| && j == i + 1 ==> Steps(stamp(nums[j]) - stamp(nums[i])) == nums[j] - nums[i]
  }

  /** The newest seal held. */
  function Newest(nums: seq<int>): int
    requires nums != []
  {
    nums[|nums| - 1]
  }

  /** Seals held within one ring of now, and a seal between the first and the last. */
  ghost predicate Spanned(stamp: int -> int, nums: seq<int>, now: int, j: nat) {
    && nums != [] && nums[0] <= j <= Newest(nums) && stamp(Newest(nums)) <= now
    && Forward(stamp) && MinutesCount(stamp, nums)
    && Reach(nums) + 1 + (now - stamp(Newest(nums))) / 60 <= 1440
  }

  /** How many slots from the end of the seeded ring seal j sits. */
  function Age(stamp: int -> int, nums: seq<int>, now: int, j: int): int
    requires nums != []
  {
    Newest(nums) - j + (now - stamp(Newest(nums))) / 60
  }

  /** The seeded ring's slot for seal j of the run before: what the samples of bucket j
      that the series lived through sum up to. */
  ghost predicate ShowsSeal(c: Collector, samples: seq<Sample>, kept: int -> bool, key: string, j: int, slot: Slot) {
    if kept(j) && IsLive(c, samples, key, j) then
      var birth := AtSeal(c, samples, j)[key].birth;
      BucketReads(key, samples, BucketStart(birth, j), 30 * (j + 1), slot)
    else slot == ABSENT
  }

  lemma {:induction false} HasSeries(rows: seq<LoadBucket>, key: string)
    requires OfSeries(rows, key) != []
    ensures key in SeriesIn(rows)
  {
    var last := rows[|rows| - 1];
    assert last in rows;
    if last.series != key {
      HasSeries(rows[..|rows| - 1], key);
      assert forall r :: r in rows[..|rows| - 1] ==> r in rows;
    }
  }

  lemma FreshBase(table: seq<LoadBucket>, now: int, key: string)
    requires OfSeries(table, key) != []
    ensures var started := Fresh(Some(table), now).series;
            key in started && started[key].base == Seeded(OfSeries(table, key), now)
  {
    HasSeries(table, key);
  }

  /** A seal is held exactly if its batch was kept and it found the series live. */
  lemma {:induction false} HeldExactly(c: Collector, samples: seq<Sample>, kept: int -> bool, key: string, j: nat)
    ensures j in HeldSeals(c, samples, kept, key) <==> kept(j) && IsLive(c, samples, key, j)
  {
    assert Both(kept, Live(c, samples, key))(j) == (kept(j) && IsLive(c, samples, key, j));
  }

  lemma HeldRows(stamp: int -> int, row: int -> LoadBucket, nums: seq<int>, rows: seq<LoadBucket>, now: int)
    requires Forward(stamp) && MinutesCount(stamp, nums) && forall b :: row(b).bucket == stamp(b)
    requires nums != [] && (forall i :: 0 <= i < |nums| ==> nums[i] >= 0)
    requires forall i, j :: 0 <= i < j < |nums| ==> nums[i] < nums[j]
    requires rows == seq(|nums|, i requires 0 <= i < |nums| => row(nums[i]))
    ensures Numbered(rows, nums) && Timely(rows, nums)
    ensures stamp(Newest(nums)) <= now ==> Downtime(rows, now) == (now - stamp(Newest(nums))) / 60
  {
    assert Prev(rows) == stamp(Newest(nums));
    forall i | 0 <= i < |nums|
      ensures rows[i].bucket == stamp(nums[i]) > 0
    {
      assert stamp(nums[i]) < stamp(nums[i] + 1);
    }
  }

  /** The ring's slot for seal j. */
  lemma RingHolds(stamp: int -> int, row: int -> LoadBucket, nums: seq<int>, rows: seq<LoadBucket>, now: int, j: nat)
    returns (slot: Slot)
    requires Spanned(stamp, nums, now, j) && (forall b :: row(b).bucket == stamp(b))
    requires forall i :: 0 <= i < |nums| ==> nums[i] >= 0
    requires forall i, j :: 0 <= i < j < |nums| ==> nums[i] < nums[j]
    requires rows == seq(|nums|, i requires 0 <= i < |nums| => row(nums[i]))
    ensures var ring, d := Seeded(rows, now), Age(stamp, nums, now, j);
            0 <= d < |ring| == Age(stamp, nums, now, nums[0]) + 1 && slot == ring[|ring| - 1 - d]
    ensures forall i :: 0 <= i < |rows| && nums[i] == j ==> slot == SlotOf(rows[i])
    ensures j !in nums ==> slot == ABSENT
  {
    HeldRows(stamp, row, nums, rows, now);
    RestartKeepsSeals(rows, nums, now, j);
    var ring := Seeded(rows, now);
    slot := ring[|ring| - 1 - Age(stamp, nums, now, j)];
  }

  lemma {:induction false} SealRowReadsBack(c: Collector, samples: seq<Sample>, stamp: int -> int, key: string, j: nat)
    requires Starts(c) && IsLive(c, samples, key, j) && forall i :: 0 <= i < |samples| ==> SensibleSample(samples[i])
    ensures var birth := AtSeal(c, samples, j)[key].birth;
            && BucketStart(birth, j) <= BUCKET_TICKS * (j + 1)
            && (SlotOf(RowAt(c, samples, stamp, key)(j))
                == BucketSlot(TicksOf(key, samples, BucketStart(birth, j), BUCKET_TICKS * (j + 1))))
  {
    SealFindsTicks(c, samples, key, j);
    var lo := BucketStart(AtSeal(c, samples, j)[key].birth, j);
    TicksAreSensible(key, samples, lo, BUCKET_TICKS * (j + 1));
    RowReadsBack(key, stamp(j), TicksOf(key, samples, lo, BUCKET_TICKS * (j + 1)));
  }

  lemma {:induction false} SlotIsShown(c: Collector, samples: seq<Sample>, stamp: int -> int, kept: int -> bool,
                                       key: string,
                                       nums: seq<int>, rows: seq<LoadBucket>, j: nat, slot: Slot)
    requires Starts(c) && (forall i :: 0 <= i < |samples| ==> SensibleSample(samples[i]))
    requires j in nums <==> kept(j) && IsLive(c, samples, key, j)
    requires rows == seq(|nums|, i requires 0 <= i < |nums| => RowAt(c, samples, stamp, key)(nums[i]))
    requires forall i :: 0 <= i < |rows| && nums[i] == j ==> slot == SlotOf(rows[i])
    requires j !in nums ==> slot == ABSENT
    ensures ShowsSeal(c, samples, kept, key, j, slot)
  {
    if j in nums {
      var i :| 0 <= i < |nums| && nums[i] == j;
      assert rows[i] == RowAt(c, samples, stamp, key)(j);
      SealRowReadsBack(c, samples, stamp, key, j);
      TicksRead(key, samples, BucketStart(AtSeal(c, samples, j)[key].birth, j), BUCKET_TICKS * (j + 1));
    }
  }

  /** The seeded ring reaches from the first seal held to now and shows seal j in its place. */
  ghost predicate RingShows(c: Collector, samples: seq<Sample>, stamp: int -> int, kept: int -> bool, key: string,
                            nums: seq<int>, now: int, j: int, ring: seq<Slot>)
    requires nums != []
  {
    var d := Age(stamp, nums, now, j);
    && 0 <= d < |ring| == Age(stamp, nums, now, nums[0]) + 1
    && ShowsSeal(c, samples, kept, key, j, ring[|ring| - 1 - d])
  }

  lemma {:induction false} RowsShowSeal(c: Collector, samples: seq<Sample>, stamp: int -> int, kept: int -> bool,
                                        key: string,
                                        nums: seq<int>, rows: seq<LoadBucket>, now: int, j: nat)
    requires Starts(c) && Spanned(stamp, nums, now, j)
             && (forall i :: 0 <= i < |samples| ==> SensibleSample(samples[i]))
    requires j in nums <==> kept(j) && IsLive(c, samples, key, j)
    requires rows == seq(|nums|, i requires 0 <= i < |nums| => RowAt(c, samples, stamp, key)(nums[i]))
    requires forall i :: 0 <= i < |nums| ==> nums[i] >= 0
    requires forall i, j :: 0 <= i < j < |nums| ==> nums[i] < nums[j]
    ensures RingShows(c, samples, stamp, kept, key, nums, now, j, Seeded(rows, now))
  {
    var slot := RingHolds(stamp, RowAt(c, samples, stamp, key), nums, rows, now, j);
    SlotIsShown(c, samples, stamp, kept, key, nums, rows, j, slot);
  }

  /** Run, then restart: whichever batches were lost, whenever the series was retired and
      born again, and however the clock drifted while its minutes counted the seals, the
      next start shows what the samples of bucket j say, as many slots from the end as
      seals follow it up to the newest held and minutes after that; absent if its batch
      was lost or the series was not live. */
  lemma {:induction false} RestartShowsRun(batches: seq<seq<LoadBucket>>, c: Collector, samples: seq<Sample>,
                                           stamp: int -> int,
                                           kept: int -> bool, key: string, now: int, j: nat)
    requires Starts(c) && Wrote(batches, c, samples, stamp)
    requires forall i :: 0 <= i < |samples| ==> SensibleSample(samples[i])
    requires Spanned(stamp, HeldSeals(c, samples, kept, key), now, j)
    ensures var nums, started := HeldSeals(c, samples, kept, key), Fresh(Some(Table(batches, kept)), now).series;
            key in started && RingShows(c, samples, stamp, kept, key, nums, now, j, started[key].base)
  {
    var nums, rows := HeldSeals(c, samples, kept, key), OfSeries(Table(batches, kept), key);
    RowsRead(batches, c, samples, stamp, kept, key);
    FreshBase(Table(batches, kept), now, key);
    HeldExactly(c, samples, kept, key, j);
    RowsShowSeal(c, samples, stamp, kept, key, nums, rows, now, j);
  }

  /** A clock that seals a minute apart counts right, and puts a bucket at its age. */
  lemma SteadySpans(stamp: int -> int, nums: seq<int>, now: int, j: nat)
    requires stamp(0) > 0 && forall b :: stamp(b) == stamp(0) + 60 * b
    requires nums != [] && forall i, j :: 0 <= i < j < |nums| ==> nums[i] < nums[j]
    requires nums[0] <= j <= Newest(nums) && now - 86400 < stamp(nums[0]) && stamp(Newest(nums)) <= now
    ensures Spanned(stamp, nums, now, j) && Age(stamp, nums, now, j) == (now - stamp(j)) / 60
  {}

  /** At a steady clock nothing more need be said: a restart within the window shows each
      bucket at its age in minutes, or absent. */
  lemma {:induction false} RestartShowsHistory(batches: seq<seq<LoadBucket>>, c: Collector, samples: seq<Sample>,
                                               stamp: int -> int, kept: int -> bool, key: string, now: int, j: nat)
    requires Starts(c) && Wrote(batches, c, samples, stamp)
    requires forall i :: 0 <= i < |samples| ==> SensibleSample(samples[i])
    requires stamp(0) > 0 && forall b :: stamp(b) == stamp(0) + 60 * b
    requires var nums := HeldSeals(c, samples, kept, key);
             && nums != [] && nums[0] <= j <= Newest(nums)
             && now - 86400 < stamp(nums[0]) && stamp(Newest(nums)) <= now
    ensures var started, d := Fresh(Some(Table(batches, kept)), now).series, (now - stamp(j)) / 60;
            && key in started && 0 <= d < |started[key].base|
            && ShowsSeal(c, samples, kept, key, j, started[key].base[|started[key].base| - 1 - d])
  {
    SteadySpans(stamp, HeldSeals(c, samples, kept, key), now, j);
    RestartShowsRun(batches, c, samples, stamp, kept, key, now, j);
  }
}
