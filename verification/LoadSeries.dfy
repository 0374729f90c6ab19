/** One entity's recorded load: the loadSeries rings of internal/daemon/loadhistory.go,
    refining an unbounded history. */
module LoadSeries {
  import opened Results
  import opened Ordering

  /** One process-group reading. */
  datatype Load = Load(cpu: real, rss: int)

  /** What one tick sampled: host load and captured rows, each possibly absent. */
  datatype Tick = Tick(load: Option<Load>, rows: Option<int>)

  /** One slot of the three parallel rings. */
  datatype Slot = Slot(cpu: real, rss: int, rows: int)

  const NO_SAMPLE := -1
  const NO_CPU := -1.0
  const FINE_CAP := 300
  const COARSE_CAP := 1440
  const BUCKET_TICKS := 30

  const ABSENT := Slot(NO_CPU, 0, NO_SAMPLE)

  // ----------------------------------------------------------- bounded histories

  /** The last n elements. */
  function Tail<T>(s: seq<T>, n: nat): (r: seq<T>)
    ensures |r| == if |s| <= n then |s| else n
  {
    if |s| <= n then s else s[|s| - n..]
  }

  /** Appending to a full ring drops its oldest slot. */
  lemma TailPush<T>(s: seq<T>, x: T, n: nat)
    requires n > 0
    ensures Tail(s + [x], n) == Tail(Tail(s, n) + [x], n)
  {}

  lemma MappedPush<A, B>(f: A -> B, s: seq<A>, x: A)
    ensures Mapped(f, s + [x]) == Mapped(f, s) + [f(x)]
  {}

  lemma MappedTail<A, B>(f: A -> B, s: seq<A>, n: nat)
    ensures Mapped(f, Tail(s, n)) == Tail(Mapped(f, s), n)
  {}

  function CpuOf(): Slot -> real { (s: Slot) => s.cpu }
  function RssOf(): Slot -> int { (s: Slot) => s.rss }
  function RowsOf(): Slot -> int { (s: Slot) => s.rows }

  // ------------------------------------------------------------ ticks and buckets

  /** The slot of one tick. */
  function FineSlot(t: Tick): Slot {
    Slot(if t.load.Some? then t.load.value.cpu else NO_CPU,
         if t.load.Some? then t.load.value.rss else 0,
         if t.rows.Some? then t.rows.value else NO_SAMPLE)
  }

  function FineSlots(log: seq<Tick>): seq<Slot> {
    Mapped(FineSlot, log)
  }

  function MaxCpu(b: seq<Tick>): real {
    if b == [] then NO_CPU
    else
      var m, l := MaxCpu(b[..|b| - 1]), b[|b| - 1].load;
      if l.Some? && (m == NO_CPU || l.value.cpu > m) then l.value.cpu else m
  }

  function MaxRss(b: seq<Tick>): (m: int)
    ensures m >= 0
  {
    if b == [] then 0
    else
      var m, l := MaxRss(b[..|b| - 1]), b[|b| - 1].load;
      if l.Some? && l.value.rss > m then l.value.rss else m
  }

  function SumRows(b: seq<Tick>): int {
    if b == [] then 0
    else SumRows(b[..|b| - 1]) + (if b[|b| - 1].rows.Some? then b[|b| - 1].rows.value else 0)
  }

  function RowsSampled(b: seq<Tick>): (r: bool)
    ensures r <==> exists i :: 0 <= i < |b| && b[i].rows.Some?
  {
    b != [] && (RowsSampled(b[..|b| - 1]) || b[|b| - 1].rows.Some?)
  }

  /** The coarse slot of a bucket: peaks of its load, sum of its rows. */
  function BucketSlot(b: seq<Tick>): Slot {
    Slot(MaxCpu(b), MaxRss(b), if RowsSampled(b) then SumRows(b) else NO_SAMPLE)
  }

  /** What probes and journals report: no negative readings. */
  predicate Sensible(t: Tick) {
    && (t.load.Some? ==> t.load.value.cpu >= 0.0 && t.load.value.rss >= 0)
    && (t.rows.Some? ==> t.rows.value >= 0)
  }

  predicate AllSensible(b: seq<Tick>) {
    forall i :: 0 <= i < |b| ==> Sensible(b[i])
  }

  /** A bucket's CPU slot is absent exactly when nothing was sampled, and otherwise
      its greatest sample. */
  lemma {:induction false} MaxCpuIsPeak(b: seq<Tick>)
    requires AllSensible(b)
    ensures MaxCpu(b) == NO_CPU <==> forall i :: 0 <= i < |b| ==> b[i].load.None?
    ensures MaxCpu(b) != NO_CPU ==> exists i :: 0 <= i < |b| && b[i].load.Some? && b[i].load.value.cpu == MaxCpu(b)
    ensures forall i :: 0 <= i < |b| && b[i].load.Some? ==> b[i].load.value.cpu <= MaxCpu(b)
  {
    if b != [] {
      var n := |b| - 1;
      MaxCpuIsPeak(b[..n]);
      if MaxCpu(b) != NO_CPU && MaxCpu(b) == MaxCpu(b[..n]) {
        var i :| 0 <= i < n && b[..n][i].load.Some? && b[..n][i].load.value.cpu == MaxCpu(b);
        assert b[i] == b[..n][i];
      }
      forall i | 0 <= i < |b| && b[i].load.Some? ensures b[i].load.value.cpu <= MaxCpu(b) && MaxCpu(b) != NO_CPU {
        if i < n { assert b[i] == b[..n][i]; }
      }
    }
  }

  /** A bucket's RSS slot is its greatest sample, or zero without one. */
  lemma {:induction false} MaxRssIsPeak(b: seq<Tick>)
    requires AllSensible(b)
    ensures MaxRss(b) == 0 || exists i :: 0 <= i < |b| && b[i].load.Some? && b[i].load.value.rss == MaxRss(b)
    ensures forall i :: 0 <= i < |b| && b[i].load.Some? ==> b[i].load.value.rss <= MaxRss(b)
  {
    if b != [] {
      var n := |b| - 1;
      MaxRssIsPeak(b[..n]);
      if MaxRss(b) != 0 && MaxRss(b) == MaxRss(b[..n]) {
        var i :| 0 <= i < n && b[..n][i].load.Some? && b[..n][i].load.value.rss == MaxRss(b);
        assert b[i] == b[..n][i];
      }
      forall i | 0 <= i < |b| && b[i].load.Some? ensures b[i].load.value.rss <= MaxRss(b) {
        if i < n { assert b[i] == b[..n][i]; }
      }
    }
  }

  lemma {:induction false} SumRowsCovers(b: seq<Tick>)
    requires AllSensible(b)
    ensures SumRows(b) >= 0
    ensures forall i :: 0 <= i < |b| && b[i].rows.Some? ==> b[i].rows.value <= SumRows(b)
  {
    if b != [] {
      var n := |b| - 1;
      SumRowsCovers(b[..n]);
      forall i | 0 <= i < |b| && b[i].rows.Some? ensures b[i].rows.value <= SumRows(b) {
        if i < n { assert b[i] == b[..n][i]; }
      }
    }
  }

  /** The rows captured by the slots that have a count. */
  function RowsTotal(fine: seq<Slot>): int {
    if fine == [] then 0
    else RowsTotal(fine[..|fine| - 1]) + if fine[|fine| - 1].rows == -1 then 0 else fine[|fine| - 1].rows
  }

  /** slot sums up the fine slots of a bucket: the greatest CPU, -1 if none was sampled;
      the greatest RSS; and the rows captured, -1 if none was counted. */
  ghost predicate SumsUp(fine: seq<Slot>, slot: Slot) {
    && (if forall i :: 0 <= i < |fine| ==> fine[i].cpu == -1.0 then slot.cpu == -1.0
        else exists i :: 0 <= i < |fine| && fine[i].cpu == slot.cpu)
    && (forall i :: 0 <= i < |fine| ==> fine[i].cpu <= slot.cpu)
    && (slot.rss == 0 || exists i :: 0 <= i < |fine| && fine[i].rss == slot.rss)
    && (forall i :: 0 <= i < |fine| ==> fine[i].rss <= slot.rss)
    && (slot.rows == if forall i :: 0 <= i < |fine| ==> fine[i].rows == -1 then -1 else RowsTotal(fine))
  }

  lemma {:induction false} RowsAreTotal(b: seq<Tick>)
    requires AllSensible(b)
    ensures SumRows(b) == RowsTotal(FineSlots(b))
    ensures RowsSampled(b) <==> exists i :: 0 <= i < |b| && FineSlots(b)[i].rows != -1
  {
    if b != [] {
      var n := |b| - 1;
      RowsAreTotal(b[..n]);
      assert FineSlots(b)[..n] == FineSlots(b[..n]) && Sensible(b[n]) && FineSlots(b)[n] == FineSlot(b[n]);
    }
    forall i | 0 <= i < |b| ensures FineSlots(b)[i].rows != -1 <==> b[i].rows.Some? {
      assert Sensible(b[i]) && FineSlots(b)[i] == FineSlot(b[i]);
    }
  }

  /** A bucket's slot sums up its ticks' slots. */
  lemma BucketSumsUp(b: seq<Tick>)
    requires AllSensible(b)
    ensures SumsUp(FineSlots(b), BucketSlot(b))
  {
    var fine, slot := FineSlots(b), BucketSlot(b);
    MaxCpuIsPeak(b);
    MaxRssIsPeak(b);
    RowsAreTotal(b);
    forall i | 0 <= i < |b| ensures fine[i] == FineSlot(b[i]) {}
    if slot.cpu != -1.0 {
      var i :| 0 <= i < |b| && b[i].load.Some? && b[i].load.value.cpu == MaxCpu(b);
      assert fine[i].cpu == slot.cpu;
    }
    if slot.rss != 0 {
      var i :| 0 <= i < |b| && b[i].load.Some? && b[i].load.value.rss == MaxRss(b);
      assert fine[i].rss == slot.rss;
    }
  }

  // ------------------------------------------------------------------- histories

  /** Everything a series was ever given: the tick it was born after, the slots it
      was seeded with, its sealed buckets, its running one, and all its ticks. */
  datatype History = History(birth: nat, base: seq<Slot>, sealed: seq<seq<Tick>>, partial: seq<Tick>, log: seq<Tick>)

  function Pushed(h: History, t: Tick): History {
    h.(partial := h.partial + [t], log := h.log + [t])
  }

  function Sealed(h: History): History {
    h.(sealed := h.sealed + [h.partial], partial := [])
  }

  /** The fine ring: one slot per tick. */
  function Fine(h: History): seq<Slot> {
    Tail(FineSlots(h.log), FINE_CAP)
  }

  /** The coarse ring: one slot per sealed bucket. */
  function Coarse(h: History): seq<Slot> {
    Tail(h.base + Mapped(BucketSlot, h.sealed), COARSE_CAP)
  }

  /** Idle and Valid keep their details folded: a proof that looks inside mentions
      Examined(0) or Opened(0). */
  predicate Examined(k: int) { true }

  predicate Opened(k: int) { true }

  predicate PositiveSlot(s: Slot) {
    s.cpu > 0.0 || s.rss > 0 || s.rows > 0
  }

  ghost predicate AnyPositive(ring: seq<Slot>) {
    exists i :: 0 <= i < |ring| && PositiveSlot(ring[i])
  }

  /** Nothing positive is retained anywhere. */
  ghost predicate Idle(h: History) {
    forall k {:trigger Examined(k)} :: Examined(k) ==>
      !AnyPositive(Fine(h)) && !AnyPositive(Coarse(h)) && !PositiveSlot(BucketSlot(h.partial))
  }

  class Series {
    var cpu: seq<real>
    var rss: seq<int>
    var rows: seq<int>
    var coarseCPU: seq<real>
    var coarseRSS: seq<int>
    var coarseRows: seq<int>
    var bucketCPU: real
    var bucketRSS: int
    var bucketRows: int
    var rowsSampled: bool
    ghost var hist: History

    ghost predicate FineHolds(ring: seq<Slot>)
      reads this
    {
      cpu == Mapped(CpuOf(), ring) && rss == Mapped(RssOf(), ring) && rows == Mapped(RowsOf(), ring)
    }

    ghost predicate CoarseHolds(ring: seq<Slot>)
      reads this
    {
      coarseCPU == Mapped(CpuOf(), ring) && coarseRSS == Mapped(RssOf(), ring) && coarseRows == Mapped(RowsOf(), ring)
    }

    ghost predicate BucketHolds(b: seq<Tick>)
      reads this
    {
      bucketCPU == MaxCpu(b) && bucketRSS == MaxRss(b) && bucketRows == SumRows(b) && rowsSampled == RowsSampled(b)
    }

    /** The fields hold the history's last slots. */
    ghost predicate Valid()
      reads this
    {
      forall k {:trigger Opened(k)} :: Opened(k) ==>
        FineHolds(Fine(hist)) && CoarseHolds(Coarse(hist)) && BucketHolds(hist.partial)
    }

    /** An empty series, or one seeded with a coarse ring. */
    constructor (base: seq<Slot>, ghost birth: nat)
      requires |base| <= COARSE_CAP
      ensures Valid() && hist == History(birth, base, [], [], [])
    {
      cpu, rss, rows := [], [], [];
      coarseCPU, coarseRSS, coarseRows := Mapped(CpuOf(), base), Mapped(RssOf(), base), Mapped(RowsOf(), base);
      bucketCPU, bucketRSS, bucketRows, rowsSampled := NO_CPU, 0, 0, false;
      hist := History(birth, base, [], [], []);
      new;
      assert base + Mapped(BucketSlot, hist.sealed) == base;
    }

    /** Appends a slot to the fine rings. */
    method PushFine(slot: Slot, ghost ring: seq<Slot>)
      requires FineHolds(ring)
      modifies `cpu, `rss, `rows
      ensures FineHolds(Tail(ring + [slot], FINE_CAP))
    {
      RingPushed(CpuOf(), ring, slot, FINE_CAP);
      RingPushed(RssOf(), ring, slot, FINE_CAP);
      RingPushed(RowsOf(), ring, slot, FINE_CAP);
      cpu := cpu + [slot.cpu];
      rss := rss + [slot.rss];
      rows := rows + [slot.rows];
      if |cpu| > FINE_CAP {
        cpu := cpu[|cpu| - FINE_CAP..];
        rss := rss[|rss| - FINE_CAP..];
      }
      if |rows| > FINE_CAP {
        rows := rows[|rows| - FINE_CAP..];
      }
    }

    /** Folds one tick into the running bucket. */
    method Fold(t: Tick, ghost b: seq<Tick>)
      requires BucketHolds(b)
      modifies `bucketCPU, `bucketRSS, `bucketRows, `rowsSampled
      ensures BucketHolds(b + [t])
    {
      PartialPush(b, t);
      if t.load.Some? {
        var l := t.load.value;
        if bucketCPU == NO_CPU || l.cpu > bucketCPU { bucketCPU := l.cpu; }
        if l.rss > bucketRSS { bucketRSS := l.rss; }
      }
      if t.rows.Some? {
        bucketRows := bucketRows + t.rows.value;
        rowsSampled := true;
      }
    }

    /** Records one tick: its slot in the fine rings, its sample in the bucket. */
    method Push(t: Tick)
      requires Valid()
      modifies this
      ensures Valid() && hist == Pushed(old(hist), t)
    {
      assert Opened(0);
      FinePush(hist, t);
      PushFine(FineSlot(t), Fine(hist));
      Fold(t, hist.partial);
      hist := Pushed(hist, t);
    }

    /** Appends a slot to the coarse rings. */
    method PushCoarse(slot: Slot, ghost ring: seq<Slot>)
      requires CoarseHolds(ring)
      modifies `coarseCPU, `coarseRSS, `coarseRows
      ensures CoarseHolds(Tail(ring + [slot], COARSE_CAP))
    {
      RingPushed(CpuOf(), ring, slot, COARSE_CAP);
      RingPushed(RssOf(), ring, slot, COARSE_CAP);
      RingPushed(RowsOf(), ring, slot, COARSE_CAP);
      coarseCPU := coarseCPU + [slot.cpu];
      coarseRSS := coarseRSS + [slot.rss];
      coarseRows := coarseRows + [slot.rows];
      if |coarseCPU| > COARSE_CAP {
        coarseCPU := coarseCPU[|coarseCPU| - COARSE_CAP..];
        coarseRSS := coarseRSS[|coarseRSS| - COARSE_CAP..];
      }
      if |coarseRows| > COARSE_CAP {
        coarseRows := coarseRows[|coarseRows| - COARSE_CAP..];
      }
    }

    /** Closes the bucket into the coarse rings and starts a fresh one. */
    method Seal()
      requires Valid()
      modifies this
      ensures Valid() && hist == Sealed(old(hist))
    {
      assert Opened(0);
      CoarsePush(hist);
      PushCoarse(Slot(bucketCPU, bucketRSS, if rowsSampled then bucketRows else NO_SAMPLE), Coarse(hist));
      bucketCPU, bucketRSS := NO_CPU, 0;
      bucketRows, rowsSampled := 0, false;
      hist := Sealed(hist);
    }

    /** Whether the series holds nothing worth keeping. */
    method Dead() returns (dead: bool)
      requires Valid()
      ensures dead <==> Idle(hist)
    {
      assert Opened(0) && Examined(0);
      ghost var fine, coarse := Fine(hist), Coarse(hist);
      for i := 0 to |cpu|
        invariant forall j :: 0 <= j < i ==> fine[j].cpu <= 0.0 && fine[j].rss <= 0
      {
        if cpu[i] > 0.0 || rss[i] > 0 { assert PositiveSlot(fine[i]); return false; }
      }
      for i := 0 to |coarseCPU|
        invariant forall j :: 0 <= j < i ==> coarse[j].cpu <= 0.0 && coarse[j].rss <= 0
      {
        if coarseCPU[i] > 0.0 || coarseRSS[i] > 0 { assert PositiveSlot(coarse[i]); return false; }
      }
      for i := 0 to |rows|
        invariant forall j :: 0 <= j < i ==> fine[j].rows <= 0
      {
        if rows[i] > 0 { assert PositiveSlot(fine[i]); return false; }
      }
      for i := 0 to |coarseRows|
        invariant forall j :: 0 <= j < i ==> coarse[j].rows <= 0
      {
        if coarseRows[i] > 0 { assert PositiveSlot(coarse[i]); return false; }
      }
      UnsampledSumIsZero(hist.partial);
      return bucketCPU <= 0.0 && bucketRSS == 0 && bucketRows <= 0;
    }
  }

  lemma {:induction false} UnsampledSumIsZero(b: seq<Tick>)
    ensures !RowsSampled(b) ==> SumRows(b) == 0
  {
    if b != [] { UnsampledSumIsZero(b[..|b| - 1]); }
  }

  lemma FinePush(h: History, t: Tick)
    ensures Fine(Pushed(h, t)) == Tail(Fine(h) + [FineSlot(t)], FINE_CAP)
  {
    MappedPush(FineSlot, h.log, t);
    TailPush(FineSlots(h.log), FineSlot(t), FINE_CAP);
  }

  lemma CoarsePush(h: History)
    ensures Coarse(Sealed(h)) == Tail(Coarse(h) + [BucketSlot(h.partial)], COARSE_CAP)
  {
    MappedPush(BucketSlot, h.sealed, h.partial);
    AppendAssoc(h.base, Mapped(BucketSlot, h.sealed), BucketSlot(h.partial));
    TailPush(h.base + Mapped(BucketSlot, h.sealed), BucketSlot(h.partial), COARSE_CAP);
  }

  /** Each parallel ring is pushed as the ring of slots is. */
  lemma RingPushed<B>(f: Slot -> B, ring: seq<Slot>, s: Slot, cap: nat)
    ensures Mapped(f, Tail(ring + [s], cap)) == Tail(Mapped(f, ring) + [f(s)], cap)
  {
    MappedPush(f, ring, s);
    MappedTail(f, ring + [s], cap);
  }

  lemma PartialPush(b: seq<Tick>, t: Tick)
    ensures MaxCpu(b + [t])
         == if t.load.Some? && (MaxCpu(b) == NO_CPU || t.load.value.cpu > MaxCpu(b)) then t.load.value.cpu
                               else MaxCpu(b)
    ensures MaxRss(b + [t]) == if t.load.Some? && t.load.value.rss > MaxRss(b) then t.load.value.rss else MaxRss(b)
    ensures SumRows(b + [t]) == SumRows(b) + if t.rows.Some? then t.rows.value else 0
    ensures RowsSampled(b + [t]) == (RowsSampled(b) || t.rows.Some?)
  {
    assert (b + [t])[..|b|] == b;
  }

  // ------------------------------------------------------------- what keeps a series

  predicate PositiveTick(t: Tick) {
    || (t.load.Some? && (t.load.value.cpu > 0.0 || t.load.value.rss > 0))
    || (t.rows.Some? && t.rows.value > 0)
  }

  /** A positive sample shows in its bucket's slot. */
  lemma PositiveTickShows(b: seq<Tick>, i: nat)
    requires AllSensible(b) && i < |b| && PositiveTick(b[i])
    ensures PositiveSlot(BucketSlot(b))
  {
    MaxCpuIsPeak(b);
    MaxRssIsPeak(b);
    SumRowsCovers(b);
  }

  /** A positive bucket among the last 1440 sealed keeps its series. */
  lemma RecentBucketKeeps(h: History, j: nat)
    requires |h.sealed| - COARSE_CAP <= j < |h.sealed| && PositiveSlot(BucketSlot(h.sealed[j]))
    ensures !Idle(h)
  {
    var slots, k := h.base + Mapped(BucketSlot, h.sealed), |h.base| + j;
    assert slots[k] == BucketSlot(h.sealed[j]);
    var i := k - (|slots| - |Coarse(h)|);
    assert Coarse(h)[i] == slots[k];
    assert Examined(0);
  }
}
