/** The restart seed of internal/daemon/loadhistory.go: persisted coarse buckets
    replayed into a ring, gaps and downtime as absent slots. */
module LoadSeed {
  import opened LoadSeries

  /** A sealed bucket as persisted; bucket is the second it sealed at. */
  datatype LoadBucket = LoadBucket(series: string, bucket: int, cpuMax: real, rssMax: int, sampled: bool, rowsSum: int,
                                   rowsSampled: bool)

  const BUCKET_SECONDS := 60

  /** Go's integer division, toward zero. */
  function Quotient(a: int, b: int): int
    requires b > 0
  {
    if a >= 0 then a / b else -(-a / b)
  }

  /** The coarse slot a persisted bucket reads back as. */
  function SlotOf(b: LoadBucket): Slot {
    Slot(if b.sampled then b.cpuMax else NO_CPU, if b.sampled then b.rssMax else 0,
         if b.rowsSampled then b.rowsSum else NO_SAMPLE)
  }

  function Absents(n: nat): seq<Slot> {
    seq(n, _ => ABSENT)
  }

  /** How many of n absent slots the ring's cap allows. */
  function PadLength(ring: seq<Slot>, n: int): nat {
    var room := COARSE_CAP - |ring|;
    var k := if n < room then n else room;
    if k < 0 then 0 else k
  }

  function Padded(ring: seq<Slot>, n: int): seq<Slot> {
    ring + Absents(PadLength(ring, n))
  }

  /** The ring with one more bucket, absent slots for the steps from the one before. */
  function Extend(ring: seq<Slot>, prev: int, b: LoadBucket): seq<Slot> {
    (if prev != 0 then Padded(ring, Quotient(b.bucket - prev, BUCKET_SECONDS) - 1) else ring) + [SlotOf(b)]
  }

  /** The ring once the buckets are replayed. */
  function Replayed(rows: seq<LoadBucket>): seq<Slot> {
    if rows == [] then []
    else
      var init, last := rows[..|rows| - 1], rows[|rows| - 1];
      Extend(Replayed(init), Prev(init), last)
  }

  /** The newest bucket replayed, zero for none. */
  function Prev(rows: seq<LoadBucket>): int {
    if rows == [] then 0 else rows[|rows| - 1].bucket
  }

  /** The replay, and absent slots for the downtime up to now. */
  function Extended(rows: seq<LoadBucket>, now: int): seq<Slot> {
    if Prev(rows) != 0 then Padded(Replayed(rows), Quotient(now - Prev(rows), BUCKET_SECONDS)) else Replayed(rows)
  }

  /** The seeded ring: all that, the newest 1440 slots of it. */
  function Seeded(rows: seq<LoadBucket>, now: int): (ring: seq<Slot>)
    ensures |ring| <= COARSE_CAP
  {
    Tail(Extended(rows, now), COARSE_CAP)
  }

  method AddAbsent(ring: seq<Slot>, n: int) returns (r: seq<Slot>)
    ensures r == Padded(ring, n)
  {
    r := ring;
    var left := n;
    while left > 0 && |r| < COARSE_CAP
      invariant |ring| <= |r| && r == ring + Absents(|r| - |ring|)
      invariant |r| - |ring| == n - left && (left < n ==> left >= 0 && |r| <= COARSE_CAP)
    {
      r := r + [ABSENT];
      left := left - 1;
    }
  }

  lemma {:induction false} ReplayedNext(rows: seq<LoadBucket>, i: nat)
    requires i < |rows|
    ensures Prev(rows[..i + 1]) == rows[i].bucket
    ensures Replayed(rows[..i + 1]) == Extend(Replayed(rows[..i]), Prev(rows[..i]), rows[i])
  {
    assert rows[..i + 1][..i] == rows[..i];
  }

  /** Replays the buckets in order, absent slots for the steps between them. */
  method Replay(rows: seq<LoadBucket>) returns (ring: seq<Slot>, prev: int)
    ensures ring == Replayed(rows) && prev == Prev(rows)
  {
    ring, prev := [], 0;
    for i := 0 to |rows|
      invariant ring == Replayed(rows[..i]) && prev == Prev(rows[..i])
    {
      ReplayedNext(rows, i);
      ghost var next := Extend(ring, prev, rows[i]);
      if prev != 0 { ring := AddAbsent(ring, Quotient(rows[i].bucket - prev, BUCKET_SECONDS) - 1); }
      ring, prev := ring + [SlotOf(rows[i])], rows[i].bucket;
      assert ring == next;
    }
    assert rows[..|rows|] == rows;
  }

  method SeedRing(rows: seq<LoadBucket>, now: int) returns (ring: seq<Slot>)
    ensures ring == Seeded(rows, now)
  {
    var prev;
    ring, prev := Replay(rows);
    if prev != 0 { ring := AddAbsent(ring, Quotient(now - prev, BUCKET_SECONDS)); }
    assert ring == Extended(rows, now);
    if |ring| > COARSE_CAP { ring := ring[|ring| - COARSE_CAP..]; }
  }

  // ---------------------------------------------------------------- the seal axis

  /** The slots from one bucket to the next read, gap seconds later. */
  function Steps(gap: int): (n: int)
    ensures n > 0
  {
    if gap >= 120 then gap / 60 else 1
  }

  /** The slots from the newest bucket to now. */
  function Downtime(rows: seq<LoadBucket>, now: int): nat {
    if now - Prev(rows) >= 60 then (now - Prev(rows)) / 60 else 0
  }

  /** The rows in seal order: row i is what seal nums[i] persisted. */
  ghost predicate Numbered(rows: seq<LoadBucket>, nums: seq<int>) {
    && |rows| == |nums| > 0
    && (forall i :: 0 <= i < |rows| ==> rows[i].bucket > 0)
    && (forall i, j :: 0 <= i < j < |nums| ==> nums[i] < nums[j])
  }

  /** Between rows read in turn, the minutes passed count the seals. */
  ghost predicate Timely(rows: seq<LoadBucket>, nums: seq<int>)
    requires |rows| == |nums|
  {
    forall i, j :: 0 <= i < j < |rows| && j == i + 1 ==> Steps(rows[j].bucket - rows[i].bucket) == nums[j] - nums[i]
  }

  /** What seal n persisted, absent if it was not read. */
  function SealSlot(rows: seq<LoadBucket>, nums: seq<int>, n: int): Slot
    requires |rows| == |nums|
  {
    if rows == [] then ABSENT
    else if nums[|nums| - 1] == n then SlotOf(rows[|rows| - 1])
    else SealSlot(rows[..|rows| - 1], nums[..|nums| - 1], n)
  }

  /** How many seals apart the first and the last row are. */
  function Reach(nums: seq<int>): int
    requires nums != []
  {
    nums[|nums| - 1] - nums[0]
  }

  /** One slot per seal, from the first row's to the last's. */
  function Timeline(rows: seq<LoadBucket>, nums: seq<int>): (ring: seq<Slot>)
    requires |rows| == |nums| > 0 && Reach(nums) >= 0
    ensures |ring| == Reach(nums) + 1
  {
    seq(Reach(nums) + 1, i => SealSlot(rows, nums, nums[0] + i))
  }

  lemma {:induction false} SealSlotBeyond(rows: seq<LoadBucket>, nums: seq<int>, n: int)
    requires |rows| == |nums| && forall i :: 0 <= i < |nums| ==> nums[i] != n
    ensures SealSlot(rows, nums, n) == ABSENT
  {
    if rows != [] { SealSlotBeyond(rows[..|rows| - 1], nums[..|nums| - 1], n); }
  }

  lemma {:induction false} SealSlotOfRow(rows: seq<LoadBucket>, nums: seq<int>, i: nat)
    requires Numbered(rows, nums) && i < |rows|
    ensures SealSlot(rows, nums, nums[i]) == SlotOf(rows[i])
  {
    if i < |rows| - 1 { SealSlotOfRow(rows[..|rows| - 1], nums[..|nums| - 1], i); }
  }

  /** Between two rows in turn lies nothing. */
  lemma TimelineGrows(rows: seq<LoadBucket>, nums: seq<int>)
    requires Numbered(rows, nums) && |rows| > 1
    ensures var n := |rows| - 1;
            && Numbered(rows[..n], nums[..n]) && 0 <= Reach(nums[..n]) < Reach(nums) && nums[n] - nums[n - 1] - 1 >= 0
            && (Timeline(rows, nums)
                == Timeline(rows[..n], nums[..n]) + Absents(nums[n] - nums[n - 1] - 1) + [SlotOf(rows[n])])
  {
    var n := |rows| - 1;
    var line := Timeline(rows, nums);
    var want := Timeline(rows[..n], nums[..n]) + Absents(nums[n] - nums[n - 1] - 1) + [SlotOf(rows[n])];
    assert |line| == |want|;
    forall i | 0 <= i < |line| ensures line[i] == want[i] {
      assert line[i] == SealSlot(rows, nums, nums[0] + i);
      if i == Reach(nums) {
      } else if i <= Reach(nums[..n]) {
        assert want[i] == SealSlot(rows[..n], nums[..n], nums[0] + i);
      } else {
        forall k | 0 <= k < n ensures nums[k] < nums[0] + i { assert k < n - 1 ==> nums[k] < nums[n - 1]; }
        SealSlotBeyond(rows, nums, nums[0] + i);
      }
    }
  }

  /** The absent slots the replay puts before the last row. */
  function LastGap(rows: seq<LoadBucket>): nat
    requires |rows| > 1
  {
    var n := |rows| - 1;
    PadLength(Replayed(rows[..n]), Quotient(rows[n].bucket - rows[n - 1].bucket, 60) - 1)
  }

  lemma {:induction false} ReplayedLast(rows: seq<LoadBucket>)
    requires |rows| > 1 && rows[|rows| - 2].bucket > 0
    ensures Replayed(rows) == Replayed(rows[..|rows| - 1]) + Absents(LastGap(rows)) + [SlotOf(rows[|rows| - 1])]
  {
    assert Prev(rows[..|rows| - 1]) == rows[|rows| - 2].bucket;
  }

  lemma PaddedFits(ring: seq<Slot>, n: int)
    requires n > 0 ==> |ring| + n <= 1440
    ensures Padded(ring, n) == ring + Absents(if n > 0 then n else 0)
  {}

  lemma TimelyInit(rows: seq<LoadBucket>, nums: seq<int>)
    requires |rows| == |nums| > 1
    ensures var n := |rows| - 1;
            Timely(rows, nums) <==>
              && Timely(rows[..n], nums[..n])
              && Steps(rows[n].bucket - rows[n - 1].bucket) == nums[n] - nums[n - 1]
  {
    var n := |rows| - 1;
    if Timely(rows[..n], nums[..n]) && Steps(rows[n].bucket - rows[n - 1].bucket) == nums[n] - nums[n - 1] {
      forall i, j | 0 <= i < j < |rows| && j == i + 1
        ensures Steps(rows[j].bucket - rows[i].bucket) == nums[j] - nums[i]
      {
        if j < n { assert rows[..n][i] == rows[i] && rows[..n][j] == rows[j]; }
      }
    }
    if Timely(rows, nums) {
      forall i, j | 0 <= i < j < n && j == i + 1
        ensures Steps(rows[..n][j].bucket - rows[..n][i].bucket) == nums[..n][j] - nums[..n][i]
      {
        assert rows[..n][i] == rows[i] && rows[..n][j] == rows[j];
      }
    }
  }

  lemma GapFits(rows: seq<LoadBucket>, d: int)
    requires |rows| > 1 && var n := |rows| - 1; Steps(rows[n].bucket - rows[n - 1].bucket) == d
    requires |Replayed(rows[..|rows| - 1])| + d - 1 <= 1440
    ensures LastGap(rows) == d - 1
  {}

  /** Where the minutes count the seals, the replay lays the rows out by seal, lost
      ones absent. */
  lemma {:induction false} ReplayedIsTimeline(rows: seq<LoadBucket>, nums: seq<int>)
    requires Numbered(rows, nums) && Timely(rows, nums) && 0 <= Reach(nums) <= 1440
    ensures Replayed(rows) == Timeline(rows, nums)
  {
    var n := |rows| - 1;
    if n == 0 {
      assert Replayed(rows[..0]) == [];
      assert Timeline(rows, nums) == [SealSlot(rows, nums, nums[0] + 0)];
    } else {
      TimelineGrows(rows, nums);
      TimelyInit(rows, nums);
      ReplayedIsTimeline(rows[..n], nums[..n]);
      ReplayedLast(rows);
      GapFits(rows, nums[n] - nums[n - 1]);
    }
  }

  lemma SeededIsTimeline(rows: seq<LoadBucket>, nums: seq<int>, now: int)
    requires Numbered(rows, nums) && Timely(rows, nums)
    requires 0 <= Reach(nums) && Reach(nums) + 1 + Downtime(rows, now) <= 1440
    ensures Seeded(rows, now) == Timeline(rows, nums) + Absents(Downtime(rows, now))
  {
    ReplayedIsTimeline(rows, nums);
    PaddedFits(Replayed(rows), Quotient(now - Prev(rows), 60));
  }

  /** Whichever writes were lost, and however the seals drifted, as long as the minutes
      count the seals: what seal j persisted sits as many slots from the end as seals
      follow it up to the last one read, and minutes after that, and is absent if it was
      not read. */
  lemma RestartKeepsSeals(rows: seq<LoadBucket>, nums: seq<int>, now: int, j: int)
    requires Numbered(rows, nums) && Timely(rows, nums)
    requires nums[0] <= j <= nums[|nums| - 1] && Reach(nums) + 1 + Downtime(rows, now) <= 1440
    ensures var ring, d := Seeded(rows, now), nums[|nums| - 1] - j + Downtime(rows, now);
            && d < |ring| == Reach(nums) + 1 + Downtime(rows, now)
            && (forall i :: 0 <= i < |rows| && nums[i] == j ==> ring[|ring| - 1 - d] == SlotOf(rows[i]))
            && (j !in nums ==> ring[|ring| - 1 - d] == ABSENT)
  {
    SeededIsTimeline(rows, nums, now);
    var ring, d := Seeded(rows, now), nums[|nums| - 1] - j + Downtime(rows, now);
    assert ring[|ring| - 1 - d] == Timeline(rows, nums)[j - nums[0]] == SealSlot(rows, nums, nums[0] + (j - nums[0]));
    forall i | 0 <= i < |rows| && nums[i] == j ensures SealSlot(rows, nums, j) == SlotOf(rows[i]) {
      SealSlotOfRow(rows, nums, i);
    }
    if j !in nums { SealSlotBeyond(rows, nums, j); }
  }

  // ------------------------------------------------- when the minutes miscount

  function Last(ring: seq<Slot>): Slot
    requires ring != []
  {
    ring[|ring| - 1]
  }

  /** How many slots are not absent. */
  function Present(ring: seq<Slot>): nat {
    if ring == [] then 0 else Present(ring[..|ring| - 1]) + if Last(ring) == ABSENT then 0 else 1
  }

  /** Every row was sampled, so none reads back as an absent slot. */
  ghost predicate NoneAbsent(rows: seq<LoadBucket>) {
    forall i :: 0 <= i < |rows| ==> SlotOf(rows[i]) != ABSENT
  }

  lemma {:induction false} PresentConcat(a: seq<Slot>, b: seq<Slot>)
    ensures Present(a + b) == Present(a) + Present(b)
  {
    if b == [] {
      assert a + b == a;
    } else {
      PresentConcat(a, b[..|b| - 1]);
      assert (a + b)[..|a + b| - 1] == a + b[..|b| - 1];
    }
  }

  lemma {:induction false} PresentAbsents(n: nat)
    ensures Present(Absents(n)) == 0
  {
    if n > 0 {
      PresentAbsents(n - 1);
      assert Absents(n)[..n - 1] == Absents(n - 1);
    }
  }

  lemma PresentGrows(ring: seq<Slot>, n: nat, slot: Slot)
    requires slot != ABSENT
    ensures Present(ring + Absents(n) + [slot]) == Present(ring) + 1
  {
    PresentConcat(ring, Absents(n));
    PresentAbsents(n);
    assert (ring + Absents(n) + [slot])[..|ring| + n] == ring + Absents(n);
  }

  /** Every row is kept, the first one first and the last one last. */
  ghost predicate KeepsRows(ring: seq<Slot>, n: nat) {
    ring != [] && ring[0] != ABSENT && Last(ring) != ABSENT && Present(ring) == n
  }

  lemma KeepsOneMore(ring: seq<Slot>, n: nat, gap: nat, slot: Slot)
    requires KeepsRows(ring, n) && slot != ABSENT
    ensures KeepsRows(ring + Absents(gap) + [slot], n + 1)
  {
    PresentGrows(ring, gap, slot);
  }

  lemma {:induction false} ReplayedKeepsRows(rows: seq<LoadBucket>, nums: seq<int>)
    requires Numbered(rows, nums) && NoneAbsent(rows)
    ensures KeepsRows(Replayed(rows), |rows|)
  {
    var n := |rows| - 1;
    if n == 0 {
      assert Replayed(rows) == [SlotOf(rows[0])] && Replayed(rows)[..0] == [];
    } else {
      ReplayedKeepsRows(rows[..n], nums[..n]);
      ReplayedLast(rows);
      KeepsOneMore(Replayed(rows[..n]), n, LastGap(rows), SlotOf(rows[n]));
    }
  }

  lemma {:induction false} TimelineKeepsRows(rows: seq<LoadBucket>, nums: seq<int>)
    requires Numbered(rows, nums) && NoneAbsent(rows) && Reach(nums) >= 0
    ensures var ring := Timeline(rows, nums);
            Last(ring) != ABSENT && Present(ring) == |rows|
  {
    var n := |rows| - 1;
    if n == 0 {
      assert Timeline(rows, nums) == [SealSlot(rows, nums, nums[0] + 0)];
      assert Timeline(rows, nums)[..0] == [];
    } else {
      TimelineGrows(rows, nums);
      TimelineKeepsRows(rows[..n], nums[..n]);
      PresentGrows(Timeline(rows[..n], nums[..n]), nums[n] - nums[n - 1] - 1, SlotOf(rows[n]));
    }
  }

  lemma PresentIsLongest(a: seq<Slot>, m: nat, b: seq<Slot>, n: nat)
    requires b != [] && Last(b) != ABSENT && a + Absents(m) == b + Absents(n)
    ensures |b| <= |a|
  {
    assert (b + Absents(n))[|b| - 1] == Last(b);
    if |a| < |b| { assert false; }
  }

  lemma SplitAtAbsents(a: seq<Slot>, m: nat, b: seq<Slot>, n: nat)
    requires a != [] && b != [] && Last(a) != ABSENT && Last(b) != ABSENT
    requires a + Absents(m) == b + Absents(n)
    ensures a == b && m == n
  {
    PresentIsLongest(a, m, b, n);
    PresentIsLongest(b, n, a, m);
    assert (a + Absents(m))[..|a|] == a && (b + Absents(n))[..|a|] == b;
  }

  /** A replay laid out by seal had its minutes count its seals. */
  lemma {:induction false} TimelineIsTimely(rows: seq<LoadBucket>, nums: seq<int>)
    requires Numbered(rows, nums) && NoneAbsent(rows) && 0 <= Reach(nums) < 1440
    requires Replayed(rows) == Timeline(rows, nums)
    ensures Timely(rows, nums)
  {
    var n := |rows| - 1;
    if n > 0 {
      TimelineGrows(rows, nums);
      TimelyInit(rows, nums);
      ReplayedLast(rows);
      StripLast(rows, nums);
      TimelineIsTimely(rows[..n], nums[..n]);
    }
  }

  lemma StripLast(rows: seq<LoadBucket>, nums: seq<int>)
    requires Numbered(rows, nums) && NoneAbsent(rows) && |rows| > 1 && Reach(nums) < 1440
    requires Reach(nums) >= 0 && Replayed(rows) == Timeline(rows, nums)
    ensures var n := |rows| - 1;
            && Reach(nums[..n]) >= 0 && Replayed(rows[..n]) == Timeline(rows[..n], nums[..n])
            && Steps(rows[n].bucket - rows[n - 1].bucket) == nums[n] - nums[n - 1]
  {
    var n := |rows| - 1;
    TimelineGrows(rows, nums);
    ReplayedLast(rows);
    ReplayedKeepsRows(rows[..n], nums[..n]);
    TimelineKeepsRows(rows[..n], nums[..n]);
    var d := nums[n] - nums[n - 1] - 1;
    SameBeforeLast(Replayed(rows[..n]) + Absents(LastGap(rows)), Timeline(rows[..n], nums[..n]) + Absents(d),
                   SlotOf(rows[n]));
    SplitAtAbsents(Replayed(rows[..n]), LastGap(rows), Timeline(rows[..n], nums[..n]), d);
  }

  lemma SameBeforeLast(a: seq<Slot>, b: seq<Slot>, slot: Slot)
    requires a + [slot] == b + [slot]
    ensures a == b
  {
    assert (a + [slot])[..|a|] == a && (b + [slot])[..|b|] == b;
  }

  /** The exact condition: with every row sampled, the seeded ring shows each seal in its
      place exactly when between rows read in turn the minutes count the seals. */
  lemma SeededIsTimelineExactly(rows: seq<LoadBucket>, nums: seq<int>, now: int)
    requires Numbered(rows, nums) && NoneAbsent(rows)
    requires 0 <= Reach(nums) && Reach(nums) + 1 + Downtime(rows, now) <= 1440
    ensures Seeded(rows, now) == Timeline(rows, nums) + Absents(Downtime(rows, now)) <==> Timely(rows, nums)
  {
    var ring, line, q := Replayed(rows), Timeline(rows, nums), Downtime(rows, now);
    if Timely(rows, nums) {
      SeededIsTimeline(rows, nums, now);
    } else if Seeded(rows, now) == line + Absents(q) {
      ReplayedKeepsRows(rows, nums);
      TimelineKeepsRows(rows, nums);
      var k := PadLength(ring, Quotient(now - Prev(rows), 60));
      if |ring| <= 1440 {
        assert Seeded(rows, now) == ring + Absents(k);
        SplitAtAbsents(ring, k, line, q);
        TimelineIsTimely(rows, nums);
      } else {
        TrimLosesFirst(ring, line, q);
      }
      assert false;
    }
  }

  /** A trimmed ring has lost its first slot, so it cannot hold as many. */
  lemma TrimLosesFirst(ring: seq<Slot>, line: seq<Slot>, q: nat)
    requires |ring| > 1440 && ring[0] != ABSENT && Present(ring) == Present(line)
    ensures Tail(ring, 1440) != line + Absents(q)
  {
    var k := |ring| - 1440;
    assert ring == [ring[0]] + ring[1..k] + ring[k..];
    PresentConcat([ring[0]] + ring[1..k], ring[k..]);
    PresentConcat([ring[0]], ring[1..k]);
    assert [ring[0]][..0] == [];
    PresentConcat(line, Absents(q));
    PresentAbsents(q);
  }

  /** Seals a second off and a write lost between them: the lost slot vanishes. */
  lemma DriftSwallowsLostSeal(first: LoadBucket, third: LoadBucket)
    requires first.bucket > 0 && third.bucket == first.bucket + 119
    ensures Seeded([first, third], third.bucket) == [SlotOf(first), SlotOf(third)]
    ensures Timeline([first, third], [0, 2]) == [SlotOf(first), ABSENT, SlotOf(third)]
  {
    var rows, nums := [first, third], [0, 2];
    assert rows[..1] == [first] && rows[..1][..0] == [] && nums[..1] == [0];
    ReplayedLast(rows);
    TimelineGrows(rows, nums);
    assert Timeline([first], [0]) == [SealSlot([first], [0], 0 + 0)];
  }

  // ---------------------------------------------------------------- the time axis

  /** Buckets as the persisted table yields them for the window ending now: in seal
      order, seals whole bucket spans apart. */
  ghost predicate Regular(rows: seq<LoadBucket>, now: int) {
    && rows != [] && rows[0].bucket > 0
    && (forall i, j :: 0 <= i < j < |rows| ==> rows[i].bucket < rows[j].bucket)
    && (forall i :: 0 <= i < |rows| ==> (rows[i].bucket - rows[0].bucket) % 60 == 0)
    && now - 86400 <= rows[0].bucket && rows[|rows| - 1].bucket <= now
  }

  /** The slot of the bucket sealed at t, absent if it was not read. */
  function SlotAt(rows: seq<LoadBucket>, t: int): Slot {
    if rows == [] then ABSENT
    else if rows[|rows| - 1].bucket == t then SlotOf(rows[|rows| - 1])
    else SlotAt(rows[..|rows| - 1], t)
  }

  /** One slot per bucket span from t on. */
  function Axis(rows: seq<LoadBucket>, t: int, n: nat): (ring: seq<Slot>)
    ensures |ring| == n
  {
    seq(n, i => SlotAt(rows, t + 60 * i))
  }

  /** How many bucket spans after the first bucket t is. */
  function Spans(rows: seq<LoadBucket>, t: int): int
    requires rows != []
  {
    (t - rows[0].bucket) / 60
  }

  lemma {:induction false} SlotAtBeyond(rows: seq<LoadBucket>, t: int)
    requires forall i :: 0 <= i < |rows| ==> rows[i].bucket != t
    ensures SlotAt(rows, t) == ABSENT
  {
    if rows != [] { SlotAtBeyond(rows[..|rows| - 1], t); }
  }

  lemma {:induction false} SlotAtRow(rows: seq<LoadBucket>, i: nat)
    requires i < |rows| && forall a, b :: 0 <= a < b < |rows| ==> rows[a].bucket < rows[b].bucket
    ensures SlotAt(rows, rows[i].bucket) == SlotOf(rows[i])
  {
    if i < |rows| - 1 { SlotAtRow(rows[..|rows| - 1], i); }
  }

  /** A row's second is its span count from the first. */
  lemma SpanSeconds(rows: seq<LoadBucket>, now: int, i: nat)
    requires Regular(rows, now) && i < |rows|
    ensures rows[i].bucket == rows[0].bucket + 60 * Spans(rows, rows[i].bucket)
    ensures 0 <= Spans(rows, rows[i].bucket) <= 1440
  {}

  /** Each row's span count from the first. */
  function SpanNums(rows: seq<LoadBucket>): (nums: seq<int>)
    requires rows != []
    ensures |nums| == |rows|
  {
    seq(|rows|, i requires 0 <= i < |rows| => Spans(rows, rows[i].bucket))
  }

  lemma {:induction false} SealSlotIsSlotAt(rows: seq<LoadBucket>, nums: seq<int>, first: int, n: int)
    requires |rows| == |nums| && forall i :: 0 <= i < |rows| ==> rows[i].bucket == first + 60 * nums[i]
    ensures SealSlot(rows, nums, n) == SlotAt(rows, first + 60 * n)
  {
    if rows != [] { SealSlotIsSlotAt(rows[..|rows| - 1], nums[..|nums| - 1], first, n); }
  }

  lemma {:induction false} RegularIsTimely(rows: seq<LoadBucket>, now: int)
    requires Regular(rows, now)
    ensures Numbered(rows, SpanNums(rows)) && Timely(rows, SpanNums(rows))
    ensures 0 <= Reach(SpanNums(rows)) == Spans(rows, Prev(rows)) <= 1440
  {
    var nums := SpanNums(rows);
    forall i | 0 <= i < |rows| ensures rows[i].bucket == rows[0].bucket + 60 * nums[i] && nums[i] >= 0 {
      SpanSeconds(rows, now, i);
    }
    SpanSeconds(rows, now, |rows| - 1);
  }

  lemma {:induction false} TimelineIsAxis(rows: seq<LoadBucket>, now: int)
    requires Regular(rows, now) && Reach(SpanNums(rows)) == Spans(rows, Prev(rows)) >= 0
    ensures Timeline(rows, SpanNums(rows)) == Axis(rows, rows[0].bucket, Spans(rows, Prev(rows)) + 1)
  {
    var nums, first := SpanNums(rows), rows[0].bucket;
    forall i | 0 <= i < |rows| ensures rows[i].bucket == first + 60 * nums[i] { SpanSeconds(rows, now, i); }
    var line, axis := Timeline(rows, nums), Axis(rows, first, Reach(nums) + 1);
    forall i | 0 <= i < |line| ensures line[i] == axis[i] {
      SealSlotIsSlotAt(rows, nums, first, i);
      assert line[i] == SealSlot(rows, nums, nums[0] + i);
    }
  }

  /** Replaying regular buckets lays them out on the time axis, gaps absent. */
  lemma {:induction false} ReplayedIsAxis(rows: seq<LoadBucket>, now: int)
    requires Regular(rows, now)
    ensures 0 <= Spans(rows, Prev(rows)) <= 1440
    ensures Replayed(rows) == Axis(rows, rows[0].bucket, Spans(rows, Prev(rows)) + 1)
  {
    RegularIsTimely(rows, now);
    ReplayedIsTimeline(rows, SpanNums(rows));
    TimelineIsAxis(rows, now);
  }

  lemma DowntimeSpans(rows: seq<LoadBucket>, now: int)
    requires Regular(rows, now)
    ensures Quotient(now - Prev(rows), 60) == Spans(rows, now) - Spans(rows, Prev(rows))
    ensures 0 <= Spans(rows, Prev(rows)) <= Spans(rows, now) <= 1440
    ensures Spans(rows, now) == 1440 <==> rows[0].bucket == now - 86400
  {
    SpanSeconds(rows, now, |rows| - 1);
  }

  lemma AxisTrails(rows: seq<LoadBucket>, now: int, q: nat)
    requires Regular(rows, now)
    ensures var m := Spans(rows, Prev(rows)) + 1;
            m >= 0 && Axis(rows, rows[0].bucket, m + q) == Axis(rows, rows[0].bucket, m) + Absents(q)
  {
    SpanSeconds(rows, now, |rows| - 1);
    var m := Spans(rows, Prev(rows)) + 1;
    var axis, want := Axis(rows, rows[0].bucket, m + q), Axis(rows, rows[0].bucket, m) + Absents(q);
    forall i | 0 <= i < |axis| ensures axis[i] == want[i] {
      var t := rows[0].bucket + 60 * i;
      assert axis[i] == SlotAt(rows, t);
      if i >= m {
        forall k | 0 <= k < |rows| ensures rows[k].bucket < t { assert k < |rows| - 1 ==> rows[k].bucket < Prev(rows); }
        SlotAtBeyond(rows, t);
      }
    }
  }

  /** The seeded ring is the time axis from the first bucket read to now, its lost
      buckets and downtime absent. A bucket read exactly at the window's edge makes the
      axis one slot too long: with a bucket sealed in the last span the oldest slot goes,
      else the newest, which brings every bucket one slot nearer. */
  lemma SeededIsAxis(rows: seq<LoadBucket>, now: int)
    requires Regular(rows, now)
    ensures (var t, n, ring := rows[0].bucket, Spans(rows, now) + 1, Seeded(rows, now);
             if now - 86400 < t then 0 < n <= 1440 && ring == Axis(rows, t, n)
             else if now - Prev(rows) < 60 then ring == Axis(rows, t, 1441)[1..]
             else ring == Axis(rows, t, 1440))
  {
    DowntimeSpans(rows, now);
    ReplayedIsAxis(rows, now);
    var m, q := Spans(rows, Prev(rows)) + 1, Spans(rows, now) - Spans(rows, Prev(rows));
    assert Prev(rows) > 0 by { assert |rows| > 1 ==> rows[0].bucket < Prev(rows); }
    if m + q <= 1440 {
      PaddedFits(Replayed(rows), q);
      AxisTrails(rows, now, q);
    } else if q > 0 {
      AxisTrails(rows, now, q - 1);
      PaddedFull(Replayed(rows), q);
    } else {
      PaddedNone(Replayed(rows));
    }
  }

  lemma PaddedFull(ring: seq<Slot>, q: nat)
    requires |ring| <= 1440 && |ring| + q == 1441
    ensures Padded(ring, q) == ring + Absents(q - 1)
  {}

  lemma PaddedNone(ring: seq<Slot>)
    ensures Padded(ring, 0) == ring
  {}

  // ------------------------------------------------------------ persist, then seed

  /** The rows are survivors of a true ring sealed every minute from t0 on. */
  ghost predicate Survivors(rows: seq<LoadBucket>, truth: seq<Slot>, t0: int) {
    forall i :: 0 <= i < |rows| ==> SurvivesAt(rows[i], truth, t0)
  }

  ghost predicate SurvivesAt(row: LoadBucket, truth: seq<Slot>, t0: int) {
    var j := (row.bucket - t0) / 60;
    (row.bucket - t0) % 60 == 0 && 0 <= j < |truth| && SlotOf(row) == truth[j]
  }

  ghost predicate WasRead(rows: seq<LoadBucket>, t: int) {
    exists i :: 0 <= i < |rows| && rows[i].bucket == t
  }

  lemma RingAt(rows: seq<LoadBucket>, now: int, i: nat)
    requires Regular(rows, now) && now - 86400 < rows[0].bucket && i <= Spans(rows, now)
    ensures |Seeded(rows, now)| == Spans(rows, now) + 1
    ensures Seeded(rows, now)[i] == SlotAt(rows, rows[0].bucket + 60 * i)
  {
    SeededIsAxis(rows, now);
  }

  lemma SlotIfRead(rows: seq<LoadBucket>, now: int, t: int, truth: seq<Slot>, t0: int, j: nat)
    requires Regular(rows, now) && Survivors(rows, truth, t0) && j < |truth| && t == t0 + 60 * j
    ensures SlotAt(rows, t) == if WasRead(rows, t) then truth[j] else ABSENT
  {
    if i :| 0 <= i < |rows| && rows[i].bucket == t {
      SlotAtRow(rows, i);
      assert SurvivesAt(rows[i], truth, t0);
    } else {
      SlotAtBeyond(rows, t);
    }
  }

  lemma FirstAligned(rows: seq<LoadBucket>, truth: seq<Slot>, t0: int, j: nat)
    requires rows != [] && Survivors(rows, truth, t0)
    ensures (t0 + 60 * j - rows[0].bucket) % 60 == 0
  {
    assert SurvivesAt(rows[0], truth, t0);
  }

  /** Whichever writes were lost, a bucket sealed at t, no earlier than the first
      survivor, sits floor((now - t) / 60) slots from the end: as it was if its write
      survived, absent if not. */
  lemma RestartKeepsTruth(rows: seq<LoadBucket>, now: int, truth: seq<Slot>, t0: int, j: nat)
    requires Regular(rows, now) && now - 86400 < rows[0].bucket && Survivors(rows, truth, t0)
    requires j < |truth| && rows[0].bucket <= t0 + 60 * j <= now
    ensures var t, ring := t0 + 60 * j, Seeded(rows, now);
            var d := (now - t) / 60;
            0 <= d < |ring| && ring[|ring| - 1 - d] == if WasRead(rows, t) then truth[j] else ABSENT
  {
    var t := t0 + 60 * j;
    FirstAligned(rows, truth, t0, j);
    FromNow(rows[0].bucket, t, now);
    RingAt(rows, now, (t - rows[0].bucket) / 60);
    SlotIfRead(rows, now, t, truth, t0, j);
  }

  lemma FromNow(first: int, t: int, now: int)
    requires first <= t <= now && (t - first) % 60 == 0
    ensures (now - first) / 60 - (now - t) / 60 == (t - first) / 60
    ensures first + 60 * ((t - first) / 60) == t
    ensures 0 <= (t - first) / 60 <= (now - first) / 60
  {}

  lemma AfterLastRow(rows: seq<LoadBucket>, now: int, t: int)
    requires Regular(rows, now) && Prev(rows) < t
    ensures SlotAt(rows, t) == ABSENT
  {
    forall k | 0 <= k < |rows| ensures rows[k].bucket < t { assert k < |rows| - 1 ==> rows[k].bucket < Prev(rows); }
    SlotAtBeyond(rows, t);
  }

  /** The ring reaches exactly from the first survivor to now, and nothing sealed after
      the last survivor is anything but absent. */
  lemma RestartFillsDowntime(rows: seq<LoadBucket>, now: int, d: nat)
    requires Regular(rows, now) && now - 86400 < rows[0].bucket
    ensures |Seeded(rows, now)| == (now - rows[0].bucket) / 60 + 1
    ensures 60 * (d + 1) <= now - Prev(rows) ==>
              var ring := Seeded(rows, now); d < |ring| && ring[|ring| - 1 - d] == ABSENT
  {
    DowntimeSpans(rows, now);
    RingAt(rows, now, 0);
    if 60 * (d + 1) <= now - Prev(rows) {
      var i := SpansBack(rows, now, d);
      RingAt(rows, now, i);
      AfterLastRow(rows, now, rows[0].bucket + 60 * i);
    }
  }

  /** The span d minutes before now, when the last row is older. */
  lemma SpansBack(rows: seq<LoadBucket>, now: int, d: nat) returns (i: nat)
    requires Regular(rows, now) && 60 * (d + 1) <= now - Prev(rows)
    ensures i == Spans(rows, now) - d && Prev(rows) < rows[0].bucket + 60 * i
  {
    SpanSeconds(rows, now, |rows| - 1);
    i := Spans(rows, now) - d;
  }

  /** At the window's edge with a minute of downtime, the first bucket read sits one
      slot nearer the end than its age says. */
  lemma EdgeBucketShifts(rows: seq<LoadBucket>, now: int)
    requires Regular(rows, now) && rows[0].bucket == now - 86400 && now - Prev(rows) >= 60
    ensures (now - rows[0].bucket) / 60 == 1440 == |Seeded(rows, now)|
    ensures Seeded(rows, now)[0] == SlotOf(rows[0])
  {
    SeededIsAxis(rows, now);
    SlotAtRow(rows, 0);
    assert Axis(rows, rows[0].bucket, 1440)[0] == SlotAt(rows, rows[0].bucket + 60 * 0);
  }
}
