/** Export of internal/archive/archive.go: publish, re-validate, drop, flip. */
module ArchiveExport {
  import opened Results
  import opened ArchiveCodec
  import opened ArchiveFile

  /** A journal partition's id range [from, to). */
  datatype Range = Range(from: Int64, to: Int64)

  /** How a call across a seam ends: done, failed without effect, or done but
      reported as failed. */
  datatype Outcome = Works | FailsBefore | FailsAfter

  /** The object store: objects under stable keys, written once. */
  class ObjectStore {
    var objects: map<string, Bytes>

    method Publish(key: string, data: Bytes, outcome: Outcome) returns (ok: bool)
      modifies this
      ensures ok <==> outcome == Works
      ensures objects ==
              if outcome == FailsBefore || key in old(objects) then old(objects) else old(objects)[key := data]
    {
      if outcome == FailsBefore { return false; }
      if key !in objects { objects := objects[key := data]; }
      return outcome == Works;
    }
  }

  /** The data database: the resident partitions and their rows. */
  class Partitions {
    var resident: map<Range, seq<Bytes>>

    /** Detaches and drops; an absent partition is no error. */
    method Drop(from: Int64, to: Int64, outcome: Outcome) returns (ok: bool)
      modifies this
      ensures ok <==> outcome == Works
      ensures resident == if outcome == FailsBefore then old(resident) else old(resident) - {Range(from, to)}
    {
      if outcome == FailsBefore { return false; }
      resident := resident - {Range(from, to)};
      return outcome == Works;
    }
  }

  /** The checkpoints whose location is archived, by digest. */
  class Checkpoints {
    var archived: set<Bytes>

    method Archive(digest: Bytes, outcome: Outcome) returns (ok: bool)
      modifies this
      ensures ok <==> outcome == Works
      ensures archived == if outcome == FailsBefore then old(archived) else old(archived) + {digest}
    {
      if outcome == FailsBefore { return false; }
      archived := archived + {digest};
      return outcome == Works;
    }
  }

  datatype ExportError =
    | NilSeam
    | EmptyKey
    | PublishFailed
    | RereadFailed
    | RangeChanged
    | DigestChanged
    | DigestMismatch
    | DropFailed
    | FlipFailed

  // ------------------------------------------------------------------ the world

  /** Everything the protocol changes. */
  datatype World = World(objects: map<string, Bytes>, resident: map<Range, seq<Bytes>>, archived: set<Bytes>)

  /** A sealed partition: what every attempt under its key carries. */
  datatype Sealed = Sealed(h: Header, rows: seq<Bytes>)

  type Ledger = map<string, Sealed>

  function RangeOf(h: Header): Range {
    Range(h.idFrom, h.idTo)
  }

  function FileOf(p: Sealed): Bytes {
    Written(p.h, EncodedRows(p.rows))
  }

  /** Distinct keys seal distinct ranges under distinct digests, and every file
      fits its format. */
  ghost predicate WellSealed(ledger: Ledger) {
    && (forall k :: k in ledger ==> Holds(FileOf(ledger[k]), ledger[k].h, ledger[k].rows))
    && (forall k, l :: k in ledger && l in ledger && k != l ==>
          RangeOf(ledger[k].h) != RangeOf(ledger[l].h) && ledger[k].h.digest != ledger[l].h.digest)
  }

  /** The stored object reads back as exactly the sealed partition. */
  ghost predicate Stored(w: World, ledger: Ledger, k: string)
    requires k in ledger
  {
    k in w.objects && Holds(w.objects[k], ledger[k].h, ledger[k].rows)
  }

  ghost predicate Resident(w: World, ledger: Ledger, k: string)
    requires k in ledger
  {
    RangeOf(ledger[k].h) in w.resident && w.resident[RangeOf(ledger[k].h)] == ledger[k].rows
  }

  /** No partition is lost: each is resident or stored under a digest its rows
      have; an archived one is stored and dropped. */
  ghost predicate Safe(w: World, ledger: Ledger, digestOf: seq<Bytes> -> Bytes) {
    forall k :: k in ledger ==> SafeAt(w, ledger, digestOf, k)
  }

  ghost predicate SafeAt(w: World, ledger: Ledger, digestOf: seq<Bytes> -> Bytes, k: string)
    requires k in ledger
  {
    && (Resident(w, ledger, k) || (Stored(w, ledger, k) && digestOf(ledger[k].rows) == ledger[k].h.digest))
    && (k in w.objects ==> w.objects[k] == FileOf(ledger[k]))
    && (RangeOf(ledger[k].h) in w.resident ==> Resident(w, ledger, k))
    && (ledger[k].h.digest in w.archived ==> Stored(w, ledger, k) && RangeOf(ledger[k].h) !in w.resident)
  }

  // ------------------------------------------------------------- the transitions

  /** The steps an attempt for key k makes. */
  datatype Step = Publish | Drop | Flip

  /** A drop happens only behind a published object whose rows have the recorded
      digest, a flip only behind that and a drop. */
  ghost predicate Next(w: World, w': World, ledger: Ledger, digestOf: seq<Bytes> -> Bytes, k: string, step: Step) {
    && k in ledger
    && match step
       case Publish => w' == if k in w.objects then w else w.(objects := w.objects[k := FileOf(ledger[k])])
       case Drop =>
         k in w.objects && digestOf(ledger[k].rows) == ledger[k].h.digest
         && w' == w.(resident := w.resident - {RangeOf(ledger[k].h)})
       case Flip =>
         k in w.objects && digestOf(ledger[k].rows) == ledger[k].h.digest && RangeOf(ledger[k].h) !in w.resident
         && w' == w.(archived := w.archived + {ledger[k].h.digest})
  }

  ghost predicate Moves(w: World, w': World, ledger: Ledger, digestOf: seq<Bytes> -> Bytes) {
    exists k, step :: Next(w, w', ledger, digestOf, k, step)
  }

  /** A history of steps of any attempts in any order: retries, crashes between
      steps, attempts for different keys interleaved. */
  ghost predicate Run(ws: seq<World>, ledger: Ledger, digestOf: seq<Bytes> -> Bytes) {
    ws != [] && forall i, j :: 0 <= i && j == i + 1 && j < |ws| ==> Moves(ws[i], ws[j], ledger, digestOf)
  }

  /** Every step keeps every partition safe. */
  lemma StepIsSafe(w: World, w': World, ledger: Ledger, digestOf: seq<Bytes> -> Bytes, k: string, step: Step)
    requires WellSealed(ledger) && Safe(w, ledger, digestOf) && Next(w, w', ledger, digestOf, k, step)
    ensures Safe(w', ledger, digestOf)
  {
    assert SafeAt(w, ledger, digestOf, k);
    forall l | l in ledger ensures SafeAt(w', ledger, digestOf, l) {
      assert SafeAt(w, ledger, digestOf, l);
      if l == k {
        OwnStepIsSafe(w, w', ledger, digestOf, k, step);
      } else {
        assert RangeOf(ledger[l].h) != RangeOf(ledger[k].h) && ledger[l].h.digest != ledger[k].h.digest;
        OtherStepIsSafe(w, w', ledger, digestOf, k, step, l);
      }
    }
  }

  lemma OwnStepIsSafe(w: World, w': World, ledger: Ledger, digestOf: seq<Bytes> -> Bytes, k: string, step: Step)
    requires Next(w, w', ledger, digestOf, k, step) && SafeAt(w, ledger, digestOf, k)
    requires Holds(FileOf(ledger[k]), ledger[k].h, ledger[k].rows)
    ensures SafeAt(w', ledger, digestOf, k)
  {}

  lemma OtherStepIsSafe(w: World, w': World, ledger: Ledger, digestOf: seq<Bytes> -> Bytes, k: string, step: Step,
                        l: string)
    requires Next(w, w', ledger, digestOf, k, step) && l in ledger && SafeAt(w, ledger, digestOf, l)
    requires l != k && RangeOf(ledger[l].h) != RangeOf(ledger[k].h) && ledger[l].h.digest != ledger[k].h.digest
    ensures SafeAt(w', ledger, digestOf, l)
  {}

  /** Over any history, no partition is ever lost. */
  lemma {:induction false} RunsAreSafe(ws: seq<World>, ledger: Ledger, digestOf: seq<Bytes> -> Bytes, i: nat)
    requires WellSealed(ledger) && Run(ws, ledger, digestOf) && Safe(ws[0], ledger, digestOf)
    requires i < |ws|
    ensures Safe(ws[i], ledger, digestOf)
  {
    if i > 0 {
      RunsAreSafe(ws, ledger, digestOf, i - 1);
      var j := i - 1;
      assert Moves(ws[j], ws[i], ledger, digestOf);
      var k, step :| Next(ws[j], ws[i], ledger, digestOf, k, step);
      StepIsSafe(ws[j], ws[i], ledger, digestOf, k, step);
    }
  }

  // ------------------------------------------------------------------ the export

  ghost function Now(pub: ObjectStore, drop: Partitions, flip: Checkpoints): World
    reads pub, drop, flip
  {
    World(pub.objects, drop.resident, flip.archived)
  }

  /** The bytes read back with h's id range and digest, and rows that have it. */
  ghost predicate Revalidates(data: Bytes, h: Header, digestOf: seq<Bytes> -> Bytes) {
    exists readH, readRows :: ReadsAs(data, h, digestOf, readH, readRows)
  }

  ghost predicate ReadsAs(data: Bytes, h: Header, digestOf: seq<Bytes> -> Bytes, readH: Header, readRows: seq<Bytes>) {
    && Holds(data, readH, readRows)
    && readH.idFrom == h.idFrom && readH.idTo == h.idTo && readH.digest == h.digest && digestOf(readRows) == h.digest
  }

  /** What a file holds is re-validated exactly if its rows have its digest. */
  lemma HeldRevalidates(data: Bytes, h: Header, rows: seq<Bytes>, digestOf: seq<Bytes> -> Bytes)
    requires Holds(data, h, rows)
    ensures Revalidates(data, h, digestOf) <==> digestOf(rows) == h.digest
  {
    if Revalidates(data, h, digestOf) {
      var readH, readRows :| ReadsAs(data, h, digestOf, readH, readRows);
      HoldsUniquely(data, h, rows, data, readH, readRows);
    } else {
      assert !ReadsAs(data, h, digestOf, h, rows);
    }
  }

  /** Re-reads the bytes handed to Publish and recomputes the digest over the rows. */
  method Revalidate(data: Bytes, h: Header, digestOf: seq<Bytes> -> Bytes) returns (r: Option<ExportError>)
    ensures r == None <==> Revalidates(data, h, digestOf)
    ensures r == Some(RereadFailed) <==> forall readH, readRows :: !Holds(data, readH, readRows)
    ensures r.Some? ==> r.value in {RereadFailed, RangeChanged, DigestChanged, DigestMismatch}
  {
    var read := Read(data);
    if read.Err? { return Some(RereadFailed); }
    var (readH, readRows) := read.value;
    forall otherH, otherRows | Holds(data, otherH, otherRows) ensures otherH == readH && otherRows == readRows {
      HoldsUniquely(data, readH, readRows, data, otherH, otherRows);
    }
    if readH.idFrom != h.idFrom || readH.idTo != h.idTo { return Some(RangeChanged); }
    if readH.digest != h.digest { return Some(DigestChanged); }
    if digestOf(readRows) != h.digest { return Some(DigestMismatch); }
    assert ReadsAs(data, h, digestOf, readH, readRows);
    return None;
  }

  /** The attempt carries what the ledger sealed under its key. */
  ghost predicate Lawful(ledger: Ledger, key: string, h: Header, rows: seq<Bytes>) {
    WellSealed(ledger) && key in ledger && ledger[key] == Sealed(h, rows)
  }

  lemma RunExtends(ws: seq<World>, w: World, ledger: Ledger, digestOf: seq<Bytes> -> Bytes, k: string, step: Step)
    requires Run(ws, ledger, digestOf) && Next(ws[|ws| - 1], w, ledger, digestOf, k, step)
    ensures Run(ws + [w], ledger, digestOf)
  {
    var ws' := ws + [w];
    forall i, j | 0 <= i && j == i + 1 && j < |ws'| ensures Moves(ws'[i], ws'[j], ledger, digestOf) {
      if j == |ws| {
        assert Next(ws'[i], ws'[j], ledger, digestOf, k, step);
      } else {
        assert Moves(ws[i], ws[j], ledger, digestOf);
      }
    }
  }

  lemma LawfulPublish(ws: seq<World>, w: World, ledger: Ledger, digestOf: seq<Bytes> -> Bytes, key: string, h: Header,
                      rows: seq<Bytes>)
    requires Lawful(ledger, key, h, rows) && Run(ws, ledger, digestOf)
    requires var v := ws[|ws| - 1];
             w == if key in v.objects then v else v.(objects := v.objects[key := Written(h, EncodedRows(rows))])
    ensures Run(ws + [w], ledger, digestOf)
  {
    RunExtends(ws, w, ledger, digestOf, key, Publish);
  }

  lemma LawfulDrop(ws: seq<World>, w: World, ledger: Ledger, digestOf: seq<Bytes> -> Bytes, key: string, h: Header,
                   rows: seq<Bytes>)
    requires Lawful(ledger, key, h, rows) && Run(ws, ledger, digestOf)
    requires var v := ws[|ws| - 1];
             key in v.objects && digestOf(rows) == h.digest && w == v.(resident := v.resident - {RangeOf(h)})
    ensures Run(ws + [w], ledger, digestOf)
  {
    RunExtends(ws, w, ledger, digestOf, key, Drop);
  }

  lemma LawfulFlip(ws: seq<World>, w: World, ledger: Ledger, digestOf: seq<Bytes> -> Bytes, key: string, h: Header,
                   rows: seq<Bytes>)
    requires Lawful(ledger, key, h, rows) && Run(ws, ledger, digestOf)
    requires var v := ws[|ws| - 1];
             key in v.objects && digestOf(rows) == h.digest && RangeOf(h) !in v.resident
             && w == v.(archived := v.archived + {h.digest})
    ensures Run(ws + [w], ledger, digestOf)
  {
    RunExtends(ws, w, ledger, digestOf, key, Flip);
  }

  /** The trace with the world after one more effect, if it took place. */
  ghost function Traced(trace: seq<World>, outcome: Outcome, w: World): seq<World> {
    if outcome == FailsBefore then trace else trace + [w]
  }

  /** Drops the partition, then records the archive: each effect only if the one
      before succeeded. */
  method DropAndFlip(drop: Partitions, flip: Checkpoints, h: Header, rows: seq<Bytes>, dropping: Outcome,
                     flipping: Outcome,
                     ghost pub: ObjectStore, ghost key: string, ghost digestOf: seq<Bytes> -> Bytes,
                     ghost ledger: Ledger,
                     ghost before: seq<World>)
    returns (r: Result<(), ExportError>, ghost trace: seq<World>)
    requires before != [] && before[|before| - 1] == Now(pub, drop, flip)
    requires (Lawful(ledger, key, h, rows) ==>
                Run(before, ledger, digestOf) && key in pub.objects && digestOf(rows) == h.digest)
    modifies drop, flip
    ensures before <= trace && trace[|trace| - 1] == Now(pub, drop, flip)
    ensures Lawful(ledger, key, h, rows) ==> Run(trace, ledger, digestOf)
    ensures drop.resident == if dropping == FailsBefore then old(drop.resident) else old(drop.resident) - {RangeOf(h)}
    ensures flip.archived == if dropping != Works || flipping == FailsBefore then old(flip.archived)
                             else old(flip.archived) + {h.digest}
    ensures r == if dropping != Works then Err(DropFailed) else if flipping != Works then Err(FlipFailed) else Ok(())
  {
    ghost var lawful := Lawful(ledger, key, h, rows);
    trace := before;
    var ok := drop.Drop(h.idFrom, h.idTo, dropping);
    if lawful && dropping != FailsBefore {
      LawfulDrop(trace, Now(pub, drop, flip), ledger, digestOf, key, h, rows);
    }
    trace := Traced(trace, dropping, Now(pub, drop, flip));
    if !ok { return Err(DropFailed), trace; }

    ok := flip.Archive(h.digest, flipping);
    if lawful && flipping != FailsBefore {
      LawfulFlip(trace, Now(pub, drop, flip), ledger, digestOf, key, h, rows);
    }
    trace := Traced(trace, flipping, Now(pub, drop, flip));
    if !ok { return Err(FlipFailed), trace; }
    return Ok(()), trace;
  }

  /** How an attempt ends: with the first call that failed, or the re-validation. */
  ghost predicate Ends(r: Result<(), ExportError>, publishing: Outcome, passes: bool, dropping: Outcome,
                       flipping: Outcome) {
    if publishing != Works then r == Err(PublishFailed)
    else if !passes then r.Err? && r.error in {RereadFailed, RangeChanged, DigestChanged, DigestMismatch}
    else if dropping != Works then r == Err(DropFailed)
    else if flipping != Works then r == Err(FlipFailed)
    else r == Ok(())
  }

  /** Drops and records only what is re-validated. */
  method DropValidated(drop: Partitions, flip: Checkpoints, data: Bytes, h: Header, rows: seq<Bytes>,
                       digestOf: seq<Bytes> -> Bytes, dropping: Outcome, flipping: Outcome,
                       ghost pub: ObjectStore, ghost key: string, ghost ledger: Ledger, ghost before: seq<World>)
    returns (r: Result<(), ExportError>, ghost trace: seq<World>)
    requires data == Written(h, EncodedRows(rows))
    requires before != [] && before[|before| - 1] == Now(pub, drop, flip)
    requires Lawful(ledger, key, h, rows) ==> Run(before, ledger, digestOf) && key in pub.objects
    modifies drop, flip
    ensures before <= trace && trace[|trace| - 1] == Now(pub, drop, flip)
    ensures Lawful(ledger, key, h, rows) ==> Run(trace, ledger, digestOf)
    ensures var passes := Revalidates(data, h, digestOf);
      && (drop.resident == if passes && dropping != FailsBefore then old(drop.resident) - {RangeOf(h)}
                           else old(drop.resident))
      && (flip.archived == if passes && dropping == Works && flipping != FailsBefore
                           then old(flip.archived) + {h.digest} else old(flip.archived))
      && Ends(r, Works, passes, dropping, flipping)
  {
    var fault := Revalidate(data, h, digestOf);
    if fault.Some? { return Err(fault.value), before; }
    if Lawful(ledger, key, h, rows) { HeldRevalidates(data, h, rows, digestOf); }
    r, trace := DropAndFlip(drop, flip, h, rows, dropping, flipping, pub, key, digestOf, ledger, before);
  }

  /** The three effects in order, each only if the one before succeeded. `trace`
      lists the worlds the attempt passes through; for a lawful attempt each is one
      transition from the one before. */
  method ExportThrough(pub: ObjectStore, drop: Partitions, flip: Checkpoints, key: string, h: Header, rows: seq<Bytes>,
                       digestOf: seq<Bytes> -> Bytes, publishing: Outcome, dropping: Outcome, flipping: Outcome,
                       ghost ledger: Ledger)
    returns (r: Result<(), ExportError>, ghost trace: seq<World>)
    modifies pub, drop, flip
    ensures trace != [] && trace[0] == old(Now(pub, drop, flip)) && trace[|trace| - 1] == Now(pub, drop, flip)
    ensures Lawful(ledger, key, h, rows) ==> Run(trace, ledger, digestOf)
    ensures pub.objects == if publishing == FailsBefore || key in old(pub.objects) then old(pub.objects)
                           else old(pub.objects)[key := Written(h, EncodedRows(rows))]
    ensures var passes := publishing == Works && Revalidates(Written(h, EncodedRows(rows)), h, digestOf);
      && (drop.resident == if passes && dropping != FailsBefore then old(drop.resident) - {RangeOf(h)}
                           else old(drop.resident))
      && (flip.archived == if passes && dropping == Works && flipping != FailsBefore
                           then old(flip.archived) + {h.digest} else old(flip.archived))
      && Ends(r, publishing, passes, dropping, flipping)
  {
    ghost var lawful := Lawful(ledger, key, h, rows);
    trace := [Now(pub, drop, flip)];

    var data := BuildFile(h, rows);
    var ok := pub.Publish(key, data, publishing);
    if lawful && publishing != FailsBefore {
      LawfulPublish(trace, Now(pub, drop, flip), ledger, digestOf, key, h, rows);
    }
    trace := Traced(trace, publishing, Now(pub, drop, flip));
    if !ok { return Err(PublishFailed), trace; }

    r, trace := DropValidated(drop, flip, data, h, rows, digestOf, dropping, flipping, pub, key, ledger, trace);
  }

  /** One attempt to archive one sealed partition. `outcomes` say how each seam
      call ends. For a lawful attempt the trace is a run, so by RunsAreSafe no crash,
      failure or retry loses rows. Without that hypothesis, a successful attempt's
      object is its own file exactly when the key was free or already held it. */
  method Export(pub: ObjectStore?, drop: Partitions?, flip: Checkpoints?, key: string, h: Header, rows: seq<Bytes>,
                digestOf: seq<Bytes> -> Bytes, publishing: Outcome, dropping: Outcome, flipping: Outcome,
                ghost ledger: Ledger)
    returns (r: Result<(), ExportError>, ghost trace: seq<World>)
    modifies pub, drop, flip
    ensures r == Err(NilSeam) <==> pub == null || drop == null || flip == null
    ensures r == Err(NilSeam) ==>
      && (pub != null ==> pub.objects == old(pub.objects))
      && (drop != null ==> drop.resident == old(drop.resident))
      && (flip != null ==> flip.archived == old(flip.archived))
    ensures r != Err(NilSeam) ==>
      && trace != [] && trace[0] == old(Now(pub, drop, flip)) && trace[|trace| - 1] == Now(pub, drop, flip)
      && (Lawful(ledger, key, h, rows) ==> Run(trace, ledger, digestOf))
      && (key == "" <==> r == Err(EmptyKey))
      && (key == "" ==> Now(pub, drop, flip) == old(Now(pub, drop, flip)))
      && (key != "" ==>
            pub.objects == if publishing == FailsBefore || key in old(pub.objects) then old(pub.objects)
                           else old(pub.objects)[key := Written(h, EncodedRows(rows))])
    ensures r != Err(NilSeam) && key != "" ==>
      var passes := publishing == Works && Revalidates(Written(h, EncodedRows(rows)), h, digestOf);
      && (drop.resident == if passes && dropping != FailsBefore then old(drop.resident) - {RangeOf(h)}
                           else old(drop.resident))
      && (flip.archived == if passes && dropping == Works && flipping != FailsBefore
                           then old(flip.archived) + {h.digest} else old(flip.archived))
      && Ends(r, publishing, passes, dropping, flipping)
    ensures r.Ok? ==>
      && key in pub.objects
      && (pub.objects[key] == Written(h, EncodedRows(rows))
          <==> key !in old(pub.objects) || old(pub.objects[key]) == Written(h, EncodedRows(rows)))
      && (pub.objects[key] != Written(h, EncodedRows(rows)) ==>
            RangeOf(h) !in drop.resident && !Holds(pub.objects[key], h, rows))
  {
    trace := [];
    if pub == null || drop == null || flip == null { return Err(NilSeam), trace; }
    if key == "" { return Err(EmptyKey), [Now(pub, drop, flip)]; }
    r, trace := ExportThrough(pub, drop, flip, key, h, rows, digestOf, publishing, dropping, flipping, ledger);
  }

  lemma SmallFileHolds(h: Header, row: Bytes)
    requires |row| == 1 && |h.digest| < TWO_16 && h.signature == []
    ensures Holds(Written(h, EncodedRows([row])), h, [row])
  {
    assert EncodedRows([row]) == BigEndian(1, 8) + row + [];
    BuiltFileHoldsExactly(h, [row]);
  }

  /** Two attempts under one key with different contents, from any stores where the
      key is free: the first publishes and stops, the second runs through,
      re-validating its own bytes rather than the stored object. The second's rows are
      then neither resident nor stored, though recorded as archived. */
  method SharedKeyLosesRows(pub: ObjectStore, drop: Partitions, flip: Checkpoints, key: string, first: Sealed,
                            second: Sealed, digestOf: seq<Bytes> -> Bytes)
    returns (r1: Result<(), ExportError>, r2: Result<(), ExportError>)
    requires key != "" && key !in pub.objects && first != second
    requires Holds(FileOf(first), first.h, first.rows) && Holds(FileOf(second), second.h, second.rows)
    requires RangeOf(second.h) in drop.resident && drop.resident[RangeOf(second.h)] == second.rows
    requires digestOf(second.rows) == second.h.digest
    modifies pub, drop, flip
    ensures r1 == Err(PublishFailed) && r2.Ok?
    ensures pub.objects == old(pub.objects)[key := FileOf(first)] && !Holds(pub.objects[key], second.h, second.rows)
    ensures drop.resident == old(drop.resident) - {RangeOf(second.h)}
    ensures flip.archived == old(flip.archived) + {second.h.digest}
  {
    ghost var t;
    r1, t := Export(pub, drop, flip, key, first.h, first.rows, digestOf, FailsAfter, Works, Works, map[]);
    HeldRevalidates(FileOf(second), second.h, second.rows, digestOf);
    r2, t := Export(pub, drop, flip, key, second.h, second.rows, digestOf, Works, Works, Works, map[]);
    if Holds(FileOf(first), second.h, second.rows) {
      HoldsUniquely(FileOf(first), first.h, first.rows, FileOf(first), second.h, second.rows);
    }
  }

  /** It happens: two one-row partitions, and what becomes of the second. */
  method LostPartition(digestOf: seq<Bytes> -> Bytes)
    returns (lost: Sealed, before: World, after: World, r: Result<(), ExportError>)
    requires |digestOf([[2]])| < TWO_16
    ensures RangeOf(lost.h) in before.resident && before.resident[RangeOf(lost.h)] == lost.rows
    ensures r.Ok? && digestOf(lost.rows) == lost.h.digest && lost.h.digest in after.archived
    ensures RangeOf(lost.h) !in after.resident
    ensures "k" in after.objects && !Holds(after.objects["k"], lost.h, lost.rows)
  {
    var first := Sealed(Header(0, 10, [1], []), [[1]]);
    lost := Sealed(Header(10, 20, digestOf([[2]]), []), [[2]]);
    var pub, drop, flip := new ObjectStore, new Partitions, new Checkpoints;
    pub.objects, flip.archived := map[], {};
    drop.resident := map[RangeOf(first.h) := first.rows, RangeOf(lost.h) := lost.rows];
    before := World(pub.objects, drop.resident, flip.archived);
    SmallFileHolds(first.h, [1]);
    SmallFileHolds(lost.h, [2]);
    var r1;
    r1, r := SharedKeyLosesRows(pub, drop, flip, "k", first, lost, digestOf);
    after := World(pub.objects, drop.resident, flip.archived);
  }
}
