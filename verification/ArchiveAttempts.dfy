/** Export attempts interleaved: any number at once, under the same or different keys,
    each making its next call at any moment, failing or crashing anywhere. */
module ArchiveAttempts {
  import opened ArchiveCodec
  import opened ArchiveExport

  /** Where an attempt stands: before its publish, behind it, behind its drop, over. */
  datatype Phase = Begun | BehindPublish | BehindDrop | Over

  datatype Attempt = Attempt(key: string, phase: Phase)

  datatype System = System(world: World, attempts: map<nat, Attempt>)

  /** An attempt begins for a sealed key, or makes its next call. */
  datatype Action = Begin(id: nat, key: string) | Call(id: nat, outcome: Outcome)

  /** What the next call of an attempt does to the world: no guard but its phase. */
  function Effect(w: World, ledger: Ledger, t: Attempt): World
    requires t.key in ledger
  {
    var p := ledger[t.key];
    match t.phase
    case Begun => if t.key in w.objects then w else w.(objects := w.objects[t.key := FileOf(p)])
    case BehindPublish => w.(resident := w.resident - {RangeOf(p.h)})
    case BehindDrop => w.(archived := w.archived + {p.h.digest})
    case Over => w
  }

  function NextPhase(phase: Phase): Phase {
    match phase
    case Begun => BehindPublish
    case BehindPublish => BehindDrop
    case BehindDrop => Over
    case Over => Over
  }

  /** Re-validation looks at the attempt's own rows alone. */
  ghost predicate Validates(ledger: Ledger, digestOf: seq<Bytes> -> Bytes, t: Attempt)
    requires t.key in ledger
  {
    t.phase == BehindPublish ==> digestOf(ledger[t.key].rows) == ledger[t.key].h.digest
  }

  ghost predicate Acts(s: System, s': System, ledger: Ledger, digestOf: seq<Bytes> -> Bytes, act: Action) {
    match act
    case Begin(id, key) =>
      id !in s.attempts && key in ledger && s' == s.(attempts := s.attempts[id := Attempt(key, Begun)])
    case Call(id, outcome) =>
      id in s.attempts && s.attempts[id].key in ledger
      && var t := s.attempts[id];
      if !Validates(ledger, digestOf, t) then s' == s.(attempts := s.attempts[id := t.(phase := Over)])
      else
        && s'.world == (if outcome == FailsBefore then s.world else Effect(s.world, ledger, t))
        && s'.attempts == s.attempts[id := t.(phase := if outcome == Works then NextPhase(t.phase) else Over)]
  }

  /** What an attempt may count on: behind its publish an object under its key, behind
      its drop also its digest checked and its range gone. */
  ghost predicate Grounded(w: World, ledger: Ledger, digestOf: seq<Bytes> -> Bytes, t: Attempt) {
    && t.key in ledger
    && (t.phase == BehindPublish || t.phase == BehindDrop ==> t.key in w.objects)
    && (t.phase == BehindDrop ==>
          digestOf(ledger[t.key].rows) == ledger[t.key].h.digest && RangeOf(ledger[t.key].h) !in w.resident)
  }

  ghost predicate AllGrounded(s: System, ledger: Ledger, digestOf: seq<Bytes> -> Bytes) {
    forall id :: id in s.attempts ==> Grounded(s.world, ledger, digestOf, s.attempts[id])
  }

  /** No step of any attempt takes an object away or brings a range back. */
  ghost predicate Advances(w: World, w': World) {
    w.objects.Keys <= w'.objects.Keys && w'.resident.Keys <= w.resident.Keys
  }

  /** So what one attempt counts on survives every other's steps. */
  lemma GroundsSurvive(w: World, w': World, ledger: Ledger, digestOf: seq<Bytes> -> Bytes, t: Attempt)
    requires Grounded(w, ledger, digestOf, t) && Advances(w, w')
    ensures Grounded(w', ledger, digestOf, t)
  {
    assert t.key in w.objects ==> t.key in w.objects.Keys;
    assert t.key in w'.objects.Keys ==> t.key in w'.objects;
  }

  ghost function StepOf(phase: Phase): Step {
    match phase
    case Begun => Publish
    case BehindPublish => Drop
    case _ => Flip
  }

  /** A grounded attempt's effect is a guarded transition, and only advances. */
  lemma EffectIsGuarded(w: World, ledger: Ledger, digestOf: seq<Bytes> -> Bytes, t: Attempt)
    requires Grounded(w, ledger, digestOf, t) && t.phase != Over && Validates(ledger, digestOf, t)
    ensures Next(w, Effect(w, ledger, t), ledger, digestOf, t.key, StepOf(t.phase))
    ensures Advances(w, Effect(w, ledger, t))
    ensures Grounded(Effect(w, ledger, t), ledger, digestOf, t.(phase := NextPhase(t.phase)))
  {}

  /** An action keeps every attempt grounded, and changes the world by a guarded
      transition if at all. */
  lemma ActionIsGuarded(s: System, s': System, ledger: Ledger, digestOf: seq<Bytes> -> Bytes, act: Action)
    requires AllGrounded(s, ledger, digestOf) && Acts(s, s', ledger, digestOf, act)
    ensures AllGrounded(s', ledger, digestOf)
    ensures s'.world == s.world || Moves(s.world, s'.world, ledger, digestOf)
  {
    if act.Call? {
      var t := s.attempts[act.id];
      if t.phase != Over && Validates(ledger, digestOf, t) { EffectIsGuarded(s.world, ledger, digestOf, t); }
      assert Advances(s.world, s'.world);
    }
    forall id | id in s'.attempts ensures Grounded(s'.world, ledger, digestOf, s'.attempts[id]) {
      if id in s.attempts { GroundsSurvive(s.world, s'.world, ledger, digestOf, s.attempts[id]); }
    }
  }

  /** A history of actions from a world without attempts. */
  ghost predicate History(ss: seq<System>, ledger: Ledger, digestOf: seq<Bytes> -> Bytes) {
    ss != [] && ss[0].attempts == map[]
    && forall i, j :: 0 <= i && j == i + 1 && j < |ss| ==> Evolves(ss[i], ss[j], ledger, digestOf)
  }

  ghost predicate Evolves(s: System, s': System, ledger: Ledger, digestOf: seq<Bytes> -> Bytes) {
    exists act :: Acts(s, s', ledger, digestOf, act)
  }

  /** Whatever attempts run at once and however their calls interleave, fail or stop,
      no partition is ever lost. */
  lemma {:induction false} InterleavedAttemptsAreSafe(ss: seq<System>, ledger: Ledger, digestOf: seq<Bytes> -> Bytes,
                                                      i: nat)
    requires WellSealed(ledger) && History(ss, ledger, digestOf) && Safe(ss[0].world, ledger, digestOf)
    requires i < |ss|
    ensures Safe(ss[i].world, ledger, digestOf) && AllGrounded(ss[i], ledger, digestOf)
  {
    if i > 0 {
      var k := i - 1;
      InterleavedAttemptsAreSafe(ss, ledger, digestOf, k);
      assert Evolves(ss[k], ss[i], ledger, digestOf);
      var act :| Acts(ss[k], ss[i], ledger, digestOf, act);
      ActionIsGuarded(ss[k], ss[i], ledger, digestOf, act);
      if ss[i].world != ss[k].world {
        var key, step :| Next(ss[k].world, ss[i].world, ledger, digestOf, key, step);
        StepIsSafe(ss[k].world, ss[i].world, ledger, digestOf, key, step);
      }
    }
  }
}
