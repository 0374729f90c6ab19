/** PlanEndpointQuery of internal/api/params.go: a request against a compiled
    endpoint, planned over the endpoint's own binding slots. */
module EndpointPlan {
  import opened Results
  import opened ReadPlan
  import opened Ordering
  import opened PlanRequest
  import opened ReadSql

  /** A compiled endpoint's keyset column and binding plan. */
  datatype Compiled = Compiled(sort: string, params: seq<Slot>)

  function ParamNames(slots: seq<Slot>): set<string> {
    set s | s in slots :: s.param
  }

  /** The slot filters and the request gives its param. */
  predicate FilterGiven(s: Slot, q: Query) {
    OpForSlotKind(s.kind).Some? && Single(q, s.param).Some?
  }

  /** The predicates of the given filter slots, in slot order, or the first value
      that does not parse. */
  function Asked(slots: seq<Slot>, q: Query, parse: Parser): Result<seq<Predicate>, Fault> {
    if slots == [] then Ok([])
    else
      var s, init := slots[|slots| - 1], Asked(slots[..|slots| - 1], q, parse);
      if init.Err? || !FilterGiven(s, q) then init
      else
        match ParseParam(parse, s.param, s.pgType, RawOf(q, s.param))
        case Err(e) => Err(e)
        case Ok(v) => Ok(init.value + [Predicate(s.column, OpForSlotKind(s.kind).value, v)])
  }

  /** The type the after param parses by. */
  function AfterType(slots: seq<Slot>): string {
    if slots == [] then ""
    else if slots[|slots| - 1].kind == AfterSlot then slots[|slots| - 1].pgType
    else AfterType(slots[..|slots| - 1])
  }

  function EndpointCursor(e: Compiled, q: Query, limit: int, parse: Parser): Result<CursorPlan, Fault> {
    match Single(q, "after")
    case None => Ok(CursorPlan(CursorKey([e.sort], false), false, None, limit))
    case Some(raw) =>
      match ParseParam(parse, "after", AfterType(e.params), raw)
      case Err(f) => Err(f)
      case Ok(v) => Ok(CursorPlan(CursorKey([e.sort], false), false, Some(CursorBound(Gt, v)), limit))
  }

  ghost function PlanOf(e: Compiled, q: Query, parse: Parser): Result<QueryPlan, Fault> {
    match FirstOffence(q, ParamNames(e.params))
    case Some(f) => Err(f)
    case None =>
      match Asked(e.params, q, parse)
      case Err(f) => Err(f)
      case Ok(preds) =>
        match ResolveLimit(q)
        case Err(f) => Err(f)
        case Ok(limit) =>
          match EndpointCursor(e, q, limit, parse)
          case Err(f) => Err(f)
          case Ok(cursor) => Ok(QueryPlan(preds, cursor))
  }

  lemma AskedErrStays(slots: seq<Slot>, i: nat, q: Query, parse: Parser)
    requires i <= |slots| && Asked(slots[..i], q, parse).Err?
    ensures Asked(slots, q, parse) == Asked(slots[..i], q, parse)
    decreases |slots|
  {
    if i == |slots| {
      assert slots[..i] == slots;
    } else {
      assert slots[..|slots| - 1][..i] == slots[..i];
      AskedErrStays(slots[..|slots| - 1], i, q, parse);
    }
  }

  /** Walks the slots: each given filter yields its predicate, and the cursor slot
      the after param's type. */
  method WalkSlots(slots: seq<Slot>, q: Query, parse: Parser)
    returns (r: Result<seq<Predicate>, Fault>, afterType: string)
    ensures r == Asked(slots, q, parse)
    ensures r.Ok? ==> afterType == AfterType(slots)
  {
    var preds: seq<Predicate> := [];
    afterType := "";
    for i := 0 to |slots|
      invariant Asked(slots[..i], q, parse) == Ok(preds) && afterType == AfterType(slots[..i])
    {
      var s := slots[i];
      assert slots[..i + 1][..i] == slots[..i];
      var op := OpForSlotKind(s.kind);
      if op.Some? && Single(q, s.param).Some? {
        var v := ParseParam(parse, s.param, s.pgType, RawOf(q, s.param));
        if v.Err? {
          AskedErrStays(slots, i + 1, q, parse);
          return Err(v.error), afterType;
        }
        preds := preds + [Predicate(s.column, op.value, v.value)];
      } else if s.kind == AfterSlot {
        afterType := s.pgType;
      }
    }
    assert slots[..|slots|] == slots;
    return Ok(preds), afterType;
  }

  method PlanEndpointQuery(e: Compiled, q: Query, parse: Parser) returns (r: Result<QueryPlan, Fault>)
    ensures r == PlanOf(e, q, parse)
  {
    var fault := CheckKnownSingle(q, ParamNames(e.params));
    if fault.Some? { return Err(fault.value); }
    var preds, afterType := WalkSlots(e.params, q, parse);
    if preds.Err? { return Err(preds.error); }
    var limit := ResolveLimit(q);
    if limit.Err? { return Err(limit.error); }
    var bound := None;
    var raw := Single(q, "after");
    if raw.Some? {
      var v := ParseParam(parse, "after", afterType, raw.value);
      if v.Err? { return Err(v.error); }
      bound := Some(CursorBound(Gt, v.value));
    }
    return Ok(QueryPlan(preds.value, CursorPlan(CursorKey([e.sort], false), false, bound, limit.value)));
  }

  // ------------------------------------------------------- the plan fits its slots

  lemma NoneUsedInit(preds: seq<Predicate>, p: Predicate)
    ensures Demand(preds + [p], NoneUsed(|preds| + 1), false)
             == Demand(preds, NoneUsed(|preds|), false) + multiset{(p.column, p.op)}
  {
    assert (preds + [p])[..|preds|] == preds;
    assert NoneUsed(|preds| + 1)[..|preds|] == NoneUsed(|preds|);
  }

  /** Each predicate took its own slot. */
  lemma {:induction false} AskedIsSupplied(slots: seq<Slot>, q: Query, parse: Parser)
    requires Asked(slots, q, parse).Ok?
    ensures var preds := Asked(slots, q, parse).value;
            Demand(preds, NoneUsed(|preds|), false) <= Supply(slots)
  {
    if slots != [] {
      var init := slots[..|slots| - 1];
      AskedIsSupplied(init, q, parse);
      var preds, all := Asked(init, q, parse).value, Asked(slots, q, parse).value;
      if FilterGiven(slots[|slots| - 1], q) { NoneUsedInit(preds, all[|preds|]); }
    }
  }

  /** A plan's parts: what the slots ask, and an ascending cursor. */
  lemma PlanHas(e: Compiled, q: Query, parse: Parser)
    requires PlanOf(e, q, parse).Ok?
    ensures var plan := PlanOf(e, q, parse).value;
            && Asked(e.params, q, parse) == Ok(plan.predicates) && !plan.cursor.descending
            && (plan.cursor.bound.Some? ==> plan.cursor.bound.value.op == Gt)
  {}

  /** Whatever an endpoint's slots, shared columns, operators and params included,
      every plan made over them binds into them. */
  lemma PlanBindsItself(e: Compiled, q: Query, parse: Parser)
    requires PlanOf(e, q, parse).Ok? && Aligned(e.params) && exists s :: s in e.params && s.kind == AfterSlot
    ensures Bindable(e.params, PlanOf(e, q, parse).value)
  {
    PlanHas(e, q, parse);
    AskedIsSupplied(e.params, q, parse);
    AskedFits(e.params, PlanOf(e, q, parse).value);
  }

  lemma AskedFits(slots: seq<Slot>, plan: QueryPlan)
    requires !plan.cursor.descending && Aligned(slots) && exists s :: s in slots && s.kind == AfterSlot
    requires plan.cursor.bound.Some? ==> plan.cursor.bound.value.op == Gt
    requires Demand(plan.predicates, NoneUsed(|plan.predicates|), false) <= Supply(slots)
    ensures Bindable(slots, plan)
  {}

  // ------------------------------------------------------- the plan is the request

  /** If the query gives the filter slot's param, the row compares so with what it says:
      equal, at least, or at most. */
  ghost predicate SlotAsks(sat: Comparison, row: Row, s: Slot, q: Query, parse: Parser) {
    (s.kind == EqSlot || s.kind == FromSlot || s.kind == ToSlot) && Given(q, s.param) ==>
      && parse(s.pgType, Text(q, s.param)).Some?
      && Compares(sat, row, s.column, if s.kind == EqSlot then Eq else if s.kind == FromSlot then Gte else Lte,
                  parse(s.pgType, Text(q, s.param)).value)
  }

  lemma SlotGiven(s: Slot, q: Query)
    ensures FilterGiven(s, q) <==> (s.kind == EqSlot || s.kind == FromSlot || s.kind == ToSlot) && Given(q, s.param)
    ensures FilterGiven(s, q) ==>
              && RawOf(q, s.param) == Text(q, s.param)
              && (OpForSlotKind(s.kind).value
                  == if s.kind == EqSlot then Eq else if s.kind == FromSlot then Gte else Lte)
  {}

  function LastAsked(slots: seq<Slot>, q: Query, parse: Parser): (p: Predicate)
    requires slots != [] && Asked(slots, q, parse).Ok? && FilterGiven(slots[|slots| - 1], q)
    ensures Asked(slots, q, parse).value == Asked(slots[..|slots| - 1], q, parse).value + [p]
  {
    var s := slots[|slots| - 1];
    Predicate(s.column, OpForSlotKind(s.kind).value, parse(s.pgType, RawOf(q, s.param)).value)
  }

  lemma OneMoreHolds(sat: Comparison, row: Row, preds: seq<Predicate>, p: Predicate)
    ensures (forall r :: r in preds + [p] ==> Compares(sat, row, r.column, r.op, r.value))
       <==> (forall r :: r in preds ==> Compares(sat, row, r.column, r.op, r.value))
            && Compares(sat, row, p.column, p.op, p.value)
  {
    assert p in preds + [p];
  }

  lemma {:induction false} AskedMeansSlots(sat: Comparison, row: Row, slots: seq<Slot>, q: Query, parse: Parser)
    requires Asked(slots, q, parse).Ok?
    ensures (forall p :: p in Asked(slots, q, parse).value ==> Compares(sat, row, p.column, p.op, p.value))
       <==> (forall s :: s in slots ==> SlotAsks(sat, row, s, q, parse))
  {
    if slots != [] {
      var init, s := slots[..|slots| - 1], slots[|slots| - 1];
      AskedMeansSlots(sat, row, init, q, parse);
      assert slots == init + [s];
      assert (forall t :: t in slots ==> SlotAsks(sat, row, t, q, parse))
        <==> (forall t :: t in init ==> SlotAsks(sat, row, t, q, parse)) && SlotAsks(sat, row, s, q, parse);
      SlotGiven(s, q);
      if FilterGiven(s, q) { OneMoreHolds(sat, row, Asked(init, q, parse).value, LastAsked(slots, q, parse)); }
    }
  }

  /** t is the type of the last cursor slot, empty without one. */
  ghost predicate AfterTypeIs(slots: seq<Slot>, t: string) {
    if exists s :: s in slots && s.kind == AfterSlot then
      exists i :: 0 <= i < |slots| && slots[i].kind == AfterSlot && slots[i].pgType == t
        && forall j :: i < j < |slots| ==> slots[j].kind != AfterSlot
    else t == ""
  }

  lemma {:induction false} AfterTypeReads(slots: seq<Slot>)
    ensures AfterTypeIs(slots, AfterType(slots))
  {
    if slots != [] {
      var init, last := slots[..|slots| - 1], slots[|slots| - 1];
      assert slots == init + [last];
      if last.kind != AfterSlot {
        AfterTypeReads(init);
        if s :| s in slots && s.kind == AfterSlot {
          var i :| 0 <= i < |init| && init[i].kind == AfterSlot && init[i].pgType == AfterType(init)
                   && forall j :: i < j < |init| ==> init[j].kind != AfterSlot;
          assert slots[i] == init[i] && forall j :: i < j < |slots| ==> slots[j].kind != AfterSlot;
        }
      }
    }
  }

  lemma AfterTypeOnce(slots: seq<Slot>, t: string)
    requires AfterTypeIs(slots, t)
    ensures t == AfterType(slots)
  {
    AfterTypeReads(slots);
  }

  /** A row the request asks for: it satisfies every given filter, and lies beyond what
      after= says on every cursor slot's column. */
  ghost predicate Requested(sat: Comparison, row: Row, e: Compiled, q: Query, parse: Parser) {
    && (forall s :: s in e.params ==> SlotAsks(sat, row, s, q, parse))
    && (Given(q, "after") ==> exists t :: BeyondAfter(sat, row, e, q, parse, t))
  }

  /** It lies beyond what after= says, read by the type t of the cursor slot. */
  ghost predicate BeyondAfter(sat: Comparison, row: Row, e: Compiled, q: Query, parse: Parser, t: string)
    requires Given(q, "after")
  {
    AfterTypeIs(e.params, t) && parse(t, Text(q, "after")).Some?
    && forall s :: s in e.params && s.kind == AfterSlot ==>
         Compares(sat, row, s.column, Gt, parse(t, Text(q, "after")).value)
  }

  lemma PlannedParts(e: Compiled, q: Query, parse: Parser)
    requires PlanOf(e, q, parse).Ok?
    ensures var plan := PlanOf(e, q, parse).value;
            && Asked(e.params, q, parse) == Ok(plan.predicates) && ResolveLimit(q).Ok?
            && EndpointCursor(e, q, ResolveLimit(q).value, parse) == Ok(plan.cursor)
  {}

  lemma EndpointCursorSays(e: Compiled, q: Query, limit: int, parse: Parser)
    ensures var r := EndpointCursor(e, q, limit, parse);
            && (r.Ok? <==> Given(q, "after") ==> parse(AfterType(e.params), Text(q, "after")).Some?)
            && (r.Ok? ==>
                  && r.value.key == CursorKey([e.sort], false) && !r.value.descending && r.value.limit == limit
                  && (if Given(q, "after") then
                        r.value.bound == Some(CursorBound(Gt, parse(AfterType(e.params), Text(q, "after")).value))
                      else r.value.bound == None))
  {}

  /** The bound endpoint statement accepts exactly the rows the request asks for. */
  lemma EndpointMeansRequest(sat: Comparison, row: Row, e: Compiled, q: Query, parse: Parser, args: seq<Arg>,
                             assign: seq<int>)
    requires PlanOf(e, q, parse).Ok? && IsBinding(e.params, PlanOf(e, q, parse).value, args, assign)
    ensures Accepts(sat, row, e.params, args) <==> Requested(sat, row, e, q, parse)
  {
    PlannedParts(e, q, parse);
    BindingMeansPlan(sat, row, e.params, PlanOf(e, q, parse).value, args, assign);
    AskedMeansSlots(sat, row, e.params, q, parse);
    EndpointCursorSays(e, q, ResolveLimit(q).value, parse);
    AfterTypeReads(e.params);
    if Given(q, "after") {
      forall t | AfterTypeIs(e.params, t) { AfterTypeOnce(e.params, t); }
      assert PlanOf(e, q, parse).value.cursor.bound.Some?;
      assert BeyondAfter(sat, row, e, q, parse, AfterType(e.params)) <==>
        forall s :: s in e.params && s.kind == AfterSlot ==>
          Compares(sat, row, s.column, Gt, parse(AfterType(e.params), Text(q, "after")).value);
    }
  }

  // ------------------------------------------------------------------- acceptance

  /** The requests an endpoint plans: each param one of its slots', given once, and every
      given text readable. */
  ghost predicate Acceptable(e: Compiled, q: Query, parse: Parser) {
    && (forall k :: k in q ==> |q[k]| <= 1 && exists s :: s in e.params && s.param == k)
    && (forall s :: s in e.params && (s.kind == EqSlot || s.kind == FromSlot || s.kind == ToSlot) && Given(q, s.param)
          ==> parse(s.pgType, Text(q, s.param)).Some?)
    && (exists n :: LimitIs(q, n) && 1 <= n <= 1000)
    && (Given(q, "after") ==> exists t :: AfterTypeIs(e.params, t) && parse(t, Text(q, "after")).Some?)
  }

  lemma {:induction false} AskedParses(slots: seq<Slot>, q: Query, parse: Parser)
    ensures Asked(slots, q, parse).Ok? <==>
      forall s :: s in slots && FilterGiven(s, q) ==> parse(s.pgType, RawOf(q, s.param)).Some?
  {
    if slots != [] {
      var init, last := slots[..|slots| - 1], slots[|slots| - 1];
      assert slots == init + [last];
      AskedParses(init, q, parse);
    }
  }

  lemma KnownSlots(e: Compiled, q: Query)
    ensures FirstOffence(q, ParamNames(e.params)) == None <==>
              forall k :: k in q ==> |q[k]| <= 1 && exists s :: s in e.params && s.param == k
  {
    var allowed := ParamNames(e.params);
    assert forall k :: k in Offenders(q, allowed) <==> k in q && (k !in allowed || |q[k]| > 1);
  }

  /** A request is planned exactly if it is acceptable; it then pages by what limit= spells
      or 100, ascending by the endpoint's sort column. */
  lemma EndpointAccepts(e: Compiled, q: Query, parse: Parser)
    ensures PlanOf(e, q, parse).Ok? <==> Acceptable(e, q, parse)
    ensures PlanOf(e, q, parse).Ok? ==>
              var cursor := PlanOf(e, q, parse).value.cursor;
              cursor.key == CursorKey([e.sort], false) && !cursor.descending && LimitIs(q, cursor.limit)
  {
    KnownSlots(e, q);
    AskedParses(e.params, q, parse);
    forall s | s in e.params { SlotGiven(s, q); }
    LimitReads(q);
    AfterTypeReads(e.params);
    forall t | AfterTypeIs(e.params, t) { AfterTypeOnce(e.params, t); }
    if ResolveLimit(q).Ok? { EndpointCursorSays(e, q, ResolveLimit(q).value, parse); }
  }

  // --------------------------------------------------------------------- refusals

  /** The param is no slot's, or given more than once. */
  ghost predicate Misgiven(e: Compiled, q: Query, k: string) {
    k in q && !(|q[k]| <= 1 && exists s :: s in e.params && s.param == k)
  }

  ghost predicate Unread(s: Slot, q: Query, parse: Parser) {
    && (s.kind == EqSlot || s.kind == FromSlot || s.kind == ToSlot) && Given(q, s.param)
    && parse(s.pgType, Text(q, s.param)).None?
  }

  /** Slot i is the first filter whose given text does not parse. */
  ghost predicate FirstUnread(slots: seq<Slot>, q: Query, parse: Parser, i: int) {
    0 <= i < |slots| && Unread(slots[i], q, parse) && forall j :: 0 <= j < i ==> !Unread(slots[j], q, parse)
  }

  /** Why an endpoint request is refused, in the order its parts are looked at. */
  ghost predicate Because(e: Compiled, q: Query, parse: Parser, fault: Fault) {
    if exists k :: Misgiven(e, q, k) then
      exists k :: First(j => Misgiven(e, q, j), k)
                  && fault == if exists s :: s in e.params && s.param == k then RepeatedParam(k) else UnknownParam(k)
    else if exists i :: FirstUnread(e.params, q, parse, i) then
      exists i :: FirstUnread(e.params, q, parse, i) && fault == Unparsable(e.params[i].param)
    else if !exists n :: LimitIs(q, n) && 1 <= n <= 1000 then LimitBlamed(q, fault)
    else
      && fault == Unparsable("after") && Given(q, "after")
      && exists t :: AfterTypeIs(e.params, t) && parse(t, Text(q, "after")).None?
  }

  lemma MisgivenOffends(e: Compiled, q: Query, k: string)
    ensures Misgiven(e, q, k) <==> k in Offenders(q, ParamNames(e.params))
    ensures k in ParamNames(e.params) <==> exists s :: s in e.params && s.param == k
  {}

  lemma MisgivenBecause(e: Compiled, q: Query, parse: Parser)
    requires FirstOffence(q, ParamNames(e.params)).Some?
    ensures Because(e, q, parse, FirstOffence(q, ParamNames(e.params)).value)
  {
    var bad := Offenders(q, ParamNames(e.params));
    BeforeIsStrictTotal();
    var k := Least(Before, bad);
    forall j { MisgivenOffends(e, q, j); }
    assert Misgiven(e, q, k) && First(j => Misgiven(e, q, j), k);
  }

  lemma {:induction false} AskedFault(slots: seq<Slot>, q: Query, parse: Parser) returns (i: nat)
    requires Asked(slots, q, parse).Err?
    ensures FirstUnread(slots, q, parse, i) && Asked(slots, q, parse) == Err(Unparsable(slots[i].param))
  {
    var init, last := slots[..|slots| - 1], slots[|slots| - 1];
    assert slots == init + [last];
    SlotGiven(last, q);
    if Asked(init, q, parse).Err? {
      i := AskedFault(init, q, parse);
    } else {
      i := |init|;
      NoneUnread(init, q, parse);
    }
  }

  lemma {:induction false} NoneUnread(slots: seq<Slot>, q: Query, parse: Parser)
    requires Asked(slots, q, parse).Ok?
    ensures forall j :: 0 <= j < |slots| ==> !Unread(slots[j], q, parse)
  {
    if slots != [] {
      var init, last := slots[..|slots| - 1], slots[|slots| - 1];
      NoneUnread(init, q, parse);
      SlotGiven(last, q);
      assert forall j :: 0 <= j < |init| ==> slots[j] == init[j];
    }
  }

  /** A refusal says what the request has wrong first. */
  lemma EndpointRefuses(e: Compiled, q: Query, parse: Parser)
    requires PlanOf(e, q, parse).Err?
    ensures Because(e, q, parse, PlanOf(e, q, parse).error)
  {
    if FirstOffence(q, ParamNames(e.params)).Some? {
      MisgivenBecause(e, q, parse);
    } else {
      KnownSlots(e, q);
      LaterBecause(e, q, parse, PlanOf(e, q, parse).error);
    }
  }

  lemma LaterBecause(e: Compiled, q: Query, parse: Parser, fault: Fault)
    requires FirstOffence(q, ParamNames(e.params)).None? && !exists k :: Misgiven(e, q, k)
    requires PlanOf(e, q, parse) == Err(fault)
    ensures Because(e, q, parse, fault)
  {
    LimitReads(q);
    if Asked(e.params, q, parse).Err? {
      var i := AskedFault(e.params, q, parse);
    } else {
      NoneUnread(e.params, q, parse);
      if ResolveLimit(q).Err? {
        LimitBecause(q, fault);
      } else {
        EndpointCursorSays(e, q, ResolveLimit(q).value, parse);
        AfterTypeReads(e.params);
      }
    }
  }
}
