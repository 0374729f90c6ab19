/** The fixed read statements of internal/api/readsql.go: the slots and clauses of a
    /data statement, and the binding of a plan into any statement's slots. */
module ReadSql {
  import opened Results
  import opened ReadPlan

  datatype SlotKind = EqSlot | FromSlot | ToSlot | AfterSlot | LimitSlot | OtherSlot

  /** One positional parameter of a statement: its number, the request param it
      binds, its role, and the column it compares. */
  datatype Slot = Slot(index: int, param: string, kind: SlotKind, column: string, pgType: string)

  /** `($index IS NULL OR column op $index)`. */
  datatype Clause = Clause(column: string, op: Op, index: int)

  /** A bound argument; NULL omits its filter. */
  datatype Arg = Null | Limit(n: int) | Val(v: Value)

  function OpForSlotKind(k: SlotKind): Option<Op> {
    match k
    case EqSlot => Some(Eq)
    case FromSlot => Some(Gte)
    case ToSlot => Some(Lte)
    case _ => None
  }

  // -------------------------------------------------------------- what it accepts

  /** A table row: each column's value, or NULL. */
  type Row = map<string, Option<Value>>

  /** What an operator says of two values. */
  type Comparison = (Op, Value, Value) -> bool

  /** A comparison with NULL, or with a column the row lacks, does not hold. */
  predicate Compares(sat: Comparison, row: Row, column: string, op: Op, v: Value) {
    column in row && row[column].Some? && sat(op, row[column].value, v)
  }

  predicate ClauseHolds(sat: Comparison, row: Row, column: string, op: Op, arg: Arg) {
    match arg
    case Null => true
    case Val(v) => Compares(sat, row, column, op, v)
    case Limit(_) => false
  }

  /** The operator a slot's clause compares with; the limit slot has no clause. */
  function ClauseOp(k: SlotKind): Option<Op> {
    if k == AfterSlot then Some(Gt) else OpForSlotKind(k)
  }

  ghost predicate SlotHolds(sat: Comparison, row: Row, slot: Slot, arg: Arg) {
    ClauseOp(slot.kind).Some? ==> ClauseHolds(sat, row, slot.column, ClauseOp(slot.kind).value, arg)
  }

  /** The WHERE clause under the bound arguments. */
  ghost predicate Accepts(sat: Comparison, row: Row, slots: seq<Slot>, args: seq<Arg>)
    requires |slots| == |args|
  {
    forall i :: 0 <= i < |slots| ==> SlotHolds(sat, row, slots[i], args[i])
  }

  /** All of the plan's filters, and its cursor on every after slot's column. */
  ghost predicate Satisfies(sat: Comparison, row: Row, plan: QueryPlan, slots: seq<Slot>) {
    && (forall p :: p in plan.predicates ==> Compares(sat, row, p.column, p.op, p.value))
    && (plan.cursor.bound.Some? ==>
          forall s :: s in slots && s.kind == AfterSlot ==>
            Compares(sat, row, s.column, Gt, plan.cursor.bound.value.value))
  }

  // ------------------------------------------------------------------- binding

  /** A slot's argument: its assigned predicate's value, the cursor's, the limit, or
      NULL. */
  ghost predicate ArgFor(slot: Slot, plan: QueryPlan, arg: Arg, chosen: int) {
    match slot.kind
    case LimitSlot => arg == Limit(plan.cursor.limit)
    case AfterSlot => arg == if plan.cursor.bound.Some? then Val(plan.cursor.bound.value.value) else Null
    case _ =>
      if 0 <= chosen < |plan.predicates| then
        var p := plan.predicates[chosen];
        OpForSlotKind(slot.kind) == Some(p.op) && slot.column == p.column && arg == Val(p.value)
      else arg == Null
  }

  ghost predicate BoundAt(slots: seq<Slot>, plan: QueryPlan, args: seq<Arg>, assign: seq<int>, i: nat)
    requires i < |slots| == |args| == |assign|
  {
    ArgFor(slots[i], plan, args[i], assign[i])
  }

  /** Every predicate went to some filter slot. */
  ghost predicate AllAssigned(slots: seq<Slot>, plan: QueryPlan, assign: seq<int>)
    requires |slots| == |assign|
  {
    forall j {:trigger plan.predicates[j]} :: 0 <= j < |plan.predicates| ==> AssignedTo(slots, assign, j)
  }

  ghost predicate AssignedTo(slots: seq<Slot>, assign: seq<int>, j: nat)
    requires |slots| == |assign|
  {
    exists i :: 0 <= i < |slots| && assign[i] == j && OpForSlotKind(slots[i].kind).Some?
  }

  ghost predicate IsBinding(slots: seq<Slot>, plan: QueryPlan, args: seq<Arg>, assign: seq<int>) {
    && |slots| == |args| == |assign|
    && (forall i: nat {:trigger BoundAt(slots, plan, args, assign, i)} :: i < |slots| ==>
          BoundAt(slots, plan, args, assign, i))
    && AllAssigned(slots, plan, assign)
  }

  /** A bound statement accepts exactly the rows the plan asks for, whatever the
      slots: shared columns and operators, several cursors, spare slots. */
  lemma BindingMeansPlan(sat: Comparison, row: Row, slots: seq<Slot>, plan: QueryPlan, args: seq<Arg>, assign: seq<int>)
    requires IsBinding(slots, plan, args, assign)
    ensures Accepts(sat, row, slots, args) <==> Satisfies(sat, row, plan, slots)
  {
    if Accepts(sat, row, slots, args) {
      forall p | p in plan.predicates ensures Compares(sat, row, p.column, p.op, p.value) {
        var j :| 0 <= j < |plan.predicates| && plan.predicates[j] == p;
        assert AssignedTo(slots, assign, j);
        var i :| 0 <= i < |slots| && assign[i] == j && OpForSlotKind(slots[i].kind).Some?;
        assert BoundAt(slots, plan, args, assign, i) && SlotHolds(sat, row, slots[i], args[i]);
      }
      if plan.cursor.bound.Some? {
        forall s | s in slots && s.kind == AfterSlot
          ensures Compares(sat, row, s.column, Gt, plan.cursor.bound.value.value)
        {
          var i :| 0 <= i < |slots| && slots[i] == s;
          assert BoundAt(slots, plan, args, assign, i) && SlotHolds(sat, row, slots[i], args[i]);
        }
      }
    }
    if Satisfies(sat, row, plan, slots) {
      forall i | 0 <= i < |slots| ensures SlotHolds(sat, row, slots[i], args[i]) {
        assert BoundAt(slots, plan, args, assign, i);
        assert slots[i] in slots;
        if 0 <= assign[i] < |plan.predicates| { assert plan.predicates[assign[i]] in plan.predicates; }
      }
    }
  }

  type FilterKey = (string, Op)

  /** How many slots filter a column by an operator. */
  function Supply(slots: seq<Slot>): multiset<FilterKey> {
    if slots == [] then multiset{}
    else
      var s := slots[|slots| - 1];
      Supply(slots[..|slots| - 1]) + KeyOf(s)
  }

  /** How many predicates, of those used or not, filter a column by an operator. */
  function Demand(preds: seq<Predicate>, used: seq<bool>, want: bool): multiset<FilterKey>
    requires |preds| == |used|
  {
    if preds == [] then multiset{}
    else
      var p, n := preds[|preds| - 1], |preds| - 1;
      Demand(preds[..n], used[..n], want) + (if used[n] == want then multiset{(p.column, p.op)} else multiset{})
  }

  function NoneUsed(n: nat): seq<bool> {
    seq(n, _ => false)
  }

  ghost predicate Aligned(slots: seq<Slot>) {
    forall i :: 0 <= i < |slots| ==> slots[i].index == i + 1 && slots[i].kind != OtherSlot
  }

  /** A plan fits a statement: the slots are numbered and of known kinds, there are
      slots enough for every filter, and the cursor, if any, is ascending and has a
      slot. */
  ghost predicate Bindable(slots: seq<Slot>, plan: QueryPlan) {
    && !plan.cursor.descending
    && Aligned(slots)
    && Demand(plan.predicates, NoneUsed(|plan.predicates|), false) <= Supply(slots)
    && (plan.cursor.bound.Some? ==> plan.cursor.bound.value.op == Gt && exists s :: s in slots && s.kind == AfterSlot)
  }

  datatype BindFault =
    | NoDescending
    | Misaligned
    | WrongCursorOp
    | UnknownKind
    | NoSlotFor(column: string, op: Op)
    | NoAfterSlot

  lemma {:induction false} DemandUse(preds: seq<Predicate>, used: seq<bool>, j: nat)
    requires |preds| == |used| && j < |preds| && !used[j]
    ensures Demand(preds, used, false)
             == Demand(preds, used[j := true], false) + multiset{(preds[j].column, preds[j].op)}
  {
    var n, after := |preds| - 1, used[j := true];
    if j < n {
      DemandUse(preds[..n], used[..n], j);
      assert after[..n] == used[..n][j := true];
    } else {
      assert after[..n] == used[..n];
    }
  }

  /** Nothing unused wants the key. */
  lemma {:induction false} DemandAbsent(preds: seq<Predicate>, used: seq<bool>, key: FilterKey)
    requires |preds| == |used|
    ensures key !in Demand(preds, used, false) <==>
      forall j :: 0 <= j < |preds| && (preds[j].column, preds[j].op) == key ==> used[j]
  {
    if preds != [] {
      var n := |preds| - 1;
      DemandAbsent(preds[..n], used[..n], key);
      if forall j :: 0 <= j < n && (preds[..n][j].column, preds[..n][j].op) == key ==> used[..n][j] {
        assert forall j :: 0 <= j < n && (preds[j].column, preds[j].op) == key ==>
                 preds[..n][j] == preds[j] && used[..n][j] == used[j];
      } else {
        var j :| 0 <= j < n && (preds[..n][j].column, preds[..n][j].op) == key && !used[..n][j];
        assert preds[j] == preds[..n][j] && !used[j];
      }
    }
  }

  lemma DemandEmpty(preds: seq<Predicate>, used: seq<bool>)
    requires |preds| == |used|
    ensures Demand(preds, used, false) == multiset{} <==> forall j :: 0 <= j < |preds| ==> used[j]
  {
    if forall j :: 0 <= j < |preds| ==> used[j] {
      forall key ensures key !in Demand(preds, used, false) { DemandAbsent(preds, used, key); }
      assert Demand(preds, used, false) == multiset{};
    } else {
      var j :| 0 <= j < |preds| && !used[j];
      DemandAbsent(preds, used, (preds[j].column, preds[j].op));
    }
  }

  /** The first predicate not used yet that a slot's column and operator fit. */
  method FindUnused(preds: seq<Predicate>, used: seq<bool>, column: string, op: Op) returns (found: Option<nat>)
    requires |preds| == |used|
    ensures found.Some? ==> found.value < |preds| && !used[found.value]
                            && preds[found.value].column == column && preds[found.value].op == op
    ensures found.None? ==> (column, op) !in Demand(preds, used, false)
  {
    for j := 0 to |preds|
      invariant forall k :: 0 <= k < j && (preds[k].column, preds[k].op) == (column, op) ==> used[k]
    {
      if !used[j] && preds[j].column == column && preds[j].op == op { return Some(j); }
    }
    DemandAbsent(preds, used, (column, op));
    return None;
  }

  /** The filter key of a slot, if it filters. */
  function KeyOf(s: Slot): multiset<FilterKey> {
    if OpForSlotKind(s.kind).Some? then multiset{(s.column, OpForSlotKind(s.kind).value)} else multiset{}
  }

  lemma SupplyNext(slots: seq<Slot>, i: nat)
    requires i < |slots|
    ensures Supply(slots[..i + 1]) == Supply(slots[..i]) + KeyOf(slots[i])
  {
    assert slots[..i + 1][..i] == slots[..i];
  }

  /** The slots before i are bound and every used predicate has its slot. */
  ghost predicate BoundUpTo(slots: seq<Slot>, plan: QueryPlan, args: seq<Arg>, assign: seq<int>, used: seq<bool>,
                            n: nat)
    requires n <= |slots| == |args| == |assign| && |used| == |plan.predicates|
  {
    && (forall i: nat {:trigger BoundAt(slots, plan, args, assign, i)} :: i < n ==>
          BoundAt(slots, plan, args, assign, i))
    && (forall i :: n <= i < |slots| ==> args[i] == Null && assign[i] == -1)
    && (forall j: nat {:trigger AssignedTo(slots, assign, j)} :: j < |used| && used[j] ==> AssignedTo(slots, assign, j))
  }

  lemma BindNext(slots: seq<Slot>, plan: QueryPlan, args: seq<Arg>, assign: seq<int>, used: seq<bool>, n: nat,
                 arg: Arg, chosen: int, used': seq<bool>)
    requires n < |slots| == |args| == |assign| && |used| == |used'| == |plan.predicates|
    requires BoundUpTo(slots, plan, args, assign, used, n)
    requires ArgFor(slots[n], plan, arg, chosen)
    requires if 0 <= chosen < |used| then used' == used[chosen := true] && OpForSlotKind(slots[n].kind).Some?
             else used' == used
    ensures BoundUpTo(slots, plan, args[n := arg], assign[n := chosen], used', n + 1)
  {
    var args', assign' := args[n := arg], assign[n := chosen];
    forall i: nat | i < n + 1 ensures BoundAt(slots, plan, args', assign', i) {
      if i < n { assert BoundAt(slots, plan, args, assign, i); }
    }
    forall j: nat | j < |used'| && used'[j] ensures AssignedTo(slots, assign', j) {
      if j == chosen {
        assert assign'[n] == j;
      } else {
        assert AssignedTo(slots, assign, j);
        var i :| 0 <= i < |slots| && assign[i] == j && OpForSlotKind(slots[i].kind).Some?;
        assert i != n;
        assert assign'[i] == j;
      }
    }
  }

  lemma TakeOne(free: multiset<FilterKey>, rest: multiset<FilterKey>, all: multiset<FilterKey>,
                supply: multiset<FilterKey>, slot: Slot)
    requires free == all - supply
    requires free == rest + KeyOf(slot) || (KeyOf(slot) !! free && rest == free)
    ensures rest == all - (supply + KeyOf(slot))
  {
    forall k ensures rest[k] == (all - (supply + KeyOf(slot)))[k] {
      assert free[k] == (all - supply)[k];
      assert KeyOf(slot)[k] > 0 && KeyOf(slot) !! free ==> k in KeyOf(slot) && k !in free;
    }
  }

  /** The slot's kind is known, and the cursor's operator its own if it is an after slot. */
  predicate Takes(slot: Slot, plan: QueryPlan) {
    slot.kind != OtherSlot && (slot.kind == AfterSlot && plan.cursor.bound.Some? ==> plan.cursor.bound.value.op == Gt)
  }

  /** Slot i is the first that is misnumbered or does not take its part of the plan. */
  ghost predicate Unfit(slots: seq<Slot>, plan: QueryPlan, i: int) {
    && 0 <= i < |slots| && !(slots[i].index == i + 1 && Takes(slots[i], plan))
    && forall k :: 0 <= k < i ==> slots[k].index == k + 1 && Takes(slots[k], plan)
  }

  ghost predicate SlotBlamed(slots: seq<Slot>, plan: QueryPlan, fault: BindFault, i: int) {
    Unfit(slots, plan, i)
    && fault == if slots[i].index != i + 1 then Misaligned
                else if slots[i].kind == OtherSlot then UnknownKind else WrongCursorOp
  }

  ghost predicate SomeSlotBlamed(slots: seq<Slot>, plan: QueryPlan, fault: BindFault) {
    exists i :: SlotBlamed(slots, plan, fault, i)
  }

  /** Why a plan does not bind: it pages backwards; else the first unfit slot; else a filter
      asked for more often than the slots offer it; else a cursor without a slot. */
  ghost predicate BindBlamed(slots: seq<Slot>, plan: QueryPlan, fault: BindFault) {
    if plan.cursor.descending then fault == NoDescending
    else if exists i :: Unfit(slots, plan, i) then SomeSlotBlamed(slots, plan, fault)
    else
      match fault
      case NoSlotFor(column, op) =>
        Demand(plan.predicates, NoneUsed(|plan.predicates|), false)[(column, op)] > Supply(slots)[(column, op)]
      case NoAfterSlot =>
        && plan.cursor.bound.Some? && (forall s :: s in slots ==> s.kind != AfterSlot)
        && Demand(plan.predicates, NoneUsed(|plan.predicates|), false) <= Supply(slots)
      case _ => false
  }

  /** The first n slots are in order and take their part. */
  ghost predicate Fit(slots: seq<Slot>, plan: QueryPlan, n: nat) {
    n <= |slots| && forall k :: 0 <= k < n ==> slots[k].index == k + 1 && Takes(slots[k], plan)
  }

  lemma FitNext(slots: seq<Slot>, plan: QueryPlan, n: nat)
    requires n < |slots| && Fit(slots, plan, n) && slots[n].index == n + 1 && Takes(slots[n], plan)
    ensures Fit(slots, plan, n + 1)
  {}

  lemma SlotIsBlamed(slots: seq<Slot>, plan: QueryPlan, fault: BindFault, n: nat)
    requires n < |slots| && Fit(slots, plan, n) && !(slots[n].index == n + 1 && Takes(slots[n], plan))
    requires fault == if slots[n].index != n + 1 then Misaligned
                      else if slots[n].kind == OtherSlot then UnknownKind else WrongCursorOp
    ensures SomeSlotBlamed(slots, plan, fault)
  {
    assert SlotBlamed(slots, plan, fault, n);
  }

  lemma FitHasNoUnfit(slots: seq<Slot>, plan: QueryPlan)
    requires Fit(slots, plan, |slots|)
    ensures !exists i :: Unfit(slots, plan, i)
  {}

  lemma UnusedIsBlamed(slots: seq<Slot>, plan: QueryPlan, used: seq<bool>, j: nat)
    requires |used| == |plan.predicates| && j < |used| && !used[j]
    requires Demand(plan.predicates, used, false)
          == Demand(plan.predicates, NoneUsed(|plan.predicates|), false) - Supply(slots)
    ensures var key := (plan.predicates[j].column, plan.predicates[j].op);
            Demand(plan.predicates, NoneUsed(|plan.predicates|), false)[key] > Supply(slots)[key]
  {
    DemandAbsent(plan.predicates, used, (plan.predicates[j].column, plan.predicates[j].op));
  }

  /** One slot's argument, and the predicate it uses up, if any. */
  method BindSlot(slot: Slot, plan: QueryPlan, used: seq<bool>)
    returns (r: Result<Arg, BindFault>, used': seq<bool>, ghost chosen: int)
    requires |used| == |plan.predicates|
    ensures r.Err? <==> !Takes(slot, plan)
    ensures r.Err? ==> r.error == if slot.kind == OtherSlot then UnknownKind else WrongCursorOp
    ensures r.Ok? ==> SlotBound(slot, plan, used, r.value, chosen, used')
  {
    used', chosen := used, -1;
    if slot.kind == LimitSlot {
      return Ok(Limit(plan.cursor.limit)), used', chosen;
    }
    if slot.kind == AfterSlot {
      if plan.cursor.bound.None? { return Ok(Null), used', chosen; }
      if plan.cursor.bound.value.op != Gt { return Err(WrongCursorOp), used', chosen; }
      return Ok(Val(plan.cursor.bound.value.value)), used', chosen;
    }
    var op := OpForSlotKind(slot.kind);
    if op.None? { return Err(UnknownKind), used', chosen; }
    var found := FindUnused(plan.predicates, used, slot.column, op.value);
    if found.None? { return Ok(Null), used', chosen; }
    DemandUse(plan.predicates, used, found.value);
    return Ok(Val(plan.predicates[found.value].value)), used[found.value := true], found.value;
  }

  /** The bound is ascending wherever an after slot took it. */
  ghost predicate CursorPlaced(slots: seq<Slot>, plan: QueryPlan, placed: bool) {
    && (placed <==> plan.cursor.bound.Some? && exists s :: s in slots && s.kind == AfterSlot)
    && (placed ==> plan.cursor.bound.value.op == Gt)
  }

  lemma CursorNext(slots: seq<Slot>, plan: QueryPlan, placed: bool, n: nat)
    requires n < |slots| && CursorPlaced(slots[..n], plan, placed)
    requires slots[n].kind == AfterSlot && plan.cursor.bound.Some? ==> plan.cursor.bound.value.op == Gt
    ensures CursorPlaced(slots[..n + 1], plan, placed || (slots[n].kind == AfterSlot && plan.cursor.bound.Some?))
  {
    assert slots[..n + 1] == slots[..n] + [slots[n]];
    assert slots[n] in slots[..n + 1];
    assert forall t :: t in slots[..n] ==> t in slots[..n + 1];
  }

  /** The binding after the first n slots. */
  ghost predicate Progress(slots: seq<Slot>, plan: QueryPlan, args: seq<Arg>, assign: seq<int>, used: seq<bool>,
                           placed: bool, n: nat) {
    && n <= |slots| == |args| == |assign| && |used| == |plan.predicates|
    && Aligned(slots[..n])
    && BoundUpTo(slots, plan, args, assign, used, n)
    && Demand(plan.predicates, used, false)
         == Demand(plan.predicates, NoneUsed(|plan.predicates|), false) - Supply(slots[..n])
    && CursorPlaced(slots[..n], plan, placed)
  }

  /** What BindSlot says of slot s. */
  ghost predicate SlotBound(s: Slot, plan: QueryPlan, used: seq<bool>, arg: Arg, chosen: int, used': seq<bool>) {
    && |used| == |used'| == |plan.predicates|
    && s.kind != OtherSlot
    && (s.kind == AfterSlot && plan.cursor.bound.Some? ==> plan.cursor.bound.value.op == Gt)
    && ArgFor(s, plan, arg, chosen)
    && (if 0 <= chosen < |used| then used' == used[chosen := true] && OpForSlotKind(s.kind).Some? else used' == used)
    && (var free, rest := Demand(plan.predicates, used, false), Demand(plan.predicates, used', false);
        free == rest + KeyOf(s) || (KeyOf(s) !! free && rest == free))
  }

  lemma ProgressNext(slots: seq<Slot>, plan: QueryPlan, args: seq<Arg>, assign: seq<int>, used: seq<bool>,
                     placed: bool, n: nat,
                     arg: Arg, chosen: int, used': seq<bool>)
    requires n < |slots| && Progress(slots, plan, args, assign, used, placed, n)
    requires slots[n].index == n + 1 && SlotBound(slots[n], plan, used, arg, chosen, used')
    ensures Progress(slots, plan, args[n := arg], assign[n := chosen], used',
                     placed || (slots[n].kind == AfterSlot && plan.cursor.bound.Some?), n + 1)
  {
    AlignedNext(slots, n);
    DemandNext(slots, plan, used, used', n);
    BindNext(slots, plan, args, assign, used, n, arg, chosen, used');
    CursorNext(slots, plan, placed, n);
  }

  lemma AlignedNext(slots: seq<Slot>, n: nat)
    requires n < |slots| && Aligned(slots[..n]) && slots[n].index == n + 1 && slots[n].kind != OtherSlot
    ensures Aligned(slots[..n + 1])
  {
    assert slots[..n + 1] == slots[..n] + [slots[n]];
  }

  lemma DemandNext(slots: seq<Slot>, plan: QueryPlan, used: seq<bool>, used': seq<bool>, n: nat)
    requires n < |slots| && |used| == |used'| == |plan.predicates|
    requires var all := Demand(plan.predicates, NoneUsed(|plan.predicates|), false);
             var free, rest := Demand(plan.predicates, used, false), Demand(plan.predicates, used', false);
             free == all - Supply(slots[..n])
             && (free == rest + KeyOf(slots[n]) || (KeyOf(slots[n]) !! free && rest == free))
    ensures Demand(plan.predicates, used', false)
         == Demand(plan.predicates, NoneUsed(|plan.predicates|), false) - Supply(slots[..n + 1])
  {
    SupplyNext(slots, n);
    TakeOne(Demand(plan.predicates, used, false), Demand(plan.predicates, used', false),
            Demand(plan.predicates, NoneUsed(|plan.predicates|), false), Supply(slots[..n]), slots[n]);
  }

  lemma ProgressDone(slots: seq<Slot>, plan: QueryPlan, args: seq<Arg>, assign: seq<int>, used: seq<bool>, placed: bool)
    requires Progress(slots, plan, args, assign, used, placed, |slots|) && !plan.cursor.descending
    ensures Bindable(slots, plan) <==> (forall j :: 0 <= j < |used| ==> used[j]) && (plan.cursor.bound.Some? ==> placed)
    ensures (forall j :: 0 <= j < |used| ==> used[j]) ==> IsBinding(slots, plan, args, assign)
  {
    assert slots[..|slots|] == slots;
    DemandEmpty(plan.predicates, used);
    SaturatedDifference(Demand(plan.predicates, NoneUsed(|plan.predicates|), false), Supply(slots));
    if forall j :: 0 <= j < |used| ==> used[j] {
      forall j | 0 <= j < |plan.predicates| ensures AssignedTo(slots, assign, j) { assert used[j]; }
    }
  }

  lemma ProgressStart(slots: seq<Slot>, plan: QueryPlan)
    ensures Progress(slots, plan, seq(|slots|, _ => Null), seq(|slots|, _ => -1), NoneUsed(|plan.predicates|), false, 0)
  {
    var all := Demand(plan.predicates, NoneUsed(|plan.predicates|), false);
    assert slots[..0] == [];
    assert all - multiset{} == all;
  }

  /** Binds slot by slot, up to one that does not take its part. */
  method BindSlots(slots: seq<Slot>, plan: QueryPlan)
    returns (r: Result<seq<Arg>, BindFault>, used: seq<bool>, boundCursor: bool, ghost assign: seq<int>)
    ensures r.Err? ==> SomeSlotBlamed(slots, plan, r.error)
    ensures r.Ok? ==> Fit(slots, plan, |slots|) && Progress(slots, plan, r.value, assign, used, boundCursor, |slots|)
  {
    assign := seq(|slots|, _ => -1);
    var args := seq(|slots|, _ => Null);
    used := NoneUsed(|plan.predicates|);
    boundCursor := false;
    ProgressStart(slots, plan);
    for i := 0 to |slots|
      invariant Fit(slots, plan, i) && Progress(slots, plan, args, assign, used, boundCursor, i)
    {
      if slots[i].index != i + 1 {
        SlotIsBlamed(slots, plan, Misaligned, i);
        return Err(Misaligned), used, boundCursor, assign;
      }
      var arg, used', chosen := BindSlot(slots[i], plan, used);
      if arg.Err? {
        SlotIsBlamed(slots, plan, arg.error, i);
        return Err(arg.error), used, boundCursor, assign;
      }
      FitNext(slots, plan, i);
      ProgressNext(slots, plan, args, assign, used, boundCursor, i, arg.value, chosen, used');
      if slots[i].kind == AfterSlot && plan.cursor.bound.Some? { boundCursor := true; }
      args, used, assign := args[i := arg.value], used', assign[i := chosen];
    }
    return Ok(args), used, boundCursor, assign;
  }

  lemma BlamedSlotIsUnfit(slots: seq<Slot>, plan: QueryPlan, fault: BindFault)
    requires !plan.cursor.descending && SomeSlotBlamed(slots, plan, fault)
    ensures BindBlamed(slots, plan, fault) && !Bindable(slots, plan)
  {
    var i :| SlotBlamed(slots, plan, fault, i);
    assert Unfit(slots, plan, i);
    if slots[i].index == i + 1 && slots[i].kind == AfterSlot { assert slots[i] in slots; }
  }

  lemma NoSlotBlamed(slots: seq<Slot>, plan: QueryPlan, args: seq<Arg>, assign: seq<int>, used: seq<bool>, placed: bool,
                     j: nat)
    requires !plan.cursor.descending && Fit(slots, plan, |slots|)
    requires Progress(slots, plan, args, assign, used, placed, |slots|) && j < |used| && !used[j]
    ensures BindBlamed(slots, plan, NoSlotFor(plan.predicates[j].column, plan.predicates[j].op))
  {
    assert slots[..|slots|] == slots;
    FitHasNoUnfit(slots, plan);
    UnusedIsBlamed(slots, plan, used, j);
  }

  lemma NoAfterBlamed(slots: seq<Slot>, plan: QueryPlan, args: seq<Arg>, assign: seq<int>, used: seq<bool>)
    requires !plan.cursor.descending && Fit(slots, plan, |slots|) && plan.cursor.bound.Some?
    requires Progress(slots, plan, args, assign, used, false, |slots|) && forall j :: 0 <= j < |used| ==> used[j]
    ensures BindBlamed(slots, plan, NoAfterSlot)
  {
    assert slots[..|slots|] == slots;
    FitHasNoUnfit(slots, plan);
    DemandEmpty(plan.predicates, used);
    SaturatedDifference(Demand(plan.predicates, NoneUsed(|plan.predicates|), false), Supply(slots));
  }

  /** Binds a plan into a statement's slots, or refuses it: it binds exactly when
      the plan fits, and the bound statement then means the plan. */
  method BindArgs(slots: seq<Slot>, plan: QueryPlan) returns (r: Result<seq<Arg>, BindFault>, ghost assign: seq<int>)
    ensures r.Ok? <==> Bindable(slots, plan)
    ensures r.Ok? ==> IsBinding(slots, plan, r.value, assign)
    ensures r.Err? ==> BindBlamed(slots, plan, r.error)
  {
    assign := [];
    if plan.cursor.descending { return Err(NoDescending), assign; }
    var used, boundCursor;
    r, used, boundCursor, assign := BindSlots(slots, plan);
    if r.Err? {
      BlamedSlotIsUnfit(slots, plan, r.error);
      return;
    }
    ProgressDone(slots, plan, r.value, assign, used, boundCursor);
    for j := 0 to |used|
      invariant forall k :: 0 <= k < j ==> used[k]
    {
      if !used[j] {
        NoSlotBlamed(slots, plan, r.value, assign, used, boundCursor, j);
        return Err(NoSlotFor(plan.predicates[j].column, plan.predicates[j].op)), assign;
      }
    }
    if plan.cursor.bound.Some? && !boundCursor {
      NoAfterBlamed(slots, plan, r.value, assign, used);
      return Err(NoAfterSlot), assign;
    }
  }

  lemma SaturatedDifference(a: multiset<FilterKey>, b: multiset<FilterKey>)
    ensures a - b == multiset{} <==> a <= b
  {
    if a - b == multiset{} {
      forall k ensures a[k] <= b[k] { assert (a - b)[k] == 0; }
    }
  }
}
