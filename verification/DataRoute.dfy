/** GET /data/{schema}/{table} of internal/api/dataroute.go: the projection, and the
    composition of plan, fixed statement and bound arguments. */
module DataRoute {
  import opened Results
  import opened Ordering
  import opened Joining
  import opened GoText
  import opened ReadPlan
  import opened ReadSql
  import opened DataStatement
  import opened PlanRequest

  datatype Column = Column(name: string, pgType: string)

  datatype Shape = Shape(schema: string, table: string, columns: seq<Column>, primaryKey: seq<string>)

  datatype RouteFault =
    | ColumnsRepeated
    | EmptyColumn
    | UnknownColumn(column: string)
    | RepeatedColumn(column: string)
    | KeyNotProjected(column: string)
    | Planning(fault: Fault)
    | Building(build: BuildFault)
    | Binding(bind: BindFault)

  // -------------------------------------------------------------- the projection

  lemma {:induction false} CutShortens(s: string, c: char)
    ensures CutAt(s, c).Some? ==> |CutAt(s, c).value.1| < |s|
  {
    if s != "" { CutShortens(s[1..], c); }
  }

  /** strings.Split(s, ","), each part trimmed. */
  function Parts(s: string): (r: seq<string>)
    ensures r != []
    decreases |s|
  {
    CutShortens(s, ',');
    match CutAt(s, ',')
    case None => [TrimSpace(s)]
    case Some((a, b)) => [TrimSpace(a)] + Parts(b)
  }

  function NamesOf(columns: seq<Column>): seq<string> {
    Mapped((c: Column) => c.name, columns)
  }

  /** What is wrong with the part at position i of columns=. */
  function PartFault(parts: seq<string>, declared: seq<string>, i: nat): Option<RouteFault>
    requires i < |parts|
  {
    if parts[i] == "" then Some(EmptyColumn)
    else if parts[i] !in declared then Some(UnknownColumn(parts[i]))
    else if parts[i] in parts[..i] then Some(RepeatedColumn(parts[i]))
    else None
  }

  /** The first fault among the first n parts. */
  function FirstFault(parts: seq<string>, declared: seq<string>, n: nat): Option<RouteFault>
    requires n <= |parts|
  {
    if n == 0 then None
    else if FirstFault(parts, declared, n - 1).Some? then FirstFault(parts, declared, n - 1)
    else PartFault(parts, declared, n - 1)
  }

  /** The first of the first n key columns that a projection leaves out. */
  function FirstMissing(names: seq<string>, primaryKey: seq<string>, n: nat): Option<string>
    requires n <= |primaryKey|
  {
    if n == 0 then None
    else if FirstMissing(names, primaryKey, n - 1).Some? then FirstMissing(names, primaryKey, n - 1)
    else if primaryKey[n - 1] !in names then Some(primaryKey[n - 1]) else None
  }

  /** Every present param has a value, as parsed URL queries do. */
  predicate Valued(q: Query) {
    forall k :: k in q ==> q[k] != []
  }

  function Projection(shape: Shape, q: Query): Result<seq<string>, RouteFault>
    requires Valued(q)
  {
    var declared := NamesOf(shape.columns);
    if "columns" !in q then Ok(declared)
    else if |q["columns"]| > 1 then Err(ColumnsRepeated)
    else
      var parts := Parts(q["columns"][0]);
      match FirstFault(parts, declared, |parts|)
      case Some(f) => Err(f)
      case None =>
        match FirstMissing(parts, shape.primaryKey, |shape.primaryKey|)
        case Some(k) => Err(KeyNotProjected(k))
        case None => Ok(parts)
  }

  /** A list of declared columns without repeats. */
  ghost predicate CleanList(parts: seq<string>, declared: seq<string>) {
    Distinct(parts) && forall i :: 0 <= i < |parts| ==> parts[i] != "" && parts[i] in declared
  }

  lemma {:induction false} FaultlessIsClean(parts: seq<string>, declared: seq<string>, n: nat)
    requires n <= |parts|
    ensures FirstFault(parts, declared, n) == None <==> CleanList(parts[..n], declared)
  {
    if n > 0 {
      FaultlessIsClean(parts, declared, n - 1);
      var init, all := parts[..n - 1], parts[..n];
      assert all == init + [parts[n - 1]];
      if CleanList(init, declared) {
        if CleanList(all, declared) {
          assert parts[n - 1] == all[n - 1];
          assert forall j :: 0 <= j < n - 1 ==> all[j] != all[n - 1];
        }
      } else {
        assert forall j :: 0 <= j < n - 1 ==> init[j] == all[j];
      }
    }
  }

  lemma {:induction false} NoneMissing(names: seq<string>, primaryKey: seq<string>, n: nat)
    requires n <= |primaryKey|
    ensures FirstMissing(names, primaryKey, n) == None <==> forall i :: 0 <= i < n ==> primaryKey[i] in names
  {
    if n > 0 { NoneMissing(names, primaryKey, n - 1); }
  }

  /** columns= is accepted exactly as a repeat-free list of declared columns holding
      the whole primary key, and is then the projection in caller order. */
  lemma ProjectionAccepts(shape: Shape, q: Query)
    requires Valued(q) && "columns" in q && |q["columns"]| == 1
    ensures var parts, r := Parts(q["columns"][0]), Projection(shape, q);
            && (r.Ok? <==> CleanList(parts, NamesOf(shape.columns)) && Elements(shape.primaryKey) <= Elements(parts))
            && (r.Ok? ==> r.value == parts)
  {
    var parts := Parts(q["columns"][0]);
    FaultlessIsClean(parts, NamesOf(shape.columns), |parts|);
    assert parts[..|parts|] == parts;
    NoneMissing(parts, shape.primaryKey, |shape.primaryKey|);
    assert Elements(shape.primaryKey) <= Elements(parts)
           <==> forall i :: 0 <= i < |shape.primaryKey| ==> shape.primaryKey[i] in parts by {
      if Elements(shape.primaryKey) <= Elements(parts) {
        forall i | 0 <= i < |shape.primaryKey| ensures shape.primaryKey[i] in parts {
          assert shape.primaryKey[i] in Elements(shape.primaryKey);
        }
      }
    }
  }

  /** raw is text cut at its commas. */
  ghost predicate CutAtCommas(text: string, raw: seq<string>) {
    raw != [] && Join(raw, ',') == text && forall i :: 0 <= i < |raw| ==> ',' !in raw[i]
  }

  /** The parts are what lies between the commas, without the spaces around it. */
  lemma {:induction false} PartsAreTrimmed(text: string) returns (raw: seq<string>)
    ensures CutAtCommas(text, raw) && Parts(text) == Mapped(TrimSpace, raw)
    decreases |text|
  {
    CutAtCuts(text, ',');
    CutShortens(text, ',');
    raw := [text];
    if CutAt(text, ',').Some? {
      var (a, b) := CutAt(text, ',').value;
      var rest := PartsAreTrimmed(b);
      raw := [a] + rest;
      assert raw[1..] == rest;
      MappedFront(TrimSpace, a, rest);
    }
  }

  lemma {:induction false} MappedFront<A, B>(f: A -> B, x: A, s: seq<A>)
    ensures Mapped(f, [x] + s) == [f(x)] + Mapped(f, s)
  {
    var t := [x] + s;
    forall i | 0 <= i < |t| ensures Mapped(f, t)[i] == ([f(x)] + Mapped(f, s))[i] {}
  }

  /** Without columns= every declared column is served, in order. */
  lemma ProjectionWhole(shape: Shape, q: Query)
    requires Valued(q) && "columns" !in q
    ensures Projection(shape, q).Ok? && |Projection(shape, q).value| == |shape.columns|
    ensures forall i :: 0 <= i < |shape.columns| ==> Projection(shape, q).value[i] == shape.columns[i].name
  {}

  /** Part i is the first bad one, and bad so. */
  ghost predicate BadPart(parts: seq<string>, declared: seq<string>, i: int, fault: RouteFault) {
    && 0 <= i < |parts| && CleanList(parts[..i], declared)
    && fault == if parts[i] == "" then EmptyColumn
                else if parts[i] !in declared then UnknownColumn(parts[i]) else RepeatedColumn(parts[i])
  }

  lemma {:induction false} FirstFaultIsBad(parts: seq<string>, declared: seq<string>, n: nat)
    requires n <= |parts| && FirstFault(parts, declared, n).Some?
    ensures exists i :: BadPart(parts, declared, i, FirstFault(parts, declared, n).value)
  {
    if FirstFault(parts, declared, n - 1).Some? {
      FirstFaultIsBad(parts, declared, n - 1);
    } else {
      FaultlessIsClean(parts, declared, n - 1);
      assert BadPart(parts, declared, n - 1, FirstFault(parts, declared, n).value);
    }
  }

  /** Key column i is the first one the names leave out. */
  ghost predicate LeftOutFirst(names: seq<string>, primaryKey: seq<string>, i: int, column: string) {
    && 0 <= i < |primaryKey| && column == primaryKey[i] && column !in names
    && forall j :: 0 <= j < i ==> primaryKey[j] in names
  }

  lemma {:induction false} FirstMissingIsLeftOut(names: seq<string>, primaryKey: seq<string>, n: nat)
    requires n <= |primaryKey| && FirstMissing(names, primaryKey, n).Some?
    ensures exists i :: LeftOutFirst(names, primaryKey, i, FirstMissing(names, primaryKey, n).value)
  {
    if FirstMissing(names, primaryKey, n - 1).Some? {
      FirstMissingIsLeftOut(names, primaryKey, n - 1);
    } else {
      NoneMissing(names, primaryKey, n - 1);
      assert LeftOutFirst(names, primaryKey, n - 1, primaryKey[n - 1]);
    }
  }

  /** A refused projection: columns= given twice, its first bad part, or a clean list's
      first missing key column. */
  lemma ProjectionRefuses(shape: Shape, q: Query)
    requires Valued(q) && Projection(shape, q).Err?
    ensures "columns" in q
    ensures var fault, parts := Projection(shape, q).error, Parts(q["columns"][0]);
            if |q["columns"]| > 1 then fault == ColumnsRepeated
            else if CleanList(parts, NamesOf(shape.columns)) then
              fault.KeyNotProjected? && (exists i :: LeftOutFirst(parts, shape.primaryKey, i, fault.column))
            else exists i :: BadPart(parts, NamesOf(shape.columns), i, fault)
  {
    var parts, declared := Parts(q["columns"][0]), NamesOf(shape.columns);
    FaultlessIsClean(parts, declared, |parts|);
    assert parts[..|parts|] == parts;
    if |q["columns"]| == 1 {
      if FirstFault(parts, declared, |parts|).Some? {
        FirstFaultIsBad(parts, declared, |parts|);
      } else {
        FirstMissingIsLeftOut(parts, shape.primaryKey, |shape.primaryKey|);
      }
    }
  }

  lemma FirstFaultStays(parts: seq<string>, declared: seq<string>, n: nat, m: nat)
    requires n <= m <= |parts| && FirstFault(parts, declared, n).Some?
    ensures FirstFault(parts, declared, m) == FirstFault(parts, declared, n)
    decreases m
  {
    if n < m { FirstFaultStays(parts, declared, n, m - 1); }
  }

  lemma FirstMissingStays(names: seq<string>, primaryKey: seq<string>, n: nat, m: nat)
    requires n <= m <= |primaryKey| && FirstMissing(names, primaryKey, n).Some?
    ensures FirstMissing(names, primaryKey, m) == FirstMissing(names, primaryKey, n)
    decreases m
  {
    if n < m { FirstMissingStays(names, primaryKey, n, m - 1); }
  }

  /** Reads the list part by part, refusing the first bad one. */
  method ReadList(parts: seq<string>, declared: seq<string>) returns (fault: Option<RouteFault>, seen: set<string>)
    ensures fault == FirstFault(parts, declared, |parts|)
    ensures fault == None ==> seen == Elements(parts)
  {
    seen := {};
    for i := 0 to |parts|
      invariant FirstFault(parts, declared, i) == None && seen == Elements(parts[..i])
    {
      var name := parts[i];
      ElementsOneMore(parts, i);
      assert name in seen <==> name in parts[..i];
      if name == "" || name !in declared || name in seen {
        FirstFaultStays(parts, declared, i + 1, |parts|);
        return PartFault(parts, declared, i), seen;
      }
      seen := seen + {name};
    }
    assert parts[..|parts|] == parts;
    return None, seen;
  }

  method DataProjection(shape: Shape, q: Query) returns (r: Result<seq<string>, RouteFault>)
    requires Valued(q)
    ensures r == Projection(shape, q)
  {
    var declared := NamesOf(shape.columns);
    if "columns" !in q { return Ok(declared); }
    if |q["columns"]| > 1 { return Err(ColumnsRepeated); }
    var parts := Parts(q["columns"][0]);
    var fault, seen := ReadList(parts, declared);
    if fault.Some? { return Err(fault.value); }
    for i := 0 to |shape.primaryKey|
      invariant FirstMissing(parts, shape.primaryKey, i) == None
    {
      assert shape.primaryKey[i] in seen <==> shape.primaryKey[i] in parts;
      if shape.primaryKey[i] !in seen {
        FirstMissingStays(parts, shape.primaryKey, i + 1, |shape.primaryKey|);
        return Err(KeyNotProjected(shape.primaryKey[i]));
      }
    }
    return Ok(parts);
  }

  // ------------------------------------------------- the columns a request touches

  /** The declared columns' types; a later duplicate wins. */
  function FieldsOf(columns: seq<Column>): Fields {
    if columns == [] then map[]
    else
      var last := columns[|columns| - 1];
      FieldsOf(columns[..|columns| - 1])[last.name := last.pgType]
  }

  /** The filtered columns and the paging key, with their types. */
  function Touched(preds: seq<Predicate>, primaryKey: seq<string>, fields: Fields): Fields {
    Typed(TouchedNames(preds, primaryKey), fields)
  }

  function Typed(names: set<string>, fields: Fields): Fields {
    map c | c in names :: TypeOf(fields, c)
  }

  function TouchedNames(preds: seq<Predicate>, primaryKey: seq<string>): set<string> {
    (set p | p in preds :: p.column) + (set k | k in primaryKey)
  }

  method FieldMap(columns: seq<Column>) returns (fields: Fields)
    ensures fields == FieldsOf(columns)
  {
    fields := map[];
    for i := 0 to |columns|
      invariant fields == FieldsOf(columns[..i])
    {
      assert columns[..i + 1][..i] == columns[..i];
      fields := fields[columns[i].name := columns[i].pgType];
    }
    assert columns[..|columns|] == columns;
  }

  lemma TouchedOneMore(preds: seq<Predicate>, i: nat)
    requires i < |preds|
    ensures TouchedNames(preds[..i + 1], []) == TouchedNames(preds[..i], []) + {preds[i].column}
  {
    assert preds[..i + 1] == preds[..i] + [preds[i]];
  }

  lemma TouchedKeyMore(preds: seq<Predicate>, primaryKey: seq<string>, i: nat)
    requires i < |primaryKey|
    ensures TouchedNames(preds, primaryKey[..i + 1]) == TouchedNames(preds, primaryKey[..i]) + {primaryKey[i]}
  {
    assert primaryKey[..i + 1] == primaryKey[..i] + [primaryKey[i]];
  }

  lemma TypedOneMore(names: set<string>, fields: Fields, c: string)
    ensures Typed(names + {c}, fields) == Typed(names, fields)[c := TypeOf(fields, c)]
  {}

  method TouchedMap(preds: seq<Predicate>, primaryKey: seq<string>, fields: Fields) returns (filtered: Fields)
    ensures filtered == Touched(preds, primaryKey, fields)
  {
    filtered := map[];
    for i := 0 to |preds|
      invariant filtered == Touched(preds[..i], [], fields)
    {
      TouchedOneMore(preds, i);
      TypedOneMore(TouchedNames(preds[..i], []), fields, preds[i].column);
      filtered := filtered[preds[i].column := TypeOf(fields, preds[i].column)];
    }
    assert preds[..|preds|] == preds && primaryKey[..0] == [];
    for i := 0 to |primaryKey|
      invariant filtered == Touched(preds, primaryKey[..i], fields)
    {
      TouchedKeyMore(preds, primaryKey, i);
      TypedOneMore(TouchedNames(preds, primaryKey[..i]), fields, primaryKey[i]);
      filtered := filtered[primaryKey[i] := TypeOf(fields, primaryKey[i])];
    }
    assert primaryKey[..|primaryKey|] == primaryKey;
  }

  // ------------------------------------------------------- every plan fits its text

  /** A declared table: bare names, rendered types and a non-empty declared key. */
  ghost predicate WellShaped(shape: Shape, typeOk: string -> bool) {
    && IsBareIdent(shape.schema) && IsBareIdent(shape.table)
    && shape.columns != [] && shape.primaryKey != []
    && (forall i :: 0 <= i < |shape.columns| ==> IsBareIdent(shape.columns[i].name) && typeOk(shape.columns[i].pgType))
    && (forall i :: 0 <= i < |shape.primaryKey| ==> shape.primaryKey[i] in FieldsOf(shape.columns))
  }

  lemma {:induction false} FieldsAreColumns(columns: seq<Column>, c: string)
    requires c in FieldsOf(columns)
    ensures exists i :: 0 <= i < |columns| && columns[i].name == c && columns[i].pgType == FieldsOf(columns)[c]
  {
    var n := |columns| - 1;
    if c == columns[n].name {
      assert columns[n].pgType == FieldsOf(columns)[c];
    } else {
      FieldsAreColumns(columns[..n], c);
      var i :| 0 <= i < n && columns[..n][i].name == c && columns[..n][i].pgType == FieldsOf(columns[..n])[c];
      assert columns[i] == columns[..n][i];
    }
  }

  /** Column i is the last one named c. */
  ghost predicate LastNamed(columns: seq<Column>, c: string, i: int) {
    0 <= i < |columns| && columns[i].name == c && forall j :: i < j < |columns| ==> columns[j].name != c
  }

  /** The fields are the columns' names, each with its last declaration's type. */
  lemma {:induction false} FieldsAreLast(columns: seq<Column>, c: string, i: int)
    requires LastNamed(columns, c, i)
    ensures c in FieldsOf(columns) && FieldsOf(columns)[c] == columns[i].pgType
  {
    if i < |columns| - 1 { FieldsAreLast(columns[..|columns| - 1], c, i); }
  }

  /** A key two predicates share is asked for twice; otherwise at most once. */
  lemma {:induction false} DemandAtMostOne(preds: seq<Predicate>, key: FilterKey)
    requires forall i, j :: 0 <= i < j < |preds| ==> (preds[i].column, preds[i].op) != (preds[j].column, preds[j].op)
    ensures Demand(preds, NoneUsed(|preds|), false)[key] <= 1
  {
    if preds != [] {
      var n := |preds| - 1;
      DemandAtMostOne(preds[..n], key);
      assert NoneUsed(|preds|)[..n] == NoneUsed(n);
      if key == (preds[n].column, preds[n].op) {
        DemandAbsent(preds[..n], NoneUsed(n), key);
      }
    }
  }

  lemma {:induction false} OfferedIsSupplied(slots: seq<Slot>, column: string, op: Op)
    requires Offers(slots, column, op)
    ensures (column, op) in Supply(slots)
  {
    var s :| s in slots && s.column == column && OpForSlotKind(s.kind) == Some(op);
    var n := |slots| - 1;
    if s != slots[n] {
      assert slots == slots[..n] + [slots[n]];
      OfferedIsSupplied(slots[..n], column, op);
    }
  }

  /** Whatever column names collide with range params, a planned predicate has its
      slot: the planner tests collisions against every column and the builder only
      against the touched ones. */
  lemma PredicateHasSlot(primaryKey: seq<string>, fields: Fields, q: Query, parse: Parser, preds: seq<Predicate>,
                         i: nat)
    requires Filters(fields, q, parse, preds) && i < |preds|
    requires forall k :: k in primaryKey ==> k in fields
    ensures Offers(DataSlots(Touched(preds, primaryKey, fields), primaryKey), preds[i].column, preds[i].op)
  {
    var filtered := Touched(preds, primaryKey, fields);
    PredicateOrigin(fields, q, parse, preds, i);
    assert preds[i] in preds;
    assert preds[i].column in filtered;
    forall c | c in filtered ensures c in fields { TouchedIsDeclared(primaryKey, fields, q, parse, preds, c); }
    DataSlotsOffer(filtered, primaryKey, preds[i].column);
  }

  lemma TouchedIsDeclared(primaryKey: seq<string>, fields: Fields, q: Query, parse: Parser, preds: seq<Predicate>,
                          c: string)
    requires Filters(fields, q, parse, preds) && (forall k :: k in primaryKey ==> k in fields)
    requires c in TouchedNames(preds, primaryKey)
    ensures c in fields
  {
    if c !in primaryKey {
      var p :| p in preds && p.column == c;
      var j :| 0 <= j < |preds| && preds[j] == p;
      PredicateOrigin(fields, q, parse, preds, j);
    }
  }

  lemma KeyIsMet(primaryKey: seq<string>, fields: Fields, q: Query, parse: Parser, preds: seq<Predicate>,
                 key: FilterKey)
    requires Filters(fields, q, parse, preds) && (forall k :: k in primaryKey ==> k in fields)
    ensures Demand(preds, NoneUsed(|preds|), false)[key]
         <= Supply(DataSlots(Touched(preds, primaryKey, fields), primaryKey))[key]
  {
    forall i, j | 0 <= i < j < |preds| ensures (preds[i].column, preds[i].op) != (preds[j].column, preds[j].op) {
      NoTwoPredicatesAlike(fields, q, parse, preds, i, j);
    }
    DemandAtMostOne(preds, key);
    DemandAbsent(preds, NoneUsed(|preds|), key);
    if j: nat :| j < |preds| && (preds[j].column, preds[j].op) == key {
      PredicateHasSlot(primaryKey, fields, q, parse, preds, j);
      OfferedIsSupplied(DataSlots(Touched(preds, primaryKey, fields), primaryKey), key.0, key.1);
    }
  }

  lemma DemandIsMet(primaryKey: seq<string>, fields: Fields, q: Query, parse: Parser, preds: seq<Predicate>)
    requires Filters(fields, q, parse, preds) && (forall k :: k in primaryKey ==> k in fields)
    ensures Demand(preds, NoneUsed(|preds|), false) <= Supply(DataSlots(Touched(preds, primaryKey, fields), primaryKey))
  {
    forall key: FilterKey { KeyIsMet(primaryKey, fields, q, parse, preds, key); }
  }

  /** Every plan the planner accepts binds into the statement built for it, unless
      it pages backwards: a request can do so only where a column named `before`
      makes that param known, and no fixed statement has a slot for it. */
  lemma AcceptedPlanBinds(primaryKey: seq<string>, fields: Fields, q: Query, parse: Parser)
    requires PlanData(primaryKey, fields, q, parse).Ok?
    requires forall k :: k in primaryKey ==> k in fields
    ensures var plan := PlanData(primaryKey, fields, q, parse).value;
            Bindable(DataSlots(Touched(plan.predicates, primaryKey, fields), primaryKey), plan)
            <==> !Given(q, "before")
    ensures Given(q, "before") ==> "before" in fields
  {
    var plan := PlanData(primaryKey, fields, q, parse).value;
    PlanIsTheRequest(primaryKey, fields, q, parse);
    BeforeMustBeAColumn(fields);
    PlanPages(primaryKey, fields, q, parse);
    var filtered := Touched(plan.predicates, primaryKey, fields);
    DemandIsMet(primaryKey, fields, q, parse, plan.predicates);
    DataSlotsAligned(filtered, primaryKey);
    if |primaryKey| == 1 {
      assert primaryKey[0] in primaryKey;
      ClosedPages(FilterSlots(SortedNames(filtered.Keys), filtered), filtered, primaryKey);
    }
  }

  lemma RangeParamEnding(fields: Fields, p: string)
    requires p in RangeParams(fields)
    ensures p != "" && (p[|p| - 1] == 'm' || p[|p| - 1] == 'o')
  {
    RangeParamSpells(fields, p);
    var suffix := if RefOf(p).1 == Gte then FROM else TO;
    assert p[|p| - 1] == suffix[|suffix| - 1];
  }

  lemma BeforeMustBeAColumn(fields: Fields)
    ensures "before" in Allowed(fields) ==> "before" in fields
  {
    if "before" in RangeParams(fields) { RangeParamEnding(fields, "before"); }
  }

  // ------------------------------------------------------------------ the route

  /** What one accepted request executes. */
  datatype Served = Served(statement: Statement, plan: QueryPlan, args: seq<Arg>)

  /** The query the filter grammar sees. */
  function WithoutColumns(q: Query): Query {
    q - {"columns"}
  }

  ghost function PlanOf(shape: Shape, q: Query, parse: Parser): Result<QueryPlan, Fault> {
    PlanData(shape.primaryKey, FieldsOf(shape.columns), WithoutColumns(q), parse)
  }

  /** An executed request: its text selects the projection by the touched columns
      alone, and its arguments bind the plan. */
  ghost predicate Executes(shape: Shape, q: Query, parse: Parser, served: Served, assign: seq<int>)
    requires Valued(q)
  {
    var touched := Touched(served.plan.predicates, shape.primaryKey, FieldsOf(shape.columns));
    var slots := DataSlots(touched, shape.primaryKey);
    && PlanOf(shape, q, parse) == Ok(served.plan) && !served.plan.cursor.descending
    && Projection(shape, q) == Ok(served.statement.projection)
    && served.statement.schema == shape.schema && served.statement.table == shape.table
    && served.statement.orderBy == shape.primaryKey
    && served.statement.params == slots
    && ClausesMatch(served.statement.clauses, slots[..|slots| - 1])
    && IsBinding(slots, served.plan, served.args, assign)
  }

  lemma ProjectionIsBare(shape: Shape, q: Query, typeOk: string -> bool)
    requires Valued(q) && WellShaped(shape, typeOk) && Projection(shape, q).Ok?
    ensures Projection(shape, q).value != [] && AllBare(Projection(shape, q).value)
  {
    var names := NamesOf(shape.columns);
    forall i | 0 <= i < |names| ensures IsBareIdent(names[i]) { assert names[i] == shape.columns[i].name; }
    if "columns" in q {
      ProjectionAccepts(shape, q);
    }
  }

  lemma TouchedIsRendered(shape: Shape, q: Query, parse: Parser, preds: seq<Predicate>, typeOk: string -> bool)
    requires WellShaped(shape, typeOk) && Filters(FieldsOf(shape.columns), q, parse, preds)
    ensures FiltersOk(Touched(preds, shape.primaryKey, FieldsOf(shape.columns)), typeOk)
    ensures AllBare(shape.primaryKey)
  {
    var fields := FieldsOf(shape.columns);
    forall c | c in fields ensures IsBareIdent(c) && typeOk(fields[c]) { FieldsAreColumns(shape.columns, c); }
    forall c | c in Touched(preds, shape.primaryKey, fields) ensures c in fields {
      TouchedIsDeclared(shape.primaryKey, fields, q, parse, preds, c);
    }
  }

  /** The statement of a planned request on a well-formed shape is always built. */
  lemma StatementBuilds(shape: Shape, q: Query, parse: Parser, typeOk: string -> bool)
    requires Valued(q) && WellShaped(shape, typeOk) && Projection(shape, q).Ok? && PlanOf(shape, q, parse).Ok?
    ensures WellFormed(shape.schema, shape.table, Projection(shape, q).value,
                       Touched(PlanOf(shape, q, parse).value.predicates, shape.primaryKey, FieldsOf(shape.columns)),
                       shape.primaryKey, typeOk)
  {
    ProjectionIsBare(shape, q, typeOk);
    PlanIsTheRequest(shape.primaryKey, FieldsOf(shape.columns), WithoutColumns(q), parse);
    TouchedIsRendered(shape, WithoutColumns(q), parse, PlanOf(shape, q, parse).value.predicates, typeOk);
    if |shape.primaryKey| == 1 { assert shape.primaryKey[0] in shape.primaryKey; }
  }

  lemma BeforeIsGiven(q: Query)
    requires Valued(q)
    ensures Given(WithoutColumns(q), "before") <==> "before" in q
  {
    assert "before" != "columns" by { assert |"before"| != |"columns"|; }
  }

  /** Serves a /data read up to its execution. */
  method ServeData(shape: Shape, q: Query, parse: Parser, typeOk: string -> bool)
    returns (r: Result<Served, RouteFault>, ghost assign: seq<int>)
    requires Valued(q)
    ensures r.Ok? ==> Executes(shape, q, parse, r.value, assign)
    ensures Projection(shape, q).Err? ==> r == Err(Projection(shape, q).error)
    ensures Projection(shape, q).Ok? && PlanOf(shape, q, parse).Err? ==>
              r == Err(Planning(PlanOf(shape, q, parse).error))
    ensures (WellShaped(shape, typeOk) && Projection(shape, q).Ok? && PlanOf(shape, q, parse).Ok? ==>
               (r.Ok? <==> "before" !in q) && (r.Err? ==> r.error.Binding?))
  {
    assign := [];
    var projection := DataProjection(shape, q);
    if projection.Err? { return Err(projection.error), assign; }
    var rest := WithoutColumns(q);
    var fields := FieldMap(shape.columns);
    var plan := PlanDataQuery(shape.primaryKey, fields, rest, parse);
    if plan.Err? { return Err(Planning(plan.error)), assign; }
    var filtered := TouchedMap(plan.value.predicates, shape.primaryKey, fields);
    RouteSettles(shape, q, parse, typeOk);
    var statement := BuildDataStatement(shape.schema, shape.table, projection.value, filtered, shape.primaryKey,
                                        typeOk);
    if statement.Err? { return Err(Building(statement.error)), assign; }
    var args;
    args, assign := BindArgs(statement.value.params, plan.value);
    if args.Err? { return Err(Binding(args.error)), assign; }
    return Ok(Served(statement.value, plan.value, args.value)), assign;
  }

  lemma RouteSettles(shape: Shape, q: Query, parse: Parser, typeOk: string -> bool)
    requires Valued(q) && Projection(shape, q).Ok? && PlanOf(shape, q, parse).Ok?
    ensures var plan, fields := PlanOf(shape, q, parse).value, FieldsOf(shape.columns);
            var touched := Touched(plan.predicates, shape.primaryKey, fields);
            WellShaped(shape, typeOk) ==>
              && WellFormed(shape.schema, shape.table, Projection(shape, q).value, touched, shape.primaryKey, typeOk)
              && (Bindable(DataSlots(touched, shape.primaryKey), plan) <==> "before" !in q)
  {
    BeforeIsGiven(q);
    if WellShaped(shape, typeOk) {
      StatementBuilds(shape, q, parse, typeOk);
      assert forall k :: k in shape.primaryKey ==> k in FieldsOf(shape.columns);
      AcceptedPlanBinds(shape.primaryKey, FieldsOf(shape.columns), WithoutColumns(q), parse);
    }
  }

  /** The rows a query asks for: every filter it gives holds of them, and they lie beyond
      what its after= says on the sole key column. columns= is no filter. */
  ghost predicate Requested(sat: Comparison, row: Row, shape: Shape, q: Query, parse: Parser) {
    var fields, rest, pk := FieldsOf(shape.columns), WithoutColumns(q), shape.primaryKey;
    && (forall p :: AsksFor(fields, rest, parse, p) ==> Compares(sat, row, p.column, p.op, p.value))
    && (Given(rest, "after") ==>
          && CursorParses(pk, fields, rest, "after", parse)
          && Compares(sat, row, pk[0], Gt, parse(fields[pk[0]], Text(rest, "after")).value))
  }

  /** The same, said of the plan. */
  ghost predicate Planned(sat: Comparison, row: Row, plan: QueryPlan, primaryKey: seq<string>) {
    && (forall p :: p in plan.predicates ==> Compares(sat, row, p.column, p.op, p.value))
    && (plan.cursor.bound.Some? ==>
          |primaryKey| == 1 && Compares(sat, row, primaryKey[0], Gt, plan.cursor.bound.value.value))
  }

  lemma PlannedIsRequested(sat: Comparison, row: Row, shape: Shape, q: Query, parse: Parser)
    requires PlanOf(shape, q, parse).Ok? && !PlanOf(shape, q, parse).value.cursor.descending
    ensures Planned(sat, row, PlanOf(shape, q, parse).value, shape.primaryKey) <==> Requested(sat, row, shape, q, parse)
  {
    var fields, rest := FieldsOf(shape.columns), WithoutColumns(q);
    var preds := PlanOf(shape, q, parse).value.predicates;
    PlanPages(shape.primaryKey, fields, rest, parse);
    forall p ensures p in preds <==> AsksFor(fields, rest, parse, p) {
      PlanFilters(shape.primaryKey, fields, rest, parse, p);
    }
  }

  /** Every after slot pages by the sole key column, and there is one. */
  ghost predicate PagesByKey(slots: seq<Slot>, primaryKey: seq<string>) {
    && (forall s :: s in slots && s.kind == AfterSlot ==> [s.column] == primaryKey)
    && (|primaryKey| == 1 ==> exists s :: s in slots && s.kind == AfterSlot)
  }

  lemma StatementPagesByKey(preds: seq<Predicate>, primaryKey: seq<string>, fields: Fields)
    ensures PagesByKey(DataSlots(Touched(preds, primaryKey, fields), primaryKey), primaryKey)
  {
    var touched := Touched(preds, primaryKey, fields);
    DataSlotsAligned(touched, primaryKey);
    if |primaryKey| == 1 {
      assert primaryKey[0] in primaryKey;
      ClosedPages(FilterSlots(SortedNames(touched.Keys), touched), touched, primaryKey);
    }
  }

  lemma SatisfiesIsPlanned(sat: Comparison, row: Row, slots: seq<Slot>, plan: QueryPlan, primaryKey: seq<string>)
    requires PagesByKey(slots, primaryKey) && (plan.cursor.bound.Some? ==> |primaryKey| == 1)
    ensures Satisfies(sat, row, plan, slots) <==> Planned(sat, row, plan, primaryKey)
  {}

  lemma ClausesTouch(clauses: seq<Clause>, slots: seq<Slot>, touched: Fields)
    requires ClausesMatch(clauses, slots) && forall s :: s in slots && s.kind != LimitSlot ==> s.column in touched
    ensures forall c :: c in clauses ==> c.column in touched
  {
    forall i | 0 <= i < |clauses| ensures clauses[i].column in touched { assert slots[i] in slots; }
  }

  /** The executed text selects exactly the rows the query asks for. */
  lemma ServedMeansRequest(sat: Comparison, row: Row, shape: Shape, q: Query, parse: Parser, served: Served,
                           assign: seq<int>)
    requires Valued(q) && Executes(shape, q, parse, served, assign)
    ensures Selects(sat, row, served.statement.clauses, served.args) <==> Requested(sat, row, shape, q, parse)
  {
    var slots, fields := served.statement.params, FieldsOf(shape.columns);
    DataSlotsAligned(Touched(served.plan.predicates, shape.primaryKey, fields), shape.primaryKey);
    ClausesAreSlots(sat, row, served.statement.clauses, slots, served.args);
    BindingMeansPlan(sat, row, slots, served.plan, served.args, assign);
    PlanPages(shape.primaryKey, fields, WithoutColumns(q), parse);
    StatementPagesByKey(served.plan.predicates, shape.primaryKey, fields);
    SatisfiesIsPlanned(sat, row, slots, served.plan, shape.primaryKey);
    PlannedIsRequested(sat, row, shape, q, parse);
  }

  lemma LimitArgument(slots: seq<Slot>, plan: QueryPlan, args: seq<Arg>, assign: seq<int>)
    requires slots != [] && slots[|slots| - 1].kind == LimitSlot && IsBinding(slots, plan, args, assign)
    ensures args[|args| - 1] == Limit(plan.cursor.limit)
  {
    assert BoundAt(slots, plan, args, assign, |slots| - 1);
  }

  /** The last argument is a page of n rows, for the statement's limit. */
  predicate PagesBy(served: Served, n: int) {
    var last := |served.args| - 1;
    0 <= last < |served.statement.params| && served.statement.params[last].kind == LimitSlot
    && served.args[last] == Limit(n)
  }

  /** It pages by what limit= spells, or by 100. */
  lemma ServedLimit(shape: Shape, q: Query, parse: Parser, served: Served, assign: seq<int>)
    requires Valued(q) && Executes(shape, q, parse, served, assign)
    ensures exists n :: PagesBy(served, n) && LimitIs(WithoutColumns(q), n) && 1 <= n <= 1000
  {
    var n := served.plan.cursor.limit;
    PlanPages(shape.primaryKey, FieldsOf(shape.columns), WithoutColumns(q), parse);
    ServedPages(shape, q, parse, served, assign);
    assert PagesBy(served, n) && LimitIs(WithoutColumns(q), n);
  }

  lemma ServedPages(shape: Shape, q: Query, parse: Parser, served: Served, assign: seq<int>)
    requires Valued(q) && Executes(shape, q, parse, served, assign)
    ensures PagesBy(served, served.plan.cursor.limit)
  {
    DataSlotsAligned(Touched(served.plan.predicates, shape.primaryKey, FieldsOf(shape.columns)), shape.primaryKey);
    LimitArgument(served.statement.params, served.plan, served.args, assign);
  }

  /** It compares only columns the request filters by or pages by. */
  lemma ServedTouchesOnlyWhatIsAsked(shape: Shape, q: Query, parse: Parser, served: Served, assign: seq<int>)
    requires Valued(q) && Executes(shape, q, parse, served, assign)
    ensures forall c :: c in served.statement.clauses ==>
              c.column in TouchedNames(served.plan.predicates, shape.primaryKey)
  {
    var touched := Touched(served.plan.predicates, shape.primaryKey, FieldsOf(shape.columns));
    var slots := served.statement.params;
    DataSlotsAligned(touched, shape.primaryKey);
    ClausesTouch(served.statement.clauses, slots[..|slots| - 1], touched);
  }

  // ------------------------------------------------------- a column named `before`

  const BEFORE_TABLE := Shape("s", "t", [Column("id", "int"), Column("before", "int")], ["id"])

  const BEFORE_QUERY: Query := map["before" := ["7"]]

  lemma BeforeTableFields()
    ensures FieldsOf(BEFORE_TABLE.columns) == map["id" := "int", "before" := "int"]
  {
    var columns := BEFORE_TABLE.columns;
    assert columns[..1] == [Column("id", "int")] && columns[..1][..0] == [];
    assert FieldsOf(columns[..1]) == map["id" := "int"];
  }

  lemma BeforeTableIsWellShaped(typeOk: string -> bool)
    requires typeOk("int")
    ensures WellShaped(BEFORE_TABLE, typeOk)
  {
    BeforeTableFields();
  }

  lemma OneName(names: set<string>, name: string)
    requires names == {name}
    ensures SortedNames(names) == [name]
  {
    assert SortedNames(names)[0] in Elements(SortedNames(names));
  }

  lemma BeforeTakesNoRange(fields: Fields)
    ensures Present(RangeParams(fields), BEFORE_QUERY) == []
  {
    if "before" in RangeParams(fields) { RangeParamEnding(fields, "before"); }
    assert RangeParams(fields) * BEFORE_QUERY.Keys == {};
  }

  lemma BeforeIsKnown(fields: Fields)
    requires "before" in fields
    ensures FirstOffence(BEFORE_QUERY, Allowed(fields)) == None
  {
    assert Offenders(BEFORE_QUERY, Allowed(fields)) == {};
  }

  lemma BeforeFilters(fields: Fields, parse: Parser)
    requires fields.Keys == {"id", "before"} && fields["before"] == "int" && parse("int", "7").Some?
    ensures Bound(Present(fields.Keys, BEFORE_QUERY), EqRef, fields, BEFORE_QUERY, parse).Ok?
  {
    OneName(fields.Keys * BEFORE_QUERY.Keys, "before");
    assert ["before"][..0] == [];
  }

  lemma BeforePages(fields: Fields, parse: Parser)
    requires "id" in fields && fields["id"] == "int" && parse("int", "7").Some?
    ensures ResolveLimit(BEFORE_QUERY) == Ok(DEFAULT_LIMIT)
    ensures PlanCursor(DataCursorKey(["id"]), fields, BEFORE_QUERY, DEFAULT_LIMIT, parse).Ok?
  {
    assert "after" !in BEFORE_QUERY && "limit" !in BEFORE_QUERY;
    assert Single(BEFORE_QUERY, "before") == Some("7");
  }

  lemma PlanOfParts(primaryKey: seq<string>, fields: Fields, q: Query, parse: Parser)
    requires FirstOffence(q, Allowed(fields)) == None
    requires Bound(Present(fields.Keys, q), EqRef, fields, q, parse).Ok?
    requires Bound(Present(RangeParams(fields), q), RefOf, fields, q, parse).Ok?
    requires ResolveLimit(q).Ok? && PlanCursor(DataCursorKey(primaryKey), fields, q, ResolveLimit(q).value, parse).Ok?
    ensures PlanData(primaryKey, fields, q, parse).Ok?
  {}

  /** A table with a column named `before`, filtered by it: a request the planner
      accepts. */
  lemma BeforeColumnPlans(parse: Parser)
    requires parse("int", "7").Some?
    ensures Valued(BEFORE_QUERY) && Projection(BEFORE_TABLE, BEFORE_QUERY).Ok?
    ensures PlanOf(BEFORE_TABLE, BEFORE_QUERY, parse).Ok?
  {
    var fields := FieldsOf(BEFORE_TABLE.columns);
    BeforeTableFields();
    assert "columns" !in BEFORE_QUERY by { assert |"columns"| != |"before"|; }
    assert WithoutColumns(BEFORE_QUERY) == BEFORE_QUERY;
    BeforeIsKnown(fields);
    BeforeFilters(fields, parse);
    BeforeTakesNoRange(fields);
    BeforePages(fields, parse);
    PlanOfParts(["id"], fields, BEFORE_QUERY, parse);
  }

  /** On that table a request for the rows before 7 is planned, and then fails to bind. */
  method BeforeColumnFails(parse: Parser, typeOk: string -> bool) returns (r: Result<Served, RouteFault>)
    requires parse("int", "7").Some? && typeOk("int")
    ensures r.Err? && r.error.Binding?
  {
    BeforeTableIsWellShaped(typeOk);
    BeforeColumnPlans(parse);
    ghost var assign;
    r, assign := ServeData(BEFORE_TABLE, BEFORE_QUERY, parse, typeOk);
  }
}
