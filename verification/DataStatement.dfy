/** BuildDataStatement of internal/api/readsql.go, as slots and clauses. */
module DataStatement {
  import opened Results
  import opened Ordering
  import opened ReadPlan
  import opened ReadSql

  /** A fixed statement: what it selects and from where, its optional clauses, its
      order and its binding plan. */
  datatype Statement = Statement(schema: string, table: string, projection: seq<string>,
                                 clauses: seq<Clause>, orderBy: seq<string>, params: seq<Slot>)

  datatype BuildFault =
    | NotBare(name: string)
    | EmptyProjection
    | EmptyPrimaryKey
    | MalformedType(column: string)
    | KeyHasNoType(column: string)

  /** ^[a-z_][a-z0-9_]*$ */
  predicate IsBareIdent(s: string) {
    s != "" && (s[0] == '_' || 'a' <= s[0] <= 'z')
    && forall i :: 0 <= i < |s| ==> s[i] == '_' || 'a' <= s[i] <= 'z' || '0' <= s[i] <= '9'
  }

  predicate AllBare(names: seq<string>) {
    forall i :: 0 <= i < |names| ==> IsBareIdent(names[i])
  }

  /** One column's slots from position idx: equality, then the range bounds whose
      names no filtered column takes. */
  function ColumnSlots(c: string, filters: Fields, idx: int): seq<Slot> {
    var pt := TypeOf(filters, c);
    var eq := [Slot(idx, c, EqSlot, c, pt)];
    var from := if c + FROM in filters then [] else [Slot(idx + 1, c + FROM, FromSlot, c, pt)];
    var upTo := if c + TO in filters then [] else [Slot(idx + 1 + |from|, c + TO, ToSlot, c, pt)];
    eq + from + upTo
  }

  function FilterSlots(cols: seq<string>, filters: Fields): seq<Slot> {
    if cols == [] then []
    else
      var before := FilterSlots(cols[..|cols| - 1], filters);
      before + ColumnSlots(cols[|cols| - 1], filters, |before| + 1)
  }

  /** A single-column key also gets the keyset cursor's slot. */
  function CursorSlots(filters: Fields, primaryKey: seq<string>, idx: int): seq<Slot> {
    if |primaryKey| == 1 && primaryKey[0] in filters
    then [Slot(idx, "after", AfterSlot, primaryKey[0], filters[primaryKey[0]])] else []
  }

  function LimitSlotAt(idx: int): Slot {
    Slot(idx, "limit", LimitSlot, "", "")
  }

  /** The filter slots, then the cursor's and the limit's. */
  function Closed(filter: seq<Slot>, filters: Fields, primaryKey: seq<string>): seq<Slot> {
    var cursor := CursorSlots(filters, primaryKey, |filter| + 1);
    filter + cursor + [LimitSlotAt(|filter| + |cursor| + 1)]
  }

  ghost function DataSlots(filters: Fields, primaryKey: seq<string>): seq<Slot> {
    Closed(FilterSlots(SortedNames(filters.Keys), filters), filters, primaryKey)
  }

  lemma SortedAreFilters(filters: Fields)
    ensures forall c :: c in SortedNames(filters.Keys) ==> c in filters
  {
    forall c | c in SortedNames(filters.Keys) ensures c in filters { assert c in Elements(SortedNames(filters.Keys)); }
  }

  /** The clause of a slot: NULL-optional comparison with its parameter. */
  function ClauseOf(s: Slot): Clause
    requires ClauseOp(s.kind).Some?
  {
    Clause(s.column, ClauseOp(s.kind).value, s.index)
  }

  /** Exactly the non-limit slots have clauses, in order. */
  ghost predicate ClausesMatch(clauses: seq<Clause>, slots: seq<Slot>) {
    |clauses| == |slots|
    && forall i :: 0 <= i < |slots| ==> ClauseOp(slots[i].kind).Some? && clauses[i] == ClauseOf(slots[i])
  }

  predicate NamesOk(schema: string, table: string, projection: seq<string>, primaryKey: seq<string>) {
    && IsBareIdent(schema) && IsBareIdent(table)
    && projection != [] && AllBare(projection)
    && primaryKey != [] && AllBare(primaryKey)
  }

  predicate FiltersOk(filters: Fields, typeOk: string -> bool) {
    forall c :: c in filters ==> IsBareIdent(c) && typeOk(filters[c])
  }

  ghost predicate WellFormed(schema: string, table: string, projection: seq<string>, filters: Fields,
                             primaryKey: seq<string>, typeOk: string -> bool) {
    && NamesOk(schema, table, projection, primaryKey)
    && FiltersOk(filters, typeOk)
    && (|primaryKey| == 1 ==> primaryKey[0] in filters)
  }

  /** name is the first of the names that is not bare. */
  ghost predicate FirstUnbare(names: seq<string>, i: int, name: string) {
    0 <= i < |names| && name == names[i] && !IsBareIdent(name) && forall j :: 0 <= j < i ==> IsBareIdent(names[j])
  }

  ghost predicate UnbareBlamed(names: seq<string>, fault: BuildFault) {
    exists i, name :: FirstUnbare(names, i, name) && fault == NotBare(name)
  }

  /** Why the names are refused: the first thing wrong with them, in order. */
  ghost predicate NamesBlamed(schema: string, table: string, projection: seq<string>, primaryKey: seq<string>,
                              fault: BuildFault) {
    if !IsBareIdent(schema) then fault == NotBare(schema)
    else if !IsBareIdent(table) then fault == NotBare(table)
    else if projection == [] then fault == EmptyProjection
    else if !AllBare(projection) then UnbareBlamed(projection, fault)
    else if primaryKey == [] then fault == EmptyPrimaryKey
    else !AllBare(primaryKey) && UnbareBlamed(primaryKey, fault)
  }

  /** Some filtered column, whichever the map walk meets first, is not bare or has no
      proper type. */
  ghost predicate FilterBlamed(filters: Fields, typeOk: string -> bool, fault: BuildFault) {
    match fault
    case NotBare(c) => c in filters && !IsBareIdent(c)
    case MalformedType(c) => c in filters && IsBareIdent(c) && !typeOk(filters[c])
    case _ => false
  }

  /** Why a statement is not built. */
  ghost predicate BuildBlamed(schema: string, table: string, projection: seq<string>, filters: Fields,
                              primaryKey: seq<string>, typeOk: string -> bool, fault: BuildFault) {
    if !NamesOk(schema, table, projection, primaryKey) then
      NamesBlamed(schema, table, projection, primaryKey, fault)
    else if !FiltersOk(filters, typeOk) then FilterBlamed(filters, typeOk, fault)
    else |primaryKey| == 1 && primaryKey[0] !in filters && fault == KeyHasNoType(primaryKey[0])
  }

  method CheckBare(names: seq<string>) returns (bad: Option<string>)
    ensures bad == None <==> AllBare(names)
    ensures bad.Some? ==> exists i :: FirstUnbare(names, i, bad.value)
  {
    for i := 0 to |names|
      invariant AllBare(names[..i])
    {
      if !IsBareIdent(names[i]) {
        assert FirstUnbare(names, i, names[i]);
        return Some(names[i]);
      }
      assert names[..i + 1] == names[..i] + [names[i]];
    }
    assert names[..|names|] == names;
    return None;
  }

  method CheckFilters(filters: Fields, typeOk: string -> bool) returns (fault: Option<BuildFault>, cols: seq<string>)
    ensures fault == None <==> FiltersOk(filters, typeOk)
    ensures fault.Some? ==> FilterBlamed(filters, typeOk, fault.value)
    ensures fault == None ==> cols == SortedNames(filters.Keys)
  {
    cols := [];
    var walk := WalkKeys(filters.Keys);
    for i := 0 to |walk|
      invariant forall c :: c in Elements(walk[..i]) && c in filters ==> IsBareIdent(c) && typeOk(filters[c])
    {
      var c := walk[i];
      ElementsOneMore(walk, i);
      assert c in Elements(walk);
      if !IsBareIdent(c) { return Some(NotBare(c)), cols; }
      if !typeOk(filters[c]) { return Some(MalformedType(c)), cols; }
    }
    assert walk[..|walk|] == walk;
    SortedStrings(walk);
    return None, Sort(Before, walk);
  }

  /** Appends one column's clauses and slots. */
  method AddColumn(clauses: seq<Clause>, params: seq<Slot>, c: string, filters: Fields)
    returns (clauses': seq<Clause>, params': seq<Slot>)
    requires ClausesMatch(clauses, params)
    ensures params' == params + ColumnSlots(c, filters, |params| + 1) && ClausesMatch(clauses', params')
  {
    var pt, idx := TypeOf(filters, c), |params| + 1;
    clauses' := clauses + [Clause(c, Eq, idx)];
    params' := params + [Slot(idx, c, EqSlot, c, pt)];
    idx := idx + 1;
    if c + FROM !in filters {
      clauses' := clauses' + [Clause(c, Gte, idx)];
      params' := params' + [Slot(idx, c + FROM, FromSlot, c, pt)];
      idx := idx + 1;
    }
    if c + TO !in filters {
      clauses' := clauses' + [Clause(c, Lte, idx)];
      params' := params' + [Slot(idx, c + TO, ToSlot, c, pt)];
    }
  }

  lemma FilterSlotsNext(cols: seq<string>, filters: Fields, i: nat)
    requires i < |cols|
    ensures var before := FilterSlots(cols[..i], filters);
            FilterSlots(cols[..i + 1], filters) == before + ColumnSlots(cols[i], filters, |before| + 1)
  {
    assert cols[..i + 1][..i] == cols[..i];
  }

  method BuildSlots(cols: seq<string>, filters: Fields) returns (clauses: seq<Clause>, params: seq<Slot>)
    ensures params == FilterSlots(cols, filters) && ClausesMatch(clauses, params)
  {
    clauses, params := [], [];
    for i := 0 to |cols|
      invariant params == FilterSlots(cols[..i], filters) && ClausesMatch(clauses, params)
    {
      FilterSlotsNext(cols, filters, i);
      clauses, params := AddColumn(clauses, params, cols[i], filters);
    }
    assert cols[..|cols|] == cols;
  }

  method CheckNames(schema: string, table: string, projection: seq<string>, primaryKey: seq<string>)
    returns (fault: Option<BuildFault>)
    ensures fault == None <==> NamesOk(schema, table, projection, primaryKey)
    ensures fault.Some? ==> NamesBlamed(schema, table, projection, primaryKey, fault.value)
  {
    if !IsBareIdent(schema) { return Some(NotBare(schema)); }
    if !IsBareIdent(table) { return Some(NotBare(table)); }
    if |projection| == 0 { return Some(EmptyProjection); }
    var bad := CheckBare(projection);
    if bad.Some? { return Some(NotBare(bad.value)); }
    if |primaryKey| == 0 { return Some(EmptyPrimaryKey); }
    bad := CheckBare(primaryKey);
    if bad.Some? { return Some(NotBare(bad.value)); }
    return None;
  }

  lemma ClausesGrow(clauses: seq<Clause>, slots: seq<Slot>, s: Slot)
    requires ClausesMatch(clauses, slots) && ClauseOp(s.kind).Some?
    ensures ClausesMatch(clauses + [ClauseOf(s)], slots + [s])
  {}

  /** Adds a single-column key's cursor, then the limit. */
  method CloseSlots(clauses: seq<Clause>, params: seq<Slot>, filters: Fields, primaryKey: seq<string>)
    returns (clauses': seq<Clause>, params': seq<Slot>)
    requires ClausesMatch(clauses, params) && (|primaryKey| == 1 ==> primaryKey[0] in filters)
    ensures params' == Closed(params, filters, primaryKey)
    ensures ClausesMatch(clauses', params'[..|params'| - 1])
  {
    clauses', params' := clauses, params;
    var idx := |params| + 1;
    if |primaryKey| == 1 {
      var key := primaryKey[0];
      var after := Slot(idx, "after", AfterSlot, key, filters[key]);
      ClausesGrow(clauses, params, after);
      clauses', params', idx := clauses' + [Clause(key, Gt, idx)], params' + [after], idx + 1;
    }
    ghost var body := params';
    params' := params' + [LimitSlotAt(idx)];
    assert params'[..|params'| - 1] == body;
  }

  /** Assembles the fixed statement of one /data shape. */
  method BuildDataStatement(schema: string, table: string, projection: seq<string>, filters: Fields,
                            primaryKey: seq<string>, typeOk: string -> bool)
    returns (r: Result<Statement, BuildFault>)
    ensures r.Ok? <==> WellFormed(schema, table, projection, filters, primaryKey, typeOk)
    ensures r.Err? ==> BuildBlamed(schema, table, projection, filters, primaryKey, typeOk, r.error)
    ensures r.Ok? ==>
      && r.value.params == DataSlots(filters, primaryKey)
      && ClausesMatch(r.value.clauses, r.value.params[..|r.value.params| - 1])
      && r.value.orderBy == primaryKey && r.value.projection == projection
      && r.value.schema == schema && r.value.table == table
  {
    var fault := CheckNames(schema, table, projection, primaryKey);
    if fault.Some? { return Err(fault.value); }
    var cols;
    fault, cols := CheckFilters(filters, typeOk);
    if fault.Some? { return Err(fault.value); }
    var clauses, params := BuildSlots(cols, filters);
    if |primaryKey| == 1 && primaryKey[0] !in filters { return Err(KeyHasNoType(primaryKey[0])); }
    clauses, params := CloseSlots(clauses, params, filters, primaryKey);
    return Ok(Statement(schema, table, projection, clauses, primaryKey, params));
  }

  // -------------------------------------------------------- what the slots offer

  /** Slots numbered from idx on, comparing columns of the filters. */
  ghost predicate NumberedFrom(slots: seq<Slot>, filters: Fields, idx: int) {
    forall i :: 0 <= i < |slots| ==> slots[i].index == idx + i && FilterSlot(slots[i], filters)
  }

  ghost predicate FilterSlot(s: Slot, filters: Fields) {
    OpForSlotKind(s.kind).Some? && s.column in filters
  }

  lemma NumberedOn(a: seq<Slot>, b: seq<Slot>, filters: Fields, idx: int)
    requires NumberedFrom(a, filters, idx) && NumberedFrom(b, filters, idx + |a|)
    ensures NumberedFrom(a + b, filters, idx)
  {
    forall i | 0 <= i < |a + b| ensures (a + b)[i].index == idx + i && FilterSlot((a + b)[i], filters) {
      if i >= |a| { assert (a + b)[i] == b[i - |a|]; }
    }
  }

  lemma {:induction false} FilterSlotsNumbered(cols: seq<string>, filters: Fields)
    requires forall c :: c in cols ==> c in filters
    ensures NumberedFrom(FilterSlots(cols, filters), filters, 1)
  {
    if cols != [] {
      var init, c := cols[..|cols| - 1], cols[|cols| - 1];
      FilterSlotsNumbered(init, filters);
      var before := FilterSlots(init, filters);
      NumberedOn(before, ColumnSlots(c, filters, |before| + 1), filters, 1);
    }
  }

  lemma ClosedAligned(filter: seq<Slot>, filters: Fields, primaryKey: seq<string>)
    requires NumberedFrom(filter, filters, 1)
    ensures Aligned(Closed(filter, filters, primaryKey))
    ensures forall s :: s in Closed(filter, filters, primaryKey) && s.kind == AfterSlot ==> [s.column] == primaryKey
    ensures forall s :: s in Closed(filter, filters, primaryKey) && s.kind != LimitSlot ==> s.column in filters
    ensures forall s :: s in filter ==> s in Closed(filter, filters, primaryKey)
  {
    forall i | 0 <= i < |filter|
      ensures filter[i].kind != OtherSlot && filter[i].kind != AfterSlot && filter[i].column in filters
    {
      assert FilterSlot(filter[i], filters);
    }
  }

  lemma ClosedPages(filter: seq<Slot>, filters: Fields, primaryKey: seq<string>)
    requires |primaryKey| == 1 && primaryKey[0] in filters
    ensures exists s :: s in Closed(filter, filters, primaryKey) && s.kind == AfterSlot
  {
    assert Closed(filter, filters, primaryKey)[|filter|].kind == AfterSlot;
  }

  /** The slots are numbered in order; a cursor slot pages the sole key column, and
      every slot but the limit compares a filtered column. */
  lemma DataSlotsAligned(filters: Fields, primaryKey: seq<string>)
    ensures Aligned(DataSlots(filters, primaryKey))
    ensures forall s :: s in DataSlots(filters, primaryKey) && s.kind == AfterSlot ==> [s.column] == primaryKey
    ensures forall s :: s in DataSlots(filters, primaryKey) && s.kind != LimitSlot ==> s.column in filters
  {
    SortedAreFilters(filters);
    FilterSlotsNumbered(SortedNames(filters.Keys), filters);
    ClosedAligned(FilterSlots(SortedNames(filters.Keys), filters), filters, primaryKey);
  }

  /** A slot for the filter key is among the slots. */
  ghost predicate Offers(slots: seq<Slot>, column: string, op: Op) {
    exists s :: s in slots && s.column == column && OpForSlotKind(s.kind) == Some(op)
  }

  lemma {:induction false} FilterSlotsOffer(cols: seq<string>, filters: Fields, c: string)
    requires (forall c :: c in cols ==> c in filters) && c in cols
    ensures Offers(FilterSlots(cols, filters), c, Eq)
    ensures c + FROM !in filters ==> Offers(FilterSlots(cols, filters), c, Gte)
    ensures c + TO !in filters ==> Offers(FilterSlots(cols, filters), c, Lte)
  {
    var init, last := cols[..|cols| - 1], cols[|cols| - 1];
    var before := FilterSlots(init, filters);
    var more := ColumnSlots(last, filters, |before| + 1);
    if c == last {
      assert more[0] in before + more;
      if c + FROM !in filters { assert more[1] in before + more; }
      if c + TO !in filters { assert more[|more| - 1] in before + more; }
    } else {
      assert cols == init + [last];
      FilterSlotsOffer(init, filters, c);
      assert forall s :: s in before ==> s in before + more;
    }
  }

  lemma DataSlotsOffer(filters: Fields, primaryKey: seq<string>, c: string)
    requires c in filters
    ensures Offers(DataSlots(filters, primaryKey), c, Eq)
    ensures c + FROM !in filters ==> Offers(DataSlots(filters, primaryKey), c, Gte)
    ensures c + TO !in filters ==> Offers(DataSlots(filters, primaryKey), c, Lte)
  {
    SortedAreFilters(filters);
    var cols := SortedNames(filters.Keys);
    assert c in Elements(cols);
    FilterSlotsOffer(cols, filters, c);
    FilterSlotsNumbered(cols, filters);
    ClosedAligned(FilterSlots(cols, filters), filters, primaryKey);
  }

  /** A slot's param, column and type. */
  ghost predicate SlotSays(s: Slot, filters: Fields, primaryKey: seq<string>) {
    match s.kind
    case EqSlot => s.column in filters && s.pgType == filters[s.column] && s.param == s.column
    case FromSlot =>
      && s.column in filters && s.pgType == filters[s.column]
      && s.param == s.column + "_from" && s.param !in filters
    case ToSlot =>
      && s.column in filters && s.pgType == filters[s.column]
      && s.param == s.column + "_to" && s.param !in filters
    case AfterSlot =>
      && primaryKey == [s.column] && s.column in filters && s.pgType == filters[s.column] && s.param == "after"
    case LimitSlot => s.param == "limit"
    case OtherSlot => false
  }

  lemma {:induction false} FilterSlotsSay(cols: seq<string>, filters: Fields, primaryKey: seq<string>)
    requires forall c :: c in cols ==> c in filters
    ensures forall s :: s in FilterSlots(cols, filters) ==> SlotSays(s, filters, primaryKey)
  {
    if cols != [] {
      var init, c := cols[..|cols| - 1], cols[|cols| - 1];
      FilterSlotsSay(init, filters, primaryKey);
      var more := ColumnSlots(c, filters, |FilterSlots(init, filters)| + 1);
      forall s | s in more ensures SlotSays(s, filters, primaryKey) {}
    }
  }

  lemma ClosedSays(filter: seq<Slot>, filters: Fields, primaryKey: seq<string>, s: Slot)
    requires s in Closed(filter, filters, primaryKey)
    ensures s in filter || SlotSays(s, filters, primaryKey)
  {
    var cursor := CursorSlots(filters, primaryKey, |filter| + 1);
    assert s in filter || s in cursor || s == LimitSlotAt(|filter| + |cursor| + 1);
    if |primaryKey| == 1 { assert primaryKey == [primaryKey[0]]; }
  }

  /** Every slot binds the param named for its role, by its column's type. */
  lemma DataSlotsSay(filters: Fields, primaryKey: seq<string>, s: Slot)
    requires s in DataSlots(filters, primaryKey)
    ensures SlotSays(s, filters, primaryKey)
  {
    SortedAreFilters(filters);
    FilterSlotsSay(SortedNames(filters.Keys), filters, primaryKey);
    ClosedSays(FilterSlots(SortedNames(filters.Keys), filters), filters, primaryKey, s);
  }

  /** Bare identifiers are of lower-case letters, digits and underscores, no digit first. */
  lemma BareIdentsAre(s: string)
    ensures IsBareIdent(s) <==>
              && s != "" && s[0] !in "0123456789"
              && forall i :: 0 <= i < |s| ==>
                   s[i] == '_' || s[i] in "abcdefghijklmnopqrstuvwxyz" || s[i] in "0123456789"
  {
    forall c: char { LetterAt(c); }
    forall c: char { DigitAt(c); }
  }

  lemma LetterAt(c: char)
    ensures c in "abcdefghijklmnopqrstuvwxyz" <==> 'a' <= c <= 'z'
  {
    if 'a' <= c <= 'z' { assert "abcdefghijklmnopqrstuvwxyz"[c as int - 'a' as int] == c; }
  }

  lemma DigitAt(c: char)
    ensures c in "0123456789" <==> '0' <= c <= '9'
  {
    if '0' <= c <= '9' { assert "0123456789"[c as int - '0' as int] == c; }
  }

  // ------------------------------------------------------- what the text selects

  /** The statement's WHERE clause under bound arguments. */
  ghost predicate Selects(sat: Comparison, row: Row, clauses: seq<Clause>, args: seq<Arg>) {
    forall i :: 0 <= i < |clauses| ==>
                  && 1 <= clauses[i].index <= |args|
                  && ClauseHolds(sat, row, clauses[i].column, clauses[i].op, args[clauses[i].index - 1])
  }

  /** The clauses say of a row what the numbered slots do. */
  lemma ClausesAreSlots(sat: Comparison, row: Row, clauses: seq<Clause>, slots: seq<Slot>, args: seq<Arg>)
    requires slots != [] && |slots| == |args| && Aligned(slots) && slots[|slots| - 1].kind == LimitSlot
    requires ClausesMatch(clauses, slots[..|slots| - 1])
    ensures Selects(sat, row, clauses, args) <==> Accepts(sat, row, slots, args)
  {
    var n := |slots| - 1;
    forall i | 0 <= i < n
      ensures clauses[i].index == i + 1
      ensures SlotHolds(sat, row, slots[i], args[i])
              <==> ClauseHolds(sat, row, clauses[i].column, clauses[i].op, args[i])
    {
      assert slots[..n][i] == slots[i];
    }
    if Selects(sat, row, clauses, args) {
      forall i | 0 <= i <= n ensures SlotHolds(sat, row, slots[i], args[i]) {
        if i < n { assert clauses[i].index == i + 1; }
      }
    }
  }
}
