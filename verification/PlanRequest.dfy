/** What PlanDataQuery of internal/api/params.go does, said of the query's own texts. */
module PlanRequest {
  import opened Results
  import opened Ordering
  import opened GoText
  import opened ReadPlan

  /** A param's text: its first value. */
  function Text(q: Query, param: string): string
    requires param in q
  {
    if q[param] == [] then "" else q[param][0]
  }

  predicate Given(q: Query, param: string) {
    param in q && q[param] != []
  }

  /** The params a table's columns allow. */
  ghost predicate Known(fields: Fields, param: string) {
    || param == "after" || param == "limit" || param in fields
    || exists f :: f in fields && (param == f + "_from" || param == f + "_to")
  }

  /** The request filters by p: <col>= equals, <col>_from= and <col>_to= bound, unless a
      column is so named. */
  ghost predicate AsksFor(fields: Fields, q: Query, parse: Parser, p: Predicate) {
    p.column in fields &&
    match p.op
    case Eq => p.column in q && parse(fields[p.column], Text(q, p.column)) == Some(p.value)
    case Gte =>
      var param := p.column + "_from";
      param in q && param !in fields && parse(fields[p.column], Text(q, param)) == Some(p.value)
    case Lte =>
      var param := p.column + "_to";
      param in q && param !in fields && parse(fields[p.column], Text(q, param)) == Some(p.value)
    case _ => false
  }

  /** The limit asked for: 100 unless given, and then what limit= spells. */
  ghost predicate LimitIs(q: Query, n: int) {
    if Given(q, "limit") then Spells(TrimSpace(Text(q, "limit")), n) else n == 100
  }

  /** The cursor param parses by the sole key column's type. */
  ghost predicate CursorParses(primaryKey: seq<string>, fields: Fields, q: Query, param: string, parse: Parser)
    requires param in q
  {
    |primaryKey| == 1 && primaryKey[0] in fields && parse(fields[primaryKey[0]], Text(q, param)).Some?
  }

  /** If column f's range param spelled by suffix is one and given, its text parses. */
  ghost predicate RangeParses(fields: Fields, q: Query, parse: Parser, f: string, suffix: string) {
    f in fields && f + suffix in q && f + suffix !in fields ==> parse(fields[f], Text(q, f + suffix)).Some?
  }

  /** The requests that are planned. */
  ghost predicate Acceptable(primaryKey: seq<string>, fields: Fields, q: Query, parse: Parser) {
    && (forall k :: k in q ==> Known(fields, k) && |q[k]| <= 1)
    && (forall f :: f in fields && f in q ==> parse(fields[f], Text(q, f)).Some?)
    && (forall f :: RangeParses(fields, q, parse, f, "_from") && RangeParses(fields, q, parse, f, "_to"))
    && (exists n :: LimitIs(q, n) && 1 <= n <= 1000)
    && !(Given(q, "after") && Given(q, "before"))
    && (Given(q, "after") ==> CursorParses(primaryKey, fields, q, "after", parse))
    && (Given(q, "before") ==> CursorParses(primaryKey, fields, q, "before", parse))
  }

  lemma KnownIsAllowed(fields: Fields, k: string)
    ensures k in Allowed(fields) <==> Known(fields, k)
  {
    SuffixedHolds(fields.Keys, k);
  }

  lemma SameText(q: Query, k: string)
    requires k in q
    ensures RawOf(q, k) == Text(q, k)
    ensures Given(q, k) <==> Single(q, k) == Some(Text(q, k))
  {}

  // ------------------------------------------------------------------ the filters

  lemma PresentHolds(params: set<string>, q: Query)
    ensures forall k :: k in Present(params, q) <==> k in params && k in q
  {
    assert forall k :: k in Present(params, q) <==> k in Elements(Present(params, q));
  }

  lemma EqualityFilters(fields: Fields, q: Query, parse: Parser, preds: seq<Predicate>, p: Predicate)
    requires Filters(fields, q, parse, preds) && p.op == Eq && AsksFor(fields, q, parse, p)
    ensures p in preds
  {
    PresentHolds(fields.Keys, q);
    SameText(q, p.column);
    var i :| 0 <= i < |Present(fields.Keys, q)| && Present(fields.Keys, q)[i] == p.column;
    assert AskedAt(fields, q, parse, preds, i) && preds[i] == p;
  }

  /** A given range param is among the present ones. */
  lemma RangeIsPresent(fields: Fields, q: Query, f: string, op: Op, param: string)
    requires f in fields && param in q && param !in fields
    requires (op == Gte && param == f + "_from") || (op == Lte && param == f + "_to")
    ensures param in Present(RangeParams(fields), q) && RefOf(param) == (f, op)
  {
    SuffixedHolds(fields.Keys, param);
    RefOfSuffixed(f);
    PresentHolds(RangeParams(fields), q);
  }

  lemma RangeFilters(fields: Fields, q: Query, parse: Parser, preds: seq<Predicate>, p: Predicate, param: string)
    requires Filters(fields, q, parse, preds) && AsksFor(fields, q, parse, p)
    requires (p.op == Gte && param == p.column + "_from") || (p.op == Lte && param == p.column + "_to")
    ensures p in preds
  {
    RangeIsPresent(fields, q, p.column, p.op, param);
    SameText(q, param);
    var ranges, n := Present(RangeParams(fields), q), |Present(fields.Keys, q)|;
    var i :| 0 <= i < |ranges| && ranges[i] == param;
    assert ParamAt(fields, q, n + i) == param && !IsEquality(fields, q, n + i);
    assert AskedAt(fields, q, parse, preds, n + i);
    assert preds[n + i] == p;
  }

  lemma PlannedFilters(fields: Fields, q: Query, parse: Parser, preds: seq<Predicate>, i: nat)
    requires Filters(fields, q, parse, preds) && i < |preds|
    ensures AsksFor(fields, q, parse, preds[i])
  {
    PredicateOrigin(fields, q, parse, preds, i);
    assert AskedAt(fields, q, parse, preds, i);
    SameText(q, ParamAt(fields, q, i));
    RefOfSuffixed(preds[i].column);
  }

  /** An accepted plan's predicates are exactly the filters the query gives. */
  lemma PlanFilters(primaryKey: seq<string>, fields: Fields, q: Query, parse: Parser, p: Predicate)
    requires PlanData(primaryKey, fields, q, parse).Ok?
    ensures p in PlanData(primaryKey, fields, q, parse).value.predicates <==> AsksFor(fields, q, parse, p)
  {
    var preds := PlanData(primaryKey, fields, q, parse).value.predicates;
    PlanIsTheRequest(primaryKey, fields, q, parse);
    if p in preds {
      var i :| 0 <= i < |preds| && preds[i] == p;
      PlannedFilters(fields, q, parse, preds, i);
    }
    if AsksFor(fields, q, parse, p) {
      match p.op
      case Eq => EqualityFilters(fields, q, parse, preds, p);
      case Gte => RangeFilters(fields, q, parse, preds, p, p.column + "_from");
      case Lte => RangeFilters(fields, q, parse, preds, p, p.column + "_to");
    }
  }

  // -------------------------------------------------------------- limit and cursor

  lemma LimitReads(q: Query)
    ensures ResolveLimit(q).Ok? <==> exists n :: LimitIs(q, n) && 1 <= n <= 1000
    ensures ResolveLimit(q).Ok? ==> LimitIs(q, ResolveLimit(q).value)
  {
    if Given(q, "limit") {
      var text := TrimSpace(Text(q, "limit"));
      if n :| LimitIs(q, n) && 1 <= n <= 1000 { ParseIntReads(text, n); }
      if ParseInt(text).Some? { ParseIntReads(text, ParseInt(text).value); }
      assert ResolveLimit(q).Ok? ==> LimitIs(q, ResolveLimit(q).value);
    } else {
      assert LimitIs(q, 100);
    }
  }

  /** The cursor is what the query says: beyond after= on the key, below before=, or from
      the start. */
  ghost predicate CursorSays(primaryKey: seq<string>, fields: Fields, q: Query, parse: Parser, cursor: CursorPlan) {
    && cursor.key == CursorKey(primaryKey, false)
    && !(Given(q, "after") && Given(q, "before"))
    && (cursor.descending <==> Given(q, "before"))
    && (cursor.bound.Some? <==> Given(q, "after") || Given(q, "before"))
    && (Given(q, "after") ==>
          && CursorParses(primaryKey, fields, q, "after", parse)
          && cursor.bound == Some(CursorBound(Gt, parse(fields[primaryKey[0]], Text(q, "after")).value)))
    && (Given(q, "before") ==>
          && CursorParses(primaryKey, fields, q, "before", parse)
          && cursor.bound == Some(CursorBound(Lt, parse(fields[primaryKey[0]], Text(q, "before")).value)))
  }

  lemma PlanCursorSays(primaryKey: seq<string>, fields: Fields, q: Query, limit: int, parse: Parser)
    ensures var r := PlanCursor(DataCursorKey(primaryKey), fields, q, limit, parse);
            && (r.Ok? ==> r.value.limit == limit && CursorSays(primaryKey, fields, q, parse, r.value))
            && (r.Ok? <==>
                  && !(Given(q, "after") && Given(q, "before"))
                  && (Given(q, "after") ==> CursorParses(primaryKey, fields, q, "after", parse))
                  && (Given(q, "before") ==> CursorParses(primaryKey, fields, q, "before", parse)))
  {
    if "after" in q { SameText(q, "after"); }
    if "before" in q { SameText(q, "before"); }
  }

  lemma PlanParts(primaryKey: seq<string>, fields: Fields, q: Query, parse: Parser)
    ensures PlanData(primaryKey, fields, q, parse).Ok? <==>
              && FirstOffence(q, Allowed(fields)) == None
              && Bound(Present(fields.Keys, q), EqRef, fields, q, parse).Ok?
              && Bound(Present(RangeParams(fields), q), RefOf, fields, q, parse).Ok?
              && ResolveLimit(q).Ok?
              && PlanCursor(DataCursorKey(primaryKey), fields, q, ResolveLimit(q).value, parse).Ok?
    ensures PlanData(primaryKey, fields, q, parse).Ok? ==>
              PlanCursor(DataCursorKey(primaryKey), fields, q, ResolveLimit(q).value, parse)
              == Ok(PlanData(primaryKey, fields, q, parse).value.cursor)
  {}

  /** An accepted plan pages as the query says: its limit is what limit= spells or 100,
      its bound what after= or before= gives. */
  lemma PlanPages(primaryKey: seq<string>, fields: Fields, q: Query, parse: Parser)
    requires PlanData(primaryKey, fields, q, parse).Ok?
    ensures var cursor := PlanData(primaryKey, fields, q, parse).value.cursor;
            LimitIs(q, cursor.limit) && 1 <= cursor.limit <= 1000 && CursorSays(primaryKey, fields, q, parse, cursor)
  {
    PlanParts(primaryKey, fields, q, parse);
    LimitReads(q);
    PlanCursorSays(primaryKey, fields, q, ResolveLimit(q).value, parse);
  }

  // ------------------------------------------------------------------- acceptance

  lemma {:induction false} BoundParses(params: seq<string>, ref: string -> (string, Op), fields: Fields, q: Query,
                                       parse: Parser)
    ensures Bound(params, ref, fields, q, parse).Ok?
       <==> forall k :: k in params ==> parse(TypeOf(fields, ref(k).0), RawOf(q, k)).Some?
  {
    if params != [] {
      var init, p := params[..|params| - 1], params[|params| - 1];
      assert params == init + [p];
      BoundParses(init, ref, fields, q, parse);
    }
  }

  lemma KnownSingles(fields: Fields, q: Query)
    ensures FirstOffence(q, Allowed(fields)) == None <==> forall k :: k in q ==> Known(fields, k) && |q[k]| <= 1
  {
    forall k { KnownIsAllowed(fields, k); }
    assert forall k :: k in Offenders(q, Allowed(fields)) <==> k in q && (k !in Allowed(fields) || |q[k]| > 1);
  }

  lemma EqualitiesParse(fields: Fields, q: Query, parse: Parser)
    ensures Bound(Present(fields.Keys, q), EqRef, fields, q, parse).Ok?
       <==> forall f :: f in fields && f in q ==> parse(fields[f], Text(q, f)).Some?
  {
    BoundParses(Present(fields.Keys, q), EqRef, fields, q, parse);
    PresentHolds(fields.Keys, q);
    forall f | f in fields && f in q { SameText(q, f); }
  }

  lemma RangeIsBound(fields: Fields, q: Query, parse: Parser, f: string, suffix: string)
    requires Bound(Present(RangeParams(fields), q), RefOf, fields, q, parse).Ok?
             && (suffix == "_from" || suffix == "_to")
    ensures RangeParses(fields, q, parse, f, suffix)
  {
    BoundParses(Present(RangeParams(fields), q), RefOf, fields, q, parse);
    PresentHolds(RangeParams(fields), q);
    SuffixedHolds(fields.Keys, f + suffix);
    RefOfSuffixed(f);
    if f + suffix in q { SameText(q, f + suffix); }
  }

  lemma RangesParse(fields: Fields, q: Query, parse: Parser)
    ensures Bound(Present(RangeParams(fields), q), RefOf, fields, q, parse).Ok?
       <==> forall f :: RangeParses(fields, q, parse, f, "_from") && RangeParses(fields, q, parse, f, "_to")
  {
    var params := Present(RangeParams(fields), q);
    if Bound(params, RefOf, fields, q, parse).Ok? {
      forall f ensures RangeParses(fields, q, parse, f, "_from") && RangeParses(fields, q, parse, f, "_to") {
        RangeIsBound(fields, q, parse, f, "_from");
        RangeIsBound(fields, q, parse, f, "_to");
      }
    } else {
      BoundParses(params, RefOf, fields, q, parse);
      PresentHolds(RangeParams(fields), q);
      var k :| k in params && parse(TypeOf(fields, RefOf(k).0), RawOf(q, k)).None?;
      RangeParamSpells(fields, k);
      SameText(q, k);
      var f := RefOf(k).0;
      assert !RangeParses(fields, q, parse, f, if RefOf(k).1 == Gte then "_from" else "_to");
    }
  }

  /** A request is planned exactly if it is acceptable. */
  lemma PlanAccepts(primaryKey: seq<string>, fields: Fields, q: Query, parse: Parser)
    ensures PlanData(primaryKey, fields, q, parse).Ok? <==> Acceptable(primaryKey, fields, q, parse)
  {
    PlanParts(primaryKey, fields, q, parse);
    KnownSingles(fields, q);
    EqualitiesParse(fields, q, parse);
    RangesParse(fields, q, parse);
    LimitReads(q);
    if ResolveLimit(q).Ok? { PlanCursorSays(primaryKey, fields, q, ResolveLimit(q).value, parse); }
  }

  // --------------------------------------------------------------------- refusals

  /** k is unknown or repeated, and no other such param comes before it in text order. */
  ghost predicate FirstBad(fields: Fields, q: Query, k: string) {
    && k in q && !(Known(fields, k) && |q[k]| <= 1)
    && forall j :: j in q && !(Known(fields, j) && |q[j]| <= 1) ==> j == k || Before(k, j)
  }

  /** A column's text that does not parse by the column's type. */
  ghost predicate EqualityBad(fields: Fields, q: Query, parse: Parser, k: string) {
    k in fields && k in q && parse(fields[k], Text(q, k)).None?
  }

  /** A range param's text that does not. */
  ghost predicate RangeBad(fields: Fields, q: Query, parse: Parser, k: string) {
    exists f :: (k == f + "_from" && !RangeParses(fields, q, parse, f, "_from"))
             || (k == f + "_to" && !RangeParses(fields, q, parse, f, "_to"))
  }

  /** k is bad, and the first in text order that is. */
  ghost predicate First(bad: string -> bool, k: string) {
    bad(k) && forall j :: bad(j) ==> j == k || Before(k, j)
  }

  ghost predicate LimitBlamed(q: Query, fault: Fault) {
    match fault
    case LimitNotInteger => Given(q, "limit") && forall n :: LimitIs(q, n) ==> !FitsInt64(n)
    case LimitNotPositive => exists n :: LimitIs(q, n) && FitsInt64(n) && n < 1
    case LimitOverMax => exists n :: LimitIs(q, n) && FitsInt64(n) && n > 1000
    case _ => false
  }

  ghost predicate CursorBlamed(primaryKey: seq<string>, fields: Fields, q: Query, parse: Parser, fault: Fault) {
    if Given(q, "after") && Given(q, "before") then fault == AfterAndBefore
    else
      var param := if Given(q, "after") then "after" else "before";
      && Given(q, param)
      && if |primaryKey| != 1 then fault == CompositeCursor(param)
         else if primaryKey[0] !in fields then fault == KeyUntyped(primaryKey[0])
         else fault == Unparsable(param) && parse(fields[primaryKey[0]], Text(q, param)).None?
  }

  /** Why a query is refused, in the order the parts are looked at: a param unknown or
      repeated, a column's text, a range param's, the limit, the cursor. Of several in one
      part it is the first in text order. */
  ghost predicate Because(primaryKey: seq<string>, fields: Fields, q: Query, parse: Parser, fault: Fault) {
    if exists k :: FirstBad(fields, q, k) then
      exists k :: FirstBad(fields, q, k) && fault == if Known(fields, k) then RepeatedParam(k) else UnknownParam(k)
    else if exists k :: EqualityBad(fields, q, parse, k) then
      exists k :: First(j => EqualityBad(fields, q, parse, j), k) && fault == Unparsable(k)
    else if exists k :: RangeBad(fields, q, parse, k) then
      exists k :: First(j => RangeBad(fields, q, parse, j), k) && fault == Unparsable(k)
    else if !exists n :: LimitIs(q, n) && 1 <= n <= 1000 then LimitBlamed(q, fault)
    else CursorBlamed(primaryKey, fields, q, parse, fault)
  }

  ghost predicate FailsFirst(params: seq<string>, ref: string -> (string, Op), fields: Fields, q: Query, parse: Parser,
                             i: int) {
    && 0 <= i < |params| && parse(TypeOf(fields, ref(params[i]).0), RawOf(q, params[i])).None?
    && forall j :: 0 <= j < i ==> parse(TypeOf(fields, ref(params[j]).0), RawOf(q, params[j])).Some?
  }

  lemma {:induction false} BoundFault(params: seq<string>, ref: string -> (string, Op), fields: Fields, q: Query,
                                      parse: Parser) returns (i: nat)
    requires Bound(params, ref, fields, q, parse).Err?
    ensures FailsFirst(params, ref, fields, q, parse, i)
    ensures Bound(params, ref, fields, q, parse) == Err(Unparsable(params[i]))
  {
    var init, p := params[..|params| - 1], params[|params| - 1];
    assert params == init + [p];
    if Bound(init, ref, fields, q, parse).Err? {
      i := BoundFault(init, ref, fields, q, parse);
    } else {
      i := |init|;
      BoundParses(init, ref, fields, q, parse);
      forall j | 0 <= j < i ensures parse(TypeOf(fields, ref(params[j]).0), RawOf(q, params[j])).Some? {
        assert params[j] == init[j] && init[j] in init;
      }
    }
  }

  /** In a sorted list the first bad param is the first in text order. */
  lemma FirstInOrder(bad: string -> bool, params: seq<string>, i: nat)
    requires Ascending(Before, params) && i < |params| && bad(params[i])
    requires forall j :: 0 <= j < i ==> !bad(params[j])
    requires forall k :: bad(k) ==> k in params
    ensures First(bad, params[i])
  {
    forall k | bad(k) ensures k == params[i] || Before(params[i], k) {
      var j :| 0 <= j < |params| && params[j] == k;
      assert j >= i;
    }
  }

  lemma OffenceBecause(fields: Fields, q: Query, k: string)
    requires IsLeast(Before, Offenders(q, Allowed(fields)), k)
    ensures FirstBad(fields, q, k) && (k in Allowed(fields) <==> Known(fields, k))
  {
    forall j { KnownIsAllowed(fields, j); }
  }

  lemma NoOffenceLeft(fields: Fields, q: Query)
    requires Offenders(q, Allowed(fields)) == {}
    ensures !exists k :: FirstBad(fields, q, k)
  {
    forall k | k in q ensures Known(fields, k) && |q[k]| <= 1 {
      KnownIsAllowed(fields, k);
      assert k !in Offenders(q, Allowed(fields));
    }
  }

  lemma EqualityBecause(fields: Fields, q: Query, parse: Parser, e: Fault)
    requires Bound(Present(fields.Keys, q), EqRef, fields, q, parse) == Err(e)
    ensures exists k :: First(j => EqualityBad(fields, q, parse, j), k) && e == Unparsable(k)
  {
    var params := Present(fields.Keys, q);
    var i := BoundFault(params, EqRef, fields, q, parse);
    PresentHolds(fields.Keys, q);
    forall k | k in params ensures EqualityBad(fields, q, parse, k) <==> parse(TypeOf(fields, k), RawOf(q, k)).None? {
      SameText(q, k);
    }
    forall j | 0 <= j <= i ensures params[j] in params {}
    FirstInOrder(j => EqualityBad(fields, q, parse, j), params, i);
  }

  lemma RangeBadIs(fields: Fields, q: Query, parse: Parser, k: string)
    ensures RangeBad(fields, q, parse, k) <==>
      k in RangeParams(fields) && k in q && parse(TypeOf(fields, RefOf(k).0), RawOf(q, k)).None?
  {
    if k in q { SameText(q, k); }
    if RangeBad(fields, q, parse, k) {
      var f :| (k == f + "_from" && !RangeParses(fields, q, parse, f, "_from"))
            || (k == f + "_to" && !RangeParses(fields, q, parse, f, "_to"));
      SuffixedHolds(fields.Keys, k);
      RefOfSuffixed(f);
    } else if k in RangeParams(fields) && k in q {
      RangeParamSpells(fields, k);
      assert k == RefOf(k).0 + if RefOf(k).1 == Gte then "_from" else "_to";
    }
  }

  lemma RangeBecause(fields: Fields, q: Query, parse: Parser, e: Fault)
    requires Bound(Present(RangeParams(fields), q), RefOf, fields, q, parse) == Err(e)
    ensures exists k :: First(j => RangeBad(fields, q, parse, j), k) && e == Unparsable(k)
  {
    var params := Present(RangeParams(fields), q);
    var i := BoundFault(params, RefOf, fields, q, parse);
    PresentHolds(RangeParams(fields), q);
    forall k ensures RangeBad(fields, q, parse, k) <==>
      k in params && parse(TypeOf(fields, RefOf(k).0), RawOf(q, k)).None?
    {
      RangeBadIs(fields, q, parse, k);
    }
    forall j | 0 <= j <= i ensures params[j] in params {}
    FirstInOrder(j => RangeBad(fields, q, parse, j), params, i);
  }

  lemma LimitBecause(q: Query, e: Fault)
    requires ResolveLimit(q) == Err(e)
    ensures LimitBlamed(q, e)
  {
    var text := TrimSpace(Text(q, "limit"));
    forall n ensures ParseInt(text) == Some(n) <==> LimitIs(q, n) && FitsInt64(n) { ParseIntReads(text, n); }
    if ParseInt(text).Some? { assert LimitIs(q, ParseInt(text).value); }
  }

  lemma CursorBecause(primaryKey: seq<string>, fields: Fields, q: Query, limit: int, parse: Parser, e: Fault)
    requires PlanCursor(DataCursorKey(primaryKey), fields, q, limit, parse) == Err(e)
    ensures CursorBlamed(primaryKey, fields, q, parse, e)
  {
    if "after" in q { SameText(q, "after"); }
    if "before" in q { SameText(q, "before"); }
  }

  /** A refusal says what the query has wrong first. */
  lemma RefusalBecause(primaryKey: seq<string>, fields: Fields, q: Query, parse: Parser)
    requires PlanData(primaryKey, fields, q, parse).Err?
    ensures Because(primaryKey, fields, q, parse, PlanData(primaryKey, fields, q, parse).error)
  {
    var e := PlanData(primaryKey, fields, q, parse).error;
    if Offenders(q, Allowed(fields)) != {} {
      RefusalNamesTheLeast(primaryKey, fields, q, parse);
      var k :| IsLeast(Before, Offenders(q, Allowed(fields)), k)
               && e == if k in Allowed(fields) then RepeatedParam(k) else UnknownParam(k);
      OffenceBecause(fields, q, k);
    } else {
      NoOffenceLeft(fields, q);
      LaterBecause(primaryKey, fields, q, parse, e);
    }
  }

  lemma EqualitiesAre(fields: Fields, q: Query, parse: Parser)
    ensures Bound(Present(fields.Keys, q), EqRef, fields, q, parse).Err? <==>
              exists k :: EqualityBad(fields, q, parse, k)
  {
    EqualitiesParse(fields, q, parse);
    if f :| f in fields && f in q && parse(fields[f], Text(q, f)).None? { assert EqualityBad(fields, q, parse, f); }
  }

  lemma RangesAre(fields: Fields, q: Query, parse: Parser)
    ensures Bound(Present(RangeParams(fields), q), RefOf, fields, q, parse).Err? <==>
              exists k :: RangeBad(fields, q, parse, k)
  {
    RangesParse(fields, q, parse);
    if f :| !RangeParses(fields, q, parse, f, "_from") { assert RangeBad(fields, q, parse, f + "_from"); }
    if f :| !RangeParses(fields, q, parse, f, "_to") { assert RangeBad(fields, q, parse, f + "_to"); }
  }

  lemma LaterBecause(primaryKey: seq<string>, fields: Fields, q: Query, parse: Parser, e: Fault)
    requires Offenders(q, Allowed(fields)) == {} && !exists k :: FirstBad(fields, q, k)
    requires PlanData(primaryKey, fields, q, parse) == Err(e)
    ensures Because(primaryKey, fields, q, parse, e)
  {
    EqualitiesAre(fields, q, parse);
    RangesAre(fields, q, parse);
    LimitReads(q);
    if Bound(Present(fields.Keys, q), EqRef, fields, q, parse).Err? {
      EqualityBecause(fields, q, parse, e);
    } else if Bound(Present(RangeParams(fields), q), RefOf, fields, q, parse).Err? {
      RangeBecause(fields, q, parse, e);
    } else if ResolveLimit(q).Err? {
      LimitBecause(q, e);
    } else {
      CursorBecause(primaryKey, fields, q, ResolveLimit(q).value, parse, e);
    }
  }
}
