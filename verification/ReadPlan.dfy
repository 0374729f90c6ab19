/** The request grammar of internal/api/params.go: from a table's columns and the
    raw query values to a plan of predicates and a keyset cursor. */
module ReadPlan {
  import opened Results
  import opened Ordering
  import opened GoText

  datatype Op = Eq | Gte | Lte | Gt | Lt

  /** A request value parsed per its column's type; what parsing and comparing mean
      is left open. */
  datatype Value = Value(pgType: string, text: string)

  datatype Predicate = Predicate(column: string, op: Op, value: Value)

  datatype CursorBound = CursorBound(op: Op, value: Value)

  /** A collection's ordered key columns; only a single monotonic id also pages
      backwards. */
  datatype CursorKey = CursorKey(columns: seq<string>, idKeyed: bool)

  datatype CursorPlan = CursorPlan(key: CursorKey, descending: bool, bound: Option<CursorBound>, limit: int)

  datatype QueryPlan = QueryPlan(predicates: seq<Predicate>, cursor: CursorPlan)

  datatype Fault =
    | UnknownParam(param: string)
    | RepeatedParam(param: string)
    | Unparsable(param: string)
    | LimitNotInteger
    | LimitNotPositive
    | LimitOverMax
    | AfterAndBefore
    | CompositeCursor(param: string)
    | KeyUntyped(column: string)   // a route misconfiguration, not a client error

  const DEFAULT_LIMIT := 100
  const MAX_LIMIT := 1000

  type Query = map<string, seq<string>>

  /** Columns and their types. */
  type Fields = map<string, string>

  /** Parses a raw value per a column type, or refuses it; it never yields NULL. */
  type Parser = (string, string) -> Option<Value>

  /** A param's sole value, if it is present. */
  function Single(q: Query, key: string): Option<string> {
    if key !in q || |q[key]| == 0 then None else Some(q[key][0])
  }

  /** The raw text of a present param. */
  function RawOf(q: Query, key: string): string {
    if Single(q, key).Some? then Single(q, key).value else ""
  }

  function ParseParam(parse: Parser, param: string, pgType: string, raw: string): Result<Value, Fault> {
    match parse(pgType, raw)
    case None => Err(Unparsable(param))
    case Some(v) => Ok(v)
  }

  // ---------------------------------------------------------- known, single params

  ghost function Offenders(q: Query, allowed: set<string>): set<string> {
    set k | k in q && (k !in allowed || |q[k]| > 1)
  }

  /** The complaint about the least offending param. */
  ghost function FirstOffence(q: Query, allowed: set<string>): Option<Fault> {
    if Offenders(q, allowed) == {} then None
    else
      BeforeIsStrictTotal();
      var k := Least(Before, Offenders(q, allowed));
      Some(if k !in allowed then UnknownParam(k) else RepeatedParam(k))
  }

  predicate Offends(q: Query, allowed: set<string>, k: string)
    requires k in q
  {
    k !in allowed || |q[k]| > 1
  }

  ghost predicate CleanBefore(q: Query, allowed: set<string>, keys: seq<string>, n: nat)
    requires n <= |keys|
  {
    forall j :: 0 <= j < n ==> keys[j] in q && !Offends(q, allowed, keys[j])
  }

  lemma OffenceAt(q: Query, allowed: set<string>, keys: seq<string>, i: nat)
    requires keys == SortedNames(q.Keys) && i < |keys| && keys[i] in q && Offends(q, allowed, keys[i])
    requires CleanBefore(q, allowed, keys, i)
    ensures FirstOffence(q, allowed)
             == Some(if keys[i] !in allowed then UnknownParam(keys[i]) else RepeatedParam(keys[i]))
  {
    BeforeIsStrictTotal();
    FirstIsLeast(Before, keys, Offenders(q, allowed), i);
    LeastIsUnique(Before, Offenders(q, allowed), keys[i], Least(Before, Offenders(q, allowed)));
  }

  lemma NoOffence(q: Query, allowed: set<string>, keys: seq<string>)
    requires keys == SortedNames(q.Keys) && CleanBefore(q, allowed, keys, |keys|)
    ensures FirstOffence(q, allowed) == None
  {
    forall k | k in q ensures k !in Offenders(q, allowed) {
      assert k in Elements(keys);
      var j :| 0 <= j < |keys| && keys[j] == k;
    }
    assert Offenders(q, allowed) == {};
  }

  lemma SortedNameIn(s: set<string>, i: nat)
    requires i < |SortedNames(s)|
    ensures SortedNames(s)[i] in s
  {
    assert SortedNames(s)[i] in Elements(SortedNames(s));
  }

  /** The first offending key, if any. */
  method FindOffence(q: Query, allowed: set<string>, keys: seq<string>) returns (i: nat)
    requires forall j :: 0 <= j < |keys| ==> keys[j] in q
    ensures i <= |keys| && CleanBefore(q, allowed, keys, i)
    ensures i < |keys| ==> Offends(q, allowed, keys[i])
  {
    i := 0;
    while i < |keys| && !Offends(q, allowed, keys[i])
      invariant i <= |keys| && CleanBefore(q, allowed, keys, i)
    {
      i := i + 1;
    }
  }

  /** Refuses an unknown or repeated param, naming the first in sorted order. */
  method CheckKnownSingle(q: Query, allowed: set<string>) returns (fault: Option<Fault>)
    ensures fault == FirstOffence(q, allowed)
  {
    var keys := SortedKeys(q.Keys);
    forall j | 0 <= j < |keys| ensures keys[j] in q { SortedNameIn(q.Keys, j); }
    var i := FindOffence(q, allowed, keys);
    if i == |keys| {
      NoOffence(q, allowed, keys);
      return None;
    }
    OffenceAt(q, allowed, keys, i);
    return Some(if keys[i] !in allowed then UnknownParam(keys[i]) else RepeatedParam(keys[i]));
  }

  // ------------------------------------------------------------- the data grammar

  const FROM := "_from"
  const TO := "_to"

  predicate EndsWith(s: string, suffix: string) {
    |suffix| <= |s| && s[|s| - |suffix|..] == suffix
  }

  /** The column and bound a range param's name spells. */
  function RefOf(p: string): (string, Op) {
    if EndsWith(p, FROM) then (p[..|p| - 5], Gte)
    else if EndsWith(p, TO) then (p[..|p| - 3], Lte)
    else (p, Eq)
  }

  function EqRef(p: string): (string, Op) {
    (p, Eq)
  }

  /** The params that spell a range over one of the columns; SuffixedHolds says which. */
  ghost function Suffixed(columns: set<string>): set<string> {
    if columns == {} then {}
    else
      var f :| f in columns;
      {f + FROM, f + TO} + Suffixed(columns - {f})
  }

  lemma SuffixedHolds(columns: set<string>, p: string)
    ensures p in Suffixed(columns) <==> exists f :: f in columns && (p == f + FROM || p == f + TO)
  {
    if columns != {} {
      var f :| f in columns && Suffixed(columns) == {f + FROM, f + TO} + Suffixed(columns - {f});
      SuffixedHolds(columns - {f}, p);
      assert forall g :: g in columns <==> g == f || g in columns - {f};
    }
  }

  /** A declared column's name wins over a range param spelled the same. */
  ghost function RangeParams(fields: Fields): set<string> {
    Suffixed(fields.Keys) - fields.Keys
  }

  ghost function Allowed(fields: Fields): set<string> {
    {"after", "limit"} + fields.Keys + RangeParams(fields)
  }

  lemma RefOfSuffixed(f: string)
    ensures RefOf(f + FROM) == (f, Gte) && RefOf(f + TO) == (f, Lte)
  {
    assert (f + FROM)[|f|..] == FROM && (f + FROM)[..|f|] == f;
    assert (f + TO)[|f|..] == TO && (f + TO)[..|f|] == f;
    assert |f + TO| >= 5 ==> (f + TO)[|f + TO| - 5..][4] == 'o';
    assert FROM[4] == 'm';
  }

  lemma RangeParamSpells(fields: Fields, p: string)
    requires p in RangeParams(fields)
    ensures RefOf(p).0 in fields && (RefOf(p).1 == Gte || RefOf(p).1 == Lte)
    ensures p == RefOf(p).0 + (if RefOf(p).1 == Gte then FROM else TO)
  {
    SuffixedHolds(fields.Keys, p);
    var f :| f in fields && (p == f + FROM || p == f + TO);
    RefOfSuffixed(f);
  }

  /** The present params of a set, in sorted order. */
  ghost function Present(params: set<string>, q: Query): seq<string> {
    SortedNames(params * q.Keys)
  }

  method PresentParams(params: set<string>, q: Query) returns (out: seq<string>)
    ensures out == Present(params, q)
  {
    var walk := WalkKeys(params);
    out := [];
    for i := 0 to |walk|
      invariant Distinct(out) && Elements(out) == Elements(walk[..i]) * q.Keys
    {
      ElementsOneMore(walk, i);
      assert walk[i] !in walk[..i];
      if walk[i] in q {
        assert Elements(out + [walk[i]]) == Elements(out) + {walk[i]};
        assert walk[i] !in Elements(out);
        out := out + [walk[i]];
      }
    }
    assert walk[..|walk|] == walk;
    SortedStrings(out);
    out := Sort(Before, out);
  }

  /** One predicate per param, in order; the first value that does not parse is
      refused by its param's name. */
  function Bound(params: seq<string>, ref: string -> (string, Op), fields: Fields, q: Query,
                 parse: Parser): Result<seq<Predicate>, Fault> {
    if params == [] then Ok([])
    else
      var p := params[|params| - 1];
      match Bound(params[..|params| - 1], ref, fields, q, parse)
      case Err(e) => Err(e)
      case Ok(preds) =>
        match ParseParam(parse, p, TypeOf(fields, ref(p).0), RawOf(q, p))
        case Err(e) => Err(e)
        case Ok(v) => Ok(preds + [Predicate(ref(p).0, ref(p).1, v)])
  }

  /** A Go map read: the empty type for an undeclared column. */
  function TypeOf(fields: Fields, column: string): string {
    if column in fields then fields[column] else ""
  }

  lemma BoundErrStays(params: seq<string>, i: nat, ref: string -> (string, Op), fields: Fields, q: Query, parse: Parser)
    requires i <= |params| && Bound(params[..i], ref, fields, q, parse).Err?
    ensures Bound(params, ref, fields, q, parse) == Bound(params[..i], ref, fields, q, parse)
    decreases |params|
  {
    if i == |params| {
      assert params[..i] == params;
    } else {
      var init := params[..|params| - 1];
      assert init[..i] == params[..i];
      BoundErrStays(init, i, ref, fields, q, parse);
    }
  }

  method BindParams(params: seq<string>, ref: string -> (string, Op), fields: Fields, q: Query, parse: Parser)
    returns (r: Result<seq<Predicate>, Fault>)
    ensures r == Bound(params, ref, fields, q, parse)
  {
    var preds: seq<Predicate> := [];
    for i := 0 to |params|
      invariant Bound(params[..i], ref, fields, q, parse) == Ok(preds)
    {
      var p := params[i];
      assert params[..i + 1][..i] == params[..i];
      var v := ParseParam(parse, p, TypeOf(fields, ref(p).0), RawOf(q, p));
      if v.Err? {
        BoundErrStays(params, i + 1, ref, fields, q, parse);
        return Err(v.error);
      }
      preds := preds + [Predicate(ref(p).0, ref(p).1, v.value)];
    }
    assert params[..|params|] == params;
    return Ok(preds);
  }

  /** Absent, the default; present, an integer from 1 to the cap. */
  function ResolveLimit(q: Query): (r: Result<int, Fault>)
    ensures r.Ok? ==> 1 <= r.value <= MAX_LIMIT
  {
    match Single(q, "limit")
    case None => Ok(DEFAULT_LIMIT)
    case Some(raw) =>
      match ParseInt(TrimSpace(raw))
      case None => Err(LimitNotInteger)
      case Some(n) => if n < 1 then Err(LimitNotPositive) else if n > MAX_LIMIT then Err(LimitOverMax) else Ok(n)
  }

  /** A cursor value parses per the sole key column's type. */
  function ParseCursorValue(key: CursorKey, fields: Fields, param: string, raw: string, parse: Parser): Result<Value,
                            Fault> {
    if |key.columns| != 1 then Err(CompositeCursor(param))
    else if key.columns[0] !in fields then Err(KeyUntyped(key.columns[0]))
    else ParseParam(parse, param, fields[key.columns[0]], raw)
  }

  /** Ascending beyond after=, or descending below before=; never both. */
  function PlanCursor(key: CursorKey, fields: Fields, q: Query, limit: int, parse: Parser): Result<CursorPlan, Fault> {
    match (Single(q, "after"), Single(q, "before"))
    case (Some(_), Some(_)) => Err(AfterAndBefore)
    case (Some(raw), None) =>
      (match ParseCursorValue(key, fields, "after", raw, parse)
       case Err(e) => Err(e)
       case Ok(v) => Ok(CursorPlan(key, false, Some(CursorBound(Gt, v)), limit)))
    case (None, Some(raw)) =>
      (match ParseCursorValue(key, fields, "before", raw, parse)
       case Err(e) => Err(e)
       case Ok(v) => Ok(CursorPlan(key, true, Some(CursorBound(Lt, v)), limit)))
    case (None, None) => Ok(CursorPlan(key, false, None, limit))
  }

  function DataCursorKey(primaryKey: seq<string>): CursorKey {
    CursorKey(primaryKey, false)
  }

  /** PlanDataQuery's answer, whatever order the maps are walked in. */
  ghost function PlanData(primaryKey: seq<string>, fields: Fields, q: Query, parse: Parser): Result<QueryPlan, Fault> {
    match FirstOffence(q, Allowed(fields))
    case Some(f) => Err(f)
    case None =>
      match Bound(Present(fields.Keys, q), EqRef, fields, q, parse)
      case Err(e) => Err(e)
      case Ok(eqs) =>
        match Bound(Present(RangeParams(fields), q), RefOf, fields, q, parse)
        case Err(e) => Err(e)
        case Ok(ranges) =>
          match ResolveLimit(q)
          case Err(e) => Err(e)
          case Ok(limit) =>
            match PlanCursor(DataCursorKey(primaryKey), fields, q, limit, parse)
            case Err(e) => Err(e)
            case Ok(cursor) => Ok(QueryPlan(eqs + ranges, cursor))
  }

  lemma SuffixedOneMore(columns: set<string>, f: string)
    ensures Suffixed(columns + {f}) == Suffixed(columns) + {f + FROM, f + TO}
  {
    forall p ensures p in Suffixed(columns + {f}) <==> p in Suffixed(columns) + {f + FROM, f + TO} {
      SuffixedHolds(columns + {f}, p);
      SuffixedHolds(columns, p);
    }
  }

  /** The range params of the columns walked so far. */
  ghost predicate RangesOver(ranges: map<string, (string, Op)>, fields: Fields, columns: set<string>) {
    ranges.Keys == Suffixed(columns) - fields.Keys && forall p :: p in ranges ==> ranges[p] == RefOf(p)
  }

  lemma RangesGrow(ranges: map<string, (string, Op)>, fields: Fields, columns: set<string>, f: string, from: string,
                   upTo: string)
    requires RangesOver(ranges, fields, columns) && from == f + FROM && upTo == f + TO
    ensures var more := if from in fields then ranges else ranges[from := (f, Gte)];
            RangesOver(if upTo in fields then more else more[upTo := (f, Lte)], fields, columns + {f})
  {
    RefOfSuffixed(f);
    SuffixedOneMore(columns, f);
  }

  /** The range params, built column by column. */
  method BuildRanges(fields: Fields) returns (ranges: map<string, (string, Op)>)
    ensures ranges.Keys == RangeParams(fields)
    ensures forall p :: p in ranges ==> ranges[p] == RefOf(p)
  {
    ranges := map[];
    var walk := WalkKeys(fields.Keys);
    for i := 0 to |walk|
      invariant RangesOver(ranges, fields, Elements(walk[..i]))
    {
      var f := walk[i];
      ElementsOneMore(walk, i);
      RangesGrow(ranges, fields, Elements(walk[..i]), f, f + FROM, f + TO);
      if f + FROM !in fields { ranges := ranges[f + FROM := (f, Gte)]; }
      if f + TO !in fields { ranges := ranges[f + TO := (f, Lte)]; }
    }
    assert walk[..|walk|] == walk;
  }

  /** Resolves a /data request: every declared column takes an equality and an
      inclusive range filter, paged by the primary key. */
  method PlanDataQuery(primaryKey: seq<string>, fields: Fields, q: Query, parse: Parser)
    returns (r: Result<QueryPlan, Fault>)
    ensures r == PlanData(primaryKey, fields, q, parse)
  {
    var ranges := BuildRanges(fields);
    var allowed := {"after", "limit"} + fields.Keys + ranges.Keys;
    var fault := CheckKnownSingle(q, allowed);
    if fault.Some? { return Err(fault.value); }
    var eqParams := PresentParams(fields.Keys, q);
    var eqs := BindParams(eqParams, EqRef, fields, q, parse);
    if eqs.Err? { return Err(eqs.error); }
    var rangeParams := PresentParams(ranges.Keys, q);
    var bounds := BindParams(rangeParams, RefOf, fields, q, parse);
    if bounds.Err? { return Err(bounds.error); }
    var limit := ResolveLimit(q);
    if limit.Err? { return Err(limit.error); }
    var cursor := PlanCursor(DataCursorKey(primaryKey), fields, q, limit.value, parse);
    if cursor.Err? { return Err(cursor.error); }
    return Ok(QueryPlan(eqs.value + bounds.value, cursor.value));
  }

  // ---------------------------------------------------------- what a plan says

  /** Predicate pred is what param p asks for. */
  ghost predicate Asks(p: string, ref: string -> (string, Op), fields: Fields, q: Query, parse: Parser,
                       pred: Predicate) {
    pred.column == ref(p).0 && pred.op == ref(p).1
    && parse(TypeOf(fields, pred.column), RawOf(q, p)) == Some(pred.value)
  }

  lemma {:induction false} BoundAsks(params: seq<string>, ref: string -> (string, Op), fields: Fields, q: Query,
                                     parse: Parser)
    requires Bound(params, ref, fields, q, parse).Ok?
    ensures var preds := Bound(params, ref, fields, q, parse).value;
            |preds| == |params| && forall i :: 0 <= i < |params| ==> Asks(params[i], ref, fields, q, parse, preds[i])
  {
    if params != [] { BoundAsks(params[..|params| - 1], ref, fields, q, parse); }
  }

  ghost function ParamCount(fields: Fields, q: Query): nat {
    |Present(fields.Keys, q)| + |Present(RangeParams(fields), q)|
  }

  /** The param predicate i answers: the equalities by column, then the ranges by
      param. */
  ghost function ParamAt(fields: Fields, q: Query, i: nat): string
    requires i < ParamCount(fields, q)
  {
    var eqs := Present(fields.Keys, q);
    if i < |eqs| then eqs[i] else Present(RangeParams(fields), q)[i - |eqs|]
  }

  ghost predicate IsEquality(fields: Fields, q: Query, i: nat) {
    i < |Present(fields.Keys, q)|
  }

  /** Predicate i is what its param asks for. */
  ghost predicate AskedAt(fields: Fields, q: Query, parse: Parser, preds: seq<Predicate>, i: nat)
    requires i < |preds| == ParamCount(fields, q)
  {
    if IsEquality(fields, q, i)
    then Asks(ParamAt(fields, q, i), EqRef, fields, q, parse, preds[i])
    else Asks(ParamAt(fields, q, i), RefOf, fields, q, parse, preds[i])
  }

  /** preds is what the present params ask for, each with the value its param
      parses to. */
  ghost predicate Filters(fields: Fields, q: Query, parse: Parser, preds: seq<Predicate>) {
    && |preds| == ParamCount(fields, q)
    && forall i: nat {:trigger AskedAt(fields, q, parse, preds, i)} :: i < |preds| ==>
         AskedAt(fields, q, parse, preds, i)
  }

  lemma BoundsFilter(fields: Fields, q: Query, parse: Parser, eqs: seq<Predicate>, ranges: seq<Predicate>)
    requires Bound(Present(fields.Keys, q), EqRef, fields, q, parse) == Ok(eqs)
    requires Bound(Present(RangeParams(fields), q), RefOf, fields, q, parse) == Ok(ranges)
    ensures Filters(fields, q, parse, eqs + ranges)
  {
    var a, b, preds := Present(fields.Keys, q), Present(RangeParams(fields), q), eqs + ranges;
    BoundAsks(a, EqRef, fields, q, parse);
    BoundAsks(b, RefOf, fields, q, parse);
    forall i: nat | i < |preds| ensures AskedAt(fields, q, parse, preds, i) {
      if i < |a| {
        assert preds[i] == eqs[i] && ParamAt(fields, q, i) == a[i];
      } else {
        assert preds[i] == ranges[i - |a|] && ParamAt(fields, q, i) == b[i - |a|];
      }
    }
  }

  /** An accepted plan is exactly the request: known single params only, and the
      predicates they ask for. */
  lemma PlanIsTheRequest(primaryKey: seq<string>, fields: Fields, q: Query, parse: Parser)
    requires PlanData(primaryKey, fields, q, parse).Ok?
    ensures forall k :: k in q ==> k in Allowed(fields) && |q[k]| <= 1
    ensures Filters(fields, q, parse, PlanData(primaryKey, fields, q, parse).value.predicates)
  {
    NoOffenceMeansKnown(q, Allowed(fields));
    var eqs := Bound(Present(fields.Keys, q), EqRef, fields, q, parse);
    var ranges := Bound(Present(RangeParams(fields), q), RefOf, fields, q, parse);
    BoundsFilter(fields, q, parse, eqs.value, ranges.value);
  }

  lemma NoOffenceMeansKnown(q: Query, allowed: set<string>)
    requires FirstOffence(q, allowed) == None
    ensures forall k :: k in q ==> k in allowed && |q[k]| <= 1
  {
    forall k | k in q ensures k in allowed && |q[k]| <= 1 { assert k !in Offenders(q, allowed); }
  }

  lemma PresentIsIn(params: set<string>, q: Query, i: nat)
    requires i < |Present(params, q)|
    ensures Present(params, q)[i] in params && Present(params, q)[i] in q
  {
    assert Present(params, q)[i] in Elements(Present(params, q));
  }

  /** Where a predicate comes from: an equality from its column's own param; a bound
      from a range param no declared column takes. */
  lemma PredicateOrigin(fields: Fields, q: Query, parse: Parser, preds: seq<Predicate>, i: nat)
    requires Filters(fields, q, parse, preds) && i < |preds|
    ensures preds[i].column in fields && ParamAt(fields, q, i) in q
    ensures IsEquality(fields, q, i) ==> preds[i].op == Eq && ParamAt(fields, q, i) == preds[i].column
    ensures !IsEquality(fields, q, i) ==>
              && (preds[i].op == Gte || preds[i].op == Lte) && ParamAt(fields, q, i) !in fields
              && ParamAt(fields, q, i) == preds[i].column + (if preds[i].op == Gte then FROM else TO)
  {
    assert AskedAt(fields, q, parse, preds, i);
    if IsEquality(fields, q, i) {
      PresentIsIn(fields.Keys, q, i);
    } else {
      PresentIsIn(RangeParams(fields), q, i - |Present(fields.Keys, q)|);
      RangeParamSpells(fields, ParamAt(fields, q, i));
    }
  }

  lemma ParamsDiffer(fields: Fields, q: Query, i: nat, j: nat)
    requires i < j < ParamCount(fields, q) && (IsEquality(fields, q, i) <==> IsEquality(fields, q, j))
    ensures ParamAt(fields, q, i) != ParamAt(fields, q, j)
  {
    BeforeIsStrictTotal();
  }

  /** No two predicates of a plan share a column and an operator. */
  lemma NoTwoPredicatesAlike(fields: Fields, q: Query, parse: Parser, preds: seq<Predicate>, i: nat, j: nat)
    requires Filters(fields, q, parse, preds) && i < j < |preds|
    ensures preds[i].column != preds[j].column || preds[i].op != preds[j].op
  {
    PredicateOrigin(fields, q, parse, preds, i);
    PredicateOrigin(fields, q, parse, preds, j);
    if IsEquality(fields, q, i) <==> IsEquality(fields, q, j) { ParamsDiffer(fields, q, i, j); }
  }

  /** A refusal of an unknown or repeated param names the least offender. */
  lemma RefusalNamesTheLeast(primaryKey: seq<string>, fields: Fields, q: Query, parse: Parser)
    requires Offenders(q, Allowed(fields)) != {}
    ensures exists k :: IsLeast(Before, Offenders(q, Allowed(fields)), k)
              && PlanData(primaryKey, fields, q, parse)
                  == Err(if k in Allowed(fields) then RepeatedParam(k) else UnknownParam(k))
  {
    BeforeIsStrictTotal();
    var k := Least(Before, Offenders(q, Allowed(fields)));
  }
}
