/** topoMembers of internal/catalog/order.go: Kahn's algorithm over in-pack
    depends_on, the ready set ordered by lane, composer position, then name. */
module PackTopo {
  import opened Results
  import opened Ordering
  import opened Joining

  /** One parsed pack pipeline. */
  datatype Member = Member(name: string, path: string, lane: string, deps: seq<string>)

  /** One lane: its composer's path ("" for none), the composer's member order,
      and the members seen. */
  datatype Lane = Lane(composer: string, order: seq<string>, members: seq<string>)

  type Members = map<string, Member>
  type Lanes = map<string, Lane>

  // ---------------------------------------------------------------- the order

  datatype Rank = Rank(lane: string, pos: int, name: string)

  predicate RankBefore(a: Rank, b: Rank) {
    if a.lane != b.lane then Before(a.lane, b.lane)
    else if a.pos != b.pos then a.pos < b.pos
    else Before(a.name, b.name)
  }

  /** The position the composer gives a name: the last one when it is repeated,
      0 (Go's zero value) when the name or the lane is absent. */
  function Position(lanes: Lanes, lane: string, name: string): nat {
    if lane in lanes then LastIndex(lanes[lane].order, name) else 0
  }

  function LastIndex(order: seq<string>, name: string): nat {
    if order == [] then 0
    else if order[|order| - 1] == name then |order| - 1
    else LastIndex(order[..|order| - 1], name)
  }

  function RankOf(members: Members, lanes: Lanes, name: string): Rank {
    if name in members
    then Rank(members[name].lane, Position(lanes, members[name].lane, name), name)
    else Rank("", 0, name)
  }

  function MemberLess(members: Members, lanes: Lanes): (string, string) -> bool {
    (a, b) => RankBefore(RankOf(members, lanes, a), RankOf(members, lanes, b))
  }

  lemma MemberLessIsStrictTotal(members: Members, lanes: Lanes)
    ensures StrictTotal(MemberLess(members, lanes))
  {
    BeforeIsStrictTotal();
    var less := MemberLess(members, lanes);
    forall a, b, c | less(a, b) && less(b, c) ensures less(a, c) {
      var x, y, z := RankOf(members, lanes, a), RankOf(members, lanes, b), RankOf(members, lanes, c);
      assert Before(x.lane, y.lane) && Before(y.lane, z.lane) ==> Before(x.lane, z.lane);
    }
    forall a, b: string | a != b ensures less(a, b) || less(b, a) {
      var x, y := RankOf(members, lanes, a), RankOf(members, lanes, b);
      assert x.name == a && y.name == b;
    }
  }

  // ---------------------------------------------------- dependencies and walks

  /** The dependencies of n the pack itself carries. */
  function InPackDeps(members: Members, n: string): set<string>
    requires n in members
  {
    set d | d in members[n].deps && d in members
  }

  ghost function Ready(members: Members, emitted: set<string>): set<string> {
    set n | n in members && n !in emitted && InPackDeps(members, n) <= emitted
  }

  /** p follows in-pack dependencies from dependent to dependency. */
  ghost predicate Walk(members: Members, p: seq<string>) {
    && p != []
    && (forall i :: 0 <= i < |p| ==> p[i] in members)
    && (forall i, j :: 0 <= i && j == i + 1 && j < |p| ==> p[j] in InPackDeps(members, p[i]))
  }

  ghost predicate Cycle(members: Members, p: seq<string>) {
    Walk(members, p) && |p| >= 2 && p[0] == p[|p| - 1]
  }

  /** From n a walk along dependencies enters a cycle. */
  ghost predicate ReachesCycle(members: Members, n: string) {
    exists p, i :: Lasso(members, n, p, i)
  }

  ghost predicate Lasso(members: Members, n: string, p: seq<string>, i: int) {
    Walk(members, p) && p[0] == n && 0 <= i < |p| - 1 && p[i] == p[|p| - 1]
  }

  lemma WalkCons(members: Members, n: string, q: seq<string>)
    requires n in members && Walk(members, q) && q[0] in InPackDeps(members, n)
    ensures Walk(members, [n] + q)
  {
    var p := [n] + q;
    forall i, j | 0 <= i && j == i + 1 && j < |p| ensures p[j] in InPackDeps(members, p[i]) {
      if i > 0 { assert p[i] == q[i - 1] && p[j] == q[i]; }
    }
  }

  lemma WalkSlice(members: Members, p: seq<string>, lo: int, hi: int)
    requires Walk(members, p) && 0 <= lo < hi <= |p|
    ensures Walk(members, p[lo..hi])
  {
    var q := p[lo..hi];
    forall i, j | 0 <= i && j == i + 1 && j < |q| ensures q[j] in InPackDeps(members, q[i]) {
      assert q[i] == p[lo + i] && q[j] == p[lo + j];
    }
  }

  // -------------------------------------------------------------- what it emits

  /** The sequence emitted once `emitted` are out: always the least ready member. */
  ghost function Emission(members: Members, lanes: Lanes, emitted: set<string>): seq<string>
    decreases |members.Keys - emitted|
  {
    var ready := Ready(members, emitted);
    if ready == {} then []
    else
      MemberLessIsStrictTotal(members, lanes);
      var n := Least(MemberLess(members, lanes), ready);
      assert members.Keys - (emitted + {n}) == (members.Keys - emitted) - {n};
      [n] + Emission(members, lanes, emitted + {n})
  }

  ghost function Emitted(members: Members, lanes: Lanes): seq<string> {
    Emission(members, lanes, {})
  }

  ghost function Stuck(members: Members, lanes: Lanes): set<string> {
    members.Keys - Elements(Emitted(members, lanes))
  }

  /** topoMembers' answer: the order, or the names left on a cycle. */
  ghost function TopoAnswer(members: Members, lanes: Lanes): Result<seq<string>, seq<string>> {
    if Stuck(members, lanes) == {} then Ok(Emitted(members, lanes))
    else Err(SortedNames(Stuck(members, lanes)))
  }

  /** n is the least of the members ready once `emitted` are out. */
  ghost predicate Next(members: Members, lanes: Lanes, emitted: set<string>, n: string) {
    IsLeast(MemberLess(members, lanes), Ready(members, emitted), n)
  }

  /** s takes the least ready member at each step and stops when none is ready. */
  ghost predicate Greedy(members: Members, lanes: Lanes, s: seq<string>) {
    && (forall i :: 0 <= i < |s| ==> Next(members, lanes, Elements(s[..i]), s[i]))
    && Ready(members, Elements(s)) == {}
  }

  lemma EmissionAt(members: Members, lanes: Lanes, emitted: set<string>, i: nat)
    requires i <= |Emission(members, lanes, emitted)|
    ensures var s := Emission(members, lanes, emitted);
            var before := emitted + Elements(s[..i]);
            if i < |s| then Next(members, lanes, before, s[i]) else Ready(members, before) == {}
    decreases i
  {
    var s := Emission(members, lanes, emitted);
    if i == 0 {
      assert emitted + Elements(s[..0]) == emitted;
      MemberLessIsStrictTotal(members, lanes);
    } else {
      var n := s[0];
      assert s[1..] == Emission(members, lanes, emitted + {n});
      EmissionAt(members, lanes, emitted + {n}, i - 1);
      assert s[..i] == [n] + s[1..][..i - 1];
      assert emitted + {n} + Elements(s[1..][..i - 1]) == emitted + Elements(s[..i]);
    }
  }

  lemma EmittedIsGreedy(members: Members, lanes: Lanes)
    ensures Greedy(members, lanes, Emitted(members, lanes))
  {
    var s := Emitted(members, lanes);
    forall i: nat | i <= |s|
      ensures if i < |s| then Next(members, lanes, Elements(s[..i]), s[i]) else Ready(members, Elements(s)) == {}
    {
      EmissionAt(members, lanes, {}, i);
      assert {} + Elements(s[..i]) == Elements(s[..i]);
      assert s[..|s|] == s;
    }
    EmissionAt(members, lanes, {}, |s|);
    assert s[..|s|] == s && {} + Elements(s) == Elements(s);
  }

  lemma NextIsUnique(members: Members, lanes: Lanes, emitted: set<string>, m: string, n: string)
    requires Next(members, lanes, emitted, m) && Next(members, lanes, emitted, n)
    ensures m == n
  {
    MemberLessIsStrictTotal(members, lanes);
  }

  lemma GreedyAgree(members: Members, lanes: Lanes, s: seq<string>, t: seq<string>, i: nat)
    requires Greedy(members, lanes, s) && Greedy(members, lanes, t)
    requires i <= |s|
    ensures i <= |t| && s[..i] == t[..i]
  {
    if i > 0 {
      var k := i - 1;
      GreedyAgree(members, lanes, s, t, k);
      assert Next(members, lanes, Elements(s[..k]), s[k]);
      assert t[..|t|] == t;
      if |t| == k { assert false; }
      NextIsUnique(members, lanes, Elements(s[..k]), s[k], t[k]);
      assert s[..i] == s[..k] + [s[k]] && t[..i] == t[..k] + [t[k]];
    }
  }

  /** The emitted sequence is greedy, and no other sequence is: the answer does
      not depend on the order maps are walked in. */
  lemma EmissionIsTheGreedySequence(members: Members, lanes: Lanes, s: seq<string>)
    ensures Greedy(members, lanes, s) <==> s == Emitted(members, lanes)
  {
    EmittedIsGreedy(members, lanes);
    if Greedy(members, lanes, s) {
      var t := Emitted(members, lanes);
      GreedyAgree(members, lanes, s, t, |s|);
      GreedyAgree(members, lanes, t, s, |t|);
    }
  }

  /** Every emitted member comes after all its in-pack dependencies. */
  lemma EmissionStep(members: Members, lanes: Lanes, i: int)
    requires 0 <= i < |Emitted(members, lanes)|
    ensures var s := Emitted(members, lanes);
            Next(members, lanes, Elements(s[..i]), s[i])
            && s[i] in members && InPackDeps(members, s[i]) <= Elements(s[..i]) && s[i] !in s[..i]
  {
    var s := Emitted(members, lanes);
    EmittedIsGreedy(members, lanes);
  }

  /** On success the order is a permutation of the members with every in-pack
      dependency before its dependent. */
  lemma SuccessIsATopologicalPermutation(members: Members, lanes: Lanes)
    requires TopoAnswer(members, lanes).Ok?
    ensures var s := TopoAnswer(members, lanes).value;
            Distinct(s) && Elements(s) == members.Keys
            && forall i, d :: 0 <= i < |s| && d in InPackDeps(members, s[i]) ==> d in s[..i]
  {
    var s := Emitted(members, lanes);
    forall i | 0 <= i < |s|
      ensures s[i] in members && InPackDeps(members, s[i]) <= Elements(s[..i]) && s[i] !in s[..i]
    {
      EmissionStep(members, lanes, i);
    }
    forall i, j | 0 <= i < j < |s| ensures s[i] != s[j] {
      assert s[i] in s[..j];
    }
    forall n ensures n in Elements(s) <==> n in members {
      assert n in members ==> n !in Stuck(members, lanes);
    }
  }

  /** Two members of one lane come out against composer order only if the
      earlier-ordered one still waited for a dependency. */
  lemma OutOfComposerOrderMeansBlocked(members: Members, lanes: Lanes, i: int, j: int)
    requires 0 <= i < j < |Emitted(members, lanes)|
    requires var s := Emitted(members, lanes);
             s[i] in members && s[j] in members && members[s[i]].lane == members[s[j]].lane
             && Position(lanes, members[s[j]].lane, s[j]) < Position(lanes, members[s[i]].lane, s[i])
    ensures var s := Emitted(members, lanes);
            exists d :: d in InPackDeps(members, s[j]) && d !in s[..i]
  {
    var s := Emitted(members, lanes);
    EmissionStep(members, lanes, i);
    EmissionStep(members, lanes, j);
    assert s[j] !in s[..i] by { assert forall k :: 0 <= k < i ==> s[k] in s[..j]; }
    assert !MemberLess(members, lanes)(s[i], s[j]);
    assert s[i] != s[j] by { assert s[i] in s[..j]; }
    assert s[j] !in Ready(members, Elements(s[..i]));
  }

  lemma LaterMeansBlocked(members: Members, lanes: Lanes, i: int, j: int)
    requires 0 <= i < j < |Emitted(members, lanes)|
    requires var s := Emitted(members, lanes);
             s[i] in members && s[j] in members && MemberLess(members, lanes)(s[j], s[i])
    ensures var s := Emitted(members, lanes);
            exists d :: d in InPackDeps(members, s[j]) && d !in s[..i]
  {
    var s := Emitted(members, lanes);
    EmissionStep(members, lanes, i);
    EmissionStep(members, lanes, j);
    assert s[j] !in s[..i] by { assert forall k :: 0 <= k < i ==> s[k] in s[..j]; }
    MemberLessIsStrictTotal(members, lanes);
    assert s[i] != s[j] by { assert s[i] in s[..j]; }
    assert s[j] !in Ready(members, Elements(s[..i]));
  }

  /** The ranking in full: by lane, then composer position, then name. */
  lemma RankedByLanePositionName(members: Members, lanes: Lanes, a: string, b: string)
    requires a in members && b in members
    ensures MemberLess(members, lanes)(a, b) <==>
      var l, m := members[a].lane, members[b].lane;
      if l != m then exists k :: DiffersAt(l, m, k)
      else if Position(lanes, l, a) != Position(lanes, m, b) then Position(lanes, l, a) < Position(lanes, m, b)
      else exists k :: DiffersAt(a, b, k)
  {
    BeforeIsTextOrder(members[a].lane, members[b].lane);
    BeforeIsTextOrder(a, b);
  }

  /** A member that ranks earlier comes out later only if it still waited. */
  lemma OutOfRankMeansBlocked(members: Members, lanes: Lanes, i: int, j: int)
    requires 0 <= i < j < |Emitted(members, lanes)|
    requires var s := Emitted(members, lanes);
             && s[i] in members && s[j] in members
             && var late, soon := members[s[j]].lane, members[s[i]].lane;
                || Before(late, soon)
                || (late == soon && Position(lanes, late, s[j]) < Position(lanes, soon, s[i]))
                || (late == soon && Position(lanes, late, s[j]) == Position(lanes, soon, s[i]) && Before(s[j], s[i]))
    ensures var s := Emitted(members, lanes);
            exists d :: d in InPackDeps(members, s[j]) && d !in s[..i]
  {
    var s := Emitted(members, lanes);
    BeforeIrreflexive(members[s[i]].lane);
    LaterMeansBlocked(members, lanes, i, j);
  }

  // ------------------------------------------------------ refused means cyclic

  lemma WalkStaysEmitted(members: Members, lanes: Lanes, p: seq<string>, i: int, j: int) returns (a: int, b: int)
    requires Walk(members, p) && 0 <= i < j < |p|
    requires p[0] in Emitted(members, lanes)
    ensures var s := Emitted(members, lanes);
            0 <= b < a < |s| && s[a] == p[i] && s[b] == p[j]
    decreases j
  {
    var s := Emitted(members, lanes);
    if j - 1 > i {
      var c;
      a, c := WalkStaysEmitted(members, lanes, p, i, j - 1);
      EmissionStep(members, lanes, c);
      b :| 0 <= b < c && s[b] == p[j];
    } else {
      if i == 0 {
        a :| 0 <= a < |s| && s[a] == p[0];
      } else {
        var c;
        c, a := WalkStaysEmitted(members, lanes, p, 0, i);
      }
      EmissionStep(members, lanes, a);
      assert p[j] in InPackDeps(members, p[i]);
      b :| 0 <= b < a && s[b] == p[j];
    }
  }

  lemma EmittedReachesNoCycle(members: Members, lanes: Lanes, n: string)
    requires n in Emitted(members, lanes)
    ensures !ReachesCycle(members, n)
  {
    var s := Emitted(members, lanes);
    forall p, i ensures !Lasso(members, n, p, i) {
      if Lasso(members, n, p, i) {
        var a, b := WalkStaysEmitted(members, lanes, p, i, |p| - 1);
        EmissionStep(members, lanes, a);
        assert false;
      }
    }
  }

  /** A stuck member has a stuck in-pack dependency. */
  lemma StuckHasStuckDep(members: Members, lanes: Lanes, n: string)
    requires n in Stuck(members, lanes)
    ensures exists d :: d in InPackDeps(members, n) && d in Stuck(members, lanes)
  {
    var s := Emitted(members, lanes);
    EmittedIsGreedy(members, lanes);
    assert n !in Ready(members, Elements(s));
  }

  /** Every member of group depends, in the pack, on another member of group. */
  ghost predicate SelfFeeding(members: Members, group: set<string>) {
    group <= members.Keys && forall n {:trigger DependsWithin(members, group, n)} :: n in group ==>
      DependsWithin(members, group, n)
  }

  ghost predicate DependsWithin(members: Members, group: set<string>, n: string)
    requires n in group && group <= members.Keys
  {
    exists d :: d in InPackDeps(members, n) && d in group
  }

  lemma WalkWithin(members: Members, group: set<string>, n: string, k: nat) returns (p: seq<string>)
    requires SelfFeeding(members, group) && n in group
    ensures Walk(members, p) && p[0] == n && |p| == k + 1 && Elements(p) <= group
    decreases k
  {
    if k == 0 {
      p := [n];
    } else {
      assert DependsWithin(members, group, n);
      var d :| d in InPackDeps(members, n) && d in group;
      var q := WalkWithin(members, group, d, k - 1);
      WalkCons(members, n, q);
      p := [n] + q;
      assert Elements(p) == {n} + Elements(q);
    }
  }

  lemma Pigeonhole<T>(s: seq<T>, pool: set<T>)
    requires Elements(s) <= pool && |s| > |pool|
    ensures exists i, j :: 0 <= i < j < |s| && s[i] == s[j]
  {
    var last := s[|s| - 1];
    assert last in Elements(s);
    var init := s[..|s| - 1];
    assert forall x :: x in init ==> x in s;
    if i :| 0 <= i < |init| && init[i] == last {
      assert s[i] == s[|s| - 1];
    } else {
      assert Elements(init) <= pool - {last};
      Pigeonhole(init, pool - {last});
      var i, j :| 0 <= i < j < |init| && init[i] == init[j];
      assert s[i] == s[j];
    }
  }

  lemma SelfFeedingReachesCycle(members: Members, group: set<string>, n: string)
    requires SelfFeeding(members, group) && n in group
    ensures ReachesCycle(members, n)
  {
    var p := WalkWithin(members, group, n, |group|);
    Pigeonhole(p, group);
    var i, j :| 0 <= i < j < |p| && p[i] == p[j];
    var q := p[0..j + 1];
    WalkSlice(members, p, 0, j + 1);
    assert q[0] == n && q[i] == q[|q| - 1];
    assert Lasso(members, n, q, i);
  }

  lemma StuckReachesCycle(members: Members, lanes: Lanes, n: string)
    requires n in Stuck(members, lanes)
    ensures ReachesCycle(members, n)
  {
    var group := Stuck(members, lanes);
    forall m | m in group ensures DependsWithin(members, group, m) {
      StuckHasStuckDep(members, lanes, m);
    }
    SelfFeedingReachesCycle(members, group, n);
  }

  /** The stuck list is exactly the members from which a dependency cycle is
      reachable. */
  lemma StuckExactlyWhenCycleReachable(members: Members, lanes: Lanes, n: string)
    requires n in members
    ensures n in Stuck(members, lanes) <==> ReachesCycle(members, n)
  {
    if n in Stuck(members, lanes) {
      StuckReachesCycle(members, lanes, n);
    } else {
      EmittedReachesNoCycle(members, lanes, n);
    }
  }

  lemma LassoHoldsCycle(members: Members, n: string, p: seq<string>, i: int)
    requires Lasso(members, n, p, i)
    ensures Cycle(members, p[i..|p|])
  {
    WalkSlice(members, p, i, |p|);
  }

  /** A pack is refused exactly when its in-pack depends_on has a cycle. */
  lemma RefusedExactlyWhenCyclic(members: Members, lanes: Lanes)
    ensures TopoAnswer(members, lanes).Err? <==> exists p :: Cycle(members, p)
  {
    var group := Stuck(members, lanes);
    if group != {} {
      var n :| n in group;
      StuckReachesCycle(members, lanes, n);
      var p, i :| Lasso(members, n, p, i);
      LassoHoldsCycle(members, n, p, i);
    }
    forall p | Cycle(members, p) ensures group != {} {
      assert Lasso(members, p[0], p, 0);
      StuckExactlyWhenCycleReachable(members, lanes, p[0]);
    }
  }

  // ------------------------------------------------------------- the algorithm

  /** Unemitted in-pack entries of a depends_on list, repeats counted. */
  ghost function Pending(members: Members, deps: seq<string>, emitted: set<string>): nat {
    if deps == [] then 0
    else
      var d := deps[|deps| - 1];
      Pending(members, deps[..|deps| - 1], emitted) + (if d in members && d !in emitted then 1 else 0)
  }

  lemma PendingZero(members: Members, deps: seq<string>, emitted: set<string>)
    ensures Pending(members, deps, emitted) == 0 <==> forall d :: d in deps && d in members ==> d in emitted
  {
    if deps != [] {
      var init, d := deps[..|deps| - 1], deps[|deps| - 1];
      PendingZero(members, init, emitted);
      assert deps == init + [d];
    }
  }

  lemma PendingAfter(members: Members, deps: seq<string>, emitted: set<string>, n: string)
    requires n in members && n !in emitted
    ensures Pending(members, deps, emitted) == Pending(members, deps, emitted + {n}) + multiset(deps)[n]
  {
    if deps != [] {
      var init, d := deps[..|deps| - 1], deps[|deps| - 1];
      PendingAfter(members, init, emitted, n);
      assert deps == init + [d];
    }
  }

  function Downstream(downstream: map<string, seq<string>>, d: string): seq<string> {
    if d in downstream then downstream[d] else []
  }

  /** indeg and downstream after the members in done were walked. */
  ghost predicate Counted(members: Members, done: set<string>, indeg: map<string, int>,
                          downstream: map<string, seq<string>>) {
    && indeg.Keys == done
    && (forall n :: n in done && n in members ==> indeg[n] == Pending(members, members[n].deps, {}))
    && (forall d, n :: Listed(downstream, d, n)
          == if d in members && n in done && n in members then multiset(members[n].deps)[d] else 0)
  }

  /** How often `name` is listed downstream of d. */
  ghost function Listed(downstream: map<string, seq<string>>, d: string, name: string): nat {
    multiset(Downstream(downstream, d))[name]
  }

  function AddDownstream(downstream: map<string, seq<string>>, dep: string, name: string): map<string, seq<string>> {
    downstream[dep := Downstream(downstream, dep) + [name]]
  }

  lemma AddDownstreamLists(downstream: map<string, seq<string>>, dep: string, name: string, d: string, n: string)
    ensures Listed(AddDownstream(downstream, dep, name), d, n)
         == Listed(downstream, d, n) + (if d == dep && n == name then 1 else 0)
  {}

  /** What walking one member's depends_on adds to the downstream lists. */
  ghost function ListedMore(members: Members, name: string, deps: seq<string>, d: string, n: string): nat {
    if n == name && d in members then multiset(deps)[d] else 0
  }

  lemma ListedOneMore(members: Members, name: string, init: seq<string>, dep: string, before: map<string, seq<string>>,
                      was: map<string, seq<string>>, d: string, n: string)
    requires Listed(was, d, n) == Listed(before, d, n) + ListedMore(members, name, init, d, n)
    ensures Listed(if dep in members then AddDownstream(was, dep, name) else was, d, n)
         == Listed(before, d, n) + ListedMore(members, name, init + [dep], d, n)
  {
    AddDownstreamLists(was, dep, name, d, n);
  }

  /** Walks one member's depends_on: counts its in-pack entries and lists it
      downstream of each. */
  method CountMember(members: Members, name: string, deps: seq<string>, before: map<string, seq<string>>)
    returns (count: int, downstream: map<string, seq<string>>)
    ensures count == Pending(members, deps, {})
    ensures forall d, n :: Listed(downstream, d, n) == Listed(before, d, n) + ListedMore(members, name, deps, d, n)
  {
    count, downstream := 0, before;
    for i := 0 to |deps|
      invariant count == Pending(members, deps[..i], {})
      invariant forall d, n ::
        Listed(downstream, d, n) == Listed(before, d, n) + ListedMore(members, name, deps[..i], d, n)
    {
      var dep := deps[i];
      ghost var was := downstream;
      assert deps[..i + 1] == deps[..i] + [dep];
      assert deps[..i + 1][..i] == deps[..i];
      if dep in members {
        count := count + 1;
        downstream := AddDownstream(downstream, dep, name);
      }
      forall d, n
        ensures Listed(downstream, d, n) == Listed(before, d, n) + ListedMore(members, name, deps[..i + 1], d, n)
      {
        ListedOneMore(members, name, deps[..i], dep, before, was, d, n);
      }
    }
    assert deps[..|deps|] == deps;
  }

  lemma CountedMore(members: Members, done: set<string>, name: string, indeg: map<string, int>,
                    before: map<string, seq<string>>, downstream: map<string, seq<string>>)
    requires Counted(members, done, indeg, before) && name in members && name !in done
    requires forall d, n ::
      Listed(downstream, d, n) == Listed(before, d, n) + ListedMore(members, name, members[name].deps, d, n)
    ensures Counted(members, done + {name}, indeg[name := Pending(members, members[name].deps, {})], downstream)
  {
    forall d, n
      ensures Listed(downstream, d, n)
           == if d in members && n in done + {name} && n in members then multiset(members[n].deps)[d] else 0
    {
      assert Listed(before, d, n)
          == if d in members && n in done && n in members then multiset(members[n].deps)[d] else 0;
    }
  }

  method CountDependencies(members: Members) returns (indeg: map<string, int>, downstream: map<string, seq<string>>)
    ensures Counted(members, members.Keys, indeg, downstream)
  {
    indeg, downstream := map[], map[];
    var walk := WalkKeys(members.Keys);
    for k := 0 to |walk|
      invariant Counted(members, Elements(walk[..k]), indeg, downstream)
    {
      var name := walk[k];
      assert name in Elements(walk) && name !in walk[..k];
      ghost var before := downstream;
      var count;
      count, downstream := CountMember(members, name, members[name].deps, downstream);
      CountedMore(members, Elements(walk[..k]), name, indeg, before, downstream);
      indeg := indeg[name := count];
      ElementsOneMore(walk, k);
    }
    assert walk[..|walk|] == walk;
  }

  /** The key a composer position is stored under. */
  function PositionKey(lane: string, name: string): string {
    lane + ['/'] + name
  }

  /** A Go map read: the zero value for an absent key. */
  function PositionAt(orderPos: map<string, nat>, key: string): nat {
    if key in orderPos then orderPos[key] else 0
  }

  /** No other lane orders a name under this key. */
  ghost predicate Unshared(lanes: Lanes, lane: string, name: string) {
    forall l :: l in lanes && l != lane ==> Apart(l, lanes[l].order, lane, name)
  }

  /** None of the lane's names is stored under the other lane's key. */
  ghost predicate Apart(l: string, order: seq<string>, lane: string, name: string) {
    forall n :: n in order ==> PositionKey(l, n) != PositionKey(lane, name)
  }

  /** Slash-free lanes never share a key. */
  lemma PositionKeysDiffer(l: string, n: string, l': string, n': string)
    requires Free('/', l) && Free('/', l')
    ensures PositionKey(l, n) == PositionKey(l', n') ==> l == l' && n == n'
  {
    if PositionKey(l, n) == PositionKey(l', n') { CutIsUnique('/', l, n, l', n'); }
  }

  lemma SameLaneKeys(lane: string, n: string, n': string)
    ensures PositionKey(lane, n) == PositionKey(lane, n') <==> n == n'
  {
    assert PositionKey(lane, n)[|lane| + 1..] == n && PositionKey(lane, n')[|lane| + 1..] == n';
  }

  lemma {:induction false} LastIndexAbsent(order: seq<string>, name: string)
    requires name !in order
    ensures LastIndex(order, name) == 0
  {
    if order != [] { LastIndexAbsent(order[..|order| - 1], name); }
  }

  /** Adds one lane's ordered names to the positions. */
  method AddLanePositions(before: map<string, nat>, lane: string, order: seq<string>)
    returns (orderPos: map<string, nat>)
    ensures forall n ::
      PositionAt(orderPos, PositionKey(lane, n))
        == if n in order then LastIndex(order, n) else PositionAt(before, PositionKey(lane, n))
    ensures forall l, n :: Apart(lane, order, l, n) ==>
      PositionAt(orderPos, PositionKey(l, n)) == PositionAt(before, PositionKey(l, n))
  {
    orderPos := before;
    for i := 0 to |order|
      invariant forall n ::
        PositionAt(orderPos, PositionKey(lane, n))
          == if n in order[..i] then LastIndex(order[..i], n) else PositionAt(before, PositionKey(lane, n))
      invariant forall l, n :: Apart(lane, order, l, n) ==>
        PositionAt(orderPos, PositionKey(l, n)) == PositionAt(before, PositionKey(l, n))
    {
      assert order[i] in order && order[..i + 1] == order[..i] + [order[i]];
      forall n ensures PositionKey(lane, n) == PositionKey(lane, order[i]) <==> n == order[i] {
        SameLaneKeys(lane, n, order[i]);
      }
      orderPos := orderPos[PositionKey(lane, order[i]) := i];
      assert order[..i + 1][..i] == order[..i];
    }
    assert order[..|order|] == order;
  }

  /** The composer position of every ordered name, under its lane/name key: right for
      every lane and name whose key no other lane's composer uses. */
  method ComposerPositions(lanes: Lanes) returns (orderPos: map<string, nat>)
    ensures forall l, n :: Unshared(lanes, l, n) ==> PositionAt(orderPos, PositionKey(l, n)) == Position(lanes, l, n)
  {
    orderPos := map[];
    var walk := WalkKeys(lanes.Keys);
    for k := 0 to |walk|
      invariant forall l, n :: Unshared(lanes, l, n) ==>
        PositionAt(orderPos, PositionKey(l, n)) == if l in walk[..k] then Position(lanes, l, n) else 0
    {
      var lane, before := walk[k], orderPos;
      assert lane in Elements(walk) && lane !in walk[..k];
      orderPos := AddLanePositions(orderPos, lane, lanes[lane].order);
      assert walk[..k + 1] == walk[..k] + [lane];
      forall l, n | Unshared(lanes, l, n)
        ensures PositionAt(orderPos, PositionKey(l, n)) == if l in walk[..k + 1] then Position(lanes, l, n) else 0
      {
        if l != lane {
          assert Apart(lane, lanes[lane].order, l, n);
        } else if n !in lanes[lane].order {
          LastIndexAbsent(lanes[lane].order, n);
        }
      }
    }
    assert walk[..|walk|] == walk;
    assert forall l :: l in Elements(walk) <==> l in lanes;
  }

  /** The loop's state: what is out, what is ready, what each member still waits for. */
  ghost predicate KahnState(members: Members, lanes: Lanes, indeg: map<string, int>, ready: seq<string>,
                            out: seq<string>) {
    var emitted := Elements(out);
    && Distinct(out) && Closed(members, emitted) && Waiting(members, emitted, indeg)
    && Distinct(ready) && Elements(ready) == Ready(members, emitted)
    && Emitted(members, lanes) == out + Emission(members, lanes, emitted)
  }

  /** Takes one off the count of every listed name, once per listing; a name
      whose count reaches 0 becomes ready. */
  method Decrement(downstream: seq<string>, indeg0: map<string, int>, ready0: seq<string>, ghost need: map<string, int>)
    returns (indeg: map<string, int>, ready: seq<string>)
    requires need.Keys == indeg0.Keys
    requires forall n :: n in indeg0 ==> 0 <= need[n] && indeg0[n] == need[n] + multiset(downstream)[n]
    requires forall n :: n in downstream ==> n in indeg0
    requires Distinct(ready0)
    requires forall n :: n in ready0 ==> n in indeg0 && indeg0[n] == 0
    ensures indeg == need
    ensures Distinct(ready)
    ensures forall n :: n in ready <==> n in ready0 || (n in downstream && need[n] == 0)
  {
    indeg, ready := indeg0, ready0;
    assert downstream[0..] == downstream;
    for i := 0 to |downstream|
      invariant indeg.Keys == need.Keys
      invariant forall n :: n in indeg ==> indeg[n] == need[n] + multiset(downstream[i..])[n]
      invariant Distinct(ready)
      invariant forall n :: n in ready ==> n in indeg && indeg[n] == 0
      invariant forall n :: n in ready <==> n in ready0 || (n in downstream && indeg[n] == 0)
    {
      var dn := downstream[i];
      assert downstream[i..] == [dn] + downstream[i + 1..];
      assert dn in downstream;
      indeg := indeg[dn := indeg[dn] - 1];
      if indeg[dn] == 0 {
        ready := ready + [dn];
      }
    }
  }

  /** Emitting `next` releases the members that waited on it. */
  method Release(members: Members, next: string, downstream: seq<string>,
                 indeg0: map<string, int>, ready0: seq<string>, ghost emitted: set<string>)
    returns (indeg: map<string, int>, ready: seq<string>)
    requires next in Ready(members, emitted)
    requires Closed(members, emitted)
    requires Waiting(members, emitted, indeg0)
    requires forall n :: multiset(downstream)[n] == if n in members then multiset(members[n].deps)[next] else 0
    requires Distinct(ready0) && Elements(ready0) == Ready(members, emitted) - {next}
    ensures Waiting(members, emitted + {next}, indeg)
    ensures Distinct(ready) && Elements(ready) == Ready(members, emitted + {next})
  {
    ghost var after := emitted + {next};
    ghost var need := map n | n in members :: Pending(members, members[n].deps, after);
    forall n | n in members ensures indeg0[n] == need[n] + multiset(downstream)[n] {
      PendingAfter(members, members[n].deps, emitted, next);
    }
    forall n | n in downstream ensures n in members { assert multiset(downstream)[n] > 0; }
    ReadyIsZero(members, emitted, indeg0);
    forall n | n in ready0 ensures n in indeg0 && indeg0[n] == 0 { assert n in Elements(ready0); }
    indeg, ready := Decrement(downstream, indeg0, ready0, need);
    ReadyIsZero(members, after, indeg);
    forall n ensures n in Elements(ready) <==> n in Ready(members, after) {
      if n in members {
        assert n in ready0 <==> n in Elements(ready0);
        assert n in downstream <==> multiset(downstream)[n] > 0;
        assert multiset(members[n].deps)[next] > 0 <==> next in members[n].deps;
        assert next in members[n].deps <==> next in InPackDeps(members, n);
      }
    }
  }

  /** Emitted members have only emitted in-pack dependencies. */
  ghost predicate Closed(members: Members, emitted: set<string>) {
    emitted <= members.Keys && forall n :: n in emitted ==> InPackDeps(members, n) <= emitted
  }

  /** indeg counts what each member still waits for. */
  ghost predicate Waiting(members: Members, emitted: set<string>, indeg: map<string, int>) {
    indeg.Keys == members.Keys && forall n :: n in members ==> indeg[n] == Pending(members, members[n].deps, emitted)
  }

  lemma ReadyIsZero(members: Members, emitted: set<string>, indeg: map<string, int>)
    requires Waiting(members, emitted, indeg)
    ensures forall n :: n in Ready(members, emitted) <==> n in members && n !in emitted && indeg[n] == 0
  {
    forall n | n in members
      ensures n in Ready(members, emitted) <==> n !in emitted && indeg[n] == 0
    {
      PendingZero(members, members[n].deps, emitted);
    }
  }

  predicate IsFree(count: int) { count == 0 }

  predicate IsBlocked(count: int) { count > 0 }

  ghost function Wanted(indeg: map<string, int>, want: int -> bool): set<string> {
    set n | n in indeg && want(indeg[n])
  }

  /** The names whose count is wanted, in the order the map walk yields them. */
  method NamesWhere(indeg: map<string, int>, want: int -> bool) returns (r: seq<string>)
    ensures Distinct(r) && Elements(r) == Wanted(indeg, want)
  {
    r := [];
    var walk := WalkKeys(indeg.Keys);
    for k := 0 to |walk|
      invariant Distinct(r)
      invariant forall n :: n in r <==> n in walk[..k] && n in indeg && want(indeg[n])
    {
      assert walk[k] in Elements(walk) && walk[k] !in walk[..k];
      if want(indeg[walk[k]]) { r := r + [walk[k]]; }
      assert walk[..k + 1] == walk[..k] + [walk[k]];
    }
    assert walk[..|walk|] == walk;
    assert forall n :: n in walk <==> n in Elements(walk);
  }

  lemma SortedHeadIsLeast(less: (string, string) -> bool, s: seq<string>)
    requires StrictTotal(less) && Ascending(less, s) && s != []
    ensures IsLeast(less, Elements(s), s[0])
    ensures Distinct(s[1..]) && Elements(s[1..]) == Elements(s) - {s[0]}
  {}

  lemma EmissionUnfolds(members: Members, lanes: Lanes, emitted: set<string>, n: string)
    requires Next(members, lanes, emitted, n)
    ensures Emission(members, lanes, emitted) == [n] + Emission(members, lanes, emitted + {n})
  {
    MemberLessIsStrictTotal(members, lanes);
    NextIsUnique(members, lanes, emitted, n, Least(MemberLess(members, lanes), Ready(members, emitted)));
  }

  function RankAt(members: Members, orderPos: map<string, nat>, n: string): Rank {
    if n in members
    then Rank(members[n].lane, PositionAt(orderPos, PositionKey(members[n].lane, n)), n)
    else Rank("", 0, n)
  }

  function LessAt(members: Members, orderPos: map<string, nat>): (string, string) -> bool {
    (a, b) => RankBefore(RankAt(members, orderPos, a), RankAt(members, orderPos, b))
  }

  lemma LessAtIsMemberLess(members: Members, lanes: Lanes, orderPos: map<string, nat>)
    requires forall n :: n in members ==>
      PositionAt(orderPos, PositionKey(members[n].lane, n)) == Position(lanes, members[n].lane, n)
    ensures forall a, b :: LessAt(members, orderPos)(a, b) == MemberLess(members, lanes)(a, b)
    ensures StrictTotal(LessAt(members, orderPos))
  {
    MemberLessIsStrictTotal(members, lanes);
    var less, spec := LessAt(members, orderPos), MemberLess(members, lanes);
    forall a, b ensures less(a, b) == spec(a, b) {
      assert RankAt(members, orderPos, a) == RankOf(members, lanes, a);
      assert RankAt(members, orderPos, b) == RankOf(members, lanes, b);
    }
  }

  lemma SortedHeadIsNext(members: Members, lanes: Lanes, less: (string, string) -> bool, ready: seq<string>,
                         emitted: set<string>)
    requires StrictTotal(less) && forall a, b :: less(a, b) == MemberLess(members, lanes)(a, b)
    requires Distinct(ready) && ready != [] && Elements(ready) == Ready(members, emitted)
    ensures var s := Sort(less, ready);
            Next(members, lanes, emitted, s[0])
            && Distinct(s[1..]) && Elements(s[1..]) == Ready(members, emitted) - {s[0]}
  {
    SortAscends(less, ready);
    SortedHeadIsLeast(less, Sort(less, ready));
  }

  lemma EmitKeepsClosed(members: Members, lanes: Lanes, out: seq<string>, next: string)
    requires Distinct(out) && Closed(members, Elements(out))
    requires next in Ready(members, Elements(out))
    ensures Elements(out + [next]) == Elements(out) + {next}
    ensures Distinct(out + [next]) && Closed(members, Elements(out + [next]))
    ensures |members.Keys - Elements(out + [next])| < |members.Keys - Elements(out)|
  {
    var emitted := Elements(out);
    assert Elements(out + [next]) == emitted + {next};
    assert members.Keys - (emitted + {next}) == (members.Keys - emitted) - {next};
    assert next !in out;
  }

  lemma InitialState(members: Members, lanes: Lanes, indeg: map<string, int>, ready: seq<string>)
    requires Waiting(members, {}, indeg)
    requires Distinct(ready) && Elements(ready) == Wanted(indeg, IsFree)
    ensures KahnState(members, lanes, indeg, ready, [])
  {
    ReadyIsZero(members, {}, indeg);
    assert Elements<string>([]) == {};
    assert [] + Emission(members, lanes, {}) == Emission(members, lanes, {});
  }

  lemma NextEmission(members: Members, lanes: Lanes, out: seq<string>, next: string)
    requires Next(members, lanes, Elements(out), next)
    ensures out + Emission(members, lanes, Elements(out))
             == out + [next] + Emission(members, lanes, Elements(out + [next]))
  {
    EmissionUnfolds(members, lanes, Elements(out), next);
    assert Elements(out + [next]) == Elements(out) + {next};
    var rest := Emission(members, lanes, Elements(out) + {next});
    assert out + ([next] + rest) == out + [next] + rest;
  }

  lemma BlockedAreTheRest(members: Members, indeg: map<string, int>, out: seq<string>)
    requires Closed(members, Elements(out)) && Waiting(members, Elements(out), indeg)
    requires Ready(members, Elements(out)) == {}
    ensures members.Keys - Elements(out) == Wanted(indeg, IsBlocked)
  {
    ReadyIsZero(members, Elements(out), indeg);
    forall n | n in members ensures n !in Elements(out) <==> indeg[n] > 0 {
      PendingZero(members, members[n].deps, Elements(out));
      if n in Elements(out) {
        assert InPackDeps(members, n) <= Elements(out);
      } else {
        assert n !in Ready(members, Elements(out));
      }
    }
  }

  lemma FinalState(members: Members, lanes: Lanes, indeg: map<string, int>, out: seq<string>)
    requires KahnState(members, lanes, indeg, [], out)
    ensures |out| == |members| ==> TopoAnswer(members, lanes) == Ok(out)
    ensures |out| != |members| ==> TopoAnswer(members, lanes) == Err(SortedNames(Wanted(indeg, IsBlocked)))
  {
    assert Elements<string>([]) == {};
    assert Emitted(members, lanes) == out;
    SizeTellsAll(out, members.Keys);
    BlockedAreTheRest(members, indeg, out);
  }

  /** Orders the members by in-pack depends_on; refuses a cycle naming the stuck
      members. */
  method TopoMembers(members: Members, lanes: Lanes) returns (r: Result<seq<string>, seq<string>>)
    requires forall n :: n in members ==> Unshared(lanes, members[n].lane, n)
    ensures r == TopoAnswer(members, lanes)
  {
    var orderPos := ComposerPositions(lanes);
    var indeg, downstream := CountDependencies(members);
    var less := LessAt(members, orderPos);
    LessAtIsMemberLess(members, lanes, orderPos);
    var ready := NamesWhere(indeg, IsFree);
    InitialState(members, lanes, indeg, ready);
    var out: seq<string> := [];
    while ready != []
      invariant KahnState(members, lanes, indeg, ready, out)
      decreases |members.Keys - Elements(out)|
    {
      SortedHeadIsNext(members, lanes, less, ready, Elements(out));
      ready := Sort(less, ready);
      var next := ready[0];
      ready := ready[1..];
      assert forall n :: multiset(Downstream(downstream, next))[n] == Listed(downstream, next, n);
      indeg, ready := Release(members, next, Downstream(downstream, next), indeg, ready, Elements(out));
      EmitKeepsClosed(members, lanes, out, next);
      NextEmission(members, lanes, out, next);
      out := out + [next];
    }
    FinalState(members, lanes, indeg, out);
    if |out| != |members| {
      var stuck := NamesWhere(indeg, IsBlocked);
      SortedStrings(stuck);
      return Err(Sort(Before, stuck));
    }
    return Ok(out);
  }
}
