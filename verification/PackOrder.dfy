/** ApplyOrder, indexPack and packLane.validate of internal/catalog/order.go: the
    sequence a pack's declarations are applied in. */
module PackOrder {
  import opened Results
  import opened Ordering
  import opened Joining
  import opened PackTopo

  /** One pack file as the YAML parser classifies it; folder is the lane folder
      a pipeline sits in. */
  datatype File =
    | Other(path: string)
    | Unparsable(path: string)
    | Pipeline(path: string, name: string, lane: string, folder: string, deps: seq<string>)
    | Composer(path: string, lane: string, order: seq<string>)

  datatype LaneFault =
    | NoComposer
    | NoMembers
    | ComposerWithoutMembers
    | CountMismatch
    | NotCarried(name: string)
    | OrderedTwice(name: string)

  datatype Fault =
    | BadDeclaration(path: string)
    | TwoComposers(lane: string)
    | DeclaredTwice(name: string)
    | NoPipelines
    | BadLane(lane: string, shape: LaneFault)
    | DependsOnCycle(stuck: seq<string>)

  /** A declaration by what it declares. */
  datatype Item = PipelineOf(name: string) | ComposerOf(lane: string)

  datatype Index = Index(members: Members, lanes: Lanes)

  // ---------------------------------------------------------------- indexing

  /** A pipeline that names no lane takes its folder's. */
  function LaneOf(f: File): string
    requires f.Pipeline? || f.Composer?
  {
    if f.Pipeline? && f.lane == "" then f.folder else f.lane
  }

  function LaneRecord(lanes: Lanes, name: string): Lane {
    if name in lanes then lanes[name] else Lane("", [], [])
  }

  function IndexFile(ix: Index, f: File): Result<Index, Fault> {
    match f
    case Other(_) => Ok(ix)
    case Unparsable(path) => Err(BadDeclaration(path))
    case Composer(path, lane, order) =>
      var l := LaneRecord(ix.lanes, lane);
      if l.composer != "" then Err(TwoComposers(lane))
      else Ok(ix.(lanes := ix.lanes[lane := l.(composer := path, order := order)]))
    case Pipeline(path, name, _, _, deps) =>
      if name in ix.members then Err(DeclaredTwice(name))
      else
        var lane := LaneOf(f);
        var l := LaneRecord(ix.lanes, lane);
        Ok(Index(ix.members[name := Member(name, path, lane, deps)],
                 ix.lanes[lane := l.(members := l.members + [name])]))
  }

  function IndexFiles(files: seq<File>): Result<Index, Fault> {
    if files == [] then Ok(Index(map[], map[]))
    else
      var before := IndexFiles(files[..|files| - 1]);
      if before.Err? then before else IndexFile(before.value, files[|files| - 1])
  }

  /** The declarations in a pack, in file order. */
  function Declared(files: seq<File>): seq<Item> {
    if files == [] then []
    else
      var f := files[|files| - 1];
      Declared(files[..|files| - 1]) + ItemsOf(f)
  }

  /** The paths of those declarations, in file order. */
  function DeclaredPaths(files: seq<File>): seq<string> {
    if files == [] then []
    else
      var f := files[|files| - 1];
      DeclaredPaths(files[..|files| - 1]) + (if f.Pipeline? || f.Composer? then [f.path] else [])
  }

  predicate ItemIn(ix: Index, item: Item) {
    match item
    case PipelineOf(n) => n in ix.members
    case ComposerOf(l) => l in ix.lanes && ix.lanes[l].composer != ""
  }

  function PathOf(ix: Index, item: Item): string {
    match item
    case PipelineOf(n) => if n in ix.members then ix.members[n].path else ""
    case ComposerOf(l) => if l in ix.lanes then ix.lanes[l].composer else ""
  }

  function Paths(ix: Index, items: seq<Item>): seq<string> {
    Mapped(item => PathOf(ix, item), items)
  }

  /** Members and lanes agree on who is where. */
  ghost predicate Consistent(ix: Index) {
    && (forall n :: n in ix.members ==>
          ix.members[n].name == n && ix.members[n].lane in ix.lanes && n in ix.lanes[ix.members[n].lane].members)
    && (forall l, n :: l in ix.lanes && n in ix.lanes[l].members ==> n in ix.members && ix.members[n].lane == l)
    && (forall l :: l in ix.lanes ==> Distinct(ix.lanes[l].members))
  }

  /** Parsed files have real paths: each ends in the declaration file name. */
  ghost predicate PathsNamed(files: seq<File>) {
    forall f :: f in files && f.Composer? ==> f.path != ""
  }

  /** A pack indexes exactly when every declaration parses and none is made
      twice; the index then holds exactly the declared items, under their paths. */
  lemma {:induction false} IndexHoldsTheDeclarations(files: seq<File>)
    requires PathsNamed(files)
    ensures IndexFiles(files).Ok?
       <==> Distinct(Declared(files)) && forall f :: f in files ==> !f.Unparsable?
    ensures IndexFiles(files).Ok? ==>
              Holds(IndexFiles(files).value, files)
  {
    if files != [] {
      var init, f := files[..|files| - 1], files[|files| - 1];
      assert files == init + [f];
      assert forall g :: g in init ==> g in files;
      assert forall g :: g in files <==> g in init || g == f;
      IndexHoldsTheDeclarations(init);
      if IndexFiles(init).Ok? {
        AddingAFile(init, IndexFiles(init).value, f);
      } else if Distinct(Declared(files)) {
        assert Declared(files) == Declared(init) + ItemsOf(f);
        assert forall i :: 0 <= i < |Declared(init)| ==> Declared(files)[i] == Declared(init)[i];
      }
    }
  }

  /** What one file declares, if anything. */
  function ItemsOf(f: File): seq<Item> {
    if f.Pipeline? then [PipelineOf(f.name)] else if f.Composer? then [ComposerOf(f.lane)] else []
  }

  /** The index holds exactly the items declared so far, under their paths. */
  ghost predicate Holds(ix: Index, files: seq<File>) {
    && Consistent(ix)
    && (forall item :: ItemIn(ix, item) <==> item in Declared(files))
    && Paths(ix, Declared(files)) == DeclaredPaths(files)
  }

  lemma AddingAFile(init: seq<File>, ix: Index, f: File)
    requires Distinct(Declared(init)) && Holds(ix, init)
    requires f.Composer? ==> f.path != ""
    ensures IndexFile(ix, f).Ok? <==> Distinct(Declared(init + [f])) && !f.Unparsable?
    ensures IndexFile(ix, f).Ok? ==> Holds(IndexFile(ix, f).value, init + [f])
  {
    var files := init + [f];
    assert files[..|files| - 1] == init;
    var before, items := Declared(init), ItemsOf(f);
    assert Declared(files) == before + items;
    if items == [] {
      assert Declared(files) == before;
    } else {
      var item := items[0];
      AppendDistinct(before, item);
      assert item in before <==> ItemIn(ix, item);
      if IndexFile(ix, f).Ok? { AddingADeclaration(init, ix, f, item); }
    }
  }

  lemma IndexFileAddsItsItem(ix: Index, f: File, item: Item)
    requires f.Composer? ==> f.path != ""
    requires ItemsOf(f) == [item] && IndexFile(ix, f).Ok?
    ensures var ix' := IndexFile(ix, f).value;
            && (forall it :: ItemIn(ix', it) <==> ItemIn(ix, it) || it == item)
            && (forall it :: ItemIn(ix, it) ==> PathOf(ix', it) == PathOf(ix, it))
            && PathOf(ix', item) == f.path
  {
    var ix' := IndexFile(ix, f).value;
    forall it ensures ItemIn(ix', it) <==> ItemIn(ix, it) || it == item {
      match it
      case PipelineOf(n) =>
      case ComposerOf(l) =>
    }
  }

  lemma AddingADeclaration(init: seq<File>, ix: Index, f: File, item: Item)
    requires Holds(ix, init)
    requires f.Composer? ==> f.path != ""
    requires ItemsOf(f) == [item] && IndexFile(ix, f).Ok?
    ensures Holds(IndexFile(ix, f).value, init + [f])
  {
    var files, ix' := init + [f], IndexFile(ix, f).value;
    var before := Declared(init);
    assert files[..|files| - 1] == init;
    assert Declared(files) == before + [item];
    if f.Pipeline? { PipelineStaysConsistent(ix, f); } else { ComposerStaysConsistent(ix, f); }
    IndexFileAddsItsItem(ix, f, item);
    PathsGrow(ix, ix', before, item);
  }

  lemma PathsGrow(ix: Index, ix': Index, before: seq<Item>, item: Item)
    requires forall it :: it in before ==> PathOf(ix', it) == PathOf(ix, it)
    ensures Paths(ix', before + [item]) == Paths(ix, before) + [PathOf(ix', item)]
  {}

  lemma AppendDistinct<T(!new)>(s: seq<T>, x: T)
    requires Distinct(s)
    ensures Distinct(s + [x]) <==> x !in s
  {
    var t := s + [x];
    if x in s {
      var i :| 0 <= i < |s| && s[i] == x;
      assert t[i] == t[|s|];
    }
  }

  lemma ComposerStaysConsistent(ix: Index, f: File)
    requires Consistent(ix) && f.Composer? && IndexFile(ix, f).Ok?
    ensures Consistent(IndexFile(ix, f).value)
  {
    var ix' := IndexFile(ix, f).value;
    forall l | l in ix'.lanes ensures ix'.lanes[l].members == LaneRecord(ix.lanes, l).members {}
  }

  lemma PipelineStaysConsistent(ix: Index, f: File)
    requires Consistent(ix) && f.Pipeline? && IndexFile(ix, f).Ok?
    ensures Consistent(IndexFile(ix, f).value)
  {
    var ix', lane := IndexFile(ix, f).value, LaneOf(f);
    var before := LaneRecord(ix.lanes, lane).members;
    assert f.name !in before;
    AppendDistinct(before, f.name);
    forall l | l in ix'.lanes
      ensures Distinct(ix'.lanes[l].members)
      ensures forall n :: n in ix'.lanes[l].members ==> n in ix'.members && ix'.members[n].lane == l
    {
      assert l != lane ==> ix'.lanes[l] == ix.lanes[l];
    }
    forall n | n in ix'.members
      ensures ix'.members[n].lane in ix'.lanes && n in ix'.lanes[ix'.members[n].lane].members
    {
      assert n != f.name ==> ix'.members[n] == ix.members[n];
    }
  }

  /** Parses the pack's declarations into members and lanes. */
  method IndexPack(files: seq<File>) returns (r: Result<Index, Fault>)
    ensures r == IndexFiles(files)
  {
    var members: Members, lanes: Lanes := map[], map[];
    for i := 0 to |files|
      invariant IndexFiles(files[..i]) == Ok(Index(members, lanes))
    {
      assert files[..i + 1][..i] == files[..i];
      if IndexFiles(files[..i + 1]).Err? { IndexErrStays(files, i + 1); }
      var f := files[i];
      match f {
        case Other(_) =>
        case Unparsable(path) =>
          return Err(BadDeclaration(path));
        case Composer(path, lane, order) =>
          var l := LaneRecord(lanes, lane);
          if l.composer != "" {
            return Err(TwoComposers(lane));
          }
          lanes := lanes[lane := l.(composer := path, order := order)];
        case Pipeline(path, name, declared, folder, deps) =>
          if name in members {
            return Err(DeclaredTwice(name));
          }
          var lane := declared;
          if lane == "" { lane := folder; }
          members := members[name := Member(name, path, lane, deps)];
          var l := LaneRecord(lanes, lane);
          lanes := lanes[lane := l.(members := l.members + [name])];
      }
    }
    assert files[..|files|] == files;
    return Ok(Index(members, lanes));
  }

  lemma IndexErrStays(files: seq<File>, i: nat)
    requires i <= |files| && IndexFiles(files[..i]).Err?
    ensures IndexFiles(files) == IndexFiles(files[..i])
    decreases |files| - i
  {
    if i == |files| {
      assert files[..i] == files;
    } else {
      assert files[..i + 1][..i] == files[..i];
      IndexErrStays(files, i + 1);
    }
  }

  // -------------------------------------------------------------- lane shape

  /** The 2+ interlock and the composer's duty: a lane without a composer holds
      exactly one member; a composer orders exactly the lane's members. */
  ghost predicate LaneOk(l: Lane) {
    if l.composer == "" then |l.members| == 1
    else l.members != [] && multiset(l.order) == multiset(l.members)
  }

  lemma PermutationBySize(a: seq<string>, b: seq<string>)
    requires Distinct(b)
    ensures multiset(a) == multiset(b) <==> |a| == |b| && Distinct(a) && Elements(a) <= Elements(b)
  {
    if multiset(a) == multiset(b) {
      DistinctCount(a);
      DistinctCount(b);
      SameElements(b, a);
      assert |multiset(a)| == |multiset(b)|;
    }
    if |a| == |b| && Distinct(a) && Elements(a) <= Elements(b) {
      SizeTellsAll(b, Elements(b));
      SizeTellsAll(a, Elements(b));
      DistinctCount(a);
      DistinctCount(b);
      forall x ensures multiset(a)[x] == multiset(b)[x] {
        assert x in a <==> x in Elements(a);
        assert x in b <==> x in Elements(b);
      }
    }
  }

  /** The first name a composer orders amiss: not carried, or ordered before. */
  ghost predicate FirstAmiss(order: seq<string>, have: set<string>, i: int) {
    && 0 <= i < |order| && (order[i] !in have || order[i] in order[..i])
    && Distinct(order[..i]) && Elements(order[..i]) <= have
  }

  ghost predicate OrderFault(order: seq<string>, have: set<string>, fault: LaneFault) {
    exists i :: FirstAmiss(order, have, i)
                && fault == if order[i] !in have then NotCarried(order[i]) else OrderedTwice(order[i])
  }

  /** The fault of a lane's shape: the first thing amiss. */
  ghost predicate Blamed(l: Lane, fault: LaneFault) {
    if l.composer == "" then |l.members| != 1 && fault == if l.members == [] then NoMembers else NoComposer
    else if l.members == [] then fault == ComposerWithoutMembers
    else if |l.order| != |l.members| then fault == CountMismatch
    else OrderFault(l.order, Elements(l.members), fault)
  }

  lemma NothingAmissBefore(order: seq<string>, have: set<string>, i: int, j: int)
    ensures 0 <= i < j <= |order| && Distinct(order[..j]) && Elements(order[..j]) <= have ==>
              !FirstAmiss(order, have, i)
  {
    if 0 <= i < j <= |order| && Distinct(order[..j]) && Elements(order[..j]) <= have {
      assert order[..j][i] == order[i] && order[i] in order[..j] && order[i] in Elements(order[..j]);
      forall k | 0 <= k < i ensures order[..i][k] != order[i] { assert order[..j][k] == order[..i][k]; }
    }
  }

  lemma AmissOnce(order: seq<string>, have: set<string>, i: int, k: int)
    requires FirstAmiss(order, have, i) && FirstAmiss(order, have, k)
    ensures i == k
  {
    NothingAmissBefore(order, have, i, k);
    NothingAmissBefore(order, have, k, i);
  }

  lemma OrderFaultOnce(order: seq<string>, have: set<string>, fault: LaneFault, other: LaneFault)
    requires OrderFault(order, have, fault)
    ensures !(Distinct(order) && Elements(order) <= have)
    ensures OrderFault(order, have, other) ==> other == fault
  {
    var i :| FirstAmiss(order, have, i)
             && fault == if order[i] !in have then NotCarried(order[i]) else OrderedTwice(order[i]);
    assert order[..|order|] == order;
    NothingAmissBefore(order, have, i, |order|);
    forall k | FirstAmiss(order, have, k) ensures k == i { AmissOnce(order, have, i, k); }
  }

  /** A lane blamed is not well shaped, and has one fault. */
  lemma BlamedOnce(l: Lane, fault: LaneFault, other: LaneFault)
    requires Distinct(l.members) && Blamed(l, fault)
    ensures !LaneOk(l)
    ensures Blamed(l, other) ==> other == fault
  {
    PermutationBySize(l.order, l.members);
    if l.composer != "" && l.members != [] && |l.order| == |l.members| {
      OrderFaultOnce(l.order, Elements(l.members), fault, other);
    }
  }

  /** Each ordered name is carried, and none is ordered twice. */
  method CheckOrder(order: seq<string>, have: set<string>) returns (fault: Option<LaneFault>)
    ensures fault == None <==> Distinct(order) && Elements(order) <= have
    ensures fault.Some? ==> OrderFault(order, have, fault.value)
  {
    var seen: set<string> := {};
    for i := 0 to |order|
      invariant seen == Elements(order[..i]) && seen <= have
      invariant Distinct(order[..i])
    {
      var name, before := order[i], order[..i];
      assert order[..i + 1] == before + [name];
      assert name in Elements(order);
      AppendDistinct(before, name);
      if name !in have {
        assert FirstAmiss(order, have, i);
        return Some(NotCarried(name));
      }
      if name in seen {
        assert name in before && FirstAmiss(order, have, i);
        var j :| 0 <= j < i && order[j] == name;
        assert order[j] == order[i];
        return Some(OrderedTwice(name));
      }
      seen := seen + {name};
    }
    assert order[..|order|] == order;
    return None;
  }

  method ToSet(names: seq<string>) returns (have: set<string>)
    ensures have == Elements(names)
  {
    have := {};
    for i := 0 to |names|
      invariant have == Elements(names[..i])
    {
      assert names[..i + 1] == names[..i] + [names[i]];
      have := have + {names[i]};
    }
    assert names[..|names|] == names;
  }

  /** Accepts a lane exactly when its shape is right, and names what is wrong. */
  method Validate(l: Lane) returns (fault: Option<LaneFault>)
    requires Distinct(l.members)
    ensures fault == None <==> LaneOk(l)
    ensures fault.Some? ==> Blamed(l, fault.value)
  {
    PermutationBySize(l.order, l.members);
    if l.composer == "" {
      if |l.members| > 1 { return Some(NoComposer); }
      if |l.members| == 0 { return Some(NoMembers); }
      return None;
    }
    if |l.members| == 0 { return Some(ComposerWithoutMembers); }
    if |l.order| != |l.members| { return Some(CountMismatch); }
    var have := ToSet(l.members);
    fault := CheckOrder(l.order, have);
  }

  // ---------------------------------------------------------- the apply sequence

  /** Some member of s runs in the lane. */
  predicate LaneSeen(ix: Index, s: seq<string>, lane: string) {
    exists m :: m in s && m in ix.members && ix.members[m].lane == lane
  }

  /** What n adds after s: itself, then its lane's composer if n is the lane's first. */
  function Spliced(ix: Index, s: seq<string>, n: string): seq<Item> {
    [PipelineOf(n)]
    + (if n in ix.members && ItemIn(ix, ComposerOf(ix.members[n].lane)) && !LaneSeen(ix, s, ix.members[n].lane)
       then [ComposerOf(ix.members[n].lane)] else [])
  }

  function Splice(ix: Index, s: seq<string>): seq<Item> {
    if s == [] then []
    else
      var init := s[..|s| - 1];
      Splice(ix, init) + Spliced(ix, init, s[|s| - 1])
  }

  /** The declarations in apply order. */
  ghost function ApplySequence(ix: Index): seq<Item> {
    Splice(ix, Emitted(ix.members, ix.lanes))
  }

  /** The pack can be applied: it indexes, carries a pipeline, every lane is well
      shaped, and in-pack depends_on is acyclic. */
  ghost predicate Applicable(files: seq<File>) {
    && IndexFiles(files).Ok?
    && var ix := IndexFiles(files).value;
       && ix.members != map[]
       && (forall l :: l in ix.lanes ==> LaneOk(ix.lanes[l]))
       && !exists p :: Cycle(ix.members, p)
  }

  /** A pipeline of s, or the composer of a lane seen in t. */
  ghost predicate Placed(ix: Index, s: seq<string>, t: seq<string>, item: Item) {
    if item.PipelineOf? then item.name in s else ItemIn(ix, item) && LaneSeen(ix, t, item.lane)
  }

  lemma SpliceHolds(ix: Index, s: seq<string>, item: Item)
    requires forall n :: n in s ==> n in ix.members
    ensures item in Splice(ix, s) <==> Placed(ix, s, s, item)
  {
    if s != [] {
      var init, n := s[..|s| - 1], s[|s| - 1];
      assert s == init + [n];
      SpliceHolds(ix, init, item);
      assert forall m :: m in s <==> m in init || m == n;
      if item.ComposerOf? {
        assert LaneSeen(ix, s, item.lane) <==> LaneSeen(ix, init, item.lane) || ix.members[n].lane == item.lane;
      }
    }
  }

  lemma SpliceHoldsNext(ix: Index, init: seq<string>, last: string, item: Item)
    requires forall n :: n in init ==> n in ix.members
    ensures item in Splice(ix, init) + [PipelineOf(last)] <==> Placed(ix, init + [last], init, item)
  {
    SpliceHolds(ix, init, item);
    var before := Splice(ix, init);
    assert item in before + [PipelineOf(last)] <==> item in before || item == PipelineOf(last);
  }

  lemma SpliceDistinct(ix: Index, s: seq<string>)
    requires Distinct(s) && forall n :: n in s ==> n in ix.members
    ensures Distinct(Splice(ix, s))
  {
    if s != [] {
      var init, n := s[..|s| - 1], s[|s| - 1];
      assert s == init + [n];
      AppendDistinct(init, n);
      SpliceDistinct(ix, init);
      var before, lane := Splice(ix, init), ix.members[n].lane;
      SpliceHolds(ix, init, PipelineOf(n));
      SpliceHolds(ix, init, ComposerOf(lane));
      AppendDistinct(before, PipelineOf(n));
      AppendDistinct(before + [PipelineOf(n)], ComposerOf(lane));
      assert before + [PipelineOf(n)] + [ComposerOf(lane)] == before + [PipelineOf(n), ComposerOf(lane)];
    }
  }

  /** No composer before its lane's members, and no lane with two members
      without its composer. */
  ghost predicate Interlocked(ix: Index, p: seq<Item>) {
    && (forall l :: ComposerOf(l) in p ==> MemberApplied(ix, p, l))
    && (forall m, n :: PipelineOf(m) in p && PipelineOf(n) in p && m != n
          && m in ix.members && n in ix.members && ix.members[m].lane == ix.members[n].lane
          ==> ComposerOf(ix.members[n].lane) in p)
  }

  ghost predicate MemberApplied(ix: Index, p: seq<Item>, lane: string) {
    exists n :: n in ix.members && ix.members[n].lane == lane && PipelineOf(n) in p
  }

  lemma TwoMembersNeedAComposer(ix: Index, m: string, n: string)
    requires Consistent(ix) && forall l :: l in ix.lanes ==> LaneOk(ix.lanes[l])
    requires m in ix.members && n in ix.members && m != n && ix.members[m].lane == ix.members[n].lane
    ensures ItemIn(ix, ComposerOf(ix.members[n].lane))
  {
    var l := ix.lanes[ix.members[n].lane];
    assert m in l.members && n in l.members;
    assert |l.members| != 1;
  }

  /** The pipelines of s with the composers of the lanes seen in t are interlocked,
      if of two members of one lane at least one is in t. */
  lemma PlacedIsInterlocked(ix: Index, s: seq<string>, t: seq<string>, p: seq<Item>)
    requires Consistent(ix) && (forall l :: l in ix.lanes ==> LaneOk(ix.lanes[l]))
    requires forall item :: item in p <==> Placed(ix, s, t, item)
    requires forall n :: n in t ==> n in s
    requires forall m, n :: m in s && n in s && m != n ==> m in t || n in t
    ensures Interlocked(ix, p)
  {
    forall l | ComposerOf(l) in p ensures MemberApplied(ix, p, l) {
      assert LaneSeen(ix, t, l);
      var m :| m in t && m in ix.members && ix.members[m].lane == l;
      assert Placed(ix, s, t, PipelineOf(m));
    }
    forall m, n | PipelineOf(m) in p && PipelineOf(n) in p && m != n
        && m in ix.members && n in ix.members && ix.members[m].lane == ix.members[n].lane
      ensures ComposerOf(ix.members[n].lane) in p
    {
      assert Placed(ix, s, t, PipelineOf(m)) && Placed(ix, s, t, PipelineOf(n));
      TwoMembersNeedAComposer(ix, m, n);
      assert LaneSeen(ix, t, ix.members[n].lane);
      assert Placed(ix, s, t, ComposerOf(ix.members[n].lane));
    }
  }

  /** The interlock holds once s is spliced, and so it does before the last composer. */
  lemma SpliceInterlocked(ix: Index, s: seq<string>)
    requires Consistent(ix) && (forall l :: l in ix.lanes ==> LaneOk(ix.lanes[l]))
    requires Distinct(s) && forall n :: n in s ==> n in ix.members
    ensures Interlocked(ix, Splice(ix, s))
  {
    var p := Splice(ix, s);
    forall item ensures item in p <==> Placed(ix, s, s, item) { SpliceHolds(ix, s, item); }
    PlacedIsInterlocked(ix, s, s, p);
  }

  lemma LastWithoutComposer(ix: Index, init: seq<string>, last: string)
    requires Consistent(ix) && (forall l :: l in ix.lanes ==> LaneOk(ix.lanes[l]))
    requires Distinct(init + [last]) && forall n :: n in init + [last] ==> n in ix.members
    ensures Interlocked(ix, Splice(ix, init) + [PipelineOf(last)])
  {
    var s, q := init + [last], Splice(ix, init) + [PipelineOf(last)];
    assert forall n :: n in init ==> n in s;
    forall item ensures item in q <==> Placed(ix, s, init, item) { SpliceHoldsNext(ix, init, last, item); }
    PlacedIsInterlocked(ix, s, init, q);
  }

  /** A prefix of the splice ends inside what came before the last member, at
      that member, or at the end. */
  lemma PrefixCases(ix: Index, s: seq<string>, k: nat)
    requires s != [] && k <= |Splice(ix, s)|
    ensures var before, last := Splice(ix, s[..|s| - 1]), s[|s| - 1];
            var p := Splice(ix, s)[..k];
            || (k <= |before| && p == before[..k])
            || p == before + [PipelineOf(last)]
            || p == Splice(ix, s)
  {
    var all, before := Splice(ix, s), Splice(ix, s[..|s| - 1]);
    if |before| + 1 < k { assert all[..k] == all; }
  }

  lemma EveryPrefixInterlocked(ix: Index, s: seq<string>, k: nat)
    requires Consistent(ix) && (forall l :: l in ix.lanes ==> LaneOk(ix.lanes[l]))
    requires Distinct(s) && forall n :: n in s ==> n in ix.members
    requires k <= |Splice(ix, s)|
    ensures Interlocked(ix, Splice(ix, s)[..k])
  {
    if s == [] {
      assert Splice(ix, s)[..k] == [];
    } else {
      var init := s[..|s| - 1];
      PrefixCases(ix, s, k);
      if k <= |Splice(ix, init)| {
        EveryPrefixInterlocked(ix, init, k);
        assert Splice(ix, s)[..k] == Splice(ix, init)[..k];
      } else {
        SpliceInterlocked(ix, s);
        LastMemberInterlocked(ix, s);
      }
    }
  }

  lemma LastMemberInterlocked(ix: Index, s: seq<string>)
    requires s != [] && Consistent(ix) && (forall l :: l in ix.lanes ==> LaneOk(ix.lanes[l]))
    requires Distinct(s) && forall n :: n in s ==> n in ix.members
    ensures Interlocked(ix, Splice(ix, s[..|s| - 1]) + [PipelineOf(s[|s| - 1])])
  {
    assert s[..|s| - 1] + [s[|s| - 1]] == s;
    LastWithoutComposer(ix, s[..|s| - 1], s[|s| - 1]);
  }

  /** The members appear in the spliced sequence in the order they had. */
  lemma SpliceKeepsOrder(ix: Index, s: seq<string>, i: int, j: int)
    requires 0 <= i < j < |s| && Distinct(s)
    requires forall n :: n in s ==> n in ix.members
    ensures exists a, b :: 0 <= a < b < |Splice(ix, s)|
                           && Splice(ix, s)[a] == PipelineOf(s[i]) && Splice(ix, s)[b] == PipelineOf(s[j])
  {
    var init := s[..|s| - 1];
    var all, before := Splice(ix, s), Splice(ix, init);
    if j < |s| - 1 {
      SpliceKeepsOrder(ix, init, i, j);
      var a, b :| 0 <= a < b < |before| && before[a] == PipelineOf(init[i]) && before[b] == PipelineOf(init[j]);
      assert all[a] == before[a] && all[b] == before[b];
    } else {
      SpliceHolds(ix, init, PipelineOf(s[i]));
      assert init[i] in init;
      var a :| 0 <= a < |before| && before[a] == PipelineOf(s[i]);
      assert all[a] == before[a] && all[|before|] == PipelineOf(s[j]);
    }
  }

  /** An accepted pack is applied completely and lawfully: every declaration once
      and nothing else, the interlock kept after every step, and every pipeline
      after its in-pack dependencies. */
  lemma ApplySequenceIsLawful(files: seq<File>)
    requires PathsNamed(files) && Applicable(files)
    ensures var ix := IndexFiles(files).value;
            var out := ApplySequence(ix);
            && Distinct(out) && multiset(out) == multiset(Declared(files))
            && multiset(Paths(ix, out)) == multiset(DeclaredPaths(files))
            && (forall k :: 0 <= k <= |out| ==> Interlocked(ix, out[..k]))
  {
    var ix := IndexFiles(files).value;
    var s, out := Emitted(ix.members, ix.lanes), ApplySequence(ix);
    IndexHoldsTheDeclarations(files);
    EmittedIsEveryMember(ix);
    SpliceIsEveryItem(ix, s);
    SpliceDistinct(ix, s);
    assert Elements(out) == Elements(Declared(files));
    SameDistinctElements(out, Declared(files));
    MappedKeepsMultiset(item => PathOf(ix, item), out, Declared(files));
    forall k | 0 <= k <= |out| ensures Interlocked(ix, out[..k]) { EveryPrefixInterlocked(ix, s, k); }
  }

  lemma EmittedIsEveryMember(ix: Index)
    requires !exists p :: Cycle(ix.members, p)
    ensures var s := Emitted(ix.members, ix.lanes);
            Distinct(s) && (forall n :: n in s <==> n in ix.members)
            && TopoAnswer(ix.members, ix.lanes) == Ok(s)
  {
    RefusedExactlyWhenCyclic(ix.members, ix.lanes);
    SuccessIsATopologicalPermutation(ix.members, ix.lanes);
    var s := Emitted(ix.members, ix.lanes);
    assert forall n :: n in s <==> n in Elements(s);
  }

  lemma SpliceIsEveryItem(ix: Index, s: seq<string>)
    requires Consistent(ix) && forall l :: l in ix.lanes ==> LaneOk(ix.lanes[l])
    requires forall n :: n in s <==> n in ix.members
    ensures forall item :: item in Splice(ix, s) <==> ItemIn(ix, item)
  {
    forall item ensures item in Splice(ix, s) <==> ItemIn(ix, item) {
      SpliceHolds(ix, s, item);
      if item.ComposerOf? && ItemIn(ix, item) { ComposerLaneSeen(ix, s, item.lane); }
    }
  }

  lemma SameDistinctElements(a: seq<Item>, b: seq<Item>)
    requires Distinct(a) && Distinct(b) && Elements(a) == Elements(b)
    ensures multiset(a) == multiset(b)
  {
    DistinctCount(a);
    DistinctCount(b);
    forall x ensures multiset(a)[x] == multiset(b)[x] {
      assert x in a <==> x in Elements(a);
      assert x in b <==> x in Elements(b);
    }
  }

  lemma ComposerLaneSeen(ix: Index, s: seq<string>, lane: string)
    requires Consistent(ix) && (forall n :: n in ix.members ==> n in s)
    requires ItemIn(ix, ComposerOf(lane)) && LaneOk(ix.lanes[lane])
    ensures LaneSeen(ix, s, lane)
  {
    var m := ix.lanes[lane].members[0];
    assert m in ix.lanes[lane].members;
    assert m in s && ix.members[m].lane == lane;
  }

  /** In the apply sequence every pipeline follows its in-pack dependencies. */
  lemma DependenciesAppliedFirst(files: seq<File>, n: string, d: string)
    requires PathsNamed(files) && Applicable(files)
    requires var ix := IndexFiles(files).value; n in ix.members && d in InPackDeps(ix.members, n)
    ensures var out := ApplySequence(IndexFiles(files).value);
            exists a, b :: 0 <= a < b < |out| && out[a] == PipelineOf(d) && out[b] == PipelineOf(n)
  {
    var ix := IndexFiles(files).value;
    var s := Emitted(ix.members, ix.lanes);
    EmittedIsEveryMember(ix);
    SuccessIsATopologicalPermutation(ix.members, ix.lanes);
    var j :| 0 <= j < |s| && s[j] == n;
    assert d in s[..j];
    var i :| 0 <= i < j && s[i] == d;
    SpliceKeepsOrder(ix, s, i, j);
    var out := ApplySequence(ix);
    var a, b :| 0 <= a < b < |out| && out[a] == PipelineOf(s[i]) && out[b] == PipelineOf(s[j]);
    assert out[a] == PipelineOf(d) && out[b] == PipelineOf(n);
  }

  /** A composer of the files ordered this. */
  ghost predicate Ordered(files: seq<File>, l: string, order: seq<string>) {
    exists f :: f in files && f.Composer? && LaneOf(f) == l && f.order == order
  }

  /** A pipeline of the files is this member. */
  ghost predicate Carried(files: seq<File>, lane: string, name: string) {
    exists f :: f in files && f.Pipeline? && LaneOf(f) == lane && f.name == name
  }

  lemma {:induction false} IndexComesFromFiles(files: seq<File>)
    requires IndexFiles(files).Ok?
    ensures var ix := IndexFiles(files).value;
            && (forall l :: l in ix.lanes ==> ix.lanes[l].order == [] || Ordered(files, l, ix.lanes[l].order))
            && (forall n :: n in ix.members ==> Carried(files, ix.members[n].lane, n))
  {
    if files != [] {
      var init, f := files[..|files| - 1], files[|files| - 1];
      IndexComesFromFiles(init);
      assert files == init + [f];
      var ix, before := IndexFiles(files).value, IndexFiles(init).value;
      forall l | l in ix.lanes ensures ix.lanes[l].order == [] || Ordered(files, l, ix.lanes[l].order) {
        if l in before.lanes && Ordered(init, l, before.lanes[l].order) {
          assert Ordered(files, l, before.lanes[l].order);
        }
      }
      forall n | n in ix.members ensures Carried(files, ix.members[n].lane, n) {
        if n in before.members { assert Carried(init, before.members[n].lane, n); }
      }
    }
  }

  /** No pipeline's position key is one that another lane's composer uses. */
  ghost predicate KeysUnshared(files: seq<File>) {
    forall f, g :: f in files && g in files && f.Composer? && g.Pipeline? && LaneOf(f) != LaneOf(g) ==>
      Apart(LaneOf(f), f.order, LaneOf(g), g.name)
  }

  lemma MembersUnshared(files: seq<File>)
    requires IndexFiles(files).Ok? && KeysUnshared(files)
    ensures var ix := IndexFiles(files).value;
            forall n :: n in ix.members ==> Unshared(ix.lanes, ix.members[n].lane, n)
  {
    IndexComesFromFiles(files);
    var ix := IndexFiles(files).value;
    forall n, l | n in ix.members && l in ix.lanes && l != ix.members[n].lane
      ensures Apart(l, ix.lanes[l].order, ix.members[n].lane, n)
    {
      var g :| g in files && g.Pipeline? && LaneOf(g) == ix.members[n].lane && g.name == n;
      if ix.lanes[l].order != [] {
        var f :| f in files && f.Composer? && LaneOf(f) == l && f.order == ix.lanes[l].order;
        assert Apart(LaneOf(f), f.order, LaneOf(g), g.name);
      }
    }
  }

  /** So it is when lane names hold no slash. */
  lemma SlashFreeKeysUnshared(files: seq<File>)
    requires forall f :: f in files && (f.Pipeline? || f.Composer?) ==> Free('/', LaneOf(f))
    ensures KeysUnshared(files)
  {
    forall f, g, n | f in files && g in files && f.Composer? && g.Pipeline? && LaneOf(f) != LaneOf(g) && n in f.order
      ensures PositionKey(LaneOf(f), n) != PositionKey(LaneOf(g), g.name)
    {
      PositionKeysDiffer(LaneOf(f), n, LaneOf(g), g.name);
    }
  }

  lemma PathsOfSpliced(ix: Index, s: seq<string>, n: string, first: bool)
    requires n in ix.members && (first <==> !LaneSeen(ix, s, ix.members[n].lane))
    ensures var lane := ix.members[n].lane;
            Paths(ix, Splice(ix, s + [n]))
              == Paths(ix, Splice(ix, s)) + [ix.members[n].path]
                 + (if first && ItemIn(ix, ComposerOf(lane)) then [ix.lanes[lane].composer] else [])
  {
    assert (s + [n])[..|s|] == s;
    var more := Spliced(ix, s, n);
    assert Paths(ix, Splice(ix, s) + more) == Paths(ix, Splice(ix, s)) + Paths(ix, more);
  }

  /** A Go map read: zero for an absent key. */
  function CountAt(emitted: map<string, nat>, lane: string): nat {
    if lane in emitted then emitted[lane] else 0
  }

  /** The lanes counted are the lanes seen. */
  ghost predicate Tallied(ix: Index, s: seq<string>, emitted: map<string, nat>) {
    forall l :: CountAt(emitted, l) > 0 <==> LaneSeen(ix, s, l)
  }

  lemma TallyOne(ix: Index, s: seq<string>, n: string, emitted: map<string, nat>)
    requires n in ix.members && Tallied(ix, s, emitted)
    ensures Tallied(ix, s + [n], emitted[ix.members[n].lane := CountAt(emitted, ix.members[n].lane) + 1])
  {
    SeenAfter(ix, s, n);
    var after := emitted[ix.members[n].lane := CountAt(emitted, ix.members[n].lane) + 1];
    assert forall l :: CountAt(after, l) > 0 <==> CountAt(emitted, l) > 0 || l == ix.members[n].lane;
  }

  /** Splices each lane's composer in after its first member. */
  method SpliceComposers(ix: Index, s: seq<string>) returns (out: seq<string>)
    requires forall n :: n in s ==> n in ix.members
    ensures out == Paths(ix, Splice(ix, s))
  {
    out := [];
    var emitted: map<string, nat> := map[];
    for i := 0 to |s|
      invariant out == Paths(ix, Splice(ix, s[..i]))
      invariant Tallied(ix, s[..i], emitted)
    {
      var n := s[i];
      assert n in s && s[..i + 1] == s[..i] + [n];
      var m := ix.members[n];
      out := out + [m.path];
      TallyOne(ix, s[..i], n, emitted);
      PathsOfSpliced(ix, s[..i], n, CountAt(emitted, m.lane) == 0);
      emitted := emitted[m.lane := CountAt(emitted, m.lane) + 1];
      if m.lane in ix.lanes && ix.lanes[m.lane].composer != "" && emitted[m.lane] == 1 {
        out := out + [ix.lanes[m.lane].composer];
      }
    }
    assert s[..|s|] == s;
  }

  lemma SeenAfter(ix: Index, s: seq<string>, n: string)
    requires n in ix.members
    ensures forall l :: LaneSeen(ix, s + [n], l) <==> LaneSeen(ix, s, l) || ix.members[n].lane == l
  {
    forall l ensures LaneSeen(ix, s + [n], l) <==> LaneSeen(ix, s, l) || ix.members[n].lane == l {
      if LaneSeen(ix, s, l) {
        var m :| m in s && m in ix.members && ix.members[m].lane == l;
        assert m in s + [n];
      }
      if ix.members[n].lane == l { assert n in s + [n]; }
    }
  }

  /** Checks every lane, in whatever order the map walk yields them. */
  method ValidateLanes(lanes: Lanes) returns (bad: Option<Fault>)
    requires forall l :: l in lanes ==> Distinct(lanes[l].members)
    ensures bad == None <==> forall l :: l in lanes ==> LaneOk(lanes[l])
    ensures bad.Some? ==>
              bad.value.BadLane? && bad.value.lane in lanes && Blamed(lanes[bad.value.lane], bad.value.shape)
  {
    var walk := WalkKeys(lanes.Keys);
    for k := 0 to |walk|
      invariant forall l :: l in walk[..k] && l in lanes ==> LaneOk(lanes[l])
    {
      assert walk[k] in Elements(walk);
      var fault := Validate(lanes[walk[k]]);
      if fault.Some? { return Some(BadLane(walk[k], fault.value)); }
      assert walk[..k + 1] == walk[..k] + [walk[k]];
    }
    assert walk[..|walk|] == walk;
    assert forall l :: l in lanes ==> l in Elements(walk);
    return None;
  }
}
