/** ApplyOrder of internal/catalog/order.go, said of the pack's own files. */
module PackApply {
  import opened Results
  import opened Ordering
  import opened PackTopo
  import opened PackOrder

  // ------------------------------------------------------------- what files say

  /** The pipeline runs in the lane: the one it declares, its folder's if it declares none. */
  predicate RunsIn(f: File, lane: string) {
    f.Pipeline? && lane == if f.lane != "" then f.lane else f.folder
  }

  predicate Orders(f: File, lane: string) {
    f.Composer? && f.lane == lane
  }

  /** The names of the lane's pipelines, in file order. */
  function NamesIn(files: seq<File>, lane: string): seq<string> {
    if files == [] then []
    else
      var f := files[|files| - 1];
      NamesIn(files[..|files| - 1], lane) + if RunsIn(f, lane) then [f.name] else []
  }

  predicate Uses(files: seq<File>, lane: string) {
    exists f :: f in files && (RunsIn(f, lane) || Orders(f, lane))
  }

  /** Every member is a pipeline file's, with that file's path, lane and dependencies. */
  ghost predicate MembersRecorded(members: Members, files: seq<File>) {
    && (forall f :: f in files && f.Pipeline? ==>
          f.name in members
          && members[f.name] == Member(f.name, f.path, if f.lane != "" then f.lane else f.folder, f.deps))
    && (forall n :: n in members ==> exists f :: f in files && f.Pipeline? && f.name == n)
  }

  /** Every composer is a composer file's, with that file's path and order. */
  ghost predicate ComposersRecorded(lanes: Lanes, files: seq<File>) {
    && (forall f :: f in files && f.Composer? ==>
          f.lane in lanes && lanes[f.lane].composer == f.path && lanes[f.lane].order == f.order)
    && (forall l :: l in lanes && lanes[l].composer != "" ==> exists f :: f in files && Orders(f, l))
  }

  /** The lanes are those in use, each with its pipelines' names in file order. */
  ghost predicate LanesRecorded(lanes: Lanes, files: seq<File>) {
    && (forall l :: l in lanes <==> Uses(files, l))
    && (forall l :: l in lanes ==> lanes[l].members == NamesIn(files, l))
  }

  /** The index says of every pipeline and composer what its own file says. */
  ghost predicate Records(ix: Index, files: seq<File>) {
    MembersRecorded(ix.members, files) && ComposersRecorded(ix.lanes, files) && LanesRecorded(ix.lanes, files)
  }

  lemma {:induction false} IndexRecords(files: seq<File>)
    requires PathsNamed(files) && IndexFiles(files).Ok?
    ensures Records(IndexFiles(files).value, files)
  {
    if files != [] {
      var init, f := files[..|files| - 1], files[|files| - 1];
      assert files == init + [f];
      assert forall g :: g in files <==> g in init || g == f;
      IndexRecords(init);
      RecordOne(IndexFiles(init).value, init, f);
    }
  }

  lemma UsesOneMore(init: seq<File>, f: File, lane: string)
    ensures Uses(init + [f], lane) <==> Uses(init, lane) || RunsIn(f, lane) || Orders(f, lane)
    ensures NamesIn(init + [f], lane) == NamesIn(init, lane) + if RunsIn(f, lane) then [f.name] else []
  {
    assert forall g :: g in init + [f] <==> g in init || g == f;
    assert (init + [f])[..|init|] == init;
  }

  lemma {:induction false} UnusedHasNoNames(files: seq<File>, lane: string)
    requires !Uses(files, lane)
    ensures NamesIn(files, lane) == []
  {
    if files != [] {
      UsesOneMore(files[..|files| - 1], files[|files| - 1], lane);
      assert files[..|files| - 1] + [files[|files| - 1]] == files;
      UnusedHasNoNames(files[..|files| - 1], lane);
    }
  }

  lemma RecordMember(ix: Index, init: seq<File>, f: File)
    requires MembersRecorded(ix.members, init) && IndexFile(ix, f).Ok?
    ensures MembersRecorded(IndexFile(ix, f).value.members, init + [f])
  {
    var files, members := init + [f], IndexFile(ix, f).value.members;
    assert forall g :: g in files <==> g in init || g == f;
    forall n | n in members ensures exists g :: g in files && g.Pipeline? && g.name == n {
      if n in ix.members {
        var g :| g in init && g.Pipeline? && g.name == n;
        assert g in files;
      } else {
        assert f in files;
      }
    }
  }

  lemma RecordComposer(ix: Index, init: seq<File>, f: File)
    requires ComposersRecorded(ix.lanes, init) && IndexFile(ix, f).Ok?
    requires forall g :: g in init + [f] && g.Composer? ==> g.path != ""
    ensures ComposersRecorded(IndexFile(ix, f).value.lanes, init + [f])
  {
    var files, lanes := init + [f], IndexFile(ix, f).value.lanes;
    assert forall g :: g in files <==> g in init || g == f;
    forall l | l in lanes && lanes[l].composer != "" ensures exists g :: g in files && Orders(g, l) {
      if l in ix.lanes && ix.lanes[l].composer != "" {
        var g :| g in init && Orders(g, l);
        assert g in files;
      } else {
        assert f in files && Orders(f, l);
      }
    }
  }

  lemma RecordLane(ix: Index, init: seq<File>, f: File)
    requires LanesRecorded(ix.lanes, init) && IndexFile(ix, f).Ok?
    ensures LanesRecorded(IndexFile(ix, f).value.lanes, init + [f])
  {
    var lanes := IndexFile(ix, f).value.lanes;
    forall l ensures l in lanes <==> Uses(init + [f], l) { UsesOneMore(init, f, l); }
    forall l | l in lanes ensures lanes[l].members == NamesIn(init + [f], l) {
      UsesOneMore(init, f, l);
      if l !in ix.lanes { UnusedHasNoNames(init, l); }
    }
  }

  lemma RecordOne(ix: Index, init: seq<File>, f: File)
    requires Records(ix, init) && IndexFile(ix, f).Ok?
    requires forall g :: g in init + [f] && g.Composer? ==> g.path != ""
    ensures Records(IndexFile(ix, f).value, init + [f])
  {
    RecordMember(ix, init, f);
    RecordComposer(ix, init, f);
    RecordLane(ix, init, f);
  }

  // ------------------------------------------------------- which packs are lawful

  /** File i is the fault: it does not parse, or declares again what an earlier file
      declared. */
  ghost predicate Amiss(files: seq<File>, i: int, fault: Fault) {
    0 <= i < |files| &&
    match files[i]
    case Other(_) => false
    case Unparsable(path) => fault == BadDeclaration(path)
    case Pipeline(_, name, _, _, _) =>
      fault == DeclaredTwice(name) && exists g :: g in files[..i] && g.Pipeline? && g.name == name
    case Composer(_, lane, _) =>
      fault == TwoComposers(lane) && exists g :: g in files[..i] && Orders(g, lane)
  }

  ghost predicate Clean(files: seq<File>) {
    forall i, fault :: !Amiss(files, i, fault)
  }

  /** Lane l is lawful: without a composer it runs one pipeline; with one, that
      composer orders exactly its pipelines. */
  ghost predicate LaneLawful(files: seq<File>, l: string) {
    var names := NamesIn(files, l);
    if exists f :: f in files && Orders(f, l) then
      names != [] && forall f :: f in files && Orders(f, l) ==> multiset(f.order) == multiset(names)
    else |names| == 1
  }

  /** Pipeline a of the pack names pipeline b of the pack among its dependencies. */
  ghost predicate Depends(files: seq<File>, a: string, b: string) {
    exists f, g :: f in files && g in files && f.Pipeline? && g.Pipeline? && f.name == a && g.name == b && b in f.deps
  }

  ghost predicate DependencyCycle(files: seq<File>, p: seq<string>) {
    && |p| >= 2 && p[0] == p[|p| - 1]
    && forall i, j :: 0 <= i && j == i + 1 && j < |p| ==> Depends(files, p[i], p[j])
  }

  /** The packs that can be applied. */
  ghost predicate Lawful(files: seq<File>) {
    && Clean(files)
    && (exists f :: f in files && f.Pipeline?)
    && (forall l :: Uses(files, l) ==> LaneLawful(files, l))
    && !exists p :: DependencyCycle(files, p)
  }

  lemma AmissInPrefix(init: seq<File>, f: File, i: int, fault: Fault)
    requires i < |init|
    ensures Amiss(init + [f], i, fault) <==> Amiss(init, i, fault)
  {
    if 0 <= i { assert (init + [f])[..i] == init[..i]; }
  }

  /** The index stops at the first file amiss, with that file's fault. */
  lemma {:induction false} IndexFaults(files: seq<File>)
    requires PathsNamed(files)
    ensures IndexFiles(files).Ok? <==> Clean(files)
    ensures IndexFiles(files).Err? ==> exists i :: Amiss(files, i, IndexFiles(files).error) && Clean(files[..i])
  {
    if files != [] {
      var init, f := files[..|files| - 1], files[|files| - 1];
      assert files == init + [f];
      assert forall g :: g in init ==> g in files;
      IndexFaults(init);
      forall i, fault | i < |init| ensures Amiss(files, i, fault) <==> Amiss(init, i, fault) {
        AmissInPrefix(init, f, i, fault);
      }
      if IndexFiles(init).Err? {
        var e := IndexFiles(init).error;
        var i :| Amiss(init, i, e) && Clean(init[..i]);
        assert init[..i] == files[..i] && Amiss(files, i, e);
      } else {
        LastAmiss(files, init, f);
      }
    }
  }

  lemma LastAmiss(files: seq<File>, init: seq<File>, f: File)
    requires files == init + [f] && PathsNamed(files) && IndexFiles(init).Ok? && Clean(init)
    requires forall i, fault :: i < |init| ==> (Amiss(files, i, fault) <==> Amiss(init, i, fault))
    ensures IndexFiles(files).Ok? <==> Clean(files)
    ensures IndexFiles(files).Err? ==> exists i :: Amiss(files, i, IndexFiles(files).error) && Clean(files[..i])
  {
    assert files[..|init|] == init;
    IndexRecords(init);
    var ix := IndexFiles(init).value;
    if f.Pipeline? {
      assert f.name in ix.members <==> exists g :: g in init && g.Pipeline? && g.name == f.name;
    } else if f.Composer? {
      ComposerTaken(ix.lanes, init, f.lane);
    }
    assert IndexFiles(files) == IndexFile(ix, f);
    if IndexFile(ix, f).Err? {
      assert Amiss(files, |init|, IndexFile(ix, f).error);
    }
  }

  lemma ComposerTaken(lanes: Lanes, files: seq<File>, lane: string)
    requires ComposersRecorded(lanes, files) && forall g :: g in files && g.Composer? ==> g.path != ""
    ensures lane in lanes && lanes[lane].composer != "" <==> exists g :: g in files && Orders(g, lane)
  {
    if g :| g in files && Orders(g, lane) { assert lanes[lane].composer == g.path; }
  }

  lemma LaneLawfulIsLaneOk(ix: Index, files: seq<File>, l: string)
    requires Records(ix, files) && l in ix.lanes && forall f :: f in files && f.Composer? ==> f.path != ""
    ensures LaneLawful(files, l) <==> LaneOk(ix.lanes[l])
  {
    if f :| f in files && Orders(f, l) { assert ix.lanes[l].composer == f.path; }
  }

  lemma DependsIsInPack(ix: Index, files: seq<File>, a: string, b: string)
    requires Records(ix, files)
    ensures Depends(files, a, b) <==> a in ix.members && b in InPackDeps(ix.members, a)
  {
    if a in ix.members && b in InPackDeps(ix.members, a) {
      var f :| f in files && f.Pipeline? && f.name == a;
      var g :| g in files && g.Pipeline? && g.name == b;
      assert ix.members[f.name].deps == f.deps;
    }
  }

  lemma CycleIsCycle(ix: Index, files: seq<File>, p: seq<string>)
    requires Records(ix, files)
    ensures DependencyCycle(files, p) <==> Cycle(ix.members, p)
  {
    forall a, b { DependsIsInPack(ix, files, a, b); }
    if DependencyCycle(files, p) {
      forall i | 0 <= i < |p| ensures p[i] in ix.members {
        var k := if i < |p| - 1 then i else 0;
        assert Depends(files, p[k], p[k + 1]) && p[i] == p[k];
      }
    }
  }

  /** The index's verdict is the files' own. */
  lemma {:induction false} ApplicableIsLawful(files: seq<File>)
    requires PathsNamed(files)
    ensures Applicable(files) <==> Lawful(files)
  {
    IndexFaults(files);
    if Clean(files) {
      IndexRecords(files);
      var ix := IndexFiles(files).value;
      forall l | l in ix.lanes
        ensures LaneLawful(files, l) <==> LaneOk(ix.lanes[l])
      {
        LaneLawfulIsLaneOk(ix, files, l);
      }
      forall p ensures DependencyCycle(files, p) <==> Cycle(ix.members, p) { CycleIsCycle(ix, files, p); }
      SomePipeline(ix, files);
    }
  }

  lemma SomePipeline(ix: Index, files: seq<File>)
    requires Records(ix, files)
    ensures ix.members != map[] <==> exists f :: f in files && f.Pipeline?
  {
    if ix.members != map[] {
      var n :| n in ix.members;
    }
  }

  // --------------------------------------------------------- the apply sequence

  /** What comes before a member in the spliced sequence is the splice of the members
      before it. */
  lemma {:induction false} SpliceAt(ix: Index, s: seq<string>, i: nat)
    requires i < |s|
    ensures Splice(ix, s[..i]) + [PipelineOf(s[i])] <= Splice(ix, s)
  {
    var init := s[..|s| - 1];
    if i < |s| - 1 {
      SpliceAt(ix, init, i);
      assert init[..i] == s[..i];
    }
  }

  /** A composer follows its lane's first member at once. */
  lemma {:induction false} ComposerAt(ix: Index, s: seq<string>, k: nat)
    requires (forall n :: n in s ==> n in ix.members) && k < |Splice(ix, s)| && Splice(ix, s)[k].ComposerOf?
    ensures var t, l := Splice(ix, s), Splice(ix, s)[k].lane;
            && k > 0 && t[k - 1].PipelineOf? && t[k - 1].name in ix.members && ix.members[t[k - 1].name].lane == l
            && forall i :: 0 <= i < k - 1 && t[i].PipelineOf? ==>
                 t[i].name in ix.members && ix.members[t[i].name].lane != l
  {
    var init, n := s[..|s| - 1], s[|s| - 1];
    assert s == init + [n];
    var before := Splice(ix, init);
    if k < |before| {
      ComposerAt(ix, init, k);
    } else {
      forall i | 0 <= i < |before| && before[i].PipelineOf?
        ensures before[i].name in ix.members && ix.members[before[i].name].lane != Splice(ix, s)[k].lane
      {
        SpliceHolds(ix, init, before[i]);
        assert before[i] in before;
      }
    }
  }

  lemma DistinctAt<T(!new)>(s: seq<T>, i: nat, j: nat)
    requires Distinct(s) && i < |s| && j < |s| && s[i] == s[j]
    ensures i == j
  {}

  lemma {:induction false} SpliceLonger(ix: Index, s: seq<string>, a: nat, b: nat)
    requires a <= b <= |s|
    ensures |Splice(ix, s[..a])| <= |Splice(ix, s[..b])|
  {
    if a < b {
      SpliceLonger(ix, s, a, b - 1);
      assert s[..b][..b - 1] == s[..b - 1];
    }
  }

  lemma ItemAt(ix: Index, s: seq<string>, a: nat, i: nat)
    requires Distinct(Splice(ix, s)) && a < |s| && i < |Splice(ix, s)| && Splice(ix, s)[i] == PipelineOf(s[a])
    ensures i == |Splice(ix, s[..a])| && Splice(ix, s)[..i] == Splice(ix, s[..a])
  {
    SpliceAt(ix, s, a);
    DistinctAt(Splice(ix, s), i, |Splice(ix, s[..a])|);
  }

  /** Members come out of the splice in their own order. */
  lemma SameOrder(ix: Index, s: seq<string>, a: nat, b: nat, i: nat, j: nat)
    requires Distinct(Splice(ix, s)) && a < |s| && b < |s| && i < j < |Splice(ix, s)|
    requires Splice(ix, s)[i] == PipelineOf(s[a]) && Splice(ix, s)[j] == PipelineOf(s[b])
    ensures a < b
  {
    ItemAt(ix, s, a, i);
    ItemAt(ix, s, b, j);
    if b <= a { SpliceLonger(ix, s, b, a); }
  }

  /** In the apply sequence, a pipeline that ranks earlier than one before it still
      waited for a dependency there. */
  lemma OutOfRankItems(ix: Index, i: nat, j: nat)
    requires !exists p :: Cycle(ix.members, p)
    requires i < j < |ApplySequence(ix)| && ApplySequence(ix)[i].PipelineOf? && ApplySequence(ix)[j].PipelineOf?
    requires var a, b := ApplySequence(ix)[i].name, ApplySequence(ix)[j].name;
             && a in ix.members && b in ix.members
             && var late, soon := ix.members[b].lane, ix.members[a].lane;
                || Before(late, soon)
                || (late == soon && Position(ix.lanes, late, b) < Position(ix.lanes, soon, a))
    ensures exists d :: d in InPackDeps(ix.members, ApplySequence(ix)[j].name)
                        && PipelineOf(d) !in ApplySequence(ix)[..i]
  {
    var s, out := Emitted(ix.members, ix.lanes), ApplySequence(ix);
    EmittedIsEveryMember(ix);
    var x := IndexIn(s, out[i].name);
    var y := IndexIn(s, out[j].name);
    SpliceDistinct(ix, s);
    SameOrder(ix, s, x, y, i, j);
    OutOfRankMeansBlocked(ix.members, ix.lanes, x, y);
    var d :| d in InPackDeps(ix.members, s[y]) && d !in s[..x];
    ItemAt(ix, s, x, i);
    SpliceHolds(ix, s[..x], PipelineOf(d));
  }

  lemma IndexIn<T>(s: seq<T>, x: T) returns (i: nat)
    requires x in s
    ensures i < |s| && s[i] == x
  {
    i :| 0 <= i < |s| && s[i] == x;
  }

  // ----------------------------------------------------- the files, in apply order

  function HomeLane(f: File): string {
    if f.Pipeline? then if f.lane != "" then f.lane else f.folder
    else if f.Composer? then f.lane else ""
  }

  /** The pack's declaring files, in file order. */
  function Declaring(files: seq<File>): seq<File> {
    if files == [] then []
    else
      var f := files[|files| - 1];
      Declaring(files[..|files| - 1]) + if f.Pipeline? || f.Composer? then [f] else []
  }

  function PathsOf(files: seq<File>): seq<string> {
    Mapped((f: File) => f.path, files)
  }

  /** Pipeline f ranks before pipeline g: by lane, then by their composer's order. */
  ghost predicate RanksBefore(files: seq<File>, f: File, g: File)
    requires f.Pipeline? && g.Pipeline?
  {
    || Before(HomeLane(f), HomeLane(g))
    || (HomeLane(f) == HomeLane(g)
        && exists c, k, l :: c in files && Orders(c, HomeLane(f))
             && 0 <= k < l < |c.order| && c.order[k] == f.name && c.order[l] == g.name)
  }

  /** Every pipeline comes after the pipelines it depends on. */
  ghost predicate DependenciesFirst(out: seq<File>) {
    forall i, j ::
      0 <= i < |out| && 0 <= j < |out| && out[i].Pipeline? && out[j].Pipeline? && out[j].name in out[i].deps ==> j < i
  }

  /** Every composer comes right behind the first pipeline of its lane. */
  ghost predicate ComposersSecond(out: seq<File>) {
    forall k :: 0 <= k < |out| && out[k].Composer? ==>
      && k > 0 && RunsIn(out[k - 1], out[k].lane)
      && forall i :: 0 <= i < k - 1 ==> !RunsIn(out[i], out[k].lane)
  }

  /** A pipeline comes behind one it ranks before only if it waited there for a
      dependency. */
  ghost predicate EarliestReady(files: seq<File>, out: seq<File>) {
    forall i, j :: 0 <= i < j < |out| && out[i].Pipeline? && out[j].Pipeline? && RanksBefore(files, out[j], out[i]) ==>
      exists g :: g in files && g.Pipeline? && g.name in out[j].deps && g !in out[..i]
  }

  /** The pack's declaring files in the order they are to be applied. */
  ghost predicate AppliedInOrder(files: seq<File>, out: seq<File>) {
    && multiset(out) == multiset(Declaring(files))
    && DependenciesFirst(out) && ComposersSecond(out) && EarliestReady(files, out)
  }

  predicate Declares(f: File, item: Item) {
    match item
    case PipelineOf(n) => f.Pipeline? && f.name == n
    case ComposerOf(l) => Orders(f, l)
  }

  /** The file that declares the item. */
  function FileFor(files: seq<File>, item: Item): File {
    if files == [] then Other("")
    else if Declares(files[|files| - 1], item) then files[|files| - 1]
    else FileFor(files[..|files| - 1], item)
  }

  lemma {:induction false} FileForDeclares(files: seq<File>, item: Item)
    requires item in Declared(files)
    ensures FileFor(files, item) in files && Declares(FileFor(files, item), item)
  {
    var init, f := files[..|files| - 1], files[|files| - 1];
    assert files == init + [f];
    if !Declares(f, item) { FileForDeclares(init, item); }
  }

  /** In a clean pack no two files declare one item. */
  lemma OneFileDeclares(files: seq<File>, i: nat, j: nat, item: Item)
    requires Clean(files) && i < j < |files| && Declares(files[i], item)
    ensures !Declares(files[j], item)
  {
    if Declares(files[j], item) {
      assert files[i] in files[..j];
      var fault := if item.PipelineOf? then DeclaredTwice(item.name) else TwoComposers(item.lane);
      assert Amiss(files, j, fault);
    }
  }

  lemma {:induction false} FileForIs(files: seq<File>, n: nat, i: nat, item: Item)
    requires Clean(files) && i < n <= |files| && Declares(files[i], item)
    ensures FileFor(files[..n], item) == files[i]
  {
    if i < n - 1 {
      OneFileDeclares(files, i, n - 1, item);
      assert files[..n][..n - 1] == files[..n - 1];
      FileForIs(files, n - 1, i, item);
    }
  }

  /** The declared items' files are the declaring files. */
  lemma {:induction false} FilesOfDeclared(files: seq<File>, n: nat)
    requires Clean(files) && n <= |files|
    ensures Mapped(item => FileFor(files, item), Declared(files[..n])) == Declaring(files[..n])
  {
    if n > 0 {
      var init, f := files[..n - 1], files[n - 1];
      assert files[..n][..n - 1] == init;
      FilesOfDeclared(files, n - 1);
      if f.Pipeline? || f.Composer? {
        var item := ItemsOf(f)[0];
        assert files[..|files|] == files;
        FileForIs(files, |files|, n - 1, item);
        assert Declared(files[..n]) == Declared(init) + [item];
      } else {
        assert Declared(files[..n]) == Declared(init);
      }
    }
  }

  /** The files behind a sequence of declared items. */
  ghost predicate FilesBehind(files: seq<File>, items: seq<Item>, out: seq<File>) {
    && |out| == |items|
    && forall k :: 0 <= k < |out| ==> out[k] in files && Declares(out[k], items[k])
  }

  lemma PathsBehind(ix: Index, files: seq<File>, items: seq<Item>, out: seq<File>)
    requires Records(ix, files) && FilesBehind(files, items, out)
    ensures Paths(ix, items) == PathsOf(out)
  {
    forall k | 0 <= k < |items| ensures PathOf(ix, items[k]) == out[k].path {
      assert out[k] in files && Declares(out[k], items[k]);
    }
  }

  lemma DependenciesBehind(files: seq<File>, out: seq<File>)
    requires PathsNamed(files) && Applicable(files)
    requires FilesBehind(files, ApplySequence(IndexFiles(files).value), out)
    ensures DependenciesFirst(out)
  {
    var ix := IndexFiles(files).value;
    var items := ApplySequence(ix);
    IndexRecords(files);
    ApplySequenceIsLawful(files);
    forall i, j | 0 <= i < |out| && 0 <= j < |out| && out[i].Pipeline? && out[j].Pipeline? && out[j].name in out[i].deps
      ensures j < i
    {
      assert Declares(out[i], items[i]) && Declares(out[j], items[j]);
      DependenciesAppliedFirst(files, out[i].name, out[j].name);
      var a, b :| 0 <= a < b < |items| && items[a] == PipelineOf(out[j].name) && items[b] == PipelineOf(out[i].name);
      DistinctAt(items, a, j);
      DistinctAt(items, b, i);
    }
  }

  lemma ComposersBehind(files: seq<File>, out: seq<File>)
    requires PathsNamed(files) && Applicable(files)
    requires FilesBehind(files, ApplySequence(IndexFiles(files).value), out)
    ensures ComposersSecond(out)
  {
    var ix := IndexFiles(files).value;
    var items := ApplySequence(ix);
    IndexRecords(files);
    EmittedIsEveryMember(ix);
    forall k | 0 <= k < |out| && out[k].Composer?
      ensures k > 0 && RunsIn(out[k - 1], out[k].lane)
      ensures forall i :: 0 <= i < k - 1 ==> !RunsIn(out[i], out[k].lane)
    {
      assert Declares(out[k], items[k]);
      ComposerAt(ix, Emitted(ix.members, ix.lanes), k);
      assert Declares(out[k - 1], items[k - 1]) && out[k - 1] in files;
      forall i | 0 <= i < k - 1 ensures !RunsIn(out[i], out[k].lane) {
        assert Declares(out[i], items[i]) && out[i] in files;
      }
    }
  }

  lemma {:induction false} LastIndexAt(order: seq<string>, k: nat)
    requires Distinct(order) && k < |order|
    ensures LastIndex(order, order[k]) == k
  {
    if k < |order| - 1 { LastIndexAt(order[..|order| - 1], k); }
  }

  /** The composer's order gives the positions. */
  lemma RankIsPosition(ix: Index, files: seq<File>, f: File, g: File)
    requires Records(ix, files) && Consistent(ix) && f in files && g in files && f.Pipeline? && g.Pipeline?
    requires forall l :: l in ix.lanes ==> LaneOk(ix.lanes[l])
    requires forall c :: c in files && c.Composer? ==> c.path != ""
    requires RanksBefore(files, f, g) && HomeLane(f) == HomeLane(g) && !Before(HomeLane(f), HomeLane(g))
    ensures Position(ix.lanes, HomeLane(f), f.name) < Position(ix.lanes, HomeLane(g), g.name)
  {
    var c, k, l :| c in files && Orders(c, HomeLane(f))
                   && 0 <= k < l < |c.order| && c.order[k] == f.name && c.order[l] == g.name;
    assert ix.lanes[c.lane].order == c.order && ix.lanes[c.lane].composer == c.path;
    PermutationBySize(c.order, ix.lanes[c.lane].members);
    LastIndexAt(c.order, k);
    LastIndexAt(c.order, l);
  }

  lemma RankBehind(files: seq<File>, out: seq<File>, i: nat, j: nat)
    requires PathsNamed(files) && Applicable(files)
    requires FilesBehind(files, ApplySequence(IndexFiles(files).value), out)
    requires i < j < |out| && out[i].Pipeline? && out[j].Pipeline? && RanksBefore(files, out[j], out[i])
    ensures exists g :: g in files && g.Pipeline? && g.name in out[j].deps && g !in out[..i]
  {
    var ix := IndexFiles(files).value;
    var items := ApplySequence(ix);
    IndexRecords(files);
    IndexHoldsTheDeclarations(files);
    assert Declares(out[i], items[i]) && Declares(out[j], items[j]) && out[i] in files && out[j] in files;
    if !Before(HomeLane(out[j]), HomeLane(out[i])) { RankIsPosition(ix, files, out[j], out[i]); }
    OutOfRankItems(ix, i, j);
    var d :| d in InPackDeps(ix.members, out[j].name) && PipelineOf(d) !in items[..i];
    var g :| g in files && g.Pipeline? && g.name == d;
    forall k | 0 <= k < i ensures out[k] != g { assert Declares(out[k], items[k]) && items[k] in items[..i]; }
    assert g !in out[..i];
  }

  lemma {:induction false} FilesAreBehind(files: seq<File>, items: seq<Item>, out: seq<File>)
    requires Clean(files) && multiset(items) == multiset(Declared(files))
    requires out == Mapped(item => FileFor(files, item), items)
    ensures FilesBehind(files, items, out) && multiset(out) == multiset(Declaring(files))
  {
    FilesOfDeclared(files, |files|);
    assert files[..|files|] == files;
    MappedKeepsMultiset(item => FileFor(files, item), items, Declared(files));
    forall k | 0 <= k < |out| ensures out[k] in files && Declares(out[k], items[k]) {
      assert items[k] in multiset(items) && items[k] in Declared(files);
      FileForDeclares(files, items[k]);
    }
  }

  lemma {:induction false} RanksBehind(files: seq<File>, out: seq<File>)
    requires PathsNamed(files) && Applicable(files)
    requires FilesBehind(files, ApplySequence(IndexFiles(files).value), out)
    ensures EarliestReady(files, out)
  {
    forall i: nat, j: nat | i < j < |out| && out[i].Pipeline? && out[j].Pipeline? && RanksBefore(files, out[j], out[i])
      ensures exists g :: g in files && g.Pipeline? && g.name in out[j].deps && g !in out[..i]
    {
      RankBehind(files, out, i, j);
    }
  }

  lemma {:induction false} FilesInOrder(files: seq<File>) returns (out: seq<File>)
    requires PathsNamed(files) && Applicable(files)
    ensures FilesBehind(files, ApplySequence(IndexFiles(files).value), out) && AppliedInOrder(files, out)
  {
    var items := ApplySequence(IndexFiles(files).value);
    out := Mapped(item => FileFor(files, item), items);
    ApplySequenceIsLawful(files);
    IndexFaults(files);
    FilesAreBehind(files, items, out);
    DependenciesBehind(files, out);
    ComposersBehind(files, out);
    RanksBehind(files, out);
  }

  // ------------------------------------------------------------------ the verdict

  /** Why the index's pack is refused. */
  ghost predicate Refusal(files: seq<File>, fault: Fault) {
    var indexed := IndexFiles(files);
    if indexed.Err? then fault == indexed.error
    else
      var ix := indexed.value;
      if ix.members == map[] then fault == NoPipelines
      else if exists l :: l in ix.lanes && !LaneOk(ix.lanes[l]) then
        fault.BadLane? && fault.lane in ix.lanes && Blamed(ix.lanes[fault.lane], fault.shape)
      else
        && (exists p :: Cycle(ix.members, p))
        && fault == DependsOnCycle(SortedNames(Stuck(ix.members, ix.lanes)))
  }

  lemma BadLaneRefuses(files: seq<File>, lane: string, shape: LaneFault)
    requires IndexFiles(files).Ok? && IndexFiles(files).value.members != map[]
    requires var ix := IndexFiles(files).value;
             lane in ix.lanes && Distinct(ix.lanes[lane].members) && Blamed(ix.lanes[lane], shape)
    ensures Refusal(files, BadLane(lane, shape)) && !Applicable(files)
  {
    BlamedOnce(IndexFiles(files).value.lanes[lane], shape, shape);
  }

  lemma CycleRefuses(files: seq<File>, stuck: seq<string>)
    requires IndexFiles(files).Ok? && IndexFiles(files).value.members != map[]
    requires var ix := IndexFiles(files).value;
             && (forall l :: l in ix.lanes ==> LaneOk(ix.lanes[l]))
             && TopoAnswer(ix.members, ix.lanes) == Err(stuck)
    ensures Refusal(files, DependsOnCycle(stuck)) && !Applicable(files)
  {
    RefusedExactlyWhenCyclic(IndexFiles(files).value.members, IndexFiles(files).value.lanes);
  }

  lemma OrderedApplies(files: seq<File>, s: seq<string>)
    requires PathsNamed(files) && IndexFiles(files).Ok? && IndexFiles(files).value.members != map[]
    requires var ix := IndexFiles(files).value;
             && (forall l :: l in ix.lanes ==> LaneOk(ix.lanes[l]))
             && TopoAnswer(ix.members, ix.lanes) == Ok(s)
    ensures var ix := IndexFiles(files).value;
            Applicable(files) && s == Emitted(ix.members, ix.lanes) && forall n :: n in s ==> n in ix.members
  {
    var ix := IndexFiles(files).value;
    RefusedExactlyWhenCyclic(ix.members, ix.lanes);
    IndexHoldsTheDeclarations(files);
    EmittedIsEveryMember(ix);
  }

  /** Indexes, checks, orders and splices, said of the index. */
  method Sequence(files: seq<File>) returns (r: Result<seq<string>, Fault>)
    requires PathsNamed(files)
    requires KeysUnshared(files)
    ensures r.Ok? <==> Applicable(files)
    ensures r.Ok? ==> r.value == Paths(IndexFiles(files).value, ApplySequence(IndexFiles(files).value))
    ensures r.Err? ==> Refusal(files, r.error)
  {
    var indexed := IndexPack(files);
    if indexed.Err? { return Err(indexed.error); }
    var ix := indexed.value;
    IndexHoldsTheDeclarations(files);
    if |ix.members| == 0 { return Err(NoPipelines); }
    var bad := ValidateLanes(ix.lanes);
    if bad.Some? {
      BadLaneRefuses(files, bad.value.lane, bad.value.shape);
      return Err(bad.value);
    }
    MembersUnshared(files);
    var ordered := TopoMembers(ix.members, ix.lanes);
    if ordered.Err? {
      CycleRefuses(files, ordered.error);
      return Err(DependsOnCycle(ordered.error));
    }
    OrderedApplies(files, ordered.value);
    var out := SpliceComposers(ix, ordered.value);
    return Ok(out);
  }

  /** From n the pack's dependencies lead into a cycle. */
  ghost predicate LeadsIntoCycle(files: seq<File>, n: string, p: seq<string>, i: int) {
    && 0 <= i < |p| - 1 && p[0] == n && p[i] == p[|p| - 1]
    && forall a, b :: 0 <= a && b == a + 1 && b < |p| ==> Depends(files, p[a], p[b])
  }

  ghost predicate Leads(files: seq<File>, n: string) {
    exists p, i :: LeadsIntoCycle(files, n, p, i)
  }

  /** What a lane's files say of it. */
  ghost predicate LaneSays(files: seq<File>, lane: string, l: Lane) {
    && l.members == NamesIn(files, lane)
    && (if exists f :: f in files && Orders(f, lane) then
          exists f :: f in files && Orders(f, lane) && l.composer == f.path && l.order == f.order
        else l.composer == "")
  }

  /** The first name ordered amiss: one the lane's pipelines do not have, or an earlier one
      again. */
  ghost predicate AmissAt(order: seq<string>, names: seq<string>, shape: LaneFault, i: int) {
    && 0 <= i < |order|
    && (forall j :: 0 <= j < i ==> order[j] in names)
    && (forall j, k :: 0 <= j < k < i ==> order[j] != order[k])
    && if order[i] !in names then shape == NotCarried(order[i])
       else shape == OrderedTwice(order[i]) && exists j :: 0 <= j < i && order[j] == order[i]
  }

  ghost predicate OrderFaulty(order: seq<string>, names: seq<string>, shape: LaneFault) {
    if names == [] then shape == ComposerWithoutMembers
    else if |order| != |names| then shape == CountMismatch
    else exists i :: AmissAt(order, names, shape, i)
  }

  /** A lane's fault: several pipelines and no composer, or an order that is not one of its
      pipelines. */
  ghost predicate LaneFaulty(files: seq<File>, lane: string, shape: LaneFault) {
    var names := NamesIn(files, lane);
    if exists f :: f in files && Orders(f, lane) then
      exists f :: f in files && Orders(f, lane) && OrderFaulty(f.order, names, shape)
    else if names == [] then shape == NoMembers
    else |names| > 1 && shape == NoComposer
  }

  lemma OrderFaultIsAmiss(order: seq<string>, names: seq<string>, shape: LaneFault)
    requires OrderFault(order, Elements(names), shape)
    ensures exists i :: AmissAt(order, names, shape, i)
  {
    var i :| FirstAmiss(order, Elements(names), i)
             && shape == if order[i] !in Elements(names) then NotCarried(order[i]) else OrderedTwice(order[i]);
    forall j | 0 <= j < i ensures order[j] in names {
      assert order[..i][j] == order[j] && order[j] in Elements(order[..i]);
    }
    forall j, k | 0 <= j < k < i ensures order[j] != order[k] { assert order[..i][j] != order[..i][k]; }
    assert AmissAt(order, names, shape, i);
  }

  lemma SaidIsFaulty(files: seq<File>, lane: string, l: Lane, shape: LaneFault)
    requires LaneSays(files, lane, l) && Blamed(l, shape)
    requires forall f :: f in files && Orders(f, lane) ==> f.path != ""
    ensures LaneFaulty(files, lane, shape)
  {
    if f :| f in files && Orders(f, lane) && l.composer == f.path && l.order == f.order {
      if l.members != [] && |l.order| == |l.members| { OrderFaultIsAmiss(l.order, l.members, shape); }
    }
  }

  /** Why a pack is refused, the checks in their order: the first file amiss; no pipeline;
      some unlawful lane's own fault; the pipelines that dependencies lead into a cycle. */
  ghost predicate Refused(files: seq<File>, fault: Fault) {
    if !Clean(files) then exists i :: Amiss(files, i, fault) && Clean(files[..i])
    else if !exists f :: f in files && f.Pipeline? then fault == NoPipelines
    else if exists l :: Uses(files, l) && !LaneLawful(files, l) then
      fault.BadLane? && Uses(files, fault.lane) && LaneFaulty(files, fault.lane, fault.shape)
    else
      && fault.DependsOnCycle? && fault.stuck != [] && Ascending(Before, fault.stuck)
      && forall n :: n in fault.stuck <==> Leads(files, n)
  }

  lemma LassoIsLead(ix: Index, files: seq<File>, n: string, p: seq<string>, i: int)
    requires Records(ix, files)
    ensures LeadsIntoCycle(files, n, p, i) <==> Lasso(ix.members, n, p, i)
  {
    forall a, b { DependsIsInPack(ix, files, a, b); }
    if LeadsIntoCycle(files, n, p, i) {
      forall k | 0 <= k < |p| ensures p[k] in ix.members {
        var a := if k < |p| - 1 then k else i;
        assert Depends(files, p[a], p[a + 1]) && p[k] == p[a];
      }
    }
  }

  lemma StuckLead(ix: Index, files: seq<File>, n: string)
    requires Records(ix, files)
    ensures n in Stuck(ix.members, ix.lanes) <==> Leads(files, n)
  {
    forall p, i { LassoIsLead(ix, files, n, p, i); }
    if n in ix.members {
      StuckExactlyWhenCycleReachable(ix.members, ix.lanes, n);
    }
  }

  lemma SortedHolds(s: set<string>)
    ensures forall n :: n in SortedNames(s) <==> n in s
  {
    assert forall n :: n in SortedNames(s) <==> n in Elements(SortedNames(s));
  }

  lemma StuckNames(ix: Index, files: seq<File>, group: set<string>)
    requires Records(ix, files) && group == Stuck(ix.members, ix.lanes) && group != {}
    ensures forall n :: n in SortedNames(group) <==> Leads(files, n)
  {
    SortedHolds(group);
    forall n ensures n in group <==> Leads(files, n) { StuckLead(ix, files, n); }
  }

  lemma BlamedLane(ix: Index, files: seq<File>, lane: string, shape: LaneFault)
    requires Records(ix, files) && lane in ix.lanes && Blamed(ix.lanes[lane], shape)
    requires forall c :: c in files && c.Composer? ==> c.path != ""
    ensures LaneFaulty(files, lane, shape)
  {
    if f :| f in files && Orders(f, lane) { assert ix.lanes[lane].composer == f.path; }
    SaidIsFaulty(files, lane, ix.lanes[lane], shape);
  }

  /** The index's refusals are the files' own. */
  lemma {:induction false} RefusalIsRefused(files: seq<File>, fault: Fault)
    requires PathsNamed(files) && Refusal(files, fault)
    ensures Refused(files, fault)
  {
    IndexFaults(files);
    if IndexFiles(files).Ok? {
      IndexRecords(files);
      var ix := IndexFiles(files).value;
      SomePipeline(ix, files);
      forall l | l in ix.lanes
        ensures LaneLawful(files, l) <==> LaneOk(ix.lanes[l])
      {
        LaneLawfulIsLaneOk(ix, files, l);
      }
      if ix.members == map[] {
      } else if exists l :: l in ix.lanes && !LaneOk(ix.lanes[l]) {
        BlamedLane(ix, files, fault.lane, fault.shape);
      } else {
        RefusedExactlyWhenCyclic(ix.members, ix.lanes);
        StuckNames(ix, files, Stuck(ix.members, ix.lanes));
      }
    }
  }

  /** Derives the pack's declare sequence, or says why the pack is refused. */
  method ApplyOrder(files: seq<File>) returns (r: Result<seq<string>, Fault>)
    requires PathsNamed(files) && KeysUnshared(files)
    ensures r.Ok? <==> Lawful(files)
    ensures r.Ok? ==> exists out :: AppliedInOrder(files, out) && r.value == PathsOf(out)
    ensures r.Err? ==> Refused(files, r.error)
  {
    ApplicableIsLawful(files);
    r := Sequence(files);
    if r.Ok? {
      ghost var out := FilesInOrder(files);
      IndexRecords(files);
      PathsBehind(IndexFiles(files).value, files, ApplySequence(IndexFiles(files).value), out);
    } else {
      RefusalIsRefused(files, r.error);
    }
  }
}
