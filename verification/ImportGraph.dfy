/** The module import graph of internal/arch/graph.go: its edges, the package
    classes and the layer ranks. */
module ImportGraph {
  import opened Results
  import opened Ordering

  /** One package: its repo-relative key and the import paths of its files. */
  datatype Package = Package(rel: string, imports: seq<string>)

  /** The graph, with the module path that makes an import internal. */
  datatype Graph = Graph(modulePath: string, packages: seq<Package>)

  datatype Class = Harness | Product | Main

  const RANK_MAIN := 100

  const PRODUCT_RANKS: map<string, int> := map[
    "buildinfo" := 1, "config" := 1, "declare" := 1, "build" := 1, "pat" := 1,
    "plugin" := 1, "update" := 1, "quotes" := 1,
    "store" := 2, "pg" := 2, "exec" := 2, "catalog" := 2,
    "dispatch" := 3, "archive" := 3,
    "api" := 4,
    "daemon" := 5, "tui" := 5,
    "cli" := 6]

  function CutPrefix(s: string, prefix: string): Option<string> {
    if prefix <= s then Some(s[|prefix|..]) else None
  }

  /** An import path's repo-relative key, if it is internal to the module. */
  function RelOf(g: Graph, path: string): Option<string> {
    var internal := CutPrefix(path, g.modulePath + "/internal/");
    if internal.Some? then internal
    else
      var cmd := CutPrefix(path, g.modulePath + "/cmd/");
      if cmd.Some? then Some("cmd/" + cmd.value) else None
  }

  function Classify(rel: string): (Class, int) {
    if rel == "cmd/iris" || "cmd/" <= rel then (Main, RANK_MAIN)
    else if '/' !in rel && rel in PRODUCT_RANKS then (Product, PRODUCT_RANKS[rel])
    else (Harness, 0)
  }

  predicate Shipped(rel: string) {
    Classify(rel).0 != Harness
  }

  function RankOf(rel: string): int {
    Classify(rel).1
  }

  /** The layers, bottom first: everything under cmd/ is on top, and any other package
      is test scaffolding. */
  lemma Roster(rel: string)
    ensures Shipped(rel) && RankOf(rel) == 1 <==>
              rel in {"buildinfo", "config", "declare", "build", "pat", "plugin", "update", "quotes"}
    ensures Shipped(rel) && RankOf(rel) == 2 <==> rel in {"store", "pg", "exec", "catalog"}
    ensures Shipped(rel) && RankOf(rel) == 3 <==> rel in {"dispatch", "archive"}
    ensures Shipped(rel) && RankOf(rel) == 4 <==> rel == "api"
    ensures Shipped(rel) && RankOf(rel) == 5 <==> rel in {"daemon", "tui"}
    ensures Shipped(rel) && RankOf(rel) == 6 <==> rel == "cli"
    ensures Shipped(rel) && !(1 <= RankOf(rel) <= 6) <==> "cmd/" <= rel
    ensures "cmd/" <= rel ==> RankOf(rel) == 100
  {
    RosterHoldsNoSlash();
    if "cmd/" <= rel { assert rel[3] == '/'; }
  }

  lemma RosterHoldsNoSlash()
    ensures forall rel :: rel in PRODUCT_RANKS ==> '/' !in rel
  {}

  // ------------------------------------------------------------- import edges

  /** The internal packages p imports. */
  function Targets(g: Graph, p: Package): set<string> {
    set imp | imp in p.imports && RelOf(g, imp).Some? :: RelOf(g, imp).value
  }

  /** p imports the package keyed v: by its path under internal/, or under cmd/. */
  ghost predicate Imports(g: Graph, p: Package, v: string) {
    || g.modulePath + "/internal/" + v in p.imports
    || exists r :: v == "cmd/" + r && g.modulePath + "/cmd/" + r in p.imports
  }

  /** Some package keyed u imports the package keyed v. */
  ghost predicate Edge(g: Graph, u: string, v: string) {
    exists p :: p in g.packages && p.rel == u && Imports(g, p, v)
  }

  lemma PrefixCut(s: string, prefix: string, rest: string)
    ensures CutPrefix(s, prefix) == Some(rest) <==> s == prefix + rest
  {
    if prefix <= s { assert s == prefix + s[|prefix|..]; }
    assert (prefix + rest)[|prefix|..] == rest;
  }

  /** No path is both under internal/ and under cmd/. */
  lemma TreesApart(m: string, a: string, b: string)
    ensures m + "/internal/" + a != m + "/cmd/" + b
  {
    assert (m + "/internal/" + a)[|m| + 1] == 'i' && (m + "/cmd/" + b)[|m| + 1] == 'c';
  }

  lemma RelOfPath(g: Graph, path: string, v: string)
    ensures RelOf(g, path) == Some(v)
       <==> path == g.modulePath + "/internal/" + v || exists r :: v == "cmd/" + r && path == g.modulePath + "/cmd/" + r
  {
    PrefixCut(path, g.modulePath + "/internal/", v);
    var internal := CutPrefix(path, g.modulePath + "/internal/");
    forall r ensures CutPrefix(path, g.modulePath + "/cmd/") == Some(r) <==> path == g.modulePath + "/cmd/" + r {
      PrefixCut(path, g.modulePath + "/cmd/", r);
    }
    forall r ensures internal.Some? ==> path != g.modulePath + "/cmd/" + r {
      if internal.Some? {
        PrefixCut(path, g.modulePath + "/internal/", internal.value);
        TreesApart(g.modulePath, internal.value, r);
      }
    }
  }

  /** The resolved targets of a package are the packages it imports. */
  lemma TargetsAreImports(g: Graph, p: Package, v: string)
    ensures v in Targets(g, p) <==> Imports(g, p, v)
  {
    forall imp | imp in p.imports { RelOfPath(g, imp, v); }
    if Imports(g, p, v) {
      if g.modulePath + "/internal/" + v in p.imports {
        RelOfPath(g, g.modulePath + "/internal/" + v, v);
      } else {
        var r :| v == "cmd/" + r && g.modulePath + "/cmd/" + r in p.imports;
        RelOfPath(g, g.modulePath + "/cmd/" + r, v);
      }
    }
  }

  /** p follows import edges. */
  ghost predicate Path(g: Graph, p: seq<string>) {
    p != [] && forall i, j :: 0 <= i && j == i + 1 && j < |p| ==> Edge(g, p[i], p[j])
  }

  /** A closed path: back at its start after at least one edge. */
  ghost predicate Cycle(g: Graph, p: seq<string>) {
    Path(g, p) && |p| >= 2 && p[0] == p[|p| - 1]
  }

  lemma PathSlice(g: Graph, p: seq<string>, lo: int, hi: int)
    requires Path(g, p) && 0 <= lo < hi <= |p|
    ensures Path(g, p[lo..hi])
  {
    var q := p[lo..hi];
    forall i, j | 0 <= i && j == i + 1 && j < |q| ensures Edge(g, q[i], q[j]) {
      assert q[i] == p[lo + i] && q[j] == p[lo + j];
    }
  }

  /** p's internal imports, without repeats, sorted. */
  method InternalImports(g: Graph, p: Package) returns (out: seq<string>)
    ensures out == SortedNames(Targets(g, p))
  {
    var seen: set<string> := {};
    out := [];
    for i := 0 to |p.imports|
      invariant seen == Elements(out) && Distinct(out)
      invariant seen == Targets(g, p.(imports := p.imports[..i]))
    {
      var imp := p.imports[i];
      var rel := RelOf(g, imp);
      TargetsGrow(g, p, i);
      if rel.Some? && rel.value !in seen {
        seen := seen + {rel.value};
        assert Elements(out + [rel.value]) == Elements(out) + {rel.value};
        assert rel.value !in out;
        out := out + [rel.value];
      }
    }
    assert p.(imports := p.imports[..|p.imports|]) == p;
    SortedStrings(out);
    out := Sort(Before, out);
  }

  lemma TargetsGrow(g: Graph, p: Package, i: nat)
    requires i < |p.imports|
    ensures var rel := RelOf(g, p.imports[i]);
            Targets(g, p.(imports := p.imports[..i + 1]))
              == Targets(g, p.(imports := p.imports[..i])) + (if rel.Some? then {rel.value} else {})
  {
    assert p.imports[..i + 1] == p.imports[..i] + [p.imports[i]];
  }

  predicate RelBefore(a: Package, b: Package) {
    Before(a.rel, b.rel)
  }

  /** The packages ordered by key; which of two packages with one key comes
      first is the sort's business. */
  function SortedPackages(g: Graph): (r: seq<Package>)
    ensures multiset(r) == multiset(g.packages)
  {
    Sort(RelBefore, g.packages)
  }

  // ---------------------------------------------------------- the two gates

  /** One offending edge: from a shipped package to the package it imports. */
  datatype EdgeViolation = EdgeViolation(subject: string, target: string)

  /** A shipped-to-shipped edge that does not go strictly down. */
  ghost predicate AgainstLayering(g: Graph, u: string, v: string) {
    Edge(g, u, v) && Shipped(u) && Shipped(v) && RankOf(v) >= RankOf(u)
  }

  /** A shipped package importing a harness package. */
  ghost predicate LeaksHarness(g: Graph, u: string, v: string) {
    Edge(g, u, v) && Shipped(u) && !Shipped(v)
  }

  /** Reported by subject, then by target, each edge once. */
  ghost predicate InReportOrder(vs: seq<EdgeViolation>) {
    forall i, j :: 0 <= i < j < |vs| ==> ReportedBefore(vs[i], vs[j])
  }

  ghost predicate ReportedBefore(a: EdgeViolation, b: EdgeViolation) {
    Before(a.subject, b.subject) || (a.subject == b.subject && Before(a.target, b.target))
  }

  /** No two packages share a key, as in a loaded graph. */
  ghost predicate KeysDiffer(g: Graph) {
    Distinct(Mapped((p: Package) => p.rel, g.packages))
  }

  lemma SortedByKey(g: Graph)
    requires KeysDiffer(g)
    ensures var ps := SortedPackages(g); forall i, j :: 0 <= i < j < |ps| ==> Before(ps[i].rel, ps[j].rel)
  {
    var ps, rel := SortedPackages(g), (p: Package) => p.rel;
    BeforeIsStrictTotal();
    StrictTotalIsWeak(Before);
    SortInOrder(RelBefore, g.packages);
    MappedKeepsMultiset(rel, g.packages, ps);
    DistinctCount(Mapped(rel, g.packages));
    DistinctCount(Mapped(rel, ps));
    forall i, j | 0 <= i < j < |ps| ensures Before(ps[i].rel, ps[j].rel) {
      assert Mapped(rel, ps)[i] != Mapped(rel, ps)[j];
      assert !RelBefore(ps[j], ps[i]);
    }
  }

  /** The refused edges leaving one package. */
  method RefusedFrom(g: Graph, p: Package, refused: (string, string) -> bool) returns (vs: seq<EdgeViolation>)
    ensures forall u, v :: EdgeViolation(u, v) in vs <==> u == p.rel && v in Targets(g, p) && refused(u, v)
    ensures InReportOrder(vs)
  {
    vs := [];
    var rels := InternalImports(g, p);
    for i := 0 to |rels|
      invariant forall u, v {:trigger EdgeViolation(u, v)} ::
        EdgeViolation(u, v) in vs <==> u == p.rel && v in Elements(rels[..i]) && refused(u, v)
      invariant InReportOrder(vs) && forall w :: w in vs ==> w.subject == p.rel && w.target in rels[..i]
    {
      var rel := rels[i];
      ElementsOneMore(rels, i);
      forall u, v { ReportedOneMore(vs, p.rel, rel, u, v); }
      if refused(p.rel, rel) {
        LastInOrder(vs, EdgeViolation(p.rel, rel));
        vs := vs + [EdgeViolation(p.rel, rel)];
      }
    }
    assert rels[..|rels|] == rels;
  }

  lemma LastInOrder(vs: seq<EdgeViolation>, w: EdgeViolation)
    requires InReportOrder(vs) && forall v :: v in vs ==> ReportedBefore(v, w)
    ensures InReportOrder(vs + [w])
  {}

  lemma JoinedInOrder(vs: seq<EdgeViolation>, more: seq<EdgeViolation>)
    requires InReportOrder(vs) && InReportOrder(more)
    requires forall v, w :: v in vs && w in more ==> ReportedBefore(v, w)
    ensures InReportOrder(vs + more)
  {}

  lemma ReportedOneMore(vs: seq<EdgeViolation>, a: string, b: string, u: string, v: string)
    ensures EdgeViolation(u, v) in vs + [EdgeViolation(a, b)] <==> EdgeViolation(u, v) in vs || (u == a && v == b)
  {}

  /** Some package of ps is u and imports v. */
  ghost predicate EdgeFrom(g: Graph, ps: seq<Package>, u: string, v: string) {
    exists p :: p in ps && p.rel == u && Imports(g, p, v)
  }

  lemma EdgeFromOneMore(g: Graph, ps: seq<Package>, p: Package, u: string, v: string)
    ensures EdgeFrom(g, ps + [p], u, v) <==> EdgeFrom(g, ps, u, v) || (p.rel == u && v in Targets(g, p))
  {
    TargetsAreImports(g, p, v);
    assert forall q :: q in ps + [p] <==> q in ps || q == p;
  }

  lemma EdgeFromSorted(g: Graph, u: string, v: string)
    ensures EdgeFrom(g, SortedPackages(g), u, v) <==> Edge(g, u, v)
  {
    var ps := SortedPackages(g);
    SameElements(g.packages, ps);
    assert forall p :: p in ps <==> p in Elements(ps);
    assert forall p :: p in g.packages <==> p in Elements(g.packages);
  }

  /** Shipped code is walked package by package; harness packages are skipped. */
  method RefusedEdges(g: Graph, refused: (string, string) -> bool) returns (vs: seq<EdgeViolation>)
    ensures forall u, v :: EdgeViolation(u, v) in vs <==> Edge(g, u, v) && Shipped(u) && refused(u, v)
    ensures KeysDiffer(g) ==> InReportOrder(vs)
  {
    vs := [];
    var ps := SortedPackages(g);
    if KeysDiffer(g) { SortedByKey(g); }
    for i := 0 to |ps|
      invariant forall u, v :: EdgeViolation(u, v) in vs <==> EdgeFrom(g, ps[..i], u, v) && Shipped(u) && refused(u, v)
      invariant KeysDiffer(g) ==> InReportOrder(vs)
    {
      assert ps[..i + 1] == ps[..i] + [ps[i]];
      forall u, v { EdgeFromOneMore(g, ps[..i], ps[i], u, v); }
      if Shipped(ps[i].rel) {
        var more := RefusedFrom(g, ps[i], refused);
        if KeysDiffer(g) { MoreInOrder(g, ps, i, vs, more); }
        vs := vs + more;
      }
    }
    assert ps[..|ps|] == ps;
    forall u, v { EdgeFromSorted(g, u, v); }
  }

  /** One package's edges come behind those of the packages before it. */
  lemma MoreInOrder(g: Graph, ps: seq<Package>, i: nat, vs: seq<EdgeViolation>, more: seq<EdgeViolation>)
    requires i < |ps| && forall j :: 0 <= j < i ==> Before(ps[j].rel, ps[i].rel)
    requires InReportOrder(vs) && InReportOrder(more)
    requires forall w :: w in vs ==> EdgeFrom(g, ps[..i], w.subject, w.target)
    requires forall w :: w in more ==> w.subject == ps[i].rel
    ensures InReportOrder(vs + more)
  {
    forall v, w | v in vs && w in more ensures ReportedBefore(v, w) {
      var p :| p in ps[..i] && p.rel == v.subject && Imports(g, p, v.target);
      var j :| 0 <= j < i && ps[..i][j] == p;
      assert Before(ps[j].rel, ps[i].rel);
    }
    JoinedInOrder(vs, more);
  }

  /** Every shipped-to-shipped edge against the layering, and nothing else. */
  method CheckDirection(g: Graph) returns (vs: seq<EdgeViolation>)
    ensures forall u, v :: EdgeViolation(u, v) in vs <==> AgainstLayering(g, u, v)
    ensures KeysDiffer(g) ==> InReportOrder(vs)
  {
    vs := RefusedEdges(g, (u, v) => Shipped(v) && RankOf(v) >= RankOf(u));
  }

  /** Every edge from shipped code into the harness, and nothing else. */
  method CheckHarnessIsolation(g: Graph) returns (vs: seq<EdgeViolation>)
    ensures forall u, v :: EdgeViolation(u, v) in vs <==> LeaksHarness(g, u, v)
    ensures KeysDiffer(g) ==> InReportOrder(vs)
  {
    vs := RefusedEdges(g, (u, v) => !Shipped(v));
  }

  // --------------------------------------------- what the two gates give together

  /** Neither gate refuses an edge. */
  ghost predicate Layered(g: Graph) {
    && (forall u, v :: !AgainstLayering(g, u, v))
    && (forall u, v :: !LeaksHarness(g, u, v))
  }

  /** Both checks come back empty exactly on a layered graph. */
  method CheckLayering(g: Graph) returns (clean: bool)
    ensures clean <==> Layered(g)
  {
    var direction := CheckDirection(g);
    var isolation := CheckHarnessIsolation(g);
    clean := direction == [] && isolation == [];
    if clean {
      forall u, v ensures !AgainstLayering(g, u, v) { assert EdgeViolation(u, v) !in direction; }
      forall u, v ensures !LeaksHarness(g, u, v) { assert EdgeViolation(u, v) !in isolation; }
    } else if direction != [] {
      assert EdgeViolation(direction[0].subject, direction[0].target) in direction;
    } else {
      assert EdgeViolation(isolation[0].subject, isolation[0].target) in isolation;
    }
  }

  /** Along any import path out of shipped code every package is shipped and the
      rank falls at each step. */
  lemma {:induction false} ShippedPathsDescend(g: Graph, p: seq<string>, i: int, j: int)
    requires Layered(g) && Path(g, p) && Shipped(p[0])
    requires 0 <= i < j < |p|
    ensures Shipped(p[i]) && Shipped(p[j]) && RankOf(p[j]) < RankOf(p[i])
    decreases j
  {
    if i > 0 { ShippedPathsDescend(g, p, 0, i); }
    if i < j - 1 { ShippedPathsDescend(g, p, i, j - 1); }
    assert Edge(g, p[j - 1], p[j]);
    assert !AgainstLayering(g, p[j - 1], p[j]) && !LeaksHarness(g, p[j - 1], p[j]);
  }

  /** No import cycle touches shipped code. */
  lemma NoCycleTouchesShippedCode(g: Graph, p: seq<string>, k: int)
    requires Layered(g) && Cycle(g, p) && 0 <= k < |p|
    ensures !Shipped(p[k])
  {
    if Shipped(p[k]) {
      if k < |p| - 1 {
        var tail := p[k..|p|];
        PathSlice(g, p, k, |p|);
        assert tail[|tail| - 1] == p[0];
        ShippedPathsDescend(g, tail, 0, |tail| - 1);
      }
      ShippedPathsDescend(g, p, 0, |p| - 1);
    }
  }

  /** The layers, top first: the ranks shipped code can have. */
  function Level(rank: int): int {
    if rank == RANK_MAIN then 6 else rank - 1
  }

  lemma ShippedLevel(rel: string)
    requires Shipped(rel)
    ensures RankOf(rel) == RANK_MAIN || 1 <= RankOf(rel) <= 6
  {
    assert forall r :: r in PRODUCT_RANKS ==> 1 <= PRODUCT_RANKS[r] <= 6;
  }

  /** An import path out of shipped code has at most as many packages as there
      are ranks: seven. */
  lemma {:induction false} ShippedPathsAreShort(g: Graph, p: seq<string>)
    requires Layered(g) && Path(g, p) && Shipped(p[0])
    ensures |p| <= Level(RankOf(p[0])) + 1 <= 7
    decreases |p|
  {
    ShippedLevel(p[0]);
    if |p| > 1 {
      ShippedPathsDescend(g, p, 0, 1);
      PathSlice(g, p, 1, |p|);
      assert p[1..|p|][0] == p[1];
      ShippedPathsAreShort(g, p[1..|p|]);
    }
  }
}
