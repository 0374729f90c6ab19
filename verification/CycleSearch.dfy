/** CheckAcyclic of internal/arch/graph.go: a three-colour depth-first search with
    an explicit path stack, reporting the cycle each back edge closes. */
module CycleSearch {
  import opened Ordering
  import opened Joining
  import opened ImportGraph

  type Adjacency = map<string, seq<string>>

  datatype Color = White | Gray | Black

  /** One reported cycle: the path from subject to the package whose import of
      subject closes it. */
  datatype Violation = ImportCycle(subject: string, path: seq<string>)

  function Succ(adj: Adjacency, u: string): seq<string> {
    if u in adj then adj[u] else []
  }

  /** A Go map read: an uncoloured node is white. */
  function ColorOf(color: map<string, Color>, n: string): Color {
    if n in color then color[n] else White
  }

  function Last(s: seq<string>): string
    requires s != []
  {
    s[|s| - 1]
  }

  ghost predicate Link(adj: Adjacency, s: seq<string>, i: nat)
    requires i + 1 < |s|
  {
    s[i + 1] in Succ(adj, s[i])
  }

  ghost predicate Chain(adj: Adjacency, s: seq<string>) {
    forall i: nat {:trigger Link(adj, s, i)} :: i + 1 < |s| ==> Link(adj, s, i)
  }

  /** w is a closed path of edges without repeats, subject first. */
  ghost predicate Real(adj: Adjacency, w: Violation) {
    && w.path != [] && w.path[0] == w.subject
    && Chain(adj, w.path) && Distinct(w.path)
    && w.subject in Succ(adj, Last(w.path))
  }

  /** w's closing edge is u -> v. */
  ghost predicate Closes(w: Violation, u: string, v: string) {
    w.path != [] && Last(w.path) == u && w.subject == v
  }

  ghost predicate Reported(vs: seq<Violation>, u: string, v: string) {
    exists w :: w in vs && Closes(w, u, v)
  }

  /** u -> v is a reported closing edge. Only if some name carries the key
      separator can the report have been taken for another's. */
  ghost predicate Answered(vs: seq<Violation>, named: bool, u: string, v: string) {
    Reported(vs, u, v) || (!named && vs != [])
  }

  /** Finished nodes only point to nodes finished before them, answered edges aside. */
  ghost predicate Finished(adj: Adjacency, named: bool, done: seq<string>, vs: seq<Violation>) {
    forall i: nat {:trigger Settled(adj, named, done, vs, i)} :: i < |done| ==> Settled(adj, named, done, vs, i)
  }

  ghost predicate Settled(adj: Adjacency, named: bool, done: seq<string>, vs: seq<Violation>, i: nat)
    requires i < |done|
  {
    forall v :: v in Succ(adj, done[i]) ==> v in done[..i] || Answered(vs, named, done[i], v)
  }

  ghost predicate Colored(color: map<string, Color>, stack: seq<string>, done: seq<string>) {
    && Distinct(stack) && Distinct(done)
    && (forall n :: ColorOf(color, n) == Gray <==> n in stack)
    && (forall n :: ColorOf(color, n) == Black <==> n in done)
  }

  ghost predicate SuffixOf(a: seq<string>, b: seq<string>) {
    |a| <= |b| && a == b[|b| - |a|..]
  }

  /** A cycle closed by a node still on the stack is the stack's end up to it. */
  ghost predicate OnStack(stack: seq<string>, w: Violation) {
    w.path != [] && forall i: nat {:trigger SuffixOf(w.path, stack[..i + 1])} ::
      i < |stack| && stack[i] == Last(w.path) ==> SuffixOf(w.path, stack[..i + 1])
  }

  /** No closing edge is reported twice. */
  ghost predicate ReportedOnce(vs: seq<Violation>) {
    forall i, j :: 0 <= i < j < |vs| ==> !SameEdge(vs[i], vs[j])
  }

  ghost predicate SameEdge(a: Violation, b: Violation) {
    a.path != [] && Closes(b, Last(a.path), a.subject)
  }

  ghost predicate Named(nodes: set<string>) {
    forall n :: n in nodes ==> Free('>', n)
  }

  /** What is known of the reports so far. */
  ghost predicate ReportsOk(adj: Adjacency, nodes: set<string>, stack: seq<string>, done: seq<string>,
                            reported: set<string>, vs: seq<Violation>) {
    && ReportedOnce(vs)
    && KeysOk(reported, vs)
    && (forall w :: w in vs ==> ReportOk(adj, nodes, stack, done, w))
  }

  ghost predicate Closed(adj: Adjacency, nodes: set<string>) {
    forall u, v :: u in nodes && v in Succ(adj, u) ==> v in nodes
  }

  /** What holds of the search's state between steps. */
  ghost predicate Details(adj: Adjacency, nodes: set<string>, color: map<string, Color>, stack: seq<string>,
                        done: seq<string>, reported: set<string>, vs: seq<Violation>) {
    && Closed(adj, nodes)
    && Elements(stack) <= nodes && Elements(done) <= nodes
    && Chain(adj, stack)
    && Colored(color, stack, done)
    && Finished(adj, Named(nodes), done, vs)
    && ReportsOk(adj, nodes, stack, done, reported, vs)
  }

  /** State keeps Details folded: a proof that looks inside mentions Opened(0). */
  ghost predicate Opened(k: nat) {
    true
  }

  ghost predicate State(adj: Adjacency, nodes: set<string>, color: map<string, Color>, stack: seq<string>,
                        done: seq<string>, reported: set<string>, vs: seq<Violation>) {
    forall k: nat {:trigger Opened(k)} :: Opened(k) ==> Details(adj, nodes, color, stack, done, reported, vs)
  }

  lemma ColorsTell(adj: Adjacency, nodes: set<string>, color: map<string, Color>, stack: seq<string>,
                   done: seq<string>, reported: set<string>, vs: seq<Violation>, n: string)
    requires State(adj, nodes, color, stack, done, reported, vs)
    ensures ColorOf(color, n) == White <==> n !in stack && n !in done
    ensures ColorOf(color, n) == Gray <==> n in stack
    ensures ColorOf(color, n) == Black <==> n in done
    ensures n in nodes ==> forall v :: v in Succ(adj, n) ==> v in nodes
    ensures stack != [] ==> Last(stack) in nodes
  {
    assert Opened(0);
    assert stack != [] ==> Last(stack) in Elements(stack);
  }

  // ------------------------------------------------------------ the three steps

  lemma PushChain(adj: Adjacency, stack: seq<string>, u: string)
    requires Chain(adj, stack) && (stack != [] ==> u in Succ(adj, Last(stack)))
    ensures Chain(adj, stack + [u])
  {
    var s := stack + [u];
    forall i: nat | i + 1 < |s| ensures Link(adj, s, i) {
      assert i + 1 < |stack| ==> Link(adj, stack, i);
    }
  }

  lemma Push(adj: Adjacency, nodes: set<string>, color: map<string, Color>, stack: seq<string>,
             done: seq<string>, reported: set<string>, vs: seq<Violation>, u: string)
    requires State(adj, nodes, color, stack, done, reported, vs)
    requires u in nodes && ColorOf(color, u) == White
    requires stack != [] ==> u in Succ(adj, Last(stack))
    ensures State(adj, nodes, color[u := Gray], stack + [u], done, reported, vs)
  {
    assert Opened(0);
    PushChain(adj, stack, u);
    var stack' := stack + [u];
    assert u !in stack && u !in done;
    assert Elements(stack') == Elements(stack) + {u};
    forall w | w in vs ensures ReportOk(adj, nodes, stack', done, w) {
      assert ReportOk(adj, nodes, stack, done, w);
      assert Last(w.path) != u;
      forall i: nat | i < |stack'| && stack'[i] == Last(w.path) ensures SuffixOf(w.path, stack'[..i + 1]) {
        assert i < |stack|;
        assert SuffixOf(w.path, stack[..i + 1]) && stack'[..i + 1] == stack[..i + 1];
      }
    }
    forall n ensures n in stack' <==> ColorOf(color[u := Gray], n) == Gray {}
  }

  lemma Pop(adj: Adjacency, nodes: set<string>, color: map<string, Color>, stack: seq<string>,
            done: seq<string>, reported: set<string>, vs: seq<Violation>)
    requires State(adj, nodes, color, stack, done, reported, vs) && stack != []
    requires Handled(done, vs, Named(nodes), Last(stack), Succ(adj, Last(stack)), |Succ(adj, Last(stack))|)
    ensures var u := Last(stack);
            State(adj, nodes, color[u := Black], stack[..|stack| - 1], done + [u], reported, vs)
  {
    assert Opened(0);
    var u, stack', done' := Last(stack), stack[..|stack| - 1], done + [Last(stack)];
    assert stack == stack' + [u];
    PopColors(color, stack, done);
    assert Elements(stack) == Elements(stack') + {u} && Elements(done') == Elements(done) + {u};
    assert Chain(adj, stack') by {
      forall i: nat | i + 1 < |stack'| ensures Link(adj, stack', i) { assert Link(adj, stack, i); }
    }
    PopFinished(adj, Named(nodes), done, vs, u);
    forall w | w in vs ensures ReportOk(adj, nodes, stack', done', w) {
      assert ReportOk(adj, nodes, stack, done, w);
      forall i: nat | i < |stack'| && stack'[i] == Last(w.path) ensures SuffixOf(w.path, stack'[..i + 1]) {
        assert SuffixOf(w.path, stack[..i + 1]) && stack'[..i + 1] == stack[..i + 1];
      }
    }
  }

  lemma PopColors(color: map<string, Color>, stack: seq<string>, done: seq<string>)
    requires Colored(color, stack, done) && stack != []
    ensures Colored(color[Last(stack) := Black], stack[..|stack| - 1], done + [Last(stack)])
  {
    var u, stack', done' := Last(stack), stack[..|stack| - 1], done + [Last(stack)];
    assert stack == stack' + [u];
    assert u in stack && u !in stack' && u !in done;
    forall n ensures n in stack' <==> ColorOf(color[u := Black], n) == Gray {
      assert n in stack <==> n in stack' || n == u;
    }
    forall n ensures n in done' <==> ColorOf(color[u := Black], n) == Black {}
  }

  lemma PopFinished(adj: Adjacency, named: bool, done: seq<string>, vs: seq<Violation>, u: string)
    requires Finished(adj, named, done, vs)
    requires Handled(done, vs, named, u, Succ(adj, u), |Succ(adj, u)|)
    ensures Finished(adj, named, done + [u], vs)
  {
    var done' := done + [u];
    forall i: nat | i < |done'| ensures Settled(adj, named, done', vs, i) {
      if i < |done| {
        assert Settled(adj, named, done, vs, i);
        assert done'[..i] == done[..i];
      } else {
        assert done'[..i] == done;
        forall v | v in Succ(adj, u) ensures v in done || Answered(vs, named, u, v) {
          var k :| 0 <= k < |Succ(adj, u)| && Succ(adj, u)[k] == v;
          assert HandledAt(done, vs, named, u, Succ(adj, u)[k]);
        }
      }
    }
  }

  ghost predicate HandledAt(done: seq<string>, vs: seq<Violation>, named: bool, u: string, v: string) {
    v in done || Answered(vs, named, u, v)
  }

  /** Each of u's first n successors is finished, or its edge answered. */
  ghost predicate Handled(done: seq<string>, vs: seq<Violation>, named: bool, u: string, succ: seq<string>, n: nat)
    requires n <= |succ|
  {
    forall i {:trigger HandledAt(done, vs, named, u, succ[i])} :: 0 <= i < n ==> HandledAt(done, vs, named, u, succ[i])
  }

  lemma HandledNext(done: seq<string>, vs: seq<Violation>, done': seq<string>, vs': seq<Violation>,
                    named: bool, u: string, succ: seq<string>, n: nat)
    requires n < |succ| && Handled(done, vs, named, u, succ, n)
    requires done <= done' && vs <= vs' && HandledAt(done', vs', named, u, succ[n])
    ensures Handled(done', vs', named, u, succ, n + 1)
  {
    forall i | 0 <= i < n ensures HandledAt(done', vs', named, u, succ[i]) {
      assert HandledAt(done, vs, named, u, succ[i]);
      if succ[i] !in done && Reported(vs, u, succ[i]) {
        var x :| x in vs && Closes(x, u, succ[i]);
        assert x in vs';
      }
    }
  }

  lemma UnseenShrinks(nodes: set<string>, stack: seq<string>, done: seq<string>, done': seq<string>, u: string)
    requires u in nodes && u !in stack && u !in done && done <= done'
    ensures |nodes - Elements(stack + [u]) - Elements(done')| < |nodes - Elements(stack) - Elements(done)|
  {
    var a, b := nodes - Elements(stack + [u]) - Elements(done'), nodes - Elements(stack) - Elements(done);
    assert u in Elements(stack + [u]) by { assert u in stack + [u]; }
    assert a < b by { assert u in b && u !in a; }
    ProperSubsetIsSmaller(a, b);
  }

  lemma MoreReports(adj: Adjacency, named: bool, done: seq<string>, vs: seq<Violation>, w: Violation)
    requires Finished(adj, named, done, vs)
    ensures Finished(adj, named, done, vs + [w])
  {
    forall i: nat | i < |done| ensures Settled(adj, named, done, vs + [w], i) {
      assert Settled(adj, named, done, vs, i);
      forall v | v in Succ(adj, done[i]) ensures v in done[..i] || Answered(vs + [w], named, done[i], v) {
        if v !in done[..i] { AnsweredStays(vs, w, named, done[i], v); }
      }
    }
  }

  lemma AnsweredStays(vs: seq<Violation>, w: Violation, named: bool, u: string, v: string)
    requires Answered(vs, named, u, v)
    ensures Answered(vs + [w], named, u, v)
  {
    if Reported(vs, u, v) {
      var x :| x in vs && Closes(x, u, v);
      assert x in vs + [w];
    }
  }

  /** Two paths ending the same way on the stack and starting at one node are equal. */
  lemma SuffixByHead(a: seq<string>, b: seq<string>, stack: seq<string>)
    requires SuffixOf(a, stack) && SuffixOf(b, stack) && Distinct(stack)
    requires a != [] && b != [] && a[0] == b[0]
    ensures a == b
  {
    assert a[0] == stack[|stack| - |a|] && b[0] == stack[|stack| - |b|];
  }

  /** A key already reported stands for the same closing edge, unless some name
      carries the separator. */
  lemma KnownKey(adj: Adjacency, nodes: set<string>, stack: seq<string>, done: seq<string>,
                 reported: set<string>, vs: seq<Violation>, path: seq<string>)
    requires ReportsOk(adj, nodes, stack, done, reported, vs)
    requires path != [] && Elements(path) <= nodes && Join(path, '>') in reported
    ensures Answered(vs, Named(nodes), Last(path), path[0])
  {
    assert HasKey(vs, Join(path, '>'));
    var x :| x in vs && Join(x.path, '>') == Join(path, '>');
    assert ReportOk(adj, nodes, stack, done, x);
    if Named(nodes) {
      forall n | n in x.path || n in path ensures Free('>', n) {
        assert n in Elements(x.path) || n in Elements(path);
      }
      JoinInjective('>', x.path, path);
      assert Closes(x, Last(path), path[0]);
    }
  }

  lemma NewKey(adj: Adjacency, nodes: set<string>, stack: seq<string>, done: seq<string>,
               reported: set<string>, vs: seq<Violation>, path: seq<string>)
    requires ReportsOk(adj, nodes, stack, done, reported, vs)
    requires stack != [] && Distinct(stack) && path != [] && SuffixOf(path, stack)
    requires Join(path, '>') !in reported
    ensures !Reported(vs, Last(stack), path[0])
  {
    forall x | x in vs && Closes(x, Last(stack), path[0]) ensures false {
      assert ReportOk(adj, nodes, stack, done, x);
      var top := |stack| - 1;
      assert SuffixOf(x.path, stack[..top + 1]) && stack[..top + 1] == stack;
      SuffixByHead(x.path, path, stack);
    }
  }

  /** A gray successor closes a cycle; its report is new unless that closing edge
      was reported. */
  lemma BackEdge(adj: Adjacency, nodes: set<string>, color: map<string, Color>, stack: seq<string>,
                 done: seq<string>, reported: set<string>, vs: seq<Violation>, v: string, k: nat)
    requires State(adj, nodes, color, stack, done, reported, vs)
    requires k < |stack| && stack[k] == v && v in Succ(adj, Last(stack))
    ensures var path := stack[k..];
            var key := Join(path, '>');
            if key in reported then Answered(vs, Named(nodes), Last(stack), v)
            else
              var w := ImportCycle(v, path);
              State(adj, nodes, color, stack, done, reported + {key}, vs + [w])
              && Reported(vs + [w], Last(stack), v)
  {
    assert Opened(0);
    var path := stack[k..];
    var key, w := Join(path, '>'), ImportCycle(v, path);
    assert Elements(path) <= nodes by {
      forall n | n in path ensures n in nodes { assert n in Elements(stack); }
    }
    if key in reported {
      KnownKey(adj, nodes, stack, done, reported, vs, path);
    } else {
      NewKey(adj, nodes, stack, done, reported, vs, path);
      ReportNew(adj, nodes, stack, done, w);
      OnceGrows(vs, w);
      KeysGrow(reported, vs, w);
      MoreReports(adj, Named(nodes), done, vs, w);
      assert w in vs + [w] && Closes(w, Last(stack), v);
    }
  }

  lemma OnceGrows(vs: seq<Violation>, w: Violation)
    requires ReportedOnce(vs) && w.path != [] && !Reported(vs, Last(w.path), w.subject)
    ensures ReportedOnce(vs + [w])
  {
    var vs' := vs + [w];
    forall i, j | 0 <= i < j < |vs'| ensures !SameEdge(vs'[i], vs'[j]) {
      if j == |vs| {
        assert vs[i] in vs;
        assert !Closes(vs[i], Last(w.path), w.subject);
      } else {
        assert vs'[i] == vs[i] && vs'[j] == vs[j];
      }
    }
  }

  ghost predicate KeysOk(reported: set<string>, vs: seq<Violation>) {
    && (forall w :: w in vs ==> Join(w.path, '>') in reported)
    && (forall k :: k in reported ==> HasKey(vs, k))
  }

  ghost predicate HasKey(vs: seq<Violation>, k: string) {
    exists w :: w in vs && Join(w.path, '>') == k
  }

  lemma KeysGrow(reported: set<string>, vs: seq<Violation>, w: Violation)
    requires KeysOk(reported, vs)
    ensures KeysOk(reported + {Join(w.path, '>')}, vs + [w])
  {
    var vs', keys := vs + [w], reported + {Join(w.path, '>')};
    forall k | k in keys ensures HasKey(vs', k) {
      if k in reported {
        assert HasKey(vs, k);
        var x :| x in vs && Join(x.path, '>') == k;
        assert x in vs';
      } else {
        assert w in vs';
      }
    }
  }

  /** What is known of one report. */
  ghost predicate ReportOk(adj: Adjacency, nodes: set<string>, stack: seq<string>, done: seq<string>, w: Violation) {
    && Real(adj, w) && OnStack(stack, w)
    && (Last(w.path) in stack || Last(w.path) in done)
    && Elements(w.path) <= nodes
  }

  lemma ReportNew(adj: Adjacency, nodes: set<string>, stack: seq<string>, done: seq<string>, w: Violation)
    requires stack != [] && Chain(adj, stack) && Distinct(stack) && Elements(stack) <= nodes
    requires w.path != [] && SuffixOf(w.path, stack) && w.subject == w.path[0]
    requires w.subject in Succ(adj, Last(stack))
    ensures ReportOk(adj, nodes, stack, done, w)
  {
    var lo := |stack| - |w.path|;
    assert forall i :: 0 <= i < |w.path| ==> w.path[i] == stack[lo + i];
    SuffixIsReal(adj, stack, w, lo);
    forall n | n in w.path ensures n in nodes { assert n in Elements(stack); }
    forall i: nat | i < |stack| && stack[i] == Last(w.path) ensures SuffixOf(w.path, stack[..i + 1]) {
      assert i == |stack| - 1 && stack[..i + 1] == stack;
    }
  }

  lemma SuffixIsReal(adj: Adjacency, stack: seq<string>, w: Violation, lo: nat)
    requires lo < |stack| && w.path == stack[lo..] && w.subject == w.path[0]
    requires Chain(adj, stack) && Distinct(stack) && w.subject in Succ(adj, Last(stack))
    ensures Real(adj, w)
  {
    forall i: nat | i + 1 < |w.path| ensures Link(adj, w.path, i) {
      assert Link(adj, stack, lo + i);
      assert w.path[i] == stack[lo + i] && w.path[i + 1] == stack[lo + i + 1];
    }
  }

  // ---------------------------------------------------------------- the search

  /** The suffix of the stack from the first occurrence of v; the whole stack if
      v is not on it. */
  method CycleFrom(stack: seq<string>, v: string) returns (path: seq<string>, ghost k: nat)
    ensures v !in stack ==> path == stack
    ensures v in stack ==> k < |stack| && stack[k] == v && v !in stack[..k] && path == stack[k..]
  {
    k := 0;
    for i := 0 to |stack|
      invariant v !in stack[..i]
    {
      if stack[i] == v { return stack[i..], i; }
    }
    return stack, 0;
  }

  lemma InitialState(adj: Adjacency, nodes: set<string>)
    requires Closed(adj, nodes)
    ensures State(adj, nodes, map[], [], [], {}, [])
  {}

  class Search {
    const adj: Adjacency
    const nodes: set<string>
    var color: map<string, Color>
    var reported: set<string>
    var vs: seq<Violation>
    var stack: seq<string>
    ghost var done: seq<string>

    ghost predicate Valid()
      reads this
    {
      State(adj, nodes, color, stack, done, reported, vs)
    }

    constructor (adj: Adjacency, nodes: set<string>)
      requires Closed(adj, nodes)
      ensures this.adj == adj && this.nodes == nodes
      ensures Valid() && stack == [] && done == [] && vs == []
    {
      this.adj, this.nodes := adj, nodes;
      color, reported, vs, stack, done := map[], {}, [], [], [];
      new;
      InitialState(adj, nodes);
    }

    /** The nodes not yet reached. */
    ghost function Unseen(): set<string>
      reads this
    {
      nodes - Elements(stack) - Elements(done)
    }

    /** Colours u gray and puts it on the stack. */
    method Enter(u: string)
      requires Valid() && u in nodes && ColorOf(color, u) == White
      requires stack != [] ==> u in Succ(adj, Last(stack))
      modifies this`color, this`stack
      ensures Valid() && stack == old(stack) + [u]
    {
      Push(adj, nodes, color, stack, done, reported, vs, u);
      color := color[u := Gray];
      stack := stack + [u];
    }

    /** Takes the finished node off the stack and colours it black. */
    method Leave()
      requires Valid() && stack != []
      requires Handled(done, vs, Named(nodes), Last(stack), Succ(adj, Last(stack)), |Succ(adj, Last(stack))|)
      modifies this`color, this`stack, this`done
      ensures Valid() && stack == old(stack[..|stack| - 1])
      ensures done == old(done) + [old(Last(stack))]
    {
      Pop(adj, nodes, color, stack, done, reported, vs);
      color := color[Last(stack) := Black];
      done := done + [Last(stack)];
      stack := stack[..|stack| - 1];
    }

    /** Reports the cycle a gray successor closes, once per key. */
    method Report(v: string)
      requires Valid() && stack != [] && v in Succ(adj, Last(stack)) && ColorOf(color, v) == Gray
      modifies this`reported, this`vs
      ensures Valid() && old(vs) <= vs
      ensures Answered(vs, Named(nodes), Last(stack), v)
    {
      ColorsTell(adj, nodes, color, stack, done, reported, vs, v);
      var path;
      ghost var k;
      path, k := CycleFrom(stack, v);
      BackEdge(adj, nodes, color, stack, done, reported, vs, v, k);
      var key := Join(path, '>');
      if key !in reported {
        reported := reported + {key};
        vs := vs + [ImportCycle(v, path)];
      }
    }

    /** Looks at one successor of the node on top of the stack. */
    method Examine(v: string)
      requires Valid() && stack != [] && v in Succ(adj, Last(stack)) && v in nodes
      modifies this
      ensures Valid() && stack == old(stack)
      ensures old(done) <= done && old(vs) <= vs
      ensures HandledAt(done, vs, Named(nodes), Last(stack), v)
      decreases |Unseen()|, 1
    {
      ColorsTell(adj, nodes, color, stack, done, reported, vs, v);
      match ColorOf(color, v) {
        case White => Visit(v);
        case Gray => Report(v);
        case Black =>
      }
    }

    /** Explores from the white node u: u and everything newly reached finish, the
        stack is restored, and nothing finished or reported is taken back. */
    method Visit(u: string)
      requires Valid() && u in nodes && ColorOf(color, u) == White
      requires stack != [] ==> u in Succ(adj, Last(stack))
      modifies this
      ensures Valid() && stack == old(stack)
      ensures old(done) <= done && u in done
      ensures old(vs) <= vs
      decreases |Unseen()|, 0
    {
      ColorsTell(adj, nodes, color, stack, done, reported, vs, u);
      Enter(u);
      ghost var open := stack;
      var succ := Succ(adj, u);
      for i := 0 to |succ|
        invariant Valid() && stack == open
        invariant old(done) <= done && old(vs) <= vs
        invariant Handled(done, vs, Named(nodes), u, succ, i)
      {
        ghost var done0, vs0 := done, vs;
        UnseenShrinks(nodes, old(stack), old(done), done, u);
        Examine(succ[i]);
        HandledNext(done0, vs0, done, vs, Named(nodes), u, succ, i);
      }
      Leave();
      assert stack == old(stack);
    }
  }

  // ------------------------------------------------------------ the whole check

  /** Every package and every internal import of one. */
  ghost function NodesOf(g: Graph, ps: seq<Package>): set<string> {
    if ps == [] then {}
    else
      var p := ps[|ps| - 1];
      NodesOf(g, ps[..|ps| - 1]) + {p.rel} + Targets(g, p)
  }

  lemma NodesHoldEdges(g: Graph, ps: seq<Package>, u: string, v: string)
    requires EdgeFrom(g, ps, u, v)
    ensures u in NodesOf(g, ps) && v in NodesOf(g, ps)
  {
    var init, p := ps[..|ps| - 1], ps[|ps| - 1];
    assert ps == init + [p];
    EdgeFromOneMore(g, init, p, u, v);
    if EdgeFrom(g, init, u, v) { NodesHoldEdges(g, init, u, v); }
  }

  /** adj holds exactly the edges of the packages in ps. */
  ghost predicate AdjacencyOf(g: Graph, ps: seq<Package>, adj: Adjacency) {
    forall u, v :: v in Succ(adj, u) <==> EdgeFrom(g, ps, u, v)
  }

  function AddEdges(adj: Adjacency, u: string, rels: seq<string>): Adjacency {
    if rels == [] then adj else adj[u := Succ(adj, u) + rels]
  }

  lemma AdjacencyOneMore(g: Graph, ps: seq<Package>, p: Package, adj: Adjacency, rels: seq<string>)
    requires AdjacencyOf(g, ps, adj) && Elements(rels) == Targets(g, p)
    ensures AdjacencyOf(g, ps + [p], AddEdges(adj, p.rel, rels))
  {
    var adj' := AddEdges(adj, p.rel, rels);
    forall u, v ensures v in Succ(adj', u) <==> EdgeFrom(g, ps + [p], u, v) {
      EdgeFromOneMore(g, ps, p, u, v);
      assert v in rels <==> v in Elements(rels);
      assert v in Succ(adj, u) <==> EdgeFrom(g, ps, u, v);
      if u == p.rel { assert Succ(adj', u) == Succ(adj, u) + rels; }
    }
  }

  /** Appends one package's imports to its list and to the node set. */
  method AppendEdges(adj0: Adjacency, nodes0: set<string>, u: string, rels: seq<string>)
    returns (adj: Adjacency, nodeSet: set<string>)
    ensures adj == AddEdges(adj0, u, rels) && nodeSet == nodes0 + Elements(rels)
  {
    adj, nodeSet := adj0, nodes0;
    for j := 0 to |rels|
      invariant adj == AddEdges(adj0, u, rels[..j]) && nodeSet == nodes0 + Elements(rels[..j])
    {
      ElementsOneMore(rels, j);
      AddEdgesOneMore(adj0, u, rels[..j], rels[j]);
      adj := adj[u := Succ(adj, u) + [rels[j]]];
      nodeSet := nodeSet + {rels[j]};
    }
    assert rels[..|rels|] == rels;
  }

  lemma AddEdgesOneMore(adj: Adjacency, u: string, rels: seq<string>, rel: string)
    ensures AddEdges(adj, u, rels + [rel])
         == AddEdges(adj, u, rels)[u := Succ(AddEdges(adj, u, rels), u) + [rel]]
  {
    var all := Succ(adj, u) + rels + [rel];
    assert Succ(adj, u) + (rels + [rel]) == all;
    if rels == [] {
      assert Succ(adj, u) + rels == Succ(adj, u);
    } else {
      assert adj[u := Succ(adj, u) + rels][u := all] == adj[u := all];
    }
  }

  /** The adjacency lists and the node set, package by package. */
  method BuildAdjacency(g: Graph) returns (adj: Adjacency, nodeSet: set<string>)
    ensures AdjacencyOf(g, g.packages, adj) && nodeSet == NodesOf(g, g.packages)
  {
    adj, nodeSet := map[], {};
    var ps := g.packages;
    for i := 0 to |ps|
      invariant AdjacencyOf(g, ps[..i], adj) && nodeSet == NodesOf(g, ps[..i])
    {
      var p := ps[i];
      assert ps[..i + 1] == ps[..i] + [p] && ps[..i + 1][..i] == ps[..i];
      nodeSet := nodeSet + {p.rel};
      var rels := InternalImports(g, p);
      AdjacencyOneMore(g, ps[..i], p, adj, rels);
      adj, nodeSet := AppendEdges(adj, nodeSet, p.rel, rels);
    }
    assert ps[..|ps|] == ps;
  }

  /** Once every node is finished, any cycle runs through an answered edge: all
      other edges lead to nodes finished earlier. */
  lemma CycleHasAnsweredEdge(adj: Adjacency, named: bool, done: seq<string>, vs: seq<Violation>, p: seq<string>)
    requires Finished(adj, named, done, vs)
    requires Chain(adj, p) && |p| >= 2 && p[0] == p[|p| - 1] && forall n :: n in p ==> n in done
    requires Distinct(done)
    ensures exists i :: 0 <= i < |p| - 1 && Answered(vs, named, p[i], p[i + 1])
  {
    if forall i :: 0 <= i < |p| - 1 ==> !Answered(vs, named, p[i], p[i + 1]) {
      var a, b := FinishOrder(adj, named, done, vs, p, |p| - 1);
      assert false;
    }
  }

  lemma FinishOrder(adj: Adjacency, named: bool, done: seq<string>, vs: seq<Violation>, p: seq<string>, k: nat)
    returns (a: nat, b: nat)
    requires Finished(adj, named, done, vs) && Distinct(done)
    requires Chain(adj, p) && 0 < k < |p| && forall n :: n in p ==> n in done
    requires forall i :: 0 <= i < |p| - 1 ==> !Answered(vs, named, p[i], p[i + 1])
    ensures b < a < |done| && done[a] == p[0] && done[b] == p[k]
    decreases k
  {
    var c: nat;
    if k == 1 {
      assert p[0] in done;
      a :| a < |done| && done[a] == p[0];
      c := a;
    } else {
      a, c := FinishOrder(adj, named, done, vs, p, k - 1);
    }
    assert Link(adj, p, k - 1) && Settled(adj, named, done, vs, c);
    assert !Answered(vs, named, p[k - 1], p[k - 1 + 1]);
    assert p[k] in done[..c];
    b :| b < c && done[b] == p[k];
  }

  /** The reports and the colours decide: empty exactly on an acyclic graph; every
      report a real cycle; every closing edge reported once; and, names free of
      the key separator, a reported closing edge on every cycle. */
  ghost predicate Decided(g: Graph, vs: seq<Violation>) {
    && (vs == [] <==> !exists p :: Cycle(g, p))
    && (forall w :: w in vs ==>
          w.path != [] && w.path[0] == w.subject && Distinct(w.path) && Cycle(g, w.path + [w.subject]))
    && ReportedOnce(vs)
    && (PlainNames(g) ==> forall p :: Cycle(g, p) ==> CutBy(vs, p))
  }

  /** No package's key and no imported key holds the separator of the report keys. */
  ghost predicate PlainNames(g: Graph) {
    forall p :: p in g.packages ==> '>' !in p.rel && forall v :: Imports(g, p, v) ==> '>' !in v
  }

  lemma {:induction false} PlainNodes(g: Graph, ps: seq<Package>)
    requires PlainNames(g) && forall p :: p in ps ==> p in g.packages
    ensures Named(NodesOf(g, ps))
  {
    if ps != [] {
      var p := ps[|ps| - 1];
      PlainNodes(g, ps[..|ps| - 1]);
      forall v | v in Targets(g, p) ensures Free('>', v) { TargetsAreImports(g, p, v); }
    }
  }

  /** Some edge of p is a reported closing edge. */
  ghost predicate CutBy(vs: seq<Violation>, p: seq<string>) {
    exists i :: 0 <= i < |p| - 1 && Reported(vs, p[i], p[i + 1])
  }

  lemma ChainIsPath(g: Graph, adj: Adjacency, p: seq<string>)
    requires AdjacencyOf(g, g.packages, adj) && p != []
    ensures Chain(adj, p) <==> Path(g, p)
  {
    forall u, v
      ensures v in Succ(adj, u) <==> Edge(g, u, v)
    {
      assert EdgeFrom(g, g.packages, u, v) <==> Edge(g, u, v);
    }
    if Chain(adj, p) {
      forall i, j | 0 <= i && j == i + 1 && j < |p| ensures Edge(g, p[i], p[j]) { assert Link(adj, p, i); }
    }
    if Path(g, p) {
      forall i: nat | i + 1 < |p| ensures Link(adj, p, i) { var j := i + 1; assert Edge(g, p[i], p[j]); }
    }
  }

  lemma ReportIsCycle(g: Graph, adj: Adjacency, w: Violation)
    requires AdjacencyOf(g, g.packages, adj) && Real(adj, w)
    ensures Cycle(g, w.path + [w.subject])
  {
    PushChain(adj, w.path, w.subject);
    ChainIsPath(g, adj, w.path + [w.subject]);
  }

  lemma CycleIsAnswered(g: Graph, adj: Adjacency, done: seq<string>, vs: seq<Violation>, p: seq<string>)
    requires AdjacencyOf(g, g.packages, adj) && Distinct(done)
    requires NodesOf(g, g.packages) <= Elements(done)
    requires Finished(adj, Named(NodesOf(g, g.packages)), done, vs)
    requires Cycle(g, p)
    ensures vs != [] && (Named(NodesOf(g, g.packages)) ==> CutBy(vs, p))
  {
    ChainIsPath(g, adj, p);
    forall n | n in p ensures n in done {
      var k :| 0 <= k < |p| && p[k] == n;
      var i, j := if k == 0 then 0 else k - 1, if k == 0 then 1 else k;
      assert Edge(g, p[i], p[j]);
      assert EdgeFrom(g, g.packages, p[i], p[j]);
      NodesHoldEdges(g, g.packages, p[i], p[j]);
      assert n in Elements(done);
    }
    CycleHasAnsweredEdge(adj, Named(NodesOf(g, g.packages)), done, vs, p);
  }

  lemma FinishedDecides(g: Graph, adj: Adjacency, color: map<string, Color>, done: seq<string>,
                        reported: set<string>, vs: seq<Violation>)
    requires AdjacencyOf(g, g.packages, adj)
    requires State(adj, NodesOf(g, g.packages), color, [], done, reported, vs)
    requires NodesOf(g, g.packages) <= Elements(done)
    ensures Decided(g, vs)
  {
    assert Opened(0);
    forall w | w in vs ensures Real(adj, w) && Cycle(g, w.path + [w.subject]) {
      assert ReportOk(adj, NodesOf(g, g.packages), [], done, w);
      ReportIsCycle(g, adj, w);
    }
    if vs != [] { assert vs[0] in vs; }
    if PlainNames(g) { PlainNodes(g, g.packages); }
    forall p | Cycle(g, p) ensures vs != [] && (Named(NodesOf(g, g.packages)) ==> CutBy(vs, p)) {
      CycleIsAnswered(g, adj, done, vs, p);
    }
  }

  /** Reports the cycles of the internal import graph. */
  method CheckAcyclic(g: Graph) returns (vs: seq<Violation>)
    ensures Decided(g, vs)
  {
    var adj, nodeSet := BuildAdjacency(g);
    forall u, v | u in nodeSet && v in Succ(adj, u) ensures v in nodeSet { NodesHoldEdges(g, g.packages, u, v); }
    var nodes := WalkKeys(nodeSet);
    SortedStrings(nodes);
    nodes := Sort(Before, nodes);
    var search := new Search(adj, nodeSet);
    for i := 0 to |nodes|
      invariant search.Valid() && search.stack == [] && fresh(search)
      invariant search.adj == adj && search.nodes == nodeSet
      invariant Elements(nodes[..i]) <= Elements(search.done)
    {
      var n := nodes[i];
      ElementsOneMore(nodes, i);
      assert n in Elements(nodes);
      ColorsTell(adj, nodeSet, search.color, search.stack, search.done, search.reported, search.vs, n);
      if ColorOf(search.color, n) == White {
        ghost var before := search.done;
        search.Visit(n);
        forall m | m in Elements(before) ensures m in Elements(search.done) { assert m in search.done; }
      }
    }
    assert nodes[..|nodes|] == nodes;
    FinishedDecides(g, adj, search.color, search.done, search.reported, search.vs);
    return search.vs;
  }
}
