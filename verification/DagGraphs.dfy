/** src/dag/graph.rs: the mutable graph, its cycle check and its topological sort. */
module DagGraphs {
  import opened DagTypes
  import opened DagSchedule

  // ------------------------------------------------- what the mutators promise

  /** Adding a node: refused, without effect, on a taken id or a cycle. */
  ghost function Added(g: Graph, node: Node): (Graph, Result<()>) {
    if node.id in g then (g, Err(DuplicateNode(node.id)))
    else if Cyclic(g[node.id := node]) then (g, Err(CycleDetected(node.id)))
    else (g[node.id := node], Ok(()))
  }

  ghost predicate HasDependent(g: Graph, id: Id) {
    exists other :: other in g && other != id && id in g[other].dependsOn
  }

  /** Removing a node: refused, without effect, while another node names it. */
  ghost function Removed(g: Graph, id: Id): (Graph, Result<Node>) {
    if id !in g then (g, Err(NodeNotFound(id)))
    else if HasDependent(g, id) then (g, Err(HasDependents(id)))
    else (g - {id}, Ok(g[id]))
  }

  /** When only node `id` differs, a cycle that was not there before runs through `id`. */
  lemma NewCycleRunsThrough(g: Graph, h: Graph, id: Id)
    requires !Cyclic(g) && Cyclic(h)
    requires forall x :: x in h && x != id ==> x in g && h[x] == g[x]
    ensures OnCycle(h, id)
  {
    var p :| IsCycle(h, p);
    if k :| 0 <= k < |p| && p[k] == id {
      RotateCycle(h, p, k);
    } else {
      PathIn(h, p);
      forall i | 0 < i < |p| ensures Edge(g, p[i - 1], p[i]) {
        assert p[i - 1] in p && p[i] in p && Edge(h, p[i - 1], p[i]);
      }
      assert IsCycle(g, p);
    }
  }

  /** `d` is `id`, or depends through existing nodes on one that names `id`, present or not. */
  ghost predicate LeadsTo(g: Graph, d: Id, id: Id) {
    d == id || exists x :: x in g && Reaches(g, d, x) && id in g[x].dependsOn
  }

  lemma {:induction false} FirstOccurrence(p: seq<Id>, id: Id) returns (k: nat)
    ensures k <= |p| && id !in p[..k] && (k < |p| ==> p[k] == id)
    decreases |p|
  {
    if p == [] || p[0] == id {
      k := 0;
    } else {
      k := FirstOccurrence(p[1..], id);
      k := k + 1;
      assert p[..k] == [p[0]] + p[1..][..k - 1];
    }
  }

  /** Off the node `id`, two graphs that differ only there have the same paths. */
  lemma PathOffNode(g: Graph, h: Graph, id: Id, p: seq<Id>)
    requires forall x :: x != id ==> (x in g <==> x in h) && (x in g ==> g[x] == h[x])
    requires IsPath(g, p) && id !in p
    ensures IsPath(h, p)
  {
    forall i | 0 < i < |p| ensures Edge(h, p[i - 1], p[i]) {
      assert p[i - 1] in p && p[i] in p && Edge(g, p[i - 1], p[i]);
    }
    assert p[0] in p;
  }

  lemma NewCycleLeadsBack(g: Graph, h: Graph, id: Id) returns (d: Id)
    requires !Cyclic(g) && Cyclic(h) && id in h
    requires forall x :: x != id ==> (x in g <==> x in h) && (x in g ==> g[x] == h[x])
    ensures Edge(h, id, d) && LeadsTo(g, d, id)
  {
    NewCycleRunsThrough(g, h, id);
    var p :| IsCycle(h, p) && p[0] == id;
    d := p[1];
    assert Edge(h, p[0], p[1]);
    if d != id {
      var k := FirstOccurrence(p[1..], id);
      assert p[1..][|p| - 2] == id;
      var q := p[1..k + 1];
      assert q == p[1..][..k] && k > 0;
      PathSlice(h, p, 1, k + 1);
      PathOffNode(h, g, id, q);
      assert Edge(h, p[k], p[k + 1]) && q[|q| - 1] == p[k] && p[k + 1] == id;
      assert p[k] in q;
      assert Reaches(g, d, p[k]);
    }
  }

  /** A path that leads to a node naming `id` can be cut where it first names `id`. */
  lemma CutPath(g: Graph, id: Id, q: seq<Id>) returns (cut: seq<Id>)
    requires IsPath(g, q) && q[0] != id && q[|q| - 1] in g && id in g[q[|q| - 1]].dependsOn
    ensures IsPath(g, cut) && id !in cut && cut[0] == q[0]
    ensures cut[|cut| - 1] in g && id in g[cut[|cut| - 1]].dependsOn
  {
    var k := FirstOccurrence(q, id);
    cut := q[..k];
    PathIn(g, q);
    PathSlice(g, q, 0, k);
    if k < |q| { assert Edge(g, q[k - 1], q[k]); }
  }

  lemma ClosedPathIsCycle(h: Graph, id: Id, p: seq<Id>)
    requires id in h && IsPath(h, p) && Edge(h, id, p[0]) && Edge(h, p[|p| - 1], id)
    ensures Cyclic(h)
  {
    PathSnoc(h, p, id);
    PathJoin(h, [id, p[0]], p + [id]);
    assert IsCycle(h, [id, p[0]] + (p + [id])[1..]);
  }

  lemma LeadingBackIsCycle(g: Graph, h: Graph, id: Id, d: Id)
    requires id in h && Edge(h, id, d) && LeadsTo(g, d, id)
    requires forall x :: x != id ==> (x in g <==> x in h) && (x in g ==> g[x] == h[x])
    ensures Cyclic(h)
  {
    hide Cyclic;
    if d == id {
      ClosedPathIsCycle(h, id, [id]);
    } else {
      var x :| x in g && Reaches(g, d, x) && id in g[x].dependsOn;
      var q :| IsPath(g, q) && q[0] == d && q[|q| - 1] == x;
      var cut := CutPath(g, id, q);
      PathOffNode(g, h, id, cut);
      assert cut[|cut| - 1] in cut;
      ClosedPathIsCycle(h, id, cut);
    }
  }

  /** Giving one node of an acyclic graph new dependencies closes a cycle exactly when one of them leads to it. */
  lemma ClosesCycleIff(g: Graph, h: Graph, id: Id)
    requires !Cyclic(g) && id in h
    requires forall x :: x != id ==> (x in g <==> x in h) && (x in g ==> g[x] == h[x])
    ensures Cyclic(h) <==> exists d :: d in h[id].dependsOn && d in h && LeadsTo(g, d, id)
  {
    hide LeadsTo, Cyclic;
    if Cyclic(h) {
      var d := NewCycleLeadsBack(g, h, id);
    }
    if d :| d in h[id].dependsOn && d in h && LeadsTo(g, d, id) {
      LeadingBackIsCycle(g, h, id, d);
    }
  }

  /** What adding a node answers, and does, in every case. */
  lemma AddAnswers(g: Graph, node: Node)
    ensures Added(g, node).1 == Err(DuplicateNode(node.id)) <==> node.id in g
    ensures Added(g, node).1 == Err(CycleDetected(node.id)) <==> node.id !in g && Cyclic(g[node.id := node])
    ensures Added(g, node).1.Ok? <==> node.id !in g && !Cyclic(g[node.id := node])
    ensures Added(g, node).0 == if Added(g, node).1.Ok? then g[node.id := node] else g
  {
  }

  /** What removing a node answers, and does, in every case. */
  lemma RemoveAnswers(g: Graph, id: Id)
    ensures Removed(g, id).1 == Err(NodeNotFound(id)) <==> id !in g
    ensures Removed(g, id).1 == Err(HasDependents(id)) <==>
      id in g && exists other :: other in g && other != id && id in g[other].dependsOn
    ensures Removed(g, id).1.Ok? <==> id in g && forall other :: other in g && id in g[other].dependsOn ==> other == id
    ensures Removed(g, id).1.Ok? ==> Removed(g, id).1.value == g[id] && Removed(g, id).0 == g - {id}
    ensures Removed(g, id).1.Err? ==> Removed(g, id).0 == g
  {
  }

  // ------------------------------------------------------------ degree counting

  /** How many positions of `deps` name a node of the graph. */
  ghost function CountIn(g: Graph, deps: seq<Id>): nat {
    if deps == [] then 0
    else CountIn(g, deps[..|deps| - 1]) + if deps[|deps| - 1] in g then 1 else 0
  }

  ghost function Within(deps: seq<Id>, s: set<Id>): set<Id> {
    set d | d in deps && d in s
  }

  lemma RepeatsSnoc(g: Graph, init: seq<Id>, x: Id)
    ensures Repeats(g, init + [x]) <==> Repeats(g, init) || (x in g && x in init)
  {
    var deps := init + [x];
    if Repeats(g, deps) {
      var i, j :| 0 <= i < j < |deps| && deps[i] == deps[j] && deps[i] in g;
      assert deps[i] == init[i];
      if j < |init| { assert init[i] == init[j]; }
    }
    if Repeats(g, init) {
      var i, j :| 0 <= i < j < |init| && init[i] == init[j] && init[i] in g;
      assert deps[i] == deps[j];
    }
    if x in g && x in init {
      var i :| 0 <= i < |init| && init[i] == x;
      assert deps[i] == deps[|init|];
    }
  }

  lemma {:induction false} CountVersusDistinct(g: Graph, deps: seq<Id>)
    ensures |Within(deps, g.Keys)| <= CountIn(g, deps)
    ensures |Within(deps, g.Keys)| == CountIn(g, deps) <==> !Repeats(g, deps)
  {
    if deps == [] {
      assert Within(deps, g.Keys) == {};
    } else {
      hide Repeats;
      var init, x := deps[..|deps| - 1], deps[|deps| - 1];
      CountVersusDistinct(g, init);
      assert deps == init + [x];
      RepeatsSnoc(g, init, x);
      if x in g && x !in init {
        assert Within(deps, g.Keys) == Within(init, g.Keys) + {x};
      } else {
        assert Within(deps, g.Keys) == Within(init, g.Keys);
      }
    }
  }

  // ---------------------------------------------------- invariants of the sort

  /** The degree of `n` is its in-graph dependency positions minus the popped dependencies. */
  ghost predicate Balanced(g: Graph, deg: map<Id, nat>, n: Id, popped: set<Id>) {
    n in g && n in deg &&
    deg[n] + |Within(g[n].dependsOn, popped)| == CountIn(g, g[n].dependsOn)
  }

  /** The placed nodes, popped or still queued, are exactly those of degree zero, each once. */
  ghost predicate ZeroMeansPlaced(g: Graph, deg: map<Id, nat>, placed: seq<Id>) {
    && deg.Keys == g.Keys
    && Distinct(placed)
    && Elems(placed) <= g.Keys
    && forall n :: n in g ==> (deg[n] == 0 <==> n in placed)
  }

  /** Degree zero is reached exactly when nothing repeats and all in-graph dependencies are popped. */
  lemma ZeroDegree(g: Graph, deg: map<Id, nat>, n: Id, popped: set<Id>)
    requires Balanced(g, deg, n, popped) && popped <= g.Keys
    ensures deg[n] == 0 <==> !RepeatsDep(g, n) && forall d :: Edge(g, n, d) ==> d in popped
  {
    var deps := g[n].dependsOn;
    CountVersusDistinct(g, deps);
    SubsetSize(Within(deps, popped), Within(deps, g.Keys));
    if forall d :: Edge(g, n, d) ==> d in popped {
      forall d | d in Within(deps, g.Keys) ensures d in Within(deps, popped) {
        assert Edge(g, n, d);
      }
      assert Within(deps, popped) == Within(deps, g.Keys);
    } else {
      var d :| Edge(g, n, d) && d !in popped;
      assert d in Within(deps, g.Keys) && d !in Within(deps, popped);
    }
  }

  /** Popping `id` lowers by one what each node that names it still waits for. */
  lemma PopOne(g: Graph, deg: map<Id, nat>, n: Id, popped: set<Id>, id: Id)
    requires Balanced(g, deg, n, popped) && popped <= g.Keys && id in g && id !in popped
    ensures id !in g[n].dependsOn ==> Balanced(g, deg, n, popped + {id})
    ensures id in g[n].dependsOn ==> deg[n] > 0
    ensures id in g[n].dependsOn ==> Balanced(g, deg[n := deg[n] - 1], n, popped + {id})
  {
    var deps := g[n].dependsOn;
    if id in deps {
      assert Edge(g, n, id);
      ZeroDegree(g, deg, n, popped);
      assert Within(deps, popped + {id}) == Within(deps, popped) + {id};
    } else {
      assert Within(deps, popped + {id}) == Within(deps, popped);
    }
  }

  /** Lowering one positive degree keeps the placed nodes right, if `n` is placed at zero. */
  lemma LowerOne(g: Graph, deg: map<Id, nat>, n: Id, placed: seq<Id>)
    requires ZeroMeansPlaced(g, deg, placed) && n in g && deg[n] > 0
    ensures ZeroMeansPlaced(g, deg[n := deg[n] - 1], if deg[n] == 1 then placed + [n] else placed)
  {
  }

  /** Midway through one pop: the nodes of `todo` have not yet been told that `id` is popped. */
  ghost predicate MidPop(g: Graph, deg: map<Id, nat>, placed: seq<Id>, todo: set<Id>, popped: set<Id>, id: Id) {
    && ZeroMeansPlaced(g, deg, placed)
    && forall n :: n in g ==> Balanced(g, deg, n, if n in todo then popped else popped + {id})
  }

  lemma LowerStep(g: Graph, deg: map<Id, nat>, placed: seq<Id>, todo: set<Id>, popped: set<Id>, id: Id, n: Id)
    requires MidPop(g, deg, placed, todo, popped, id)
    requires popped <= g.Keys && id in g && id !in popped && n in todo && n in g
    ensures n in deg
    ensures id !in g[n].dependsOn ==> MidPop(g, deg, placed, todo - {n}, popped, id)
    ensures id in g[n].dependsOn ==> deg[n] > 0
    ensures id in g[n].dependsOn ==>
      MidPop(g, deg[n := deg[n] - 1], if deg[n] == 1 then placed + [n] else placed, todo - {n}, popped, id)
  {
    PopOne(g, deg, n, popped, id);
    if id in g[n].dependsOn {
      LowerOne(g, deg, n, placed);
      var deg' := deg[n := deg[n] - 1];
      forall m | m in g ensures Balanced(g, deg', m, if m in todo - {n} then popped else popped + {id}) {
        assert Balanced(g, deg, m, if m in todo then popped else popped + {id});
      }
    }
  }

  lemma PopFront(g: Graph, sorted: seq<Id>, id: Id)
    requires DepsBefore(g, sorted) && id in g
    requires forall d :: Edge(g, id, d) ==> d in sorted
    ensures DepsBefore(g, sorted + [id])
  {
    var s := sorted + [id];
    forall i | 0 <= i < |s|
      ensures s[i] in g && forall d :: Edge(g, s[i], d) ==> d in s[..i]
    {
      if i < |sorted| { assert s[..i] == sorted[..i]; } else { assert s[..i] == sorted; }
    }
  }

  /** Between two pops. */
  ghost predicate SortInv(g: Graph, deg: map<Id, nat>, sorted: seq<Id>, queue: seq<Id>) {
    && ZeroMeansPlaced(g, deg, sorted + queue)
    && DepsBefore(g, sorted)
    && forall n :: n in g ==> Balanced(g, deg, n, Elems(sorted))
  }

  lemma SortStarts(g: Graph, deg: map<Id, nat>, queue: seq<Id>)
    requires ZeroMeansPlaced(g, deg, queue)
    requires forall n :: n in g ==> Balanced(g, deg, n, {})
    ensures SortInv(g, deg, [], queue)
  {
  }

  /** The front of the queue is new and has all its in-graph dependencies in `sorted`. */
  lemma PopIsSound(g: Graph, deg: map<Id, nat>, sorted: seq<Id>, queue: seq<Id>)
    requires queue != [] && SortInv(g, deg, sorted, queue)
    ensures queue[0] in g && queue[0] !in sorted && Elems(sorted) <= g.Keys
    ensures DepsBefore(g, sorted + [queue[0]])
    ensures MidPop(g, deg, sorted + [queue[0]] + queue[1..], g.Keys, Elems(sorted), queue[0])
    ensures |sorted| < |g|
  {
    var id, placed := queue[0], sorted + queue;
    var sorted' := sorted + [id];
    assert placed[|sorted|] == id;
    assert sorted' + queue[1..] == placed;
    assert sorted' == placed[..|sorted'|];
    Prefix(placed, |sorted'|);
    Prefix(sorted', |sorted|);
    assert sorted'[..|sorted|] == sorted;
    assert id in Elems(placed);
    ZeroDegree(g, deg, id, Elems(sorted));
    PopFront(g, sorted, id);
    DistinctSize(sorted');
    SubsetSize(Elems(sorted'), g.Keys);
    assert |g.Keys| == |g|;
  }

  lemma PopDone(g: Graph, deg: map<Id, nat>, sorted: seq<Id>, id: Id, queue: seq<Id>)
    requires DepsBefore(g, sorted + [id])
    requires MidPop(g, deg, sorted + [id] + queue, {}, Elems(sorted), id)
    ensures SortInv(g, deg, sorted + [id], queue)
  {
    assert Elems(sorted + [id]) == Elems(sorted) + {id};
  }

  /** The reported node leads to a cycle or to a node with a repeated dependency. */
  ghost predicate StuckReason(g: Graph, id: Id) {
    exists x :: Reaches(g, id, x) && (OnCycle(g, x) || RepeatsDep(g, x))
  }

  /** What the sort leaves behind when the queue runs dry. */
  lemma LeftoverHasReason(g: Graph, deg: map<Id, nat>, sorted: seq<Id>, stuck: Id)
    requires SortInv(g, deg, sorted, []) && stuck in g && stuck !in sorted
    ensures StuckReason(g, stuck)
    ensures Cyclic(g) || exists n :: RepeatsDep(g, n)
  {
    assert sorted + [] == sorted;
    var u := g.Keys - Elems(sorted);
    var q := Walk(g, u, [stuck]);
    var x := q[|q| - 1];
    assert x in u;
    if Lasso(q) {
      LassoOnCycle(g, q);
    } else {
      ZeroDegree(g, deg, x, Elems(sorted));
      assert deg[x] != 0;
      forall d | Edge(g, x, d) ensures d in Elems(sorted) { }
    }
    assert Reaches(g, stuck, x);
  }

  lemma SomethingLeft(g: Graph, deg: map<Id, nat>, sorted: seq<Id>)
    requires SortInv(g, deg, sorted, []) && |sorted| != |g|
    ensures exists id :: id in g && id !in sorted
  {
    assert sorted + [] == sorted;
    DistinctSize(sorted);
    assert |g.Keys| == |g|;
    assert Elems(sorted) <= g.Keys;
    hide SortInv;
    LargerHasMore(Elems(sorted), g.Keys);
    var id :| id in g.Keys && id !in Elems(sorted);
  }

  /** A sort that placed every node met neither a cycle nor a repeated dependency. */
  lemma FullSortHasNoReason(g: Graph, deg: map<Id, nat>, sorted: seq<Id>)
    requires SortInv(g, deg, sorted, []) && |sorted| == |g|
    ensures TopoOrder(g, sorted)
    ensures !Cyclic(g) && forall n :: !RepeatsDep(g, n)
  {
    assert sorted + [] == sorted;
    DistinctSize(sorted);
    SubsetSize(Elems(sorted), g.Keys);
    assert |g.Keys| == |g|;
    OrderedIsAcyclic(g, sorted);
    forall n | n in g ensures !RepeatsDep(g, n) {
      assert n in Elems(sorted);
      ZeroDegree(g, deg, n, Elems(sorted));
    }
  }

  /** An acyclic graph the sort refuses all the same: one node names another twice. */
  lemma RepeatWithoutCycle()
    ensures var b := Node("b", [], Pending, None);
      var a := Node("a", ["b", "b"], Pending, None);
      var g: Graph := map["a" := a, "b" := b];
      !Cyclic(g) && RepeatsDep(g, "a")
  {
    var b := Node("b", [], Pending, None);
    var a := Node("a", ["b", "b"], Pending, None);
    var g: Graph := map["a" := a, "b" := b];
    assert "a" != "b" by { assert "a"[0] != "b"[0]; }
    var order := ["b", "a"];
    assert order[..1] == ["b"] && order[0] in Elems(order) && order[1] in Elems(order);
    assert "b" in order[..1] by { assert order[..1][0] == "b"; }
    OrderedIsAcyclic(g, order);
    assert a.dependsOn[0] == a.dependsOn[1];
  }

  // ------------------------------------------------------ invariants of the DFS

  /** Visited nodes are either finished, in dependency order, or on the current path. */
  ghost predicate Discipline(g: Graph, visited: set<Id>, stack: set<Id>, path: seq<Id>, fin: seq<Id>) {
    && visited == Elems(fin) + Elems(path)
    && stack == Elems(path)
    && Elems(path) <= g.Keys
    && DepsBefore(g, fin)
  }

  lemma EnterNode(g: Graph, visited: set<Id>, stack: set<Id>, path: seq<Id>, fin: seq<Id>, id: Id)
    requires Discipline(g, visited, stack, path, fin) && id in g && id !in visited
    ensures Discipline(g, visited + {id}, stack + {id}, path + [id], fin) && id !in path
  {
  }

  lemma LeaveNode(g: Graph, visited: set<Id>, stack: set<Id>, path: seq<Id>, fin: seq<Id>, id: Id)
    requires Discipline(g, visited, stack, path + [id], fin) && id !in path && id in g
    requires forall d :: d in g[id].dependsOn && d in g ==> d in fin
    ensures Discipline(g, visited, stack - {id}, path, fin + [id])
  {
    assert Elems(path + [id]) == Elems(path) + {id};
    assert Elems(fin + [id]) == Elems(fin) + {id};
    PopFront(g, fin, id);
  }

  /** A dependency seen before is finished, or it is still on the stack and closes a cycle. */
  lemma SeenBefore(g: Graph, visited: set<Id>, stack: set<Id>, path: seq<Id>, fin: seq<Id>, dep: Id)
    requires Discipline(g, visited, stack, path, fin) && IsPath(g, path)
    requires dep in visited && Edge(g, path[|path| - 1], dep)
    ensures if dep in stack then Cyclic(g) else dep in fin
  {
    if dep in stack {
      var q := path + [dep];
      PathSnoc(g, path, dep);
      var k :| 0 <= k < |path| && path[k] == dep;
      assert q[k] == q[|q| - 1];
      LassoOnCycle(g, q);
    }
  }

  // ------------------------------------------------------------------ the class

  class DagGraph {
    var nodes: Graph

    ghost predicate Valid()
      reads this
    {
      Keyed(nodes)
    }

    constructor ()
      ensures nodes == map[] && Valid()
    {
      nodes := map[];
    }

    method AddNode(node: Node) returns (r: Result<()>)
      requires Valid()
      modifies this
      ensures Valid()
      ensures (nodes, r) == Added(old(nodes), node)
    {
      if node.id in nodes {
        return Err(DuplicateNode(node.id));
      }
      var id := node.id;
      nodes := nodes[id := node];
      var cyclic := HasCycle();
      if cyclic {
        nodes := nodes - {id};
        assert nodes == old(nodes);
        return Err(CycleDetected(id));
      }
      return Ok(());
    }

    method RemoveNode(id: Id) returns (r: Result<Node>)
      requires Valid()
      modifies this
      ensures Valid()
      ensures (nodes, r) == Removed(old(nodes), id)
    {
      if id !in nodes {
        return Err(NodeNotFound(id));
      }
      var todo := nodes.Keys;
      while todo != {}
        invariant nodes == old(nodes) && todo <= nodes.Keys
        invariant forall other :: other in nodes.Keys - todo && other != id ==> id !in nodes[other].dependsOn
        decreases todo
      {
        var other :| other in todo;
        todo := todo - {other};
        if other != id && id in nodes[other].dependsOn {
          assert HasDependent(nodes, id);
          return Err(HasDependents(id));
        }
      }
      var node := nodes[id];
      nodes := nodes - {id};
      return Ok(node);
    }

    /** The pending nodes whose every dependency is done, each once, in any order. */
    method ReadyNodes() returns (ready: seq<Id>)
      ensures Distinct(ready) && Elems(ready) == ReadySet(nodes)
      ensures forall id :: id in ready <==>
        && id in nodes
        && nodes[id].status == Pending
        && forall d :: d in nodes[id].dependsOn ==> d in nodes && nodes[d].status == Done
    {
      ready := [];
      var todo := nodes.Keys;
      while todo != {}
        invariant todo <= nodes.Keys && Distinct(ready)
        invariant forall id :: id in ready <==> id in nodes.Keys - todo && IsReady(nodes, id)
        decreases todo
      {
        var id :| id in todo;
        todo := todo - {id};
        if IsReady(nodes, id) {
          ready := ready + [id];
        }
      }
    }

    /** True exactly when the existing nodes depend on each other in a circle. */
    method HasCycle() returns (cyclic: bool)
      ensures cyclic <==> Cyclic(nodes)
    {
      var visited: set<Id>, stack: set<Id> := {}, {};
      ghost var fin: seq<Id> := [];
      var todo := nodes.Keys;
      while todo != {}
        invariant todo <= nodes.Keys
        invariant Discipline(nodes, visited, stack, [], fin)
        invariant nodes.Keys - todo <= visited
        decreases todo
      {
        var id :| id in todo;
        todo := todo - {id};
        if id !in visited {
          var found;
          found, visited, stack, fin := DfsCycle(id, visited, stack, [], fin);
          if found {
            return true;
          }
        }
      }
      OrderedIsAcyclic(nodes, fin);
      return false;
    }

    /** Depth-first search from `id`; each call finishes or finds a cycle, using up unvisited nodes. */
    method DfsCycle(id: Id, visited: set<Id>, stack: set<Id>, ghost path: seq<Id>, ghost fin: seq<Id>)
      returns (found: bool, visited': set<Id>, stack': set<Id>, ghost fin': seq<Id>)
      requires id in nodes && id !in visited
      requires Discipline(nodes, visited, stack, path, fin)
      requires IsPath(nodes, path + [id])
      ensures found ==> Cyclic(nodes)
      ensures !found ==> Discipline(nodes, visited', stack', path, fin')
      ensures !found ==> id in fin' && fin <= fin' && visited <= visited'
      decreases nodes.Keys - visited
    {
      hide Cyclic, Discipline, IsPath;
      visited', stack', fin' := visited + {id}, stack + {id}, fin;
      ghost var path' := path + [id];
      EnterNode(nodes, visited, stack, path, fin, id);
      var deps := nodes[id].dependsOn;
      for i := 0 to |deps|
        invariant Discipline(nodes, visited', stack', path', fin')
        invariant visited + {id} <= visited' && fin <= fin'
        invariant forall j :: 0 <= j < i && deps[j] in nodes ==> deps[j] in fin'
      {
        var dep := deps[i];
        if dep in nodes {
          assert Edge(nodes, id, dep);
          if dep !in visited' {
            PathSnoc(nodes, path', dep);
            found, visited', stack', fin' := DfsCycle(dep, visited', stack', path', fin');
            if found {
              return;
            }
          } else {
            SeenBefore(nodes, visited', stack', path', fin', dep);
            if dep in stack' {
              found := true;
              return;
            }
          }
        }
      }
      LeaveNode(nodes, visited', stack', path, fin', id);
      stack' := stack' - {id};
      fin' := fin' + [id];
      found := false;
    }

    /** Kahn's sort: a dependency order of all nodes, or the name of a node it could not place. */
    method TopologicalSort() returns (r: Result<seq<Id>>)
      requires Valid()
      ensures r.Ok? ==> TopoOrder(nodes, r.value)
      ensures r.Err? <==> Cyclic(nodes) || exists n :: RepeatsDep(nodes, n)
      ensures r.Err? ==> r.error.CycleDetected? && r.error.id in nodes && StuckReason(nodes, r.error.id)
    {
      hide SortInv, MidPop, TopoOrder, Balanced, ZeroMeansPlaced, DepsBefore;
      var inDegree := InDegrees();
      var queue := ZeroIds(inDegree);
      var sorted: seq<Id> := [];
      SortStarts(nodes, inDegree, queue);
      while queue != []
        invariant SortInv(nodes, inDegree, sorted, queue)
        decreases |nodes| - |sorted|
      {
        PopIsSound(nodes, inDegree, sorted, queue);
        var id := queue[0];
        ghost var popped := sorted;
        queue := queue[1..];
        sorted := sorted + [id];
        inDegree, queue := LowerDependents(inDegree, sorted, queue, Elems(popped), id);
        PopDone(nodes, inDegree, popped, id, queue);
      }
      if |sorted| != |nodes| {
        SomethingLeft(nodes, inDegree, sorted);
        var stuck :| stuck in nodes && stuck !in sorted;
        LeftoverHasReason(nodes, inDegree, sorted, stuck);
        return Err(CycleDetected(stuck));
      }
      FullSortHasNoReason(nodes, inDegree, sorted);
      return Ok(sorted);
    }

    /** For every node that depends on the popped `id`, reduce its degree and queue it at zero. */
    method LowerDependents(deg: map<Id, nat>, ghost sorted: seq<Id>, queue: seq<Id>, ghost popped: set<Id>, id: Id)
      returns (deg': map<Id, nat>, queue': seq<Id>)
      requires Valid()
      requires popped <= nodes.Keys && id in nodes && id !in popped
      requires MidPop(nodes, deg, sorted + queue, nodes.Keys, popped, id)
      ensures MidPop(nodes, deg', sorted + queue', {}, popped, id)
    {
      hide MidPop;
      deg', queue' := deg, queue;
      var todo := nodes.Keys;
      while todo != {}
        invariant todo <= nodes.Keys
        invariant MidPop(nodes, deg', sorted + queue', todo, popped, id)
        decreases todo
      {
        var n :| n in todo;
        var node := nodes[n];
        LowerStep(nodes, deg', sorted + queue', todo, popped, id, n);
        todo := todo - {n};
        if id in node.dependsOn {
          deg' := deg'[node.id := deg'[node.id] - 1];
          if deg'[node.id] == 0 {
            assert sorted + (queue' + [n]) == sorted + queue' + [n];
            queue' := queue' + [node.id];
          }
        }
      }
    }

    /** In-graph dependency positions per node, counting repeats. */
    method InDegrees() returns (deg: map<Id, nat>)
      requires Valid()
      ensures deg.Keys == nodes.Keys
      ensures forall n :: n in nodes ==> Balanced(nodes, deg, n, {})
    {
      deg := map id | id in nodes :: 0;
      var todo := nodes.Keys;
      while todo != {}
        invariant todo <= nodes.Keys && deg.Keys == nodes.Keys
        invariant forall n :: n in todo ==> deg[n] == 0
        invariant forall n :: n in nodes.Keys - todo ==> deg[n] == CountIn(nodes, nodes[n].dependsOn)
        decreases todo
      {
        var n :| n in todo;
        todo := todo - {n};
        var deps := nodes[n].dependsOn;
        for i := 0 to |deps|
          invariant deg.Keys == nodes.Keys
          invariant deg[n] == CountIn(nodes, deps[..i])
          invariant forall m :: m in todo ==> deg[m] == 0
          invariant forall m :: m in nodes.Keys - todo - {n} ==> deg[m] == CountIn(nodes, nodes[m].dependsOn)
        {
          assert deps[..i + 1][..i] == deps[..i];
          if deps[i] in nodes {
            deg := deg[nodes[n].id := deg[nodes[n].id] + 1];
          }
        }
        assert deps[..|deps|] == deps;
      }
      forall n | n in nodes ensures Balanced(nodes, deg, n, {}) {
        assert Within(nodes[n].dependsOn, {}) == {};
      }
    }

    /** The ids of degree zero, in any order. */
    method ZeroIds(deg: map<Id, nat>) returns (queue: seq<Id>)
      requires deg.Keys == nodes.Keys
      ensures ZeroMeansPlaced(nodes, deg, queue)
    {
      queue := [];
      var todo := deg.Keys;
      while todo != {}
        invariant todo <= deg.Keys && Distinct(queue)
        invariant forall n :: n in queue <==> n in deg.Keys - todo && deg[n] == 0
        decreases todo
      {
        var n :| n in todo;
        todo := todo - {n};
        if deg[n] == 0 {
          queue := queue + [n];
        }
      }
    }
  }
}
