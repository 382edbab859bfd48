/** src/dag/runtime.rs: mutators that share the graph with running executors. */
module DagRuntime {
  import opened DagTypes
  import opened DagGraphs

  /** Only pending nodes may be removed, and then only if nobody names them. */
  ghost function RuntimeRemoved(g: Graph, id: Id): (Graph, Result<Node>) {
    if id !in g then (g, Err(NodeNotFound(id)))
    else if !g[id].status.Pending? then (g, Err(DagError.NodeInProgress(id)))
    else Removed(g, id)
  }

  /** Only pending nodes may be rewired, and not into a cycle. */
  ghost function Rewired(g: Graph, id: Id, deps: seq<Id>): (Graph, Result<()>) {
    if id !in g then (g, Err(NodeNotFound(id)))
    else if !g[id].status.Pending? then (g, Err(DagError.NodeInProgress(id)))
    else if Cyclic(g[id := g[id].(dependsOn := deps)]) then (g, Err(CycleDetected(id)))
    else (g[id := g[id].(dependsOn := deps)], Ok(()))
  }

  datatype Mutation = Add(node: Node) | Remove(id: Id) | Rewire(id: Id, deps: seq<Id>)

  /** The graph after one mutation request, refused or not. */
  ghost function Mutated(g: Graph, m: Mutation): Graph {
    match m
    case Add(node) => Added(g, node).0
    case Remove(id) => RuntimeRemoved(g, id).0
    case Rewire(id, deps) => Rewired(g, id, deps).0
  }

  ghost function ErrorOf(g: Graph, m: Mutation): Option<DagError> {
    match m
    case Add(node) => if Added(g, node).1.Err? then Some(Added(g, node).1.error) else None
    case Remove(id) => if RuntimeRemoved(g, id).1.Err? then Some(RuntimeRemoved(g, id).1.error) else None
    case Rewire(id, deps) => if Rewired(g, id, deps).1.Err? then Some(Rewired(g, id, deps).1.error) else None
  }

  /** The graph a mutation tries to reach, before any check. */
  function Attempted(g: Graph, m: Mutation): Graph {
    match m
    case Add(node) => g[node.id := node]
    case Remove(id) => g - {id}
    case Rewire(id, deps) => if id in g then g[id := g[id].(dependsOn := deps)] else g
  }

  /** On an acyclic graph the id in a cycle error lies on a cycle of the attempted graph. */
  lemma CycleErrorIsOnCycle(g: Graph, m: Mutation)
    requires !Cyclic(g) && ErrorOf(g, m).Some? && ErrorOf(g, m).value.CycleDetected?
    ensures OnCycle(Attempted(g, m), ErrorOf(g, m).value.id)
  {
    match m
    case Add(node) => NewCycleRunsThrough(g, g[node.id := node], node.id);
    case Remove(id) =>
    case Rewire(id, deps) => NewCycleRunsThrough(g, g[id := g[id].(dependsOn := deps)], id);
  }

  /** A request either fails and changes nothing, or succeeds with exactly what it attempted. */
  lemma MutationIsAtomic(g: Graph, m: Mutation)
    ensures ErrorOf(g, m).Some? ==> Mutated(g, m) == g
    ensures ErrorOf(g, m).None? ==> Mutated(g, m) == Attempted(g, m)
  {
  }

  lemma MutationKeepsAcyclic(g: Graph, m: Mutation)
    requires !Cyclic(g)
    ensures !Cyclic(Mutated(g, m))
  {
    if m.Remove? {
      var h := Mutated(g, m);
      if Cyclic(h) {
        MoreEdgesKeepCycles(h, g);
      }
    }
  }

  ghost function AfterAll(g: Graph, ms: seq<Mutation>): Graph
    decreases |ms|
  {
    if ms == [] then g else Mutated(AfterAll(g, ms[..|ms| - 1]), ms[|ms| - 1])
  }

  /**
   * No sequence of requests makes an acyclic graph cyclic or changes a node that is not pending
   * (new ids aside), and none makes a node that is not pending lose a dependency it could resolve.
   */
  lemma {:induction false} MutationsAreSafe(g: Graph, ms: seq<Mutation>)
    requires !Cyclic(g)
    ensures !Cyclic(AfterAll(g, ms))
    ensures forall id :: id in g && !g[id].status.Pending? ==>
      id in AfterAll(g, ms) && AfterAll(g, ms)[id] == g[id]
    ensures forall id, d :: id in g && !g[id].status.Pending? && d in g[id].dependsOn && d in g ==>
      d in AfterAll(g, ms)
    decreases |ms|
  {
    if ms != [] {
      MutationsAreSafe(g, ms[..|ms| - 1]);
      MutationKeepsAcyclic(AfterAll(g, ms[..|ms| - 1]), ms[|ms| - 1]);
    }
  }

  /** The request is not about rewiring or removing `id`. */
  predicate LeavesAlone(m: Mutation, id: Id) {
    (m.Remove? || m.Rewire?) ==> m.id != id
  }

  /** Requests about other nodes change neither a node nor which of its dependencies it can resolve. */
  lemma {:induction false} OthersKeepResolved(g: Graph, ms: seq<Mutation>, id: Id)
    requires id in g && forall i :: 0 <= i < |ms| ==> LeavesAlone(ms[i], id)
    ensures id in AfterAll(g, ms) && AfterAll(g, ms)[id] == g[id]
    ensures forall d :: d in g[id].dependsOn && d in g ==> d in AfterAll(g, ms)
    decreases |ms|
  {
    if ms != [] {
      var n := |ms| - 1;
      OthersKeepResolved(g, ms[..n], id);
      var before, m := AfterAll(g, ms[..n]), ms[n];
      assert LeavesAlone(m, id);
      if m.Remove? && m.id in g[id].dependsOn && m.id in before {
        assert HasDependent(before, m.id);
      }
    }
  }

  /** `NodeInProgress` answers for every existing node that is not pending, finished and blocked ones too. */
  lemma NodeInProgressMeansNotPending(g: Graph, m: Mutation, id: Id)
    ensures ErrorOf(g, m) == Some(DagError.NodeInProgress(id)) <==>
      (m.Remove? || m.Rewire?) && m.id == id && id in g && !g[id].status.Pending?
  {
  }

  /**
   * Which requests an acyclic graph accepts: new nodes, pending nodes nobody names, and pending nodes,
   * where no new dependency may lead back to the node.
   */
  lemma AcceptedIff(g: Graph, m: Mutation)
    requires !Cyclic(g)
    ensures ErrorOf(g, m).None? <==>
      match m
      case Add(node) =>
        && node.id !in g
        && forall d :: d in node.dependsOn && (d in g || d == node.id) ==> !LeadsTo(g, d, node.id)
      case Remove(id) =>
        && id in g
        && g[id].status == Pending
        && forall other :: other in g && id in g[other].dependsOn ==> other == id
      case Rewire(id, deps) =>
        && id in g
        && g[id].status == Pending
        && forall d :: d in deps && d in g ==> !LeadsTo(g, d, id)
  {
    match m
    case Add(node) =>
      if node.id !in g { ClosesCycleIff(g, g[node.id := node], node.id); }
    case Remove(id) =>
    case Rewire(id, deps) =>
      if id in g { ClosesCycleIff(g, g[id := g[id].(dependsOn := deps)], id); }
  }

  /** The answer to each refused request, and the effect of each accepted one. */
  lemma RequestAnswers(g: Graph, m: Mutation)
    ensures ErrorOf(g, m).Some? ==> Mutated(g, m) == g
    ensures m.Add? ==>
      && (ErrorOf(g, m) == Some(DuplicateNode(m.node.id)) <==> m.node.id in g)
      && (ErrorOf(g, m) == Some(CycleDetected(m.node.id)) <==> m.node.id !in g && Cyclic(g[m.node.id := m.node]))
      && (ErrorOf(g, m).None? <==> m.node.id !in g && !Cyclic(g[m.node.id := m.node]))
      && (ErrorOf(g, m).None? ==> Mutated(g, m) == g[m.node.id := m.node])
    ensures m.Remove? ==>
      && (ErrorOf(g, m) == Some(NodeNotFound(m.id)) <==> m.id !in g)
      && (ErrorOf(g, m) == Some(DagError.NodeInProgress(m.id)) <==> m.id in g && g[m.id].status != Pending)
      && (ErrorOf(g, m) == Some(HasDependents(m.id)) <==>
            && m.id in g && g[m.id].status == Pending
            && exists other :: other in g && other != m.id && m.id in g[other].dependsOn)
      && (ErrorOf(g, m).None? ==> Mutated(g, m) == g - {m.id} && RuntimeRemoved(g, m.id).1.value == g[m.id])
      && (ErrorOf(g, m).None? <==>
            && m.id in g && g[m.id].status == Pending
            && forall other :: other in g && m.id in g[other].dependsOn ==> other == m.id)
    ensures m.Rewire? ==>
      && (ErrorOf(g, m) == Some(NodeNotFound(m.id)) <==> m.id !in g)
      && (ErrorOf(g, m) == Some(DagError.NodeInProgress(m.id)) <==> m.id in g && g[m.id].status != Pending)
      && (ErrorOf(g, m) == Some(CycleDetected(m.id)) <==>
            m.id in g && g[m.id].status == Pending && Cyclic(g[m.id := g[m.id].(dependsOn := m.deps)]))
      && (ErrorOf(g, m).None? <==>
            m.id in g && g[m.id].status == Pending && !Cyclic(g[m.id := g[m.id].(dependsOn := m.deps)]))
      && (ErrorOf(g, m).None? ==> Mutated(g, m) == g[m.id := g[m.id].(dependsOn := m.deps)])
  {
    match m
    case Add(node) => AddAnswers(g, node);
    case Remove(id) => RemoveAnswers(g, id);
    case Rewire(_, _) =>
  }

  class RuntimeDag {
    const graph: DagGraph

    constructor (graph: DagGraph)
      ensures this.graph == graph
    {
      this.graph := graph;
    }

    method AddNode(node: Node) returns (r: Result<()>)
      requires graph.Valid()
      modifies graph
      ensures graph.Valid()
      ensures (graph.nodes, r) == Added(old(graph.nodes), node)
    {
      r := graph.AddNode(node);
    }

    method RemoveNode(id: Id) returns (r: Result<Node>)
      requires graph.Valid()
      modifies graph
      ensures graph.Valid()
      ensures (graph.nodes, r) == RuntimeRemoved(old(graph.nodes), id)
    {
      if id !in graph.nodes {
        return Err(NodeNotFound(id));
      }
      var node := graph.nodes[id];
      if node.status.InProgress? {
        return Err(DagError.NodeInProgress(id));
      }
      if !node.status.Pending? {
        return Err(DagError.NodeInProgress(id));
      }
      r := graph.RemoveNode(id);
    }

    /** Overwrite the dependencies, check, and roll back on a cycle. */
    method UpdateDependencies(id: Id, newDeps: seq<Id>) returns (r: Result<()>)
      requires graph.Valid()
      modifies graph
      ensures graph.Valid()
      ensures (graph.nodes, r) == Rewired(old(graph.nodes), id, newDeps)
    {
      if id !in graph.nodes {
        return Err(NodeNotFound(id));
      }
      if !graph.nodes[id].status.Pending? {
        return Err(DagError.NodeInProgress(id));
      }
      var oldDeps := graph.nodes[id].dependsOn;
      graph.nodes := graph.nodes[id := graph.nodes[id].(dependsOn := newDeps)];
      var cyclic := graph.HasCycle();
      if cyclic {
        graph.nodes := graph.nodes[id := graph.nodes[id].(dependsOn := oldDeps)];
        assert graph.nodes == old(graph.nodes);
        return Err(CycleDetected(id));
      }
      return Ok(());
    }
  }
}
