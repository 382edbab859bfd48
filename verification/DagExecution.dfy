/** src/dag/executor.rs and the load half of src/dag/persistence.rs. */
module DagExecution {
  import opened MachineInts
  import opened DagTypes
  import opened DagSchedule
  import opened DagGraphs

  datatype ExecutionResult = ExecutionResult(nodeId: Id, success: bool)

  function Ids(results: seq<ExecutionResult>): (ids: seq<Id>)
    ensures |ids| == |results|
  {
    seq(|results|, i requires 0 <= i < |results| => results[i].nodeId)
  }

  /** `c` is a choice the first lock section can make. */
  ghost predicate Choice(g: Graph, c: set<Id>, maxParallel: nat) {
    c <= ReadySet(g) && |c| == Min(maxParallel, |ReadySet(g)|)
  }

  /** `h` is `g` after one uninterrupted tick. */
  ghost predicate IsTick(g: Graph, h: Graph, oc: Outcome, maxParallel: nat) {
    exists c :: Choice(g, c, maxParallel) && h == WrittenBack(g, c, oc)
  }

  // ----------------------------------------------------------------- the run log

  /**
   * `log` lists executed nodes in an order in which each node's dependencies were done at the
   * start or were executed earlier with success.
   */
  ghost predicate LogOrdered(g: Graph, log: seq<Id>, oc: Outcome) {
    && Distinct(log)
    && forall i :: 0 <= i < |log| ==>
         && log[i] in g
         && g[log[i]].status.Pending?
         && forall d :: d in g[log[i]].dependsOn ==>
              d in g && (g[d].status.Done? || (d in log[..i] && oc(d)))
  }

  lemma LogGrows(g: Graph, log: seq<Id>, ids: seq<Id>, oc: Outcome)
    requires LogOrdered(g, log, oc)
    requires Distinct(ids) && Elems(ids) <= ReadySet(WrittenBack(g, Elems(log), oc))
    ensures LogOrdered(g, log + ids, oc)
    ensures WrittenBack(WrittenBack(g, Elems(log), oc), Elems(ids), oc) == WrittenBack(g, Elems(log + ids), oc)
  {
    var h := WrittenBack(g, Elems(log), oc);
    var all := log + ids;
    forall id | id in ids ensures id !in log && IsReady(h, id) {
      assert id in Elems(ids);
    }
    DistinctConcat(log, ids);
    forall i | 0 <= i < |all|
      ensures all[i] in g && g[all[i]].status.Pending?
      ensures forall d :: d in g[all[i]].dependsOn ==>
                d in g && (g[d].status.Done? || (d in all[..i] && oc(d)))
    {
      if i < |log| {
        assert all[..i] == log[..i];
      } else {
        assert all[i] in ids;
        assert all[..i][..|log|] == log;
        forall d | d in g[all[i]].dependsOn
          ensures d in g && (g[d].status.Done? || (d in all[..i] && oc(d)))
        {
          assert d in h && h[d].status.Done?;
          if d in log { var k :| 0 <= k < |log| && log[k] == d; assert all[..i][k] == d; }
        }
      }
    }
  }

  /** The order in which a fully pending graph completes is a topological order. */
  lemma CompletedLogIsTopological(g: Graph, log: seq<Id>, oc: Outcome)
    requires LogOrdered(g, log, oc)
    requires forall id :: id in g ==> g[id].status.Pending?
    requires IsComplete(WrittenBack(g, Elems(log), oc))
    ensures TopoOrder(g, log)
  {
    var h := WrittenBack(g, Elems(log), oc);
    forall id | id in g ensures id in log {
      assert h[id].status.Done?;
    }
    forall i, d | 0 <= i < |log| && Edge(g, log[i], d) ensures d in log[..i] {
      assert d in g[log[i]].dependsOn;
    }
  }

  // ------------------------------------------------------------------ zero workers

  /** With `maxParallel` zero a tick changes nothing, so the loop of `run` can stop only if it may stop at once. */
  lemma {:induction false} ZeroParallelNeverMoves(gs: seq<Graph>, oc: Outcome, i: nat)
    requires i < |gs|
    requires forall k :: 0 < k < |gs| ==> IsTick(gs[k - 1], gs[k], oc, 0)
    requires ReadySet(gs[0]) != {}
    ensures gs[i] == gs[0] && !IsComplete(gs[i]) && ReadySet(gs[i]) != {}
  {
    if i == 0 {
      var id :| id in ReadySet(gs[0]);
      assert id in gs[0] && gs[0][id].status.Pending?;
    } else {
      ZeroParallelNeverMoves(gs, oc, i - 1);
      assert IsTick(gs[i - 1], gs[i], oc, 0);
      var c :| Choice(gs[i - 1], c, 0) && gs[i] == WrittenBack(gs[i - 1], c, oc);
      assert c == {};
      assert gs[i] == gs[i - 1];
    }
  }

  lemma ReadyArePending(g: Graph, c: set<Id>)
    requires c <= ReadySet(g)
    ensures c <= WithStatus(g, Pending)
  {
  }

  /** A tick uses up its claimed nodes. */
  lemma PendingShrinks(g: Graph, c: set<Id>, oc: Outcome)
    requires c <= ReadySet(g)
    ensures |WithStatus(WrittenBack(g, c, oc), Pending)| == |WithStatus(g, Pending)| - |c|
  {
    hide ReadySet;
    ReadyArePending(g, c);
    var before, after := WithStatus(g, Pending), WithStatus(WrittenBack(g, c, oc), Pending);
    assert after == before - c;
    assert c + (before - c) == before;
  }

  lemma TakeIsChoice(g: Graph, ready: seq<Id>, maxParallel: nat, take: nat)
    requires Distinct(ready) && Elems(ready) == ReadySet(g) && take == Min(|ready|, maxParallel)
    ensures Distinct(ready[..take]) && Choice(g, Elems(ready[..take]), maxParallel)
  {
    Prefix(ready, take);
    DistinctSize(ready);
    DistinctSize(ready[..take]);
  }

  lemma TakeAllOrMost(g: Graph, taken: seq<Id>, maxParallel: nat)
    requires Distinct(taken) && Choice(g, Elems(taken), maxParallel)
    ensures |taken| <= maxParallel && (|taken| < maxParallel ==> Elems(taken) == ReadySet(g))
  {
    DistinctSize(taken);
    SubsetSize(Elems(taken), ReadySet(g));
  }

  lemma ClaimOne(g: Graph, s: seq<Id>, id: Id)
    requires id in g
    ensures var h := Claimed(g, Elems(s)); h[id := h[id].(status := InProgress)] == Claimed(g, Elems(s + [id]))
  {
  }

  lemma CompleteIsQuiescent(g: Graph)
    requires IsComplete(g)
    ensures ReadySet(g) == {}
  {
  }

  /** A tick without results leaves the graph as it was, with nothing ready if anyone may work. */
  lemma NoResultsNoReady(g: Graph, c: set<Id>, oc: Outcome, maxParallel: nat)
    requires Choice(g, c, maxParallel) && (maxParallel >= 1 || ReadySet(g) == {})
    ensures c == {} ==> WrittenBack(g, c, oc) == g && ReadySet(g) == {}
    ensures maxParallel >= 1 || ReadySet(WrittenBack(g, c, oc)) == {}
  {
  }

  class DagExecutor {
    const graph: DagGraph
    const maxParallel: nat

    constructor (graph: DagGraph, maxParallel: nat)
      ensures this.graph == graph && this.maxParallel == maxParallel
    {
      this.graph := graph;
      this.maxParallel := maxParallel;
    }

    /** First lock section: claim up to `maxParallel` ready nodes. */
    method TickBegin() returns (toRun: seq<Id>)
      requires graph.Valid()
      modifies graph
      ensures graph.Valid()
      ensures Distinct(toRun) && Choice(old(graph.nodes), Elems(toRun), maxParallel)
      ensures |toRun| <= maxParallel && (|toRun| < maxParallel ==> Elems(toRun) == ReadySet(old(graph.nodes)))
      ensures graph.nodes == Claimed(old(graph.nodes), Elems(toRun))
      ensures forall id :: id in graph.nodes && id in toRun ==>
        graph.nodes[id] == Node(old(graph.nodes)[id].id, old(graph.nodes)[id].dependsOn, InProgress,
                                old(graph.nodes)[id].result)
    {
      var ready := graph.ReadyNodes();
      var take := if |ready| <= maxParallel then |ready| else maxParallel;
      var readyIds := ready[..take];
      TakeIsChoice(graph.nodes, ready, maxParallel, take);
      TakeAllOrMost(graph.nodes, readyIds, maxParallel);
      assert Elems(readyIds) <= graph.nodes.Keys;
      hide Choice, Distinct, Claimed;
      toRun := [];
      for i := 0 to |readyIds|
        invariant toRun == readyIds[..i] && graph.Valid()
        invariant graph.nodes == Claimed(old(graph.nodes), Elems(toRun))
      {
        var id := readyIds[i];
        assert id in Elems(readyIds);
        ClaimOne(old(graph.nodes), toRun, id);
        graph.nodes := graph.nodes[id := graph.nodes[id].(status := InProgress)];
        toRun := toRun + [id];
      }
      assert toRun == readyIds;
    }

    /** Second lock section: write each result to its node, if the node is still there. */
    method TickEnd(results: seq<ExecutionResult>, ghost oc: Outcome)
      requires graph.Valid()
      requires forall r :: r in results ==> r.success == oc(r.nodeId)
      modifies graph
      ensures graph.Valid()
      ensures graph.nodes == WrittenBack(old(graph.nodes), Elems(Ids(results)), oc)
      ensures graph.nodes.Keys == old(graph.nodes).Keys
      ensures forall r :: r in results && r.nodeId in graph.nodes ==>
        graph.nodes[r.nodeId] == Node(
          old(graph.nodes)[r.nodeId].id, old(graph.nodes)[r.nodeId].dependsOn,
          if r.success then Done else Failed, Some(r.success))
      ensures forall id :: id in graph.nodes && id !in Ids(results) ==> graph.nodes[id] == old(graph.nodes)[id]
    {
      for i := 0 to |results|
        invariant graph.nodes == WrittenBack(old(graph.nodes), Elems(Ids(results[..i])), oc)
      {
        var er := results[i];
        assert er in results;
        assert Ids(results[..i + 1]) == Ids(results[..i]) + [er.nodeId];
        if er.nodeId in graph.nodes {
          graph.nodes := graph.nodes[er.nodeId := Executed(graph.nodes[er.nodeId], er.success)];
        }
      }
      assert results[..|results|] == results;
      forall r | r in results ensures r.nodeId in Ids(results) {
        var i :| 0 <= i < |results| && results[i] == r;
        assert Ids(results)[i] == r.nodeId;
      }
    }

    /** One tick with nobody else touching the graph between the lock sections. */
    method ExecuteTick(oc: Outcome) returns (results: seq<ExecutionResult>)
      requires graph.Valid()
      modifies graph
      ensures graph.Valid()
      ensures Distinct(Ids(results)) && Choice(old(graph.nodes), Elems(Ids(results)), maxParallel)
      ensures graph.nodes == WrittenBack(old(graph.nodes), Elems(Ids(results)), oc)
      ensures forall r :: r in results ==> r.success == oc(r.nodeId)
    {
      var toRun := TickBegin();
      results := [];
      if toRun == [] {
        assert Elems(toRun) == {};
        return;
      }
      for i := 0 to |toRun|
        invariant Ids(results) == toRun[..i]
        invariant forall r :: r in results ==> r.success == oc(r.nodeId)
      {
        results := results + [ExecutionResult(toRun[i], oc(toRun[i]))];
      }
      assert Ids(results) == toRun;
      TickEnd(results, oc);
    }

    /** Tick until the graph is complete or nothing can move. */
    method Run(oc: Outcome) returns (verdict: Verdict, ghost log: seq<Id>, ghost ticks: nat)
      requires graph.Valid()
      requires maxParallel >= 1 || ReadySet(graph.nodes) == {}
      modifies graph
      ensures graph.Valid()
      ensures graph.nodes == Settled(old(graph.nodes), oc)
      ensures verdict == VerdictOf(graph.nodes)
      ensures ResultsMatch(old(graph.nodes)) ==> ResultsMatch(graph.nodes)
      ensures LogOrdered(old(graph.nodes), log, oc)
      ensures graph.nodes == WrittenBack(old(graph.nodes), Elems(log), oc)
      ensures 1 <= ticks <= |WithStatus(old(graph.nodes), Pending)| + 1
    {
      ghost var g0 := graph.nodes;
      SettledResults(g0, oc);
      log, ticks := [], 0;
      assert WrittenBack(g0, Elems(log), oc) == g0;
      while true
        invariant graph.Valid()
        invariant LogOrdered(g0, log, oc) && graph.nodes == WrittenBack(g0, Elems(log), oc)
        invariant Settled(graph.nodes, oc) == Settled(g0, oc)
        invariant maxParallel >= 1 || ReadySet(graph.nodes) == {}
        invariant ticks + |WithStatus(graph.nodes, Pending)| <= |WithStatus(g0, Pending)|
        decreases |WithStatus(graph.nodes, Pending)|
      {
        ghost var g := graph.nodes;
        var results := ExecuteTick(oc);
        ghost var c := Elems(Ids(results));
        DistinctSize(Ids(results));
        TickKeepsSettled(g, oc, c);
        PendingShrinks(g, c, oc);
        LogGrows(g0, log, Ids(results), oc);
        log, ticks := log + Ids(results), ticks + 1;
        var complete := IsComplete(graph.nodes);
        if complete {
          CompleteIsQuiescent(graph.nodes);
          QuiescentIsSettled(graph.nodes, oc);
          return Completed, log, ticks;
        }
        var ready := graph.ReadyNodes();
        if results == [] && ready == [] {
          assert ReadySet(graph.nodes) == {};
          QuiescentIsSettled(graph.nodes, oc);
          verdict := if HasFailed(graph.nodes) then FailedNoRecovery else Stuck;
          return;
        }
        NoResultsNoReady(g, c, oc, maxParallel);
        assert ready != [] ==> ready[0] in Elems(ready);
      }
    }
  }

  // --------------------------------------------------------------- crash recovery

  /** What stands at the checkpoint's path: nothing, something unreadable, something else, or a graph. */
  datatype CheckpointFile = Missing | Unreadable | Malformed | Snapshot(graph: Graph)

  datatype LoadError = NoCheckpoint | Io | Serde

  datatype LoadResult = Loaded(graph: DagGraph) | LoadFailed(error: LoadError)

  /** Load a checkpoint, putting work in progress back to pending. */
  method LoadCheckpoint(file: CheckpointFile) returns (r: LoadResult)
    ensures r == LoadFailed(NoCheckpoint) <==> file.Missing?
    ensures r == LoadFailed(Io) <==> file.Unreadable?
    ensures r == LoadFailed(Serde) <==> file.Malformed?
    ensures file.Snapshot? ==> r.Loaded? && fresh(r.graph) && r.graph.nodes == Recovered(file.graph)
  {
    match file
    case Missing => return LoadFailed(NoCheckpoint);
    case Unreadable => return LoadFailed(Io);
    case Malformed => return LoadFailed(Serde);
    case Snapshot(saved) =>
      var graph := new DagGraph();
      graph.nodes := saved;
      var ids := set id | id in graph.nodes && graph.nodes[id].status.InProgress?;
      while ids != {}
        invariant ids == WithStatus(graph.nodes, InProgress)
        invariant Recovered(graph.nodes) == Recovered(saved)
        decreases ids
      {
        var id :| id in ids;
        ids := ids - {id};
        graph.nodes := graph.nodes[id := graph.nodes[id].(status := Pending)];
      }
      assert forall id :: id in graph.nodes ==> id !in WithStatus(graph.nodes, InProgress);
      return Loaded(graph);
  }

  /** The reset touches in-progress nodes only, leaves none, and repeating it changes nothing. */
  lemma RecoveryIsExact(g: Graph)
    ensures Recovered(g).Keys == g.Keys && WithStatus(Recovered(g), InProgress) == {}
    ensures Recovered(Recovered(g)) == Recovered(g)
    ensures forall id :: id in g ==>
      Recovered(g)[id] == g[id] || (g[id].status.InProgress? && Recovered(g)[id] == g[id].(status := Pending))
    ensures WithStatus(g, InProgress) == {} ==> Recovered(g) == g
  {
    if WithStatus(g, InProgress) == {} {
      forall id | id in g ensures !g[id].status.InProgress? {
        assert id !in WithStatus(g, InProgress);
      }
    }
  }
}
