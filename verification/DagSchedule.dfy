/**
 * What a run of the executor must end in, said without any schedule: the tasks that complete
 * form the least set closed under "all dependencies completed and the task succeeds".
 */
module DagSchedule {
  import opened DagTypes

  /** Whether the task of a node succeeds; a panicked task counts as a failure. */
  type Outcome = Id -> bool

  predicate IsReady(g: Graph, id: Id) {
    && id in g
    && g[id].status.Pending?
    && forall d :: d in g[id].dependsOn ==> d in g && g[d].status.Done?
  }

  ghost function ReadySet(g: Graph): set<Id> {
    set id | id in g && IsReady(g, id)
  }

  predicate IsComplete(g: Graph) {
    g != map[] && forall id :: id in g ==> g[id].status.Done?
  }

  predicate HasFailed(g: Graph) {
    exists id :: id in g && g[id].status.Failed?
  }

  ghost function WithStatus(g: Graph, s: Status): set<Id> {
    set id | id in g && g[id].status == s
  }

  // --------------------------------------------- the two lock sections of a tick

  function Executed(n: Node, success: bool): Node {
    n.(status := if success then Done else Failed, result := Some(success))
  }

  /** First lock section: the chosen ready nodes are marked in progress. */
  function Claimed(g: Graph, c: set<Id>): Graph {
    map id | id in g :: if id in c then g[id].(status := InProgress) else g[id]
  }

  /** Second lock section: results are written to the claimed nodes still in the graph. */
  function WrittenBack(g: Graph, c: set<Id>, oc: Outcome): Graph {
    map id | id in g :: if id in c then Executed(g[id], oc(id)) else g[id]
  }

  /** Crash recovery on load: work in progress becomes pending again. */
  function Recovered(g: Graph): Graph {
    map id | id in g :: if g[id].status.InProgress? then g[id].(status := Pending) else g[id]
  }

  // ------------------------------------------------------- the schedule-free law

  /** All dependencies of the pending node `id` lie in `s`. */
  ghost predicate Enabled(g: Graph, s: set<Id>, id: Id) {
    && id in g
    && g[id].status.Pending?
    && forall d :: d in g[id].dependsOn ==> d in g && d in s
  }

  ghost predicate Closed(g: Graph, oc: Outcome, s: set<Id>) {
    forall id :: id in g ==>
      (g[id].status.Done? || (Enabled(g, s, id) && oc(id)) ==> id in s)
  }

  /** The nodes that lie in every closed set. */
  ghost function WillComplete(g: Graph, oc: Outcome): set<Id> {
    set id | id in g && forall s: set<Id> :: Closed(g, oc, s) ==> id in s
  }

  /** Every pending node whose dependencies all complete has run; nothing else has changed. */
  ghost function Settled(g: Graph, oc: Outcome): Graph {
    map id | id in g :: if Enabled(g, WillComplete(g, oc), id) then Executed(g[id], oc(id)) else g[id]
  }

  lemma EnabledMonotone(g: Graph, s: set<Id>, t: set<Id>, id: Id)
    requires Enabled(g, s, id) && s <= t
    ensures Enabled(g, t, id)
  {
  }

  /** `WillComplete` is itself closed, hence the least closed set, and it is a fixed point. */
  lemma LeastFixpoint(g: Graph, oc: Outcome)
    ensures Closed(g, oc, WillComplete(g, oc))
    ensures forall s: set<Id> :: Closed(g, oc, s) ==> WillComplete(g, oc) <= s
    ensures forall id :: id in WillComplete(g, oc) <==>
      id in g && (g[id].status.Done? || (Enabled(g, WillComplete(g, oc), id) && oc(id)))
  {
    var w := WillComplete(g, oc);
    forall id | id in g && (g[id].status.Done? || (Enabled(g, w, id) && oc(id))) ensures id in w {
      forall s: set<Id> | Closed(g, oc, s) ensures id in s {
        if !g[id].status.Done? { EnabledMonotone(g, w, s, id); }
      }
    }
    var s := set id | id in g && (g[id].status.Done? || (Enabled(g, w, id) && oc(id)));
    assert Closed(g, oc, s) by {
      forall id | id in g && Enabled(g, s, id) && oc(id) ensures id in s {
        EnabledMonotone(g, s, w, id);
      }
    }
  }

  /** After settling, the done nodes are exactly those that will complete. */
  lemma SettledDone(g: Graph, oc: Outcome)
    ensures WithStatus(Settled(g, oc), Done) == WillComplete(g, oc)
  {
    LeastFixpoint(g, oc);
  }

  /** A tick changes no answer to which sets are closed. */
  lemma TickKeepsClosed(g: Graph, oc: Outcome, c: set<Id>, s: set<Id>)
    requires c <= ReadySet(g)
    ensures Closed(WrittenBack(g, c, oc), oc, s) <==> Closed(g, oc, s)
  {
    var h := WrittenBack(g, c, oc);
    forall id | id in g && id !in c ensures Enabled(h, s, id) <==> Enabled(g, s, id) { }
    if Closed(h, oc, s) {
      forall id | id in g && (g[id].status.Done? || (Enabled(g, s, id) && oc(id))) ensures id in s {
        if id in c { assert IsReady(g, id) && h[id].status.Done?; }
      }
    }
    if Closed(g, oc, s) {
      forall id | id in h && (h[id].status.Done? || (Enabled(h, s, id) && oc(id))) ensures id in s {
        if id in c {
          assert IsReady(g, id);
          forall d | d in g[id].dependsOn ensures d in g && d in s { assert g[d].status.Done?; }
          assert Enabled(g, s, id);
        }
      }
    }
  }

  /** Running any set of ready nodes does not change what the run settles to. */
  lemma TickKeepsSettled(g: Graph, oc: Outcome, c: set<Id>)
    requires c <= ReadySet(g)
    ensures Settled(WrittenBack(g, c, oc), oc) == Settled(g, oc)
  {
    var h := WrittenBack(g, c, oc);
    forall s: set<Id> ensures Closed(h, oc, s) <==> Closed(g, oc, s) {
      TickKeepsClosed(g, oc, c, s);
    }
    var w := WillComplete(g, oc);
    assert WillComplete(h, oc) == w;
    LeastFixpoint(g, oc);
    forall id | id in g ensures Settled(h, oc)[id] == Settled(g, oc)[id] {
      if id in c {
        assert IsReady(g, id) && Enabled(g, w, id);
      } else {
        assert Enabled(h, w, id) <==> Enabled(g, w, id);
      }
    }
  }

  /** When nothing is ready, the graph has settled already. */
  lemma QuiescentIsSettled(g: Graph, oc: Outcome)
    requires ReadySet(g) == {}
    ensures Settled(g, oc) == g
  {
    var done, w := WithStatus(g, Done), WillComplete(g, oc);
    forall id | id in g ensures !Enabled(g, done, id) {
      assert id !in ReadySet(g);
      assert Enabled(g, done, id) ==> IsReady(g, id);
    }
    assert Closed(g, oc, done);
    LeastFixpoint(g, oc);
    forall id | id in g ensures !Enabled(g, w, id) {
      assert w <= done;
      assert Enabled(g, w, id) ==> Enabled(g, done, id);
    }
  }

  /** The settled graph offers nothing more to run: settling twice is settling once. */
  lemma SettledIsQuiescent(g: Graph, oc: Outcome)
    ensures ReadySet(Settled(g, oc)) == {}
    ensures Settled(Settled(g, oc), oc) == Settled(g, oc)
  {
    var h, w := Settled(g, oc), WillComplete(g, oc);
    LeastFixpoint(g, oc);
    SettledDone(g, oc);
    forall id | id in h ensures !IsReady(h, id) {
      if IsReady(h, id) {
        forall d | d in g[id].dependsOn ensures d in g && d in w {
          assert d in h && h[d].status.Done?;
          assert d in WithStatus(h, Done);
        }
        assert Enabled(g, w, id);
      }
    }
    QuiescentIsSettled(h, oc);
  }

  // --------------------------------------------------------------------- results

  /** A node's result says how its task ended, and only a finished task has one of these. */
  predicate TellsOutcome(n: Node) {
    (n.status.Done? <==> n.result == Some(true)) && (n.status.Failed? <==> n.result == Some(false))
  }

  ghost predicate ResultsMatch(g: Graph) {
    forall id :: id in g ==> TellsOutcome(g[id])
  }

  /** A run changes pending nodes only, to the status and the result that their task's outcome calls for. */
  lemma SettledResults(g: Graph, oc: Outcome)
    ensures Settled(g, oc).Keys == g.Keys
    ensures forall id :: id in g ==>
      || Settled(g, oc)[id] == g[id]
      || (g[id].status.Pending? && Settled(g, oc)[id] ==
            Node(g[id].id, g[id].dependsOn, if oc(id) then Done else Failed, Some(oc(id))))
    ensures ResultsMatch(g) ==> ResultsMatch(Settled(g, oc))
  {
  }

  // -------------------------------------------------------------------- verdicts

  datatype Verdict = Completed | FailedNoRecovery | Stuck

  function VerdictOf(g: Graph): Verdict {
    if IsComplete(g) then Completed else if HasFailed(g) then FailedNoRecovery else Stuck
  }

  /** Each verdict in terms of the statuses; an empty graph is stuck. */
  lemma VerdictIff(g: Graph)
    ensures VerdictOf(g) == Completed <==> g != map[] && forall id :: id in g ==> g[id].status == Done
    ensures VerdictOf(g) == FailedNoRecovery <==> exists id :: id in g && g[id].status == Failed
    ensures VerdictOf(g) == Stuck <==>
      && (forall id :: id in g ==> g[id].status != Failed)
      && (g == map[] || exists id :: id in g && g[id].status != Done)
  {
  }

  ghost predicate NamesMissing(g: Graph, id: Id) {
    id in g && exists d :: d in g[id].dependsOn && d !in g
  }

  /** Why a node holds up its dependents for good: it waits for an absent node, or is not waiting at all. */
  ghost predicate Blamed(g: Graph, id: Id) {
    && id in g
    && !g[id].status.Done?
    && (g[id].status.Pending? ==> NamesMissing(g, id))
  }

  /** In a quiescent acyclic graph each pending node leads to a blamed one. */
  lemma PendingHasBlame(g: Graph, x: Id)
    requires !Cyclic(g) && ReadySet(g) == {} && x in g && g[x].status.Pending?
    ensures exists y :: Reaches(g, x, y) && Blamed(g, y)
  {
    var u := WithStatus(g, Pending);
    var q := WalkOut(g, u, x);
    var y := q[|q| - 1];
    assert y in u && y !in ReadySet(g);
    assert Reaches(g, x, y);
    var d :| d in g[y].dependsOn && !(d in g && g[d].status.Done?);
    if d in g {
      assert Edge(g, y, d);
      assert d !in u;
      PathSnoc(g, q, d);
      var q' := q + [d];
      assert q'[0] == x && q'[|q'| - 1] == d;
      assert Reaches(g, x, d) && Blamed(g, d);
    }
  }

  /** Statuses never change the edges, so settling keeps every path. */
  lemma SettledKeepsEdges(g: Graph, oc: Outcome)
    ensures forall a, b :: Edge(Settled(g, oc), a, b) <==> Edge(g, a, b)
    ensures Cyclic(Settled(g, oc)) <==> Cyclic(g)
  {
    var h := Settled(g, oc);
    assert forall a, b :: Edge(h, a, b) <==> Edge(g, a, b);
    if Cyclic(h) { MoreEdgesKeepCycles(h, g); }
    if Cyclic(g) { MoreEdgesKeepCycles(g, h); }
  }

  /** After a run from all pending, each node still pending leads to a failed node or a missing dependency. */
  lemma BlameAfterRun(g: Graph, oc: Outcome, x: Id)
    requires !Cyclic(g) && forall id :: id in g ==> g[id].status.Pending?
    requires x in g && Settled(g, oc)[x].status.Pending?
    ensures exists y :: Reaches(g, x, y) && y in g && (Settled(g, oc)[y].status.Failed? || NamesMissing(g, y))
  {
    var h := Settled(g, oc);
    SettledIsQuiescent(g, oc);
    SettledKeepsEdges(g, oc);
    PendingHasBlame(h, x);
    var y :| Reaches(h, x, y) && Blamed(h, y);
    var p :| IsPath(h, p) && p[0] == x && p[|p| - 1] == y;
    assert IsPath(g, p);
    assert Reaches(g, x, y);
    if h[y].status.Pending? {
      var d :| d in h[y].dependsOn && d !in h;
      assert d in g[y].dependsOn && d !in g;
    }
  }

  /** An acyclic graph of pending and done nodes gets stuck only over a missing dependency. */
  lemma StuckMeansMissing(g: Graph, oc: Outcome)
    requires !Cyclic(g) && g != map[]
    requires forall id :: id in g ==> g[id].status.Pending? || g[id].status.Done?
    requires VerdictOf(Settled(g, oc)) == Stuck
    ensures exists id :: NamesMissing(g, id) && g[id].status.Pending?
  {
    var h := Settled(g, oc);
    SettledIsQuiescent(g, oc);
    SettledKeepsEdges(g, oc);
    assert h.Keys == g.Keys;
    assert h != map[] by { var id :| id in g; assert id in h; }
    var x :| x in h && !h[x].status.Done?;
    assert !h[x].status.Failed? && h[x].status.Pending?;
    PendingHasBlame(h, x);
    var y :| Reaches(h, x, y) && Blamed(h, y);
    assert !h[y].status.Failed? && h[y].status.Pending?;
    var d :| d in h[y].dependsOn && d !in h;
    assert d in g[y].dependsOn && d !in g;
    assert NamesMissing(g, y) && g[y].status.Pending?;
  }

  /** With every dependency present and every task succeeding, such a graph completes. */
  lemma AllSucceedingCompletes(g: Graph, oc: Outcome)
    requires !Cyclic(g) && g != map[]
    requires forall id :: id in g ==> g[id].status.Pending? || g[id].status.Done?
    requires forall id, d :: id in g && d in g[id].dependsOn ==> d in g
    requires forall id :: id in g ==> oc(id)
    ensures VerdictOf(Settled(g, oc)) == Completed
  {
    assert !HasFailed(Settled(g, oc));
    if VerdictOf(Settled(g, oc)) == Stuck {
      StuckMeansMissing(g, oc);
    }
  }
}
