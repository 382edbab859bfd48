/**
 * Executors, mutators, checkpoints and crashes taking turns on the graph lock. A tick is two
 * turns; anything may happen between them.
 */
module DagInterleaving {
  import opened DagTypes
  import opened DagSchedule
  import opened DagGraphs
  import opened DagRuntime

  /**
   * `claims[e]` is what executor `e` has taken and not yet written back; `dispatched` counts the
   * dispatches since the last load; `saved` is the checkpoint file.
   */
  datatype Sys = Sys(g: Graph, claims: map<nat, set<Id>>, dispatched: multiset<Id>, saved: Option<Graph>)

  datatype Step =
    | TickBegin(e: nat, c: set<Id>)
    | TickEnd(e: nat, oc: Outcome)
    | Mutate(m: Mutation)
    | Save
    | Load

  ghost predicate Next(s: Sys, step: Step, t: Sys) {
    match step
    case TickBegin(e, c) =>
      && e !in s.claims
      && c <= ReadySet(s.g)
      && t == s.(g := Claimed(s.g, c), claims := s.claims[e := c], dispatched := s.dispatched + multiset(c))
    case TickEnd(e, oc) =>
      && e in s.claims
      && t == s.(g := WrittenBack(s.g, s.claims[e], oc), claims := s.claims - {e})
    case Mutate(m) =>
      t == s.(g := Mutated(s.g, m))
    case Save =>
      t == s.(saved := Some(s.g))
    case Load =>
      && s.saved.Some?
      && t == s.(g := Recovered(s.saved.value), claims := map[], dispatched := multiset{})
  }

  ghost predicate Behaviour(ss: seq<Sys>, steps: seq<Step>) {
    && |ss| == |steps| + 1
    && forall i :: 0 <= i < |steps| ==> Next(ss[i], steps[i], ss[i + 1])
  }

  // -------------------------------------------------------------------- the invariant

  predicate Started(n: Node) {
    n.status.InProgress? || n.status.Done? || n.status.Failed?
  }

  ghost predicate DepsDone(g: Graph, n: Node) {
    forall d :: d in n.dependsOn ==> d in g && g[d].status.Done?
  }

  ghost predicate Sound(g: Graph) {
    && Keyed(g)
    && !Cyclic(g)
    && forall id :: id in g && Started(g[id]) ==> DepsDone(g, g[id])
  }

  /** The nodes in progress are the disjoint union of the executors' claims. */
  ghost predicate ClaimsPartition(s: Sys) {
    && (forall e :: e in s.claims ==> s.claims[e] <= WithStatus(s.g, InProgress))
    && (forall e, f :: e in s.claims && f in s.claims && e != f ==> s.claims[e] !! s.claims[f])
    && forall id :: id in WithStatus(s.g, InProgress) ==> exists e :: e in s.claims && id in s.claims[e]
  }

  /** Nothing is dispatched twice, and what was dispatched is still there, started. */
  ghost predicate DispatchedOnce(s: Sys) {
    forall id :: s.dispatched[id] <= 1 && (id in s.dispatched ==> id in s.g && Started(s.g[id]))
  }

  ghost predicate Inv(s: Sys) {
    && Sound(s.g)
    && ClaimsPartition(s)
    && DispatchedOnce(s)
    && (s.saved.Some? ==> Sound(s.saved.value))
  }

  /** A node that may be added: not in progress, and if finished then with all its dependencies done. */
  ghost predicate SafeToAdd(g: Graph, node: Node) {
    !node.status.InProgress? && (Started(node) ==> DepsDone(g, node))
  }

  /** If the step adds a node and the graph accepts it, the node is safe to add there. */
  ghost predicate AddsSafely(g: Graph, m: Mutation) {
    m.Add? && Added(g, m.node).1.Ok? ==> SafeToAdd(g, m.node)
  }

  ghost predicate StepAddsSafely(s: Sys, step: Step) {
    step.Mutate? ==> AddsSafely(s.g, step.m)
  }

  // ------------------------------------------------------------- one step at a time

  lemma SameEdgesSound(g: Graph, h: Graph)
    requires Sound(g) && Keyed(h) && h.Keys == g.Keys
    requires forall id :: id in g ==> h[id].dependsOn == g[id].dependsOn
    requires forall id :: id in g && g[id].status.Done? ==> h[id].status.Done?
    requires forall id :: id in g && Started(h[id]) ==> DepsDone(g, g[id])
    ensures Sound(h)
  {
    if Cyclic(h) { MoreEdgesKeepCycles(h, g); }
    forall id | id in h && Started(h[id]) ensures DepsDone(h, h[id]) {
      assert DepsDone(g, g[id]);
    }
  }

  lemma BeginKeepsSound(g: Graph, c: set<Id>)
    requires Sound(g) && c <= ReadySet(g)
    ensures Sound(Claimed(g, c))
  {
    forall id | id in c ensures IsReady(g, id) { assert id in ReadySet(g); }
    SameEdgesSound(g, Claimed(g, c));
  }

  lemma BeginKeepsClaims(s: Sys, e: nat, c: set<Id>, t: Sys)
    requires ClaimsPartition(s) && Next(s, TickBegin(e, c), t)
    ensures ClaimsPartition(t)
  {
    forall id | id in c ensures IsReady(s.g, id) { assert id in ReadySet(s.g); }
    assert WithStatus(t.g, InProgress) == WithStatus(s.g, InProgress) + c;
    forall f | f in s.claims ensures s.claims[f] !! c && t.claims[f] == s.claims[f] {
      assert s.claims[f] <= WithStatus(s.g, InProgress);
    }
    forall id | id in WithStatus(t.g, InProgress) ensures exists f :: f in t.claims && id in t.claims[f] {
      if id in c {
        assert id in t.claims[e];
      } else {
        var f :| f in s.claims && id in s.claims[f];
        assert id in t.claims[f];
      }
    }
  }

  lemma BeginKeepsDispatched(s: Sys, e: nat, c: set<Id>, t: Sys)
    requires DispatchedOnce(s) && Next(s, TickBegin(e, c), t)
    ensures DispatchedOnce(t)
  {
    forall id ensures t.dispatched[id] <= 1 && (id in t.dispatched ==> id in t.g && Started(t.g[id])) {
      assert t.dispatched[id] == s.dispatched[id] + multiset(c)[id];
      if id in c {
        assert id in ReadySet(s.g);
        assert id !in s.dispatched;
      }
    }
  }

  lemma EndKeepsSound(g: Graph, c: set<Id>, oc: Outcome)
    requires Sound(g) && c <= WithStatus(g, InProgress)
    ensures Sound(WrittenBack(g, c, oc))
    ensures forall id :: id in g && Started(g[id]) ==> Started(WrittenBack(g, c, oc)[id])
  {
    forall id | id in c ensures g[id].status.InProgress? { assert id in WithStatus(g, InProgress); }
    SameEdgesSound(g, WrittenBack(g, c, oc));
  }

  lemma EndKeepsClaims(s: Sys, e: nat, oc: Outcome, t: Sys)
    requires ClaimsPartition(s) && Next(s, TickEnd(e, oc), t)
    ensures ClaimsPartition(t)
    ensures WithStatus(t.g, InProgress) == WithStatus(s.g, InProgress) - s.claims[e]
  {
    var c := s.claims[e];
    assert WithStatus(t.g, InProgress) == WithStatus(s.g, InProgress) - c;
    forall id | id in WithStatus(t.g, InProgress) ensures exists f :: f in t.claims && id in t.claims[f] {
      var f :| f in s.claims && id in s.claims[f];
      assert f != e && id in t.claims[f];
    }
    forall f | f in t.claims ensures t.claims[f] <= WithStatus(t.g, InProgress) {
      assert t.claims[f] == s.claims[f] && s.claims[f] !! c;
    }
  }

  lemma EndKeepsInv(s: Sys, step: Step, t: Sys)
    requires Inv(s) && step.TickEnd? && Next(s, step, t)
    ensures Inv(t)
  {
    EndKeepsSound(s.g, s.claims[step.e], step.oc);
    EndKeepsClaims(s, step.e, step.oc, t);
  }

  /** A mutation neither removes nor changes a started node, nor brings one into progress. */
  lemma MutateKeepsStarted(g: Graph, m: Mutation)
    requires Sound(g) && AddsSafely(g, m)
    ensures Sound(Mutated(g, m))
    ensures forall id :: id in g && Started(g[id]) ==> id in Mutated(g, m) && Mutated(g, m)[id] == g[id]
    ensures forall id :: id in Mutated(g, m) && Mutated(g, m)[id].status.InProgress? ==>
      id in g && Mutated(g, m)[id] == g[id]
  {
    var h := Mutated(g, m);
    MutationKeepsAcyclic(g, m);
    MutationIsAtomic(g, m);
    forall id | id in h && Started(h[id]) ensures DepsDone(h, h[id]) {
      if id in g && h[id] == g[id] {
        assert DepsDone(g, g[id]);
      } else {
        assert m.Add? && h[id] == m.node && DepsDone(g, m.node);
      }
    }
  }

  lemma MutateKeepsInv(s: Sys, step: Step, t: Sys)
    requires Inv(s) && step.Mutate? && StepAddsSafely(s, step) && Next(s, step, t)
    ensures Inv(t)
  {
    hide Sound, Mutated;
    MutateKeepsStarted(s.g, step.m);
    assert WithStatus(t.g, InProgress) == WithStatus(s.g, InProgress);
  }

  lemma LoadKeepsInv(s: Sys, step: Step, t: Sys)
    requires Inv(s) && step.Load? && Next(s, step, t)
    ensures Inv(t)
  {
    SameEdgesSound(s.saved.value, t.g);
    assert WithStatus(t.g, InProgress) == {};
  }

  lemma StepKeepsInv(s: Sys, step: Step, t: Sys)
    requires Inv(s) && StepAddsSafely(s, step) && Next(s, step, t)
    ensures Inv(t)
  {
    match step
    case TickBegin(e, c) =>
      BeginKeepsSound(s.g, c);
      BeginKeepsClaims(s, e, c, t);
      BeginKeepsDispatched(s, e, c, t);
    case TickEnd(_, _) => EndKeepsInv(s, step, t);
    case Mutate(_) => MutateKeepsInv(s, step, t);
    case Save =>
    case Load => LoadKeepsInv(s, step, t);
  }

  /** Interleaving safety: every state of every behaviour satisfies the invariant. */
  lemma {:induction false} InvAlways(ss: seq<Sys>, steps: seq<Step>, i: nat)
    requires Behaviour(ss, steps) && i < |ss| && Inv(ss[0])
    requires forall k :: 0 <= k < |steps| ==> StepAddsSafely(ss[k], steps[k])
    ensures Inv(ss[i])
  {
    hide Inv, Next, StepAddsSafely;
    if i > 0 {
      InvAlways(ss, steps, i - 1);
      StepKeepsInv(ss[i - 1], steps[i - 1], ss[i]);
    }
  }

  /** Write-back finds every claimed node, still in progress, whatever happened since the claim. */
  lemma WriteBackFindsItsNodes(ss: seq<Sys>, steps: seq<Step>, i: nat)
    requires Behaviour(ss, steps) && i < |steps| && Inv(ss[0]) && steps[i].TickEnd?
    requires forall k :: 0 <= k < |steps| ==> StepAddsSafely(ss[k], steps[k])
    ensures steps[i].e in ss[i].claims && ss[i].claims[steps[i].e] <= WithStatus(ss[i].g, InProgress)
  {
    InvAlways(ss, steps, i);
    assert Next(ss[i], steps[i], ss[i + 1]);
  }

  lemma InvParts(s: Sys)
    requires Inv(s)
    ensures Sound(s.g) && forall e :: e in s.claims ==> s.claims[e] <= WithStatus(s.g, InProgress)
  {
  }

  lemma FinishedStays(s: Sys, step: Step, t: Sys, id: Id)
    requires Inv(s) && StepAddsSafely(s, step) && Next(s, step, t) && !step.Load?
    requires id in s.g && (s.g[id].status.Done? || s.g[id].status.Failed?)
    ensures id in t.g && t.g[id] == s.g[id]
  {
    hide Inv, Sound, Mutated;
    InvParts(s);
    if step.TickBegin? {
      assert id !in ReadySet(s.g);
    } else if step.TickEnd? {
      assert id !in WithStatus(s.g, InProgress);
    } else if step.Mutate? {
      MutateKeepsStarted(s.g, step.m);
    }
  }

  /** A finished node never changes again, short of a load. */
  lemma {:induction false} FinishedForever(ss: seq<Sys>, steps: seq<Step>, i: nat, j: nat, id: Id)
    requires Behaviour(ss, steps) && i <= j < |ss| && Inv(ss[0])
    requires forall k :: 0 <= k < |steps| ==> StepAddsSafely(ss[k], steps[k])
    requires forall k :: i <= k < j ==> !steps[k].Load?
    requires id in ss[i].g && (ss[i].g[id].status.Done? || ss[i].g[id].status.Failed?)
    ensures id in ss[j].g && ss[j].g[id] == ss[i].g[id]
  {
    hide Inv, Next, StepAddsSafely;
    if i < j {
      FinishedForever(ss, steps, i, j - 1, id);
      InvAlways(ss, steps, j - 1);
      FinishedStays(ss[j - 1], steps[j - 1], ss[j], id);
    }
  }

  lemma SelfDependencyIsCycle(g: Graph, id: Id)
    requires id in g
    ensures id in g[id].dependsOn ==> Cyclic(g)
  {
    if id in g[id].dependsOn {
      assert Edge(g, id, id);
      assert IsCycle(g, [id, id]);
    }
  }

  /** Adding a started node keeps the graph sound exactly when its dependencies are done. */
  lemma AddedNodeIsSoundIff(g: Graph, node: Node)
    requires Sound(g) && Added(g, node).1.Ok?
    ensures Sound(Added(g, node).0) <==> (Started(node) ==> DepsDone(g, node))
  {
    var h := g[node.id := node];
    assert Added(g, node).0 == h && !Cyclic(h) && Keyed(h);
    SelfDependencyIsCycle(h, node.id);
    assert DepsDone(h, node) <==> DepsDone(g, node);
    forall id | id in g && Started(g[id]) ensures DepsDone(h, h[id]) { assert DepsDone(g, g[id]); }
    if Started(node) ==> DepsDone(g, node) {
      assert forall id :: id in h && Started(h[id]) ==> DepsDone(h, h[id]);
    } else {
      assert node.id in h && h[node.id] == node;
    }
  }

  /** An accepted node keeps the whole invariant exactly when it is safe to add. */
  lemma AddKeepsInvIff(s: Sys, node: Node)
    requires Inv(s) && Added(s.g, node).1.Ok?
    ensures Inv(s.(g := Added(s.g, node).0)) <==>
      !node.status.InProgress? && (Started(node) ==> DepsDone(s.g, node))
  {
    var t := s.(g := Added(s.g, node).0);
    AddedNodeIsSoundIff(s.g, node);
    if SafeToAdd(s.g, node) {
      StepKeepsInv(s, Mutate(Add(node)), t);
    } else if node.status.InProgress? {
      assert node.id in WithStatus(t.g, InProgress);
      forall e | e in t.claims ensures node.id !in t.claims[e] {
        assert s.claims[e] <= WithStatus(s.g, InProgress);
      }
    }
  }

  /** A fresh node already in progress is accepted, keeps the graph sound and breaks the claims. */
  lemma InProgressNodeBreaksInv(s: Sys, id: Id)
    requires Inv(s) && id !in s.g
    ensures var node := Node(id, [], InProgress, None);
      && Added(s.g, node).1.Ok?
      && Sound(Added(s.g, node).0)
      && !Inv(s.(g := Added(s.g, node).0))
  {
    var node := Node(id, [], InProgress, None);
    var h := s.g[id := node];
    forall p | IsCycle(h, p) ensures p[0] != id { assert Edge(h, p[0], p[1]); }
    if Cyclic(h) { NewCycleRunsThrough(s.g, h, id); }
    AddedNodeIsSoundIff(s.g, node);
    AddKeepsInvIff(s, node);
  }

  // ------------------------------------- one end for every schedule, crash and restart

  /** No mutator runs and every task keeps its outcome. */
  ghost predicate FixedWork(steps: seq<Step>, oc: Outcome) {
    forall k :: 0 <= k < |steps| ==> !steps[k].Mutate? && (steps[k].TickEnd? ==> steps[k].oc == oc)
  }

  /** What a state still has to do, and has done, adds up to the same settled graph. */
  ghost predicate OnCourse(s: Sys, goal: Graph, oc: Outcome) {
    && ClaimsPartition(s)
    && (forall id :: id in WithStatus(s.g, InProgress) ==> DepsDone(s.g, s.g[id]))
    && Settled(Recovered(s.g), oc) == goal
    && (s.saved.Some? ==> Settled(Recovered(s.saved.value), oc) == goal)
  }

  lemma BeginOnCourse(s: Sys, step: Step, t: Sys, goal: Graph, oc: Outcome)
    requires OnCourse(s, goal, oc) && step.TickBegin? && Next(s, step, t)
    ensures OnCourse(t, goal, oc)
  {
    var c := step.c;
    forall id | id in c ensures IsReady(s.g, id) { assert id in ReadySet(s.g); }
    assert Recovered(t.g) == Recovered(s.g);
    BeginKeepsClaims(s, step.e, c, t);
    assert WithStatus(t.g, InProgress) == WithStatus(s.g, InProgress) + c;
    forall id | id in WithStatus(t.g, InProgress) ensures DepsDone(t.g, t.g[id]) {
      assert DepsDone(s.g, s.g[id]);
      forall d | d in s.g[id].dependsOn ensures d !in c { assert s.g[d].status.Done?; }
    }
  }

  lemma EndOnCourse(s: Sys, step: Step, t: Sys, goal: Graph, oc: Outcome)
    requires OnCourse(s, goal, oc) && step.TickEnd? && step.oc == oc && Next(s, step, t)
    ensures OnCourse(t, goal, oc)
  {
    var c := s.claims[step.e];
    assert c <= WithStatus(s.g, InProgress);
    assert Recovered(t.g) == WrittenBack(Recovered(s.g), c, oc);
    forall id | id in c ensures id in ReadySet(Recovered(s.g)) {
      assert id in WithStatus(s.g, InProgress);
      assert DepsDone(s.g, s.g[id]);
    }
    TickKeepsSettled(Recovered(s.g), oc, c);
    EndKeepsClaims(s, step.e, oc, t);
    forall id | id in WithStatus(t.g, InProgress) ensures DepsDone(t.g, t.g[id]) {
      assert DepsDone(s.g, s.g[id]);
      forall d | d in s.g[id].dependsOn ensures d !in c {
        assert d !in WithStatus(s.g, InProgress);
      }
    }
  }

  lemma LoadOnCourse(s: Sys, step: Step, t: Sys, goal: Graph, oc: Outcome)
    requires OnCourse(s, goal, oc) && step.Load? && Next(s, step, t)
    ensures OnCourse(t, goal, oc)
  {
    assert Recovered(t.g) == t.g;
    assert WithStatus(t.g, InProgress) == {};
  }

  lemma {:induction false} OnCourseAlways(ss: seq<Sys>, steps: seq<Step>, oc: Outcome, goal: Graph, i: nat)
    requires Behaviour(ss, steps) && FixedWork(steps, oc) && i < |ss| && OnCourse(ss[0], goal, oc)
    ensures OnCourse(ss[i], goal, oc)
  {
    if i > 0 {
      OnCourseAlways(ss, steps, oc, goal, i - 1);
      var s, step, t := ss[i - 1], steps[i - 1], ss[i];
      assert Next(s, step, t);
      match step
      case TickBegin(_, _) => BeginOnCourse(s, step, t, goal, oc);
      case TickEnd(_, _) => EndOnCourse(s, step, t, goal, oc);
      case Save =>
      case Load => LoadOnCourse(s, step, t, goal, oc);
    }
  }

  ghost predicate Fresh(s: Sys) {
    s.claims == map[] && s.saved.None? && WithStatus(s.g, InProgress) == {}
  }

  ghost predicate AtRest(g: Graph) {
    ReadySet(g) == {} && WithStatus(g, InProgress) == {}
  }

  lemma RestIsSettled(g: Graph, oc: Outcome)
    requires AtRest(g)
    ensures Settled(Recovered(g), oc) == g
  {
    forall id | id in g ensures !g[id].status.InProgress? { assert id !in WithStatus(g, InProgress); }
    assert Recovered(g) == g;
    QuiescentIsSettled(g, oc);
  }

  lemma CourseFromStart(ss: seq<Sys>, steps: seq<Step>, oc: Outcome, i: nat)
    requires Behaviour(ss, steps) && FixedWork(steps, oc) && i < |ss| && Fresh(ss[0])
    ensures OnCourse(ss[i], Settled(ss[0].g, oc), oc)
  {
    var g := ss[0].g;
    forall id | id in g ensures !g[id].status.InProgress? { assert id !in WithStatus(g, InProgress); }
    assert Recovered(g) == g;
    OnCourseAlways(ss, steps, oc, Settled(g, oc), i);
  }

  /**
   * Any number of executors, any choice of ready nodes, any checkpoints, crashes and reloads:
   * the work outstanding in any state, and in any checkpoint, settles to the same graph ...
   */
  lemma CrashResumeEquivalence(ss: seq<Sys>, steps: seq<Step>, oc: Outcome, i: nat)
    requires Behaviour(ss, steps) && FixedWork(steps, oc) && i < |ss| && Fresh(ss[0])
    ensures Settled(Recovered(ss[i].g), oc) == Settled(ss[0].g, oc)
    ensures ss[i].saved.Some? ==> Settled(Recovered(ss[i].saved.value), oc) == Settled(ss[0].g, oc)
  {
    CourseFromStart(ss, steps, oc, i);
  }

  /** ... and two behaviours from the same graph that have come to rest rest in the same graph. */
  lemma ScheduleIndependence(
    ss: seq<Sys>, steps: seq<Step>, i: nat, ss': seq<Sys>, steps': seq<Step>, j: nat, oc: Outcome)
    requires Behaviour(ss, steps) && FixedWork(steps, oc) && i < |ss| && Fresh(ss[0])
    requires Behaviour(ss', steps') && FixedWork(steps', oc) && j < |ss'| && Fresh(ss'[0])
    requires ss[0].g == ss'[0].g
    requires AtRest(ss[i].g) && AtRest(ss'[j].g)
    ensures ss[i].g == ss'[j].g == Settled(ss[0].g, oc)
  {
    CrashResumeEquivalence(ss, steps, oc, i);
    CrashResumeEquivalence(ss', steps', oc, j);
    RestIsSettled(ss[i].g, oc);
    RestIsSettled(ss'[j].g, oc);
  }

  // ----------------------------------------------------- what an executor that stops may say

  lemma FailedStaysFailed(g: Graph, oc: Outcome)
    requires HasFailed(g)
    ensures VerdictOf(g) == VerdictOf(Settled(Recovered(g), oc)) == FailedNoRecovery
  {
    var id :| id in g && g[id].status.Failed?;
    assert Settled(Recovered(g), oc)[id] == g[id];
  }

  /** If the work in progress fails, the run has failed. */
  lemma ProgressMayFail(g: Graph, x: Id)
    requires x in WithStatus(g, InProgress) && DepsDone(g, g[x])
    ensures VerdictOf(Settled(Recovered(g), id => false)) == FailedNoRecovery
  {
    var r, oc := Recovered(g), (id: Id) => false;
    LeastFixpoint(r, oc);
    assert Enabled(r, WillComplete(r, oc), x);
    assert Settled(r, oc)[x].status.Failed?;
  }

  /**
   * With nothing ready, the verdict read off the graph is the verdict of the finished run, whatever
   * the outcomes still to come, exactly when nothing is in progress or a node has failed already.
   */
  lemma NothingReadyVerdictIff(g: Graph)
    requires ReadySet(g) == {}
    requires forall id :: id in WithStatus(g, InProgress) ==> DepsDone(g, g[id])
    ensures (forall oc: Outcome :: VerdictOf(Settled(Recovered(g), oc)) == VerdictOf(g)) <==>
      WithStatus(g, InProgress) == {} || HasFailed(g)
  {
    if WithStatus(g, InProgress) == {} {
      forall oc: Outcome ensures Settled(Recovered(g), oc) == g { RestIsSettled(g, oc); }
    } else if HasFailed(g) {
      forall oc: Outcome ensures VerdictOf(Settled(Recovered(g), oc)) == VerdictOf(g) { FailedStaysFailed(g, oc); }
    } else {
      var x :| x in WithStatus(g, InProgress);
      ProgressMayFail(g, x);
      assert !IsComplete(g);
    }
  }

  /** An executor that stops with nothing in progress, or on a failure, gives the whole run's verdict. */
  lemma StopVerdict(ss: seq<Sys>, steps: seq<Step>, oc: Outcome, i: nat)
    requires Behaviour(ss, steps) && FixedWork(steps, oc) && i < |ss| && Fresh(ss[0])
    requires ReadySet(ss[i].g) == {} && (WithStatus(ss[i].g, InProgress) == {} || HasFailed(ss[i].g))
    ensures VerdictOf(ss[i].g) == VerdictOf(Settled(ss[0].g, oc))
  {
    CrashResumeEquivalence(ss, steps, oc, i);
    if HasFailed(ss[i].g) {
      FailedStaysFailed(ss[i].g, oc);
    } else {
      RestIsSettled(ss[i].g, oc);
    }
  }

  /** A second executor meets the stop condition with the stuck verdict while the first still works, and succeeds. */
  lemma StuckTooEarly() returns (ss: seq<Sys>, steps: seq<Step>, oc: Outcome)
    ensures Behaviour(ss, steps) && FixedWork(steps, oc) && |ss| == 3 && Fresh(ss[0])
    ensures ReadySet(ss[1].g) == {} && VerdictOf(ss[1].g) == Stuck
    ensures VerdictOf(ss[2].g) == Completed
  {
    oc := id => true;
    var g: Graph := map["a" := Node("a", [], Pending, None)];
    assert IsReady(g, "a");
    var s0 := Sys(g, map[], multiset{}, None);
    var s1 := Sys(Claimed(g, {"a"}), map[0 := {"a"}], multiset{"a"}, None);
    var s2 := Sys(WrittenBack(s1.g, {"a"}, oc), map[], multiset{"a"}, None);
    assert s0.dispatched + multiset({"a"}) == s1.dispatched;
    assert s1.claims - {0} == s2.claims;
    steps := [TickBegin(0, {"a"}), TickEnd(0, oc)];
    ss := [s0, s1, s2];
    assert Next(s0, steps[0], s1) && Next(s1, steps[1], s2);
    assert "a" in s1.g && s1.g["a"].status.InProgress? && !IsComplete(s1.g);
  }

  // ------------------------------------------------ what several executors achieve together

  /** The last executor to stop finds no claims left and nothing ready: the work is done, and done right. */
  lemma LastToStopIsRight(ss: seq<Sys>, steps: seq<Step>, oc: Outcome, i: nat)
    requires Behaviour(ss, steps) && FixedWork(steps, oc) && i < |ss| && Fresh(ss[0])
    requires ss[i].claims == map[] && ReadySet(ss[i].g) == {}
    ensures ss[i].g == Settled(ss[0].g, oc)
    ensures VerdictOf(ss[i].g) == VerdictOf(Settled(ss[0].g, oc))
  {
    CourseFromStart(ss, steps, oc, i);
    assert WithStatus(ss[i].g, InProgress) == {};
    RestIsSettled(ss[i].g, oc);
  }

  /** An executor that reports completion is right, whatever the others are at. */
  lemma CompletionIsRight(ss: seq<Sys>, steps: seq<Step>, oc: Outcome, i: nat)
    requires Behaviour(ss, steps) && FixedWork(steps, oc) && i < |ss| && Fresh(ss[0])
    requires IsComplete(ss[i].g)
    ensures ss[i].g == Settled(ss[0].g, oc)
  {
    var g := ss[i].g;
    CrashResumeEquivalence(ss, steps, oc, i);
    forall id | id in g ensures !IsReady(g, id) && !g[id].status.InProgress? { assert g[id].status.Done?; }
    RestIsSettled(g, oc);
  }

  /** Ticks that take up at least one node. */
  function BusyTicks(steps: seq<Step>): nat {
    if steps == [] then 0
    else
      var n := |steps| - 1;
      BusyTicks(steps[..n]) + if steps[n].TickBegin? && steps[n].c != {} then 1 else 0
  }

  lemma BeginSpendsPending(g: Graph, c: set<Id>)
    requires c <= ReadySet(g)
    ensures |WithStatus(g, Pending)| == |WithStatus(Claimed(g, c), Pending)| + |c|
  {
    forall id | id in c ensures IsReady(g, id) { assert id in ReadySet(g); }
    var rest := WithStatus(Claimed(g, c), Pending);
    assert WithStatus(g, Pending) == rest + c && rest !! c;
  }

  lemma EndKeepsPending(g: Graph, c: set<Id>, oc: Outcome)
    requires c <= WithStatus(g, InProgress)
    ensures WithStatus(WrittenBack(g, c, oc), Pending) == WithStatus(g, Pending)
  {
    forall id | id in c ensures id in g && g[id].status.InProgress? { assert id in WithStatus(g, InProgress); }
  }

  /** Each tick takes its nodes off the pending ones, and nothing but a tick changes their number. */
  lemma StepSpendsPending(s: Sys, step: Step, t: Sys)
    requires ClaimsPartition(s) && Next(s, step, t) && !step.Mutate? && !step.Load?
    ensures ClaimsPartition(t)
    ensures |t.dispatched| + |WithStatus(t.g, Pending)| == |s.dispatched| + |WithStatus(s.g, Pending)|
    ensures |t.dispatched| - |s.dispatched| == if step.TickBegin? then |step.c| else 0
  {
    hide WithStatus, Claimed, WrittenBack, ReadySet;
    match step
    case TickBegin(e, c) =>
      BeginKeepsClaims(s, e, c, t);
      BeginSpendsPending(s.g, c);
    case TickEnd(e, oc) =>
      EndKeepsClaims(s, e, oc, t);
      EndKeepsPending(s.g, s.claims[e], oc);
    case Save =>
  }

  /** All executors together spend no more ticks that do work than there were pending nodes. */
  lemma {:induction false} TicksTogetherAreBounded(ss: seq<Sys>, steps: seq<Step>, i: nat)
    requires Behaviour(ss, steps) && i < |ss| && ClaimsPartition(ss[0])
    requires forall k :: 0 <= k < i ==> !steps[k].Mutate? && !steps[k].Load?
    ensures ClaimsPartition(ss[i])
    ensures |ss[i].dispatched| - |ss[0].dispatched| ==
      |WithStatus(ss[0].g, Pending)| - |WithStatus(ss[i].g, Pending)|
    ensures BusyTicks(steps[..i]) <= |ss[i].dispatched| - |ss[0].dispatched|
  {
    hide ClaimsPartition, WithStatus, Next;
    if i > 0 {
      TicksTogetherAreBounded(ss, steps, i - 1);
      StepSpendsPending(ss[i - 1], steps[i - 1], ss[i]);
      assert steps[..i][..i - 1] == steps[..i - 1];
    }
  }

  // -------------------------------------------------------------------- results

  /** Only nodes whose result fits their status are added. */
  ghost predicate AddsMatching(step: Step) {
    step.Mutate? && step.m.Add? ==> TellsOutcome(step.m.node)
  }

  lemma StepKeepsResults(s: Sys, step: Step, t: Sys)
    requires ResultsMatch(s.g) && (s.saved.Some? ==> ResultsMatch(s.saved.value))
    requires Next(s, step, t) && AddsMatching(step)
    ensures ResultsMatch(t.g) && (t.saved.Some? ==> ResultsMatch(t.saved.value))
  {
    match step
    case TickBegin(_, c) =>
      forall id | id in c ensures IsReady(s.g, id) { assert id in ReadySet(s.g); }
    case TickEnd(_, _) =>
    case Mutate(m) => MutationIsAtomic(s.g, m);
    case Save =>
    case Load =>
  }

  /** In every interleaving each result says how its task ended: done with true, failed with false. */
  lemma {:induction false} ResultsAlwaysMatch(ss: seq<Sys>, steps: seq<Step>, i: nat)
    requires Behaviour(ss, steps) && i < |ss|
    requires forall k :: 0 <= k < |steps| ==> AddsMatching(steps[k])
    requires ResultsMatch(ss[0].g) && (ss[0].saved.Some? ==> ResultsMatch(ss[0].saved.value))
    ensures ResultsMatch(ss[i].g) && (ss[i].saved.Some? ==> ResultsMatch(ss[i].saved.value))
  {
    if i > 0 {
      ResultsAlwaysMatch(ss, steps, i - 1);
      StepKeepsResults(ss[i - 1], steps[i - 1], ss[i]);
    }
  }
}
