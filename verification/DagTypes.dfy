/** The task graph as a value: nodes, dependency edges, paths and cycles. */
module DagTypes {

  type Id = string

  datatype Option<+T> = None | Some(value: T)

  datatype Status = Pending | InProgress | Done | Failed | Blocked

  /** `result` keeps only whether the task succeeded. */
  datatype Node = Node(id: Id, dependsOn: seq<Id>, status: Status, result: Option<bool>)

  type Graph = map<Id, Node>

  datatype DagError =
    | CycleDetected(id: Id)
    | NodeNotFound(id: Id)
    | HasDependents(id: Id)
    | DuplicateNode(id: Id)
    | NodeInProgress(id: Id)

  datatype Result<+T> = Ok(value: T) | Err(error: DagError)

  /** Every node is stored under its own id. */
  ghost predicate Keyed(g: Graph) {
    forall id :: id in g ==> g[id].id == id
  }

  /** `a` names `b` as a dependency and both are in the graph. */
  ghost predicate Edge(g: Graph, a: Id, b: Id) {
    a in g && b in g && b in g[a].dependsOn
  }

  ghost predicate IsPath(g: Graph, p: seq<Id>) {
    && p != []
    && p[0] in g
    && forall i :: 0 < i < |p| ==> Edge(g, p[i - 1], p[i])
  }

  ghost predicate IsCycle(g: Graph, p: seq<Id>) {
    IsPath(g, p) && |p| >= 2 && p[0] == p[|p| - 1]
  }

  ghost predicate Cyclic(g: Graph) {
    exists p :: IsCycle(g, p)
  }

  ghost predicate OnCycle(g: Graph, id: Id) {
    exists p :: IsCycle(g, p) && p[0] == id
  }

  ghost predicate Reaches(g: Graph, a: Id, b: Id) {
    exists p :: IsPath(g, p) && p[0] == a && p[|p| - 1] == b
  }

  ghost predicate Distinct<T>(s: seq<T>) {
    forall i, j :: 0 <= i < j < |s| ==> s[i] != s[j]
  }

  ghost function Elems<T>(s: seq<T>): set<T> {
    set x | x in s
  }

  /** Every in-graph dependency of `s[i]` occurs in `s` before position `i`. */
  ghost predicate DepsBefore(g: Graph, s: seq<Id>) {
    forall i :: 0 <= i < |s| ==> s[i] in g && forall d :: Edge(g, s[i], d) ==> d in s[..i]
  }

  /** What a successful topological sort promises. */
  ghost predicate TopoOrder(g: Graph, s: seq<Id>) {
    Distinct(s) && Elems(s) == g.Keys && DepsBefore(g, s)
  }

  /** Some in-graph dependency is listed at two positions. */
  ghost predicate Repeats(g: Graph, deps: seq<Id>) {
    exists i, j :: 0 <= i < j < |deps| && deps[i] == deps[j] && deps[i] in g
  }

  ghost predicate RepeatsDep(g: Graph, id: Id) {
    id in g && Repeats(g, g[id].dependsOn)
  }

  ghost predicate NoEdgeInto(g: Graph, x: Id, u: set<Id>) {
    forall d :: d in u ==> !Edge(g, x, d)
  }

  /** The walk ends at a node it had already passed. */
  ghost predicate Lasso(p: seq<Id>) {
    exists k :: 0 <= k < |p| - 1 && p[k] == p[|p| - 1]
  }

  // ---------------------------------------------------------------- sequences

  lemma {:induction false} DistinctSize<T>(s: seq<T>)
    requires Distinct(s)
    ensures |Elems(s)| == |s|
  {
    if s == [] {
      assert Elems(s) == {};
    } else {
      var t := s[..|s| - 1];
      DistinctSize(t);
      assert s[|s| - 1] !in t;
      assert Elems(s) == Elems(t) + {s[|s| - 1]};
    }
  }

  lemma Prefix<T>(s: seq<T>, k: nat)
    requires k <= |s|
    ensures Elems(s[..k]) <= Elems(s)
    ensures Distinct(s) ==> Distinct(s[..k])
  {
  }

  lemma DistinctConcat<T>(a: seq<T>, b: seq<T>)
    requires Distinct(a) && Distinct(b) && Elems(a) !! Elems(b)
    ensures Distinct(a + b) && Elems(a + b) == Elems(a) + Elems(b)
  {
    forall i, j | 0 <= i < j < |a + b| ensures (a + b)[i] != (a + b)[j] {
      if i < |a| <= j { assert a[i] in Elems(a) && b[j - |a|] in Elems(b); }
    }
  }

  lemma SubsetSize<T>(a: set<T>, b: set<T>)
    requires a <= b
    ensures |a| <= |b|
    ensures |a| == |b| ==> a == b
  {
    assert |b| == |a| + |b - a| by { assert a + (b - a) == b; }
  }

  lemma LargerHasMore<T>(a: set<T>, b: set<T>)
    requires a <= b && |a| != |b|
    ensures exists x :: x in b && x !in a
  {
    assert a != b;
  }

  // -------------------------------------------------------------------- paths

  lemma PathIn(g: Graph, p: seq<Id>)
    requires IsPath(g, p)
    ensures forall i :: 0 <= i < |p| ==> p[i] in g
  {
    forall i | 0 <= i < |p| ensures p[i] in g {
      if i > 0 { assert Edge(g, p[i - 1], p[i]); }
    }
  }

  lemma PathSnoc(g: Graph, p: seq<Id>, d: Id)
    requires IsPath(g, p) && Edge(g, p[|p| - 1], d)
    ensures IsPath(g, p + [d])
  {
  }

  lemma PathSlice(g: Graph, p: seq<Id>, lo: nat, hi: nat)
    requires IsPath(g, p) && lo < hi <= |p|
    ensures IsPath(g, p[lo..hi])
  {
    PathIn(g, p);
    var q := p[lo..hi];
    forall i | 0 < i < |q| ensures Edge(g, q[i - 1], q[i]) {
      assert q[i - 1] == p[lo + i - 1] && q[i] == p[lo + i];
    }
  }

  /** Paths compose when the first ends where the second starts. */
  lemma PathJoin(g: Graph, p: seq<Id>, q: seq<Id>)
    requires IsPath(g, p) && IsPath(g, q) && p[|p| - 1] == q[0]
    ensures IsPath(g, p + q[1..])
  {
  }

  /** Adding edges keeps every cycle. */
  lemma MoreEdgesKeepCycles(h: Graph, g: Graph)
    requires Cyclic(h)
    requires forall a, b :: Edge(h, a, b) ==> Edge(g, a, b)
    ensures Cyclic(g)
  {
    var p :| IsCycle(h, p);
    assert Edge(h, p[0], p[1]);
    assert IsCycle(g, p);
  }

  /** A cycle can be entered at any of its nodes. */
  lemma RotateCycle(g: Graph, p: seq<Id>, k: nat)
    requires IsCycle(g, p) && k < |p|
    ensures OnCycle(g, p[k])
  {
    if 0 < k < |p| - 1 {
      PathSlice(g, p, k, |p|);
      PathSlice(g, p, 0, k + 1);
      PathJoin(g, p[k..], p[..k + 1]);
      var q := p[k..] + p[..k + 1][1..];
      assert IsCycle(g, q) && q[0] == p[k];
    } else {
      assert p[k] == p[0];
    }
  }

  lemma LassoOnCycle(g: Graph, p: seq<Id>)
    requires IsPath(g, p) && Lasso(p)
    ensures OnCycle(g, p[|p| - 1])
  {
    var k :| 0 <= k < |p| - 1 && p[k] == p[|p| - 1];
    PathSlice(g, p, k, |p|);
    assert IsCycle(g, p[k..]);
  }

  // ------------------------------------------------ order versus reachability

  lemma {:induction false} PathDescends(g: Graph, s: seq<Id>, p: seq<Id>, k: nat)
    requires DepsBefore(g, s) && IsPath(g, p) && k <= |s| && p[0] in s[..k]
    ensures |p| - 1 < k && p[|p| - 1] in s[..k - (|p| - 1)]
    decreases |p|
  {
    if |p| > 1 {
      var i :| 0 <= i < k && s[i] == p[0];
      assert Edge(g, s[i], p[1]);
      assert p[1] in s[..i];
      PathSlice(g, p, 1, |p|);
      PathDescends(g, s, p[1..], k - 1);
    }
  }

  lemma {:induction false} NoCycleFrom(g: Graph, s: seq<Id>, p: seq<Id>, k: nat)
    requires DepsBefore(g, s) && IsCycle(g, p) && k <= |s|
    ensures p[0] !in s[..k]
    decreases k
  {
    if p[0] in s[..k] {
      PathDescends(g, s, p, k);
      NoCycleFrom(g, s, p, k - (|p| - 1));
    }
  }

  /** A dependency order of all nodes is a certificate of acyclicity. */
  lemma OrderedIsAcyclic(g: Graph, s: seq<Id>)
    requires DepsBefore(g, s) && g.Keys <= Elems(s)
    ensures !Cyclic(g)
  {
    if Cyclic(g) {
      var p :| IsCycle(g, p);
      PathIn(g, p);
      assert s[..|s|] == s;
      NoCycleFrom(g, s, p, |s|);
    }
  }

  /** Walking along edges inside a finite set ends in the set's exit or bites its own tail. */
  lemma {:induction false} Walk(g: Graph, u: set<Id>, p: seq<Id>) returns (q: seq<Id>)
    requires u <= g.Keys && IsPath(g, p) && Elems(p) <= u && Distinct(p)
    ensures IsPath(g, q) && q[0] == p[0] && Elems(q) <= u
    ensures Lasso(q) || NoEdgeInto(g, q[|q| - 1], u)
    decreases |u| - |p|
  {
    var last := p[|p| - 1];
    if d :| d in u && Edge(g, last, d) {
      q := p + [d];
      PathSnoc(g, p, d);
      if d in p {
        var k :| 0 <= k < |p| && p[k] == d;
        assert q[k] == q[|q| - 1];
      } else {
        DistinctSize(q);
        SubsetSize(Elems(q), u);
        q := Walk(g, u, q);
      }
    } else {
      q := p;
      assert q[|q| - 1] == last;
    }
  }

  /** In an acyclic graph every node of `u` leads, inside `u`, to one with no edge back into `u`. */
  lemma WalkOut(g: Graph, u: set<Id>, x: Id) returns (q: seq<Id>)
    requires u <= g.Keys && x in u && !Cyclic(g)
    ensures IsPath(g, q) && q[0] == x && Elems(q) <= u
    ensures NoEdgeInto(g, q[|q| - 1], u)
  {
    q := Walk(g, u, [x]);
    if Lasso(q) { LassoOnCycle(g, q); }
  }
}
