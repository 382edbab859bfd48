/**
 * Which limits racing callers can overrun, and by how much: every bound on them is reached by some
 * run, and each limit holds in all runs exactly under a condition on the configuration.
 */
module GovernorTightness {
  import opened MachineInts
  import opened Governors
  import opened GovernorRaces
  import opened GovernorTaskCounts

  ghost predicate Reachable(c: Setup, s: Sys) {
    exists ss: seq<Sys>, steps: seq<Step> :: Behaviour(c, ss, steps) && ss[|ss| - 1] == s
  }

  function Total(s: Sys): nat { s.rss.p0 + s.rss.p1 + s.rss.p2 }

  lemma ReachStart(c: Setup)
    ensures Reachable(c, START)
  {
    var ss := [START];
    assert Behaviour(c, ss, []) && ss[|ss| - 1] == START;
  }

  lemma ReachStep(c: Setup, s: Sys, step: Step, t: Sys)
    requires Reachable(c, s) && Next(c, s, step, t)
    ensures Reachable(c, t)
  {
    hide Next;
    var ss: seq<Sys>, steps: seq<Step> :| Behaviour(c, ss, steps) && ss[|ss| - 1] == s;
    var ss', steps' := ss + [t], steps + [step];
    assert Behaviour(c, ss', steps') && ss'[|ss'| - 1] == t;
  }

  // --------------------------------------------------------------------- amounts of memory

  ghost function SumOf(rs: seq<Request>): nat {
    if rs == [] then 0 else SumOf(rs[..|rs| - 1]) + rs[|rs| - 1]
  }

  function Same(n: nat, v: Request): (rs: seq<Request>)
    ensures |rs| == n && forall j :: 0 <= j < n ==> rs[j] == v
  {
    if n == 0 then [] else Same(n - 1, v) + [v]
  }

  lemma {:induction false} SumOfSame(n: nat, v: Request)
    ensures SumOf(Same(n, v)) == v * n
  {
    if n > 0 {
      SumOfSame(n - 1, v);
      assert Same(n, v)[..n - 1] == Same(n - 1, v);
      Distribute(v, n - 1, 1);
    }
  }

  lemma {:induction false} SumOfAtMost(rs: seq<Request>, v: nat)
    requires forall j :: 0 <= j < |rs| ==> rs[j] <= v
    ensures SumOf(rs) <= v * |rs|
  {
    if rs != [] {
      SumOfAtMost(rs[..|rs| - 1], v);
      Distribute(v, |rs| - 1, 1);
    }
  }

  lemma {:induction false} SumOfPart(rs: seq<Request>, d: nat)
    requires d <= |rs|
    ensures SumOf(rs[..d]) <= SumOf(rs)
  {
    if d < |rs| {
      SumOfPart(rs[..|rs| - 1], d);
      assert rs[..|rs| - 1][..d] == rs[..d];
    } else {
      assert rs[..d] == rs;
    }
  }

  lemma OneLess(x: nat, n: nat, most: nat)
    requires n > 0 && x <= most * n
    ensures 0 <= most * (n - 1) && x - most <= most * (n - 1)
  {
    Distribute(most, n - 1, 1);
  }

  lemma SumOfSnoc(rs: seq<Request>, v: Request)
    ensures SumOf(rs + [v]) == SumOf(rs) + v
  {
    assert (rs + [v])[..|rs|] == rs;
  }

  lemma SomeLeft(x: nat, n: nat, most: nat)
    requires 0 < x <= most * n
    ensures n > 0
  {
  }

  /** Up to `n` portions of at most `most` that add up to `x`. */
  lemma {:induction false} Portions(x: nat, n: nat, most: Request) returns (rs: seq<Request>)
    requires x <= most * n
    ensures |rs| <= n && SumOf(rs) == x && forall j :: 0 <= j < |rs| ==> rs[j] <= most && rs[j] <= x
    decreases n
  {
    assert SumOf([]) == 0;
    hide SumOf;
    if x == 0 {
      rs := [];
    } else {
      var v: Request := if x <= most then x else most;
      SomeLeft(x, n, most);
      OneLess(x, n, most);
      var rest := Portions(x - v, n - 1, most);
      rs := rest + [v];
      SumOfSnoc(rest, v);
    }
  }

  // ------------------------------------------------------------------------- one race

  ghost predicate Calm(s: Sys) {
    forall ph :: ph in s.tasks ==> !ph.IsInFlight()
  }

  lemma CalmStart()
    ensures Calm(START)
  {
  }

  /** Callers 0 to `g` have been admitted with the amounts `rs`; the first `d` of them have started. */
  function Racing(p: Priority, rs: seq<Request>, d: nat, g: nat): (ts: seq<Phase>)
    requires g <= |rs|
    ensures |ts| == g
    ensures forall j :: 0 <= j < g ==> ts[j] == if j < d then Live(j, p, rs[j]) else Granted(j, p, rs[j])
  {
    seq(g, j requires 0 <= j < g => if j < d then Live(j, p, rs[j]) else Granted(j, p, rs[j]))
  }

  /** The conditions under which all of `rs` pass every check while nobody has started yet. */
  ghost predicate AllPass(c: Setup, s: Sys, p: Priority, rs: seq<Request>) {
    && |rs| <= c.n
    && BelowConcurrency(c.budgets.At(p), s.active.At(p))
    && TokensMayPass(c.budgets.At(p))
    && forall j :: 0 <= j < |rs| ==>
         s.rss.At(p) + rs[j] <= c.budgets.At(p).maxRssMb && Total(s) + rs[j] <= EffectiveCeiling(c.config)
  }

  lemma MoveLast(c: Setup, s: Sys, tasks: seq<Phase>, x: Phase, step: Step, y: Phase)
    requires Reachable(c, s.(tasks := tasks + [x]))
    requires Next(c, s.(tasks := tasks + [x]), step, s.(tasks := (tasks + [x])[|tasks| := y]))
    ensures Reachable(c, s.(tasks := tasks + [y]))
  {
    hide Next, Reachable;
    ReachStep(c, s.(tasks := tasks + [x]), step, s.(tasks := (tasks + [x])[|tasks| := y]));
    assert (tasks + [x])[|tasks| := y] == tasks + [y];
  }

  lemma SubmitAndPass(c: Setup, s: Sys, tasks: seq<Phase>, k: nat, p: Priority, r: Request)
    requires Reachable(c, s.(tasks := tasks)) && k < c.n
    requires forall ph :: ph in tasks && ph.IsInFlight() ==> ph.k != k
    requires BelowConcurrency(c.budgets.At(p), s.active.At(p)) && TokensMayPass(c.budgets.At(p))
    requires WithinRss(c.budgets.At(p), s.rss.At(p), r)
    ensures Reachable(c, s.(tasks := tasks + [Summing(k, p, r, {}, 0)]))
  {
    hide Reachable, BelowConcurrency, TokensMayPass, WithinRss;
    ReachStep(c, s.(tasks := tasks), Submit(k, p, r), s.(tasks := tasks + [Checking(k, p, r)]));
    MoveLast(c, s, tasks, Checking(k, p, r), Advance(|tasks|), PassedActive(k, p, r));
    MoveLast(c, s, tasks, PassedActive(k, p, r), Advance(|tasks|), Summing(k, p, r, {}, 0));
  }

  lemma ReadAllAndPass(c: Setup, s: Sys, tasks: seq<Phase>, k: nat, p: Priority, r: Request)
    requires Reachable(c, s.(tasks := tasks + [Summing(k, p, r, {}, 0)]))
    requires Total(s) + r <= EffectiveCeiling(c.config)
    ensures Reachable(c, s.(tasks := tasks + [Granted(k, p, r)]))
  {
    hide EffectiveCeiling, Reachable, Add64;
    var i := |tasks|;
    var read0 := Loaded(Summing(k, p, r, {}, 0), P0Critical, s.rss.p0);
    MoveLast(c, s, tasks, Summing(k, p, r, {}, 0), Read(i, P0Critical), read0);
    var read1 := Loaded(read0, P1Normal, s.rss.p1);
    MoveLast(c, s, tasks, read0, Read(i, P1Normal), read1);
    var read2 := Loaded(read1, P2Background, s.rss.p2);
    MoveLast(c, s, tasks, read1, Read(i, P2Background), read2);
    PlainArithmetic(0, s.rss.p0);
    PlainArithmetic(s.rss.p0, s.rss.p1);
    PlainArithmetic(s.rss.p0 + s.rss.p1, s.rss.p2);
    PlainArithmetic(Total(s), r);
    assert read2.seen == ALL_TIERS && read2.sum == Total(s);
    MoveLast(c, s, tasks, read2, Advance(i), Granted(k, p, r));
  }

  /** With the counters unchanged, one more caller goes through all checks. */
  lemma GrantOne(c: Setup, s: Sys, p: Priority, rs: seq<Request>, g: nat)
    requires Calm(s) && AllPass(c, s, p, rs) && g < |rs|
    requires Reachable(c, s.(tasks := s.tasks + Racing(p, rs, 0, g)))
    ensures Reachable(c, s.(tasks := s.tasks + Racing(p, rs, 0, g + 1)))
  {
    hide EffectiveCeiling, Reachable, Add64;
    var tasks := s.tasks + Racing(p, rs, 0, g);
    forall ph | ph in tasks && ph.IsInFlight() ensures ph.k != g {
      assert ph in Racing(p, rs, 0, g);
    }
    PlainArithmetic(s.rss.At(p), rs[g]);
    SubmitAndPass(c, s, tasks, g, p, rs[g]);
    ReadAllAndPass(c, s, tasks, g, p, rs[g]);
    assert tasks + [Granted(g, p, rs[g])] == s.tasks + Racing(p, rs, 0, g + 1);
  }

  lemma {:induction false} GrantMany(c: Setup, s: Sys, p: Priority, rs: seq<Request>, g: nat)
    requires Reachable(c, s) && Calm(s) && AllPass(c, s, p, rs) && g <= |rs|
    ensures Reachable(c, s.(tasks := s.tasks + Racing(p, rs, 0, g)))
    decreases g
  {
    hide Reachable, Calm, AllPass;
    if g == 0 {
      assert s.tasks + Racing(p, rs, 0, 0) == s.tasks;
    } else {
      GrantMany(c, s, p, rs, g - 1);
      GrantOne(c, s, p, rs, g - 1);
    }
  }

  /** The counters after the first `d` callers have started. */
  ghost function Started(s: Sys, p: Priority, rs: seq<Request>, d: nat): Sys
    requires d <= |rs|
    requires s.active.At(p) + d < U64_MODULUS && s.rss.At(p) + SumOf(rs[..d]) < U64_MODULUS
  {
    Sys(Put(s.active, p, s.active.At(p) + d), Put(s.rss, p, s.rss.At(p) + SumOf(rs[..d])),
        s.tasks + Racing(p, rs, d, |rs|))
  }

  lemma RacingAdvances(base: seq<Phase>, p: Priority, rs: seq<Request>, d: nat, mid: Phase)
    requires d < |rs|
    ensures (base + Racing(p, rs, d, |rs|))[|base| + d] == Granted(d, p, rs[d])
    ensures (base + Racing(p, rs, d, |rs|))[|base| + d := mid][|base| + d := Live(d, p, rs[d])] ==
      base + Racing(p, rs, d + 1, |rs|)
  {
  }

  /** An admitted submission raises the active count, then the RSS. */
  lemma CountAndRaise(c: Setup, a: Sys, i: nat, b: Sys)
    requires Reachable(c, a) && i < |a.tasks| && a.tasks[i].Granted?
    requires var ph := a.tasks[i];
      && a.active.At(ph.p) + 1 < U64_MODULUS && a.rss.At(ph.p) + ph.r < U64_MODULUS
      && b == Sys(Put(a.active, ph.p, a.active.At(ph.p) + 1), Put(a.rss, ph.p, a.rss.At(ph.p) + ph.r),
                  a.tasks[i := Counted(ph.k, ph.p, ph.r)][i := Live(ph.k, ph.p, ph.r)])
    ensures Reachable(c, b)
  {
    hide Reachable, Add64;
    var ph := a.tasks[i];
    PlainArithmetic(a.active.At(ph.p), 1);
    PlainArithmetic(a.rss.At(ph.p), ph.r);
    var mid := Sys(Put(a.active, ph.p, a.active.At(ph.p) + 1), a.rss, a.tasks[i := Counted(ph.k, ph.p, ph.r)]);
    ReachStep(c, a, Advance(i), mid);
    ReachStep(c, mid, Advance(i), b);
  }

  lemma PutTwice(t: Tiers<u64>, p: Priority, v: u64, w: u64)
    ensures Put(t, p, v).At(p) == v && Put(Put(t, p, v), p, w) == Put(t, p, w)
  {
  }

  lemma StartOne(c: Setup, s: Sys, p: Priority, rs: seq<Request>, d: nat)
    requires d < |rs| && s.active.At(p) + |rs| < U64_MODULUS && s.rss.At(p) + SumOf(rs) < U64_MODULUS
    requires SumOf(rs[..d]) <= SumOf(rs[..d + 1]) == SumOf(rs[..d]) + rs[d] <= SumOf(rs)
    requires Reachable(c, Started(s, p, rs, d))
    ensures Reachable(c, Started(s, p, rs, d + 1))
  {
    hide Reachable, SumOf, Racing, Put, Tiers.At;
    PutTwice(s.active, p, s.active.At(p) + d, s.active.At(p) + d + 1);
    PutTwice(s.rss, p, s.rss.At(p) + SumOf(rs[..d]), s.rss.At(p) + SumOf(rs[..d + 1]));
    RacingAdvances(s.tasks, p, rs, d, Counted(d, p, rs[d]));
    CountAndRaise(c, Started(s, p, rs, d), |s.tasks| + d, Started(s, p, rs, d + 1));
  }

  lemma SumOfNext(rs: seq<Request>, d: nat)
    requires d < |rs|
    ensures SumOf(rs[..d]) <= SumOf(rs[..d + 1]) == SumOf(rs[..d]) + rs[d] <= SumOf(rs)
  {
    assert rs[..d + 1][..d] == rs[..d];
    SumOfPart(rs, d + 1);
  }

  lemma StartNone(s: Sys, p: Priority, rs: seq<Request>)
    requires s.active.At(p) < U64_MODULUS && s.rss.At(p) + SumOf(rs[..0]) < U64_MODULUS
    ensures Started(s, p, rs, 0) == s.(tasks := s.tasks + Racing(p, rs, 0, |rs|))
  {
  }

  lemma {:induction false} StartMany(c: Setup, s: Sys, p: Priority, rs: seq<Request>, d: nat)
    requires Reachable(c, s) && Calm(s) && AllPass(c, s, p, rs) && d <= |rs|
    requires s.active.At(p) + |rs| < U64_MODULUS && s.rss.At(p) + SumOf(rs) < U64_MODULUS
    ensures SumOf(rs[..d]) <= SumOf(rs) && Reachable(c, Started(s, p, rs, d))
    decreases d
  {
    hide Reachable, Calm, AllPass, Started, Racing, SumOf;
    SumOfPart(rs, d);
    if d == 0 {
      GrantMany(c, s, p, rs, |rs|);
      StartNone(s, p, rs);
    } else {
      StartMany(c, s, p, rs, d - 1);
      SumOfNext(rs, d - 1);
      StartOne(c, s, p, rs, d - 1);
    }
  }

  lemma RaceFits(c: Setup, s: Sys, p: Priority, rs: seq<Request>)
    requires AllPass(c, s, p, rs)
    ensures s.active.At(p) + |rs| < U64_MODULUS && s.rss.At(p) + SumOf(rs) < U64_MODULUS
  {
    if rs != [] {
      var most := c.budgets.At(p).maxRssMb;
      assert s.rss.At(p) + rs[0] <= most;
      SumOfAtMost(rs, most);
      ProductFits(most, |rs|);
    } else {
      assert SumOf(rs) == 0;
    }
  }

  /** All callers that pass the checks together start together. */
  lemma Race(c: Setup, s: Sys, p: Priority, rs: seq<Request>) returns (t: Sys)
    requires Reachable(c, s) && Calm(s) && AllPass(c, s, p, rs)
    ensures s.active.At(p) + |rs| < U64_MODULUS && s.rss.At(p) + SumOf(rs) < U64_MODULUS
    ensures Reachable(c, t) && Calm(t)
    ensures t.active == Put(s.active, p, s.active.At(p) + |rs|) && t.rss == Put(s.rss, p, s.rss.At(p) + SumOf(rs))
  {
    hide Reachable;
    RaceFits(c, s, p, rs);
    StartMany(c, s, p, rs, |rs|);
    assert rs[..|rs|] == rs;
    t := Started(s, p, rs, |rs|);
    forall ph | ph in t.tasks ensures !ph.IsInFlight() {
      if ph !in s.tasks { assert ph in Racing(p, rs, |rs|, |rs|); }
    }
  }

  // --------------------------------------------------------------------- the task limit

  /** One task of a megabyte after another, up to one below the tier's tightest limit. */
  lemma {:induction false} Fill(c: Setup, p: Priority, live: nat) returns (s: Sys)
    requires LetsIn(c.budgets.At(p)) && live < Min(c.budgets.At(p).maxConcurrent, Largest(c, p)) && c.n >= 1
    ensures Reachable(c, s) && Calm(s) && s.active.At(p) == live && s.rss == Put(Tiers(0, 0, 0), p, live)
    decreases live
  {
    hide Reachable, Calm, EffectiveCeiling;
    if live == 0 {
      ReachStart(c);
      CalmStart();
      s := START;
    } else {
      s := Fill(c, p, live - 1);
      TokensMayPassIff(c.budgets.At(p));
      SumOfSame(1, 1);
      s := Race(c, s, p, Same(1, 1));
    }
  }

  /** Racing callers bring the active count to exactly the most that is possible. */
  lemma BoundIsAttained(c: Setup, p: Priority)
    requires c.n >= 1
    ensures exists s :: Reachable(c, s) && s.active.At(p) == MostTasks(c, p)
  {
    hide Reachable, Calm, EffectiveCeiling;
    if MostTasks(c, p) == 0 {
      ReachStart(c);
      assert START.active.At(p) == 0;
    } else {
      var s := Fill(c, p, Min(c.budgets.At(p).maxConcurrent, Largest(c, p)) - 1);
      TokensMayPassIff(c.budgets.At(p));
      var t := Race(c, s, p, Same(c.n, 1));
      assert t.active.At(p) == s.active.At(p) + c.n;
    }
  }

  /** What any reachable state keeps to. */
  lemma ReachableIsBounded(c: Setup, s: Sys, p: Priority)
    requires Reachable(c, s) && c.n >= 1
    ensures s.active.At(p) <= c.budgets.At(p).maxConcurrent + c.n - 1
    ensures s.rss.At(p) <= c.budgets.At(p).maxRssMb * c.n
    ensures SumsFit(c) ==> s.active.At(p) <= MostTasks(c, p) && Total(s) <= EffectiveCeiling(c.config) * c.n
    ensures !LetsIn(c.budgets.At(p)) ==> s.rss.At(p) == 0
  {
    hide EffectiveCeiling, SumsFit, MostTasks;
    var ss: seq<Sys>, steps: seq<Step> :| Behaviour(c, ss, steps) && ss[|ss| - 1] == s;
    RacesAreBounded(c, ss, steps, |ss| - 1, p);
    if SumsFit(c) {
      TasksAreBounded(c, ss, steps, |ss| - 1, p);
      CeilingIsBounded(c, ss, steps, |ss| - 1);
    }
    if !LetsIn(c.budgets.At(p)) {
      NobodyPasses(c, ss, steps, |ss| - 1, p);
      hide Sum, Behaviour;
      SumZero(Held({p}), s.tasks);
    }
  }

  /**
   * The tier's task limit holds in every run exactly when callers cannot race, nobody is let in, or
   * memory runs out before the limit is reached and passed.
   */
  lemma LimitHoldsIff(c: Setup, p: Priority)
    requires c.n >= 1 && SumsFit(c)
    ensures (forall s :: Reachable(c, s) ==> s.active.At(p) <= c.budgets.At(p).maxConcurrent) <==>
      || c.n == 1
      || !LetsIn(c.budgets.At(p))
      || Largest(c, p) == 0
      || Largest(c, p) + c.n - 1 <= c.budgets.At(p).maxConcurrent
  {
    hide Reachable, EffectiveCeiling, SumsFit, Largest;
    if MostTasks(c, p) <= c.budgets.At(p).maxConcurrent {
      forall s | Reachable(c, s) ensures s.active.At(p) <= c.budgets.At(p).maxConcurrent {
        ReachableIsBounded(c, s, p);
      }
    } else {
      BoundIsAttained(c, p);
    }
  }

  // ----------------------------------------------------------------- the tier RSS limit

  lemma LargestTimes(c: Setup, p: Priority)
    ensures Largest(c, p) * c.n == Min(c.budgets.At(p).maxRssMb * c.n, EffectiveCeiling(c.config) * c.n)
  {
    hide EffectiveCeiling;
    var m, e := c.budgets.At(p).maxRssMb, EffectiveCeiling(c.config);
    if m <= e { Distribute(c.n, m, e - m); } else { Distribute(c.n, e, m - e); }
  }

  /** `n` racing callers can take `n` times the largest request of one tier. */
  lemma RssBoundIsAttained(c: Setup, p: Priority) returns (s: Sys)
    requires LetsIn(c.budgets.At(p))
    ensures Reachable(c, s) && s.rss.At(p) == Total(s) == Largest(c, p) * c.n
  {
    hide Reachable, EffectiveCeiling;
    ReachStart(c);
    if Largest(c, p) == 0 {
      s := START;
    } else {
      CalmStart();
      TokensMayPassIff(c.budgets.At(p));
      SumOfSame(c.n, Largest(c, p));
      s := Race(c, START, p, Same(c.n, Largest(c, p)));
    }
  }

  /** The tier's RSS limit holds in every run exactly when nobody is let in or the largest requests all fit. */
  lemma RssLimitHoldsIff(c: Setup, p: Priority)
    requires c.n >= 1 && SumsFit(c)
    ensures (forall s :: Reachable(c, s) ==> s.rss.At(p) <= c.budgets.At(p).maxRssMb) <==>
      !LetsIn(c.budgets.At(p)) || Largest(c, p) * c.n <= c.budgets.At(p).maxRssMb
  {
    hide Reachable, EffectiveCeiling, SumsFit, Largest, LetsIn;
    if !LetsIn(c.budgets.At(p)) || Largest(c, p) * c.n <= c.budgets.At(p).maxRssMb {
      LargestTimes(c, p);
      forall s | Reachable(c, s) ensures s.rss.At(p) <= c.budgets.At(p).maxRssMb {
        ReachableIsBounded(c, s, p);
      }
    } else {
      var s := RssBoundIsAttained(c, p);
    }
  }

  // ------------------------------------------------------------------ the system ceiling

  /** When a tier alone may use up the ceiling, `n` racing callers reach `n` times the ceiling. */
  lemma CeilingBoundIsAttained(c: Setup, p: Priority)
    requires LetsIn(c.budgets.At(p)) && EffectiveCeiling(c.config) <= c.budgets.At(p).maxRssMb
    ensures exists s :: Reachable(c, s) && Total(s) == EffectiveCeiling(c.config) * c.n
  {
    hide Reachable;
    var s := RssBoundIsAttained(c, p);
  }

  /** What one caller can hold of a tier: nothing if nobody is let in. */
  function Cap(c: Setup, p: Priority): u32 {
    if LetsIn(c.budgets.At(p)) then c.budgets.At(p).maxRssMb else 0
  }

  function AllCaps(c: Setup): nat { Cap(c, P0Critical) + Cap(c, P1Normal) + Cap(c, P2Background) }

  lemma CapTimes(c: Setup, p: Priority)
    ensures if Cap(c, p) == 0 then c.n * Cap(c, p) == 0 else c.n * Cap(c, p) >= c.n
  {
    if Cap(c, p) > 0 { Distribute(c.n, 1, Cap(c, p) - 1); }
  }

  lemma AllCapsTimes(c: Setup)
    ensures c.n * AllCaps(c) == c.n * Cap(c, P0Critical) + c.n * Cap(c, P1Normal) + c.n * Cap(c, P2Background)
  {
    Distribute(c.n, Cap(c, P0Critical) + Cap(c, P1Normal), Cap(c, P2Background));
    Distribute(c.n, Cap(c, P0Critical), Cap(c, P1Normal));
  }

  ghost predicate Untouched(s: Sys, p: Priority) {
    s.active.At(p) == 0 && s.rss.At(p) == 0
  }

  /** A race in an unused tier adds any total up to `n` times its cap that stays within the ceiling. */
  lemma AddTo(c: Setup, s: Sys, p: Priority, x: nat) returns (t: Sys)
    requires Reachable(c, s) && Calm(s) && Untouched(s, p)
    requires x <= c.n * Cap(c, p) && Total(s) + x <= EffectiveCeiling(c.config)
    ensures Reachable(c, t) && Calm(t) && Total(t) == Total(s) + x
    ensures forall q :: q != p && Untouched(s, q) ==> Untouched(t, q)
  {
    hide Reachable, EffectiveCeiling, Calm;
    if x == 0 {
      t := s;
    } else {
      CapTimes(c, p);
      TokensMayPassIff(c.budgets.At(p));
      assert c.n * Cap(c, p) == Cap(c, p) * c.n;
      var rs := Portions(x, c.n, Cap(c, p));
      t := Race(c, s, p, rs);
    }
  }

  lemma TwoOrMore(n: nat, r: nat, cap: nat)
    requires n >= 2
    ensures r * n >= r + r && (r == cap ==> r * n == n * cap)
  {
    Distribute(r, 2, n - 2);
  }

  /** A race in an unused tier overruns the ceiling if `n` times its cap reaches beyond what is left. */
  lemma Overrun(c: Setup, s: Sys, p: Priority) returns (t: Sys)
    requires Reachable(c, s) && Calm(s) && Untouched(s, p) && c.n >= 2
    requires Total(s) < EffectiveCeiling(c.config) < Total(s) + c.n * Cap(c, p)
    ensures Reachable(c, t) && Total(t) > EffectiveCeiling(c.config)
  {
    hide Reachable, EffectiveCeiling, Calm, TokensMayPass, SumOf;
    CapTimes(c, p);
    var r: Request := Min(Cap(c, p), EffectiveCeiling(c.config) - Total(s));
    TokensMayPassIff(c.budgets.At(p));
    SumOfSame(c.n, r);
    t := Race(c, s, p, Same(c.n, r));
    TwoOrMore(c.n, r, Cap(c, p));
  }

  /** Tier after tier, two or more callers pass a positive ceiling if `n` times all caps do. */
  lemma CeilingCanBeOverrun(c: Setup) returns (s: Sys)
    requires c.n >= 2 && 0 < EffectiveCeiling(c.config) < c.n * AllCaps(c)
    ensures Reachable(c, s) && Total(s) > EffectiveCeiling(c.config)
  {
    hide Reachable, EffectiveCeiling, Calm, Cap;
    var e := EffectiveCeiling(c.config);
    AllCapsTimes(c);
    CapTimes(c, P1Normal);
    CapTimes(c, P2Background);
    ReachStart(c);
    CalmStart();
    var x := c.n * Cap(c, P0Critical);
    if x > e {
      s := Overrun(c, START, P0Critical);
    } else {
      s := AddTo(c, START, P0Critical, Min(x, e - 1));
      var y := c.n * Cap(c, P1Normal);
      if Total(s) + y > e {
        s := Overrun(c, s, P1Normal);
      } else {
        s := AddTo(c, s, P1Normal, Min(y, e - 1 - Total(s)));
        s := Overrun(c, s, P2Background);
      }
    }
  }

  lemma WithinCap(c: Setup, s: Sys, p: Priority)
    requires Reachable(c, s) && c.n >= 1
    ensures s.rss.At(p) <= c.n * Cap(c, p)
  {
    hide Reachable, SumsFit, EffectiveCeiling;
    ReachableIsBounded(c, s, p);
    CapTimes(c, p);
    assert c.budgets.At(p).maxRssMb * c.n == c.n * c.budgets.At(p).maxRssMb;
  }

  lemma WithinCaps(c: Setup, s: Sys)
    requires Reachable(c, s) && c.n >= 1
    ensures Total(s) <= c.n * AllCaps(c)
  {
    hide Reachable, AllCaps, Cap;
    AllCapsTimes(c);
    WithinCap(c, s, P0Critical);
    WithinCap(c, s, P1Normal);
    WithinCap(c, s, P2Background);
  }

  /**
   * The ceiling less the headroom is respected in every run exactly when the headroom fits under the
   * ceiling and there is one caller, or nothing to give, or `n` callers cannot ask for more.
   */
  lemma CeilingHoldsIff(c: Setup)
    requires c.n >= 1 && SumsFit(c)
    ensures (forall s :: Reachable(c, s) ==> Total(s) <= c.config.systemRssCeilingMb - c.config.headroomMb) <==>
      && c.config.headroomMb <= c.config.systemRssCeilingMb
      && (|| c.n == 1
          || c.config.headroomMb == c.config.systemRssCeilingMb
          || c.n * AllCaps(c) <= c.config.systemRssCeilingMb - c.config.headroomMb)
  {
    hide Reachable, AllCaps, SumsFit;
    var left := c.config.systemRssCeilingMb - c.config.headroomMb;
    CeilingIsMeantIff(c.config);
    if left < 0 {
      ReachStart(c);
      assert Reachable(c, START) && Total(START) > left;
    } else if c.n == 1 || left == 0 || c.n * AllCaps(c) <= left {
      forall s | Reachable(c, s) ensures Total(s) <= left {
        ReachableIsBounded(c, s, P0Critical);
        WithinCaps(c, s);
      }
    } else {
      var s := CeilingCanBeOverrun(c);
    }
  }

  /** With the defaults, two or more callers overrun every limit: tasks, RSS and ceiling less headroom. */
  lemma DefaultsAreOverrun(n: u32)
    requires n >= 2
    ensures var c := Setup(DEFAULT_BUDGETS, DEFAULT_CONFIG, n);
      && (exists s :: Reachable(c, s) && s.active.At(P0Critical) == n + 1)
      && (exists s :: Reachable(c, s) && s.active.At(P1Normal) == n + 3)
      && (exists s :: Reachable(c, s) && s.active.At(P2Background) == n + 1)
      && (exists s :: Reachable(c, s) && s.rss.At(P0Critical) == 512 * n)
      && (exists s :: Reachable(c, s) && s.rss.At(P1Normal) == 4096 * n)
      && (exists s :: Reachable(c, s) && s.rss.At(P2Background) == 2048 * n)
      && (exists s :: Reachable(c, s) && Total(s) > 8192)
  {
    hide Reachable;
    var c := Setup(DEFAULT_BUDGETS, DEFAULT_CONFIG, n);
    BoundIsAttained(c, P0Critical);
    BoundIsAttained(c, P1Normal);
    BoundIsAttained(c, P2Background);
    var s0 := RssBoundIsAttained(c, P0Critical);
    var s1 := RssBoundIsAttained(c, P1Normal);
    var s2 := RssBoundIsAttained(c, P2Background);
    assert AllCaps(c) == 6656;
    var s := CeilingCanBeOverrun(c);
  }
}
