/** src/governor/governor.rs and src/governor/budget.rs: tier counters and the admission check. */
module Governors {
  import opened MachineInts
  import opened MemoryPressure

  datatype Priority = P0Critical | P1Normal | P2Background

  /** One value per priority tier. */
  datatype Tiers<T> = Tiers(p0: T, p1: T, p2: T) {
    function At(p: Priority): T {
      match p
      case P0Critical => p0
      case P1Normal => p1
      case P2Background => p2
    }
  }

  datatype TierBudget = TierBudget(maxConcurrent: u32, maxTokensPerHour: u64, maxRssMb: u32, sheddable: bool)

  datatype Config = Config(systemRssCeilingMb: u32, headroomMb: u32)

  const DEFAULT_BUDGETS := Tiers(
    TierBudget(2, 50_000, 512, false), TierBudget(4, 500_000, 4096, false), TierBudget(2, 200_000, 2048, true))

  const DEFAULT_CONFIG := Config(10_240, 2_048)

  datatype Usage = Usage(active: u64, tokens: u64, rss: u64)

  datatype Decision = Admitted | Queued | Throttled | Shed

  // ---------------------------------------------------------------- u64 arithmetic

  function Add64(x: u64, k: u64): u64 { (x + k) % U64_MODULUS }

  function WrappingSub64(x: u64, k: u64): u64 { (x + U64_MODULUS - k) % U64_MODULUS }

  /** A wrapped sum is at most one modulus away, and subtracting takes it back. */
  lemma WrapIsUndone(x: u64, k: u64)
    ensures Add64(x, k) == x + k || Add64(x, k) == x + k - U64_MODULUS
    ensures WrappingSub64(Add64(x, k), k) == x && Add64(WrappingSub64(x, k), k) == x
  {
  }

  lemma PlainSum(x: u64, k: u64)
    ensures Add64(x, k) == (x + k) % U64_MODULUS
  {
  }

  lemma AddThree(x: u64, y: u64, z: u64, k: u64)
    ensures Add64(Add64(Add64(x, y), z), k) == (x + y + z + k) % U64_MODULUS
  {
    var q1, q2, q3 := (x + y) / U64_MODULUS, (Add64(x, y) + z) / U64_MODULUS, 0;
    var sum := Add64(Add64(x, y), z);
    assert sum == x + y + z - (q1 + q2) * U64_MODULUS;
    q3 := (sum + k) / U64_MODULUS;
    assert x + y + z + k == Add64(sum, k) + (q1 + q2 + q3) * U64_MODULUS;
  }

  // ------------------------------------------------- the checks, as the code orders them

  predicate BelowConcurrency(b: TierBudget, active: int) { active < b.maxConcurrent }

  predicate WithinTokens(b: TierBudget, used: int, estimate: int) {
    var sum := used + estimate;
    (if sum < U64_MODULUS then sum else U64_MODULUS - 1) <= b.maxTokensPerHour
  }

  lemma WithinTokensIff(b: TierBudget, used: u64, estimate: u64)
    ensures WithinTokens(b, used, estimate) <==>
      used + estimate <= b.maxTokensPerHour || b.maxTokensPerHour == U64_MODULUS - 1
  {
  }

  predicate WithinRss(b: TierBudget, rss: u64, request: u32) { Add64(rss, request) <= b.maxRssMb }

  /** `ceiling - headroom` in u64, which wraps when the headroom is the larger. */
  function EffectiveCeiling(c: Config): u64 {
    (c.systemRssCeilingMb + U64_MODULUS - c.headroomMb) % U64_MODULUS
  }

  lemma PlainCeiling(c: Config)
    ensures EffectiveCeiling(c) == (c.systemRssCeilingMb - c.headroomMb) % U64_MODULUS
  {
  }

  predicate WithinCeiling(c: Config, total: u64, request: u32) { Add64(total, request) <= EffectiveCeiling(c) }

  /** The ceiling check means what it says exactly when the headroom fits under the ceiling. */
  lemma CeilingIsMeantIff(c: Config)
    ensures EffectiveCeiling(c) == c.systemRssCeilingMb - c.headroomMb <==> c.headroomMb <= c.systemRssCeilingMb
    ensures c.headroomMb > c.systemRssCeilingMb ==>
      forall total: u64, request: u32 :: total + request < U64_MODULUS / 2 ==> WithinCeiling(c, total, request)
  {
  }

  /** A started task: active and RSS rise, wrapping. */
  function AfterStart(u: Usage, rssMb: u64): Usage {
    Usage(Add64(u.active, 1), u.tokens, Add64(u.rss, rssMb))
  }

  /** An ended task: active falls, wrapping, and RSS falls, saturating. */
  function AfterEnd(u: Usage, rssMb: u64): Usage {
    Usage(WrappingSub64(u.active, 1), u.tokens, SaturatingSub(u.rss, rssMb))
  }

  /** An end undoes a start exactly when the RSS did not wrap; the count is restored in any case. */
  lemma EndUndoesStartIff(u: Usage, rssMb: u64)
    ensures AfterEnd(AfterStart(u, rssMb), rssMb) == u <==> u.rss + rssMb < U64_MODULUS
    ensures AfterEnd(AfterStart(u, rssMb), rssMb).active == u.active
  {
    WrapIsUndone(u.active, 1);
    WrapIsUndone(u.rss, rssMb);
  }

  /** The atomic counters of one tier. */
  class TierUsage {
    var activeTasks: u64
    var tokensUsedThisHour: u64
    var rssAllocatedMb: u64

    function Value(): Usage
      reads this
    {
      Usage(activeTasks, tokensUsedThisHour, rssAllocatedMb)
    }

    constructor ()
      ensures Value() == Usage(0, 0, 0)
    {
      activeTasks, tokensUsedThisHour, rssAllocatedMb := 0, 0, 0;
    }

    method RecordTaskStart(rssMb: u64)
      modifies this
      ensures Value() == AfterStart(old(Value()), rssMb)
    {
      activeTasks := Add64(activeTasks, 1);
      rssAllocatedMb := Add64(rssAllocatedMb, rssMb);
    }

    method RecordTaskEnd(rssMb: u64)
      modifies this
      ensures Value() == AfterEnd(old(Value()), rssMb)
    {
      activeTasks := WrappingSub64(activeTasks, 1);
      rssAllocatedMb := SaturatingSub(rssAllocatedMb, rssMb);
    }
  }

  class ResourceGovernor {
    const budgets: Tiers<TierBudget>
    const usage: Tiers<TierUsage>
    const config: Config
    var pressure: MemoryPressureLevel

    ghost predicate Valid() {
      usage.p0 != usage.p1 && usage.p0 != usage.p2 && usage.p1 != usage.p2
    }

    function View(): Tiers<Usage>
      reads usage.p0, usage.p1, usage.p2
    {
      Tiers(usage.p0.Value(), usage.p1.Value(), usage.p2.Value())
    }

    constructor (config: Config)
      ensures Valid() && View() == Tiers(Usage(0, 0, 0), Usage(0, 0, 0), Usage(0, 0, 0))
      ensures this.config == config && budgets == DEFAULT_BUDGETS && pressure == Normal
    {
      this.config, budgets, pressure := config, DEFAULT_BUDGETS, Normal;
      var u0 := new TierUsage();
      var u1 := new TierUsage();
      var u2 := new TierUsage();
      usage := Tiers(u0, u1, u2);
    }

    /**
     * Admitted exactly when every check passes, in plain numbers of u64; a refusal says which kind
     * of check failed first.
     */
    method CheckAdmission(p: Priority, rssMb: u32, tokens: u64) returns (d: Decision)
      ensures var b, u := budgets.At(p), View();
        d == Admitted <==>
          && !(pressure == Critical && b.sheddable)
          && u.At(p).active < b.maxConcurrent
          && (u.At(p).tokens + tokens <= b.maxTokensPerHour || b.maxTokensPerHour == U64_MODULUS - 1)
          && (u.At(p).rss + rssMb) % U64_MODULUS <= b.maxRssMb
          && (u.p0.rss + u.p1.rss + u.p2.rss + rssMb) % U64_MODULUS <=
               (config.systemRssCeilingMb - config.headroomMb) % U64_MODULUS
      ensures var b, u := budgets.At(p), View().At(p);
        d == Shed <==>
          && b.sheddable
          && (pressure == Critical ||
                (u.active < b.maxConcurrent && b.maxTokensPerHour < U64_MODULUS - 1 &&
                   u.tokens + tokens > b.maxTokensPerHour))
      ensures var b, u := budgets.At(p), View().At(p);
        d == Throttled <==>
          && !b.sheddable
          && u.active < b.maxConcurrent
          && b.maxTokensPerHour < U64_MODULUS - 1
          && u.tokens + tokens > b.maxTokensPerHour
    {
      hide Add64, WithinTokens, EffectiveCeiling;
      var budget, u := budgets.At(p), usage.At(p);
      WithinTokensIff(budget, u.tokensUsedThisHour, tokens);
      PlainSum(u.rssAllocatedMb, rssMb);
      PlainCeiling(config);
      if pressure == Critical && budget.sheddable {
        return Shed;
      }
      if u.activeTasks >= budget.maxConcurrent {
        return Queued;
      }
      if !WithinTokens(budget, u.tokensUsedThisHour, tokens) {
        return if budget.sheddable then Shed else Throttled;
      }
      if Add64(u.rssAllocatedMb, rssMb) > budget.maxRssMb {
        return Queued;
      }
      var total := Add64(Add64(usage.p0.rssAllocatedMb, usage.p1.rssAllocatedMb), usage.p2.rssAllocatedMb);
      AddThree(usage.p0.rssAllocatedMb, usage.p1.rssAllocatedMb, usage.p2.rssAllocatedMb, rssMb);
      if Add64(total, rssMb) > EffectiveCeiling(config) {
        return Queued;
      }
      return Admitted;
    }

    method TaskStarted(p: Priority, rssMb: u32)
      requires Valid()
      modifies usage.At(p)
      ensures View().At(p) == AfterStart(old(View()).At(p), rssMb)
      ensures forall q :: q != p ==> View().At(q) == old(View()).At(q)
    {
      usage.At(p).RecordTaskStart(rssMb);
    }

    method TaskEnded(p: Priority, rssMb: u32)
      requires Valid()
      modifies usage.At(p)
      ensures View().At(p) == AfterEnd(old(View()).At(p), rssMb)
      ensures forall q :: q != p ==> View().At(q) == old(View()).At(q)
    {
      usage.At(p).RecordTaskEnd(rssMb);
    }
  }
}
