/**
 Pool-size recommendation of shared/db_connection_pool.py, and what happens when the
 recommendations are followed: `optimize_pool_sizes` feeds each one back in as the next size.

 The factors 1.5, 1.2, 1.3, 0.8 are exact rationals here and int(...) is the floor, which it
 is for sizes from 0 on.
 */
module PoolSizing {
  import opened Prelude

  datatype Config = Config(minSize: int, maxSize: int)

  datatype Metrics = Metrics(totalConnections: nat, activeConnections: nat, avgWaitTimeMs: real)

  const AVG_WAIT_THRESHOLD_MS: real := 100.0

  // active / size compared with num / 10; the code takes a utilization of 0 for an empty pool.
  predicate Above(active: nat, size: nat, num: nat) { size > 0 && 10 * active > num * size }
  predicate Below(active: nat, size: nat, num: nat) { size == 0 || 10 * active < num * size }

  function ByUtilization(size: nat, active: nat, cfg: Config): int {
    if Above(active, size, 9) then 3 * size / 2
    else if Above(active, size, 8) then 6 * size / 5
    else if Below(active, size, 3) && size > cfg.minSize then Max(4 * size / 5, cfg.minSize)
    else size
  }

  function Clamp(size: int, cfg: Config): int {
    Min(Max(size, cfg.minSize), cfg.maxSize)
  }

  function Recommend(m: Metrics, cfg: Config): int {
    var size := m.totalConnections;
    var byUse := ByUtilization(size, m.activeConnections, cfg);
    Clamp(if m.avgWaitTimeMs > AVG_WAIT_THRESHOLD_MS then Max(byUse, 13 * size / 10) else byUse, cfg)
  }

  method CalculateOptimalPoolSize(m: Metrics, cfg: Config) returns (recommended: int)
    ensures recommended == Recommend(m, cfg)
  {
    var size := m.totalConnections;
    var utilization := if size > 0 then m.activeConnections as real / size as real else 0.0;
    UtilizationAsIntegers(m.activeConnections, size);
    if utilization > 0.9 {
      recommended := (size as real * 1.5).Floor;
    } else if utilization > 0.8 {
      recommended := (size as real * 1.2).Floor;
    } else if utilization < 0.3 && size > cfg.minSize {
      recommended := Max((size as real * 0.8).Floor, cfg.minSize);
    } else {
      recommended := size;
    }
    if m.avgWaitTimeMs > AVG_WAIT_THRESHOLD_MS {
      recommended := Max(recommended, (size as real * 1.3).Floor);
    }
    recommended := Max(recommended, cfg.minSize);
    recommended := Min(recommended, cfg.maxSize);
  }

  lemma UtilizationAsIntegers(active: nat, size: nat)
    ensures size > 0 ==>
              var u := active as real / size as real;
              && (u > 0.9 <==> Above(active, size, 9)) && (u > 0.8 <==> Above(active, size, 8))
              && (u < 0.3 <==> Below(active, size, 3))
  {
    if size > 0 {
      RatioAgainst(active as real, size as real, 0.9);
      RatioAgainst(active as real, size as real, 0.8);
      RatioAgainst(active as real, size as real, 0.3);
    }
  }

  lemma RatioAgainst(a: real, s: real, c: real)
    requires s > 0.0
    ensures a / s > c <==> a > c * s
    ensures a / s < c <==> a < c * s
  {
    var u := a / s;
    assert u * s == a;
    if u > c {
      assert (u - c) * s > 0.0;
    } else if u < c {
      assert (c - u) * s > 0.0;
    }
  }

  // ----- What is recommended

  function Within(x: int, cfg: Config): int {
    if Max(x, cfg.minSize) < cfg.maxSize then Max(x, cfg.minSize) else cfg.maxSize
  }

  // Without long waits: half as much again above 90 percent utilization, a fifth more above 80, a fifth
  // less below 30 if that is possible, and otherwise the same size; rounded down, and within the range.
  lemma RecommendationByUtilization(m: Metrics, cfg: Config)
    requires m.totalConnections > 0 && m.avgWaitTimeMs <= 100.0
    ensures var size := m.totalConnections;
            var u, r := m.activeConnections as real / size as real, Recommend(m, cfg);
            && (u > 0.9 ==> r == Within((1.5 * size as real).Floor, cfg))
            && (0.8 < u <= 0.9 ==> r == Within((1.2 * size as real).Floor, cfg))
            && (0.3 <= u <= 0.8 ==> r == Within(size, cfg))
            && (u < 0.3 && size > cfg.minSize ==> r == Within((0.8 * size as real).Floor, cfg))
            && (u < 0.3 && size <= cfg.minSize ==> r == Within(cfg.minSize, cfg))
  {
    UtilizationAsIntegers(m.activeConnections, m.totalConnections);
  }

  // An average wait above 100 ms recommends at least 1.3 times the size, and never less than a short one:
  // the greater of the two.
  lemma LongWaitsGrow(m: Metrics, cfg: Config)
    requires m.avgWaitTimeMs > 100.0
    ensures var grown := Within((1.3 * m.totalConnections as real).Floor, cfg);
            var short := Recommend(m.(avgWaitTimeMs := 0.0), cfg);
            Recommend(m, cfg) == (if short < grown then grown else short)
  {
  }

  // An empty pool is recommended the smallest size.
  lemma EmptyPoolGetsMinimum(m: Metrics, cfg: Config)
    requires m.totalConnections == 0
    ensures Recommend(m, cfg) == Within(if cfg.minSize > 0 then cfg.minSize else 0, cfg)
  {
  }

  // ----- Following the recommendations under constant demand and low waits

  // The pool's next size: of a constant demand, the pool serves what it has connections for.
  function Next(size: nat, demand: nat, cfg: Config): int {
    Recommend(Metrics(size, Min(demand, size), 0.0), cfg)
  }

  // Sizes of a real pool are never negative, which the configuration has to allow.
  predicate Sane(cfg: Config) { 0 <= cfg.maxSize }

  lemma NextIsNat(size: nat, demand: nat, cfg: Config)
    requires Sane(cfg)
    ensures Next(size, demand, cfg) >= 0
  {
  }

  function Iterate(n: nat, x: nat, step: nat -> nat): (xs: seq<nat>)
    ensures |xs| == n + 1 && xs[0] == x
  {
    if n == 0 then [x]
    else
      var before := Iterate(n - 1, x, step);
      before + [step(before[n - 1])]
  }

  lemma {:induction false} IterateFollows(n: nat, x: nat, step: nat -> nat, i: nat)
    requires i < n
    ensures Iterate(n, x, step)[i + 1] == step(Iterate(n, x, step)[i])
  {
    if i < n - 1 {
      IterateFollows(n - 1, x, step, i);
    }
  }

  // With a sane configuration the next size is never negative (NextIsNat).
  function Stepping(demand: nat, cfg: Config): nat -> nat {
    (size: nat) => Max(0, Next(size, demand, cfg))
  }

  // The first n + 1 sizes, starting from `size`.
  function Sizes(n: nat, size: nat, demand: nat, cfg: Config): (sizes: seq<nat>)
    requires Sane(cfg)
    ensures |sizes| == n + 1 && sizes[0] == size
  {
    Iterate(n, size, Stepping(demand, cfg))
  }

  lemma SizesFollowNext(n: nat, size: nat, demand: nat, cfg: Config, i: nat)
    requires Sane(cfg) && i < n
    ensures Sizes(n, size, demand, cfg)[i + 1] == Next(Sizes(n, size, demand, cfg)[i], demand, cfg)
  {
    IterateFollows(n, size, Stepping(demand, cfg), i);
    NextIsNat(Sizes(n, size, demand, cfg)[i], demand, cfg);
  }

  // One step leads into the configured range; when the range is empty, to maxSize.
  lemma OneStepIntoRange(m: Metrics, cfg: Config)
    ensures Recommend(m, cfg) <= cfg.maxSize
    ensures cfg.minSize <= cfg.maxSize ==> cfg.minSize <= Recommend(m, cfg)
    ensures cfg.minSize > cfg.maxSize ==> Recommend(m, cfg) == cfg.maxSize
  {
  }

  // A pool that grew does not shrink next, and one that shrank does not grow.
  lemma NeverTurnsBack(size: nat, demand: nat, cfg: Config)
    requires Sane(cfg)
    ensures var next := Next(size, demand, cfg);
            && next >= 0
            && (next >= size ==> Next(next, demand, cfg) >= next)
            && (next <= size ==> Next(next, demand, cfg) <= next)
  {
  }

  ghost predicate NoTurns(xs: seq<nat>) {
    forall i :: 0 <= i < |xs| - 2 ==> NoTurnAt(xs, i)
  }

  predicate NoTurnAt(xs: seq<nat>, i: nat)
    requires i < |xs| - 2
  {
    (xs[i] <= xs[i + 1] ==> xs[i + 1] <= xs[i + 2]) && (xs[i] >= xs[i + 1] ==> xs[i + 1] >= xs[i + 2])
  }

  lemma SizesNeverTurn(n: nat, size: nat, demand: nat, cfg: Config)
    requires Sane(cfg)
    ensures NoTurns(Sizes(n, size, demand, cfg))
  {
    var xs := Sizes(n, size, demand, cfg);
    forall i | 0 <= i < |xs| - 2 ensures NoTurnAt(xs, i) {
      NoTurnAtStep(n, size, demand, cfg, i);
    }
  }

  lemma NoTurnAtStep(n: nat, size: nat, demand: nat, cfg: Config, i: nat)
    requires Sane(cfg) && i + 1 < n
    ensures NoTurnAt(Sizes(n, size, demand, cfg), i)
  {
    var xs := Sizes(n, size, demand, cfg);
    SizesFollowNext(n, size, demand, cfg, i);
    SizesFollowNext(n, size, demand, cfg, i + 1);
    NeverTurnsBack(xs[i], demand, cfg);
  }

  lemma {:induction false} NoTurnsMonotone(xs: seq<nat>, i: nat)
    requires NoTurns(xs) && i < |xs| - 1
    ensures xs[0] <= xs[1] ==> xs[i] <= xs[i + 1]
    ensures xs[0] >= xs[1] ==> xs[i] >= xs[i + 1]
  {
    if i > 0 {
      NoTurnsMonotone(xs, i - 1);
      assert NoTurnAt(xs, i - 1);
    }
  }

  // So the sizes move one way for ever ...
  lemma SizesAreMonotone(n: nat, size: nat, demand: nat, cfg: Config, i: nat)
    requires Sane(cfg) && i < n
    ensures var xs := Sizes(n, size, demand, cfg);
            (xs[0] <= xs[1] ==> xs[i] <= xs[i + 1]) && (xs[0] >= xs[1] ==> xs[i] >= xs[i + 1])
  {
    SizesNeverTurn(n, size, demand, cfg);
    NoTurnsMonotone(Sizes(n, size, demand, cfg), i);
  }

  // ... moving by at least one until they rest ...
  lemma {:induction false} MovesUntilAtRest(xs: seq<nat>, i: nat)
    requires NoTurns(xs) && i < |xs| - 2
    ensures xs[i + 1] == xs[i + 2]
         || (xs[0] < xs[1] && xs[i + 1] >= xs[1] + i)
         || (xs[0] > xs[1] && xs[i + 1] <= xs[1] - i)
  {
    if i > 0 {
      MovesUntilAtRest(xs, i - 1);
      assert NoTurnAt(xs, i - 1) && NoTurnAt(xs, i);
      NoTurnsMonotone(xs, i);
    } else {
      assert NoTurnAt(xs, 0);
    }
  }

  lemma RestsWhenConfined(xs: seq<nat>, lo: int, hi: int)
    requires NoTurns(xs) && |xs| == 4 + Max(0, hi - lo)
    requires Min(lo, hi) <= xs[1] <= hi && Min(lo, hi) <= xs[|xs| - 2] <= hi
    ensures xs[|xs| - 2] == xs[|xs| - 1]
  {
    MovesUntilAtRest(xs, |xs| - 3);
  }

  lemma SizesRest(n: nat, size: nat, demand: nat, cfg: Config)
    requires Sane(cfg) && n == 2 + Max(0, cfg.maxSize - cfg.minSize)
    ensures Sizes(n + 1, size, demand, cfg)[n] == Sizes(n + 1, size, demand, cfg)[n + 1]
  {
    SizesNeverTurn(n + 1, size, demand, cfg);
    SizesInRange(n + 1, size, demand, cfg, 0);
    SizesInRange(n + 1, size, demand, cfg, n - 1);
    RestsWhenConfined(Sizes(n + 1, size, demand, cfg), cfg.minSize, cfg.maxSize);
  }

  // ... and, as one step leads into the range, resting after as many steps as it is wide.
  lemma ReachesFixedPoint(size: nat, demand: nat, cfg: Config)
    requires Sane(cfg)
    ensures var n := 2 + Max(0, cfg.maxSize - cfg.minSize);
            var xs := Sizes(n + 1, size, demand, cfg);
            xs[n] == xs[n + 1] == Next(xs[n], demand, cfg)
  {
    var n := 2 + Max(0, cfg.maxSize - cfg.minSize);
    SizesRest(n, size, demand, cfg);
    SizesFollowNext(n + 1, size, demand, cfg, n);
  }

  lemma SizesInRange(n: nat, size: nat, demand: nat, cfg: Config, i: nat)
    requires Sane(cfg) && i < n
    ensures Min(cfg.minSize, cfg.maxSize) <= Sizes(n, size, demand, cfg)[i + 1] <= cfg.maxSize
  {
    var before := Sizes(n, size, demand, cfg)[i];
    SizesFollowNext(n, size, demand, cfg, i);
    OneStepIntoRange(Metrics(before, Min(demand, before), 0.0), cfg);
  }

  // ----- Where it comes to rest

  // Exactly the sizes within 30 and 80 percent utilization, the smallest one if demand is
  // lower, and if it is higher the largest one or a size too small to grow by half.
  lemma FixedPoints(size: nat, demand: nat, cfg: Config)
    requires cfg.minSize <= size <= cfg.maxSize
    ensures var active := Min(demand, size);
            Next(size, demand, cfg) == size <==>
            || (!Above(active, size, 8) && !Below(active, size, 3))
            || (Below(active, size, 3) && (size == cfg.minSize || size == 0))
            || (Above(active, size, 8) && (size == cfg.maxSize || size == 1))
  {
  }

  // Below maxSize, a pool at rest is at most 80 percent used, unless it is a single busy
  // connection: 1 * 1.5 truncates to 1, so such a pool never grows.
  lemma AtRestIffNotOverloaded(size: nat, demand: nat, cfg: Config)
    requires cfg.minSize <= size < cfg.maxSize && Next(size, demand, cfg) == size
    ensures !Above(Min(demand, size), size, 8) <==> !(size == 1 && demand >= 1)
  {
    FixedPoints(size, demand, cfg);
  }

  // ----- The pass over all pools

  datatype Pool = Pool(name: string, size: int, metrics: Option<Metrics>, config: Config)

  datatype Recommendation = Recommendation(name: string, currentSize: int, recommendedSize: int)

  function Advice(p: Pool): seq<Recommendation> {
    if p.metrics.Some? && Recommend(p.metrics.value, p.config) != p.size
    then [Recommendation(p.name, p.size, Recommend(p.metrics.value, p.config))]
    else []
  }

  function AllAdvice(pools: seq<Pool>): seq<Recommendation> {
    if pools == [] then [] else AllAdvice(pools[..|pools| - 1]) + Advice(pools[|pools| - 1])
  }

  // What the pass leaves of a pool.
  function Resized(p: Pool, scaling: bool): Pool {
    if scaling && p.metrics.Some? then p.(size := Recommend(p.metrics.value, p.config)) else p
  }

  predicate NamesOf(names: seq<string>, advice: seq<Recommendation>) {
    |names| == |advice| && forall i :: 0 <= i < |names| ==> names[i] == advice[i].name
  }

  lemma OneMorePool(pools: seq<Pool>, i: nat)
    requires i < |pools|
    ensures AllAdvice(pools[..i + 1]) == AllAdvice(pools[..i]) + Advice(pools[i])
  {
    assert pools[..i + 1][..i] == pools[..i];
  }

  // A pool is recommended a size exactly when taking it would change the pool, and that size is the
  // one it would then have, within the configured range.
  lemma AdvisedIff(p: Pool)
    ensures |Advice(p)| <= 1 && (Advice(p) == [] <==> Resized(p, true) == p)
    ensures Advice(p) != [] ==> Advice(p) == [Recommendation(p.name, p.size, Resized(p, true).size)]
    ensures p.metrics.Some? ==> Min(p.config.minSize, p.config.maxSize) <= Resized(p, true).size <= p.config.maxSize
  {
    if p.metrics.Some? {
      OneStepIntoRange(p.metrics.value, p.config);
    }
  }

  // ----- Pass after pass

  // A pool under constant demand, measured before each pass as `Next` takes it.
  datatype Load = Load(name: string, size: nat, demand: nat, config: Config)

  function Measured(p: Load, size: nat): Pool {
    Pool(p.name, size, Some(Metrics(size, Min(p.demand, size), 0.0)), p.config)
  }

  function SizeBefore(n: nat, x: nat, step: nat -> nat): nat {
    if n == 0 then x else step(SizeBefore(n - 1, x, step))
  }

  lemma {:induction false} SizeBeforeIsIterate(m: nat, n: nat, x: nat, step: nat -> nat)
    requires n <= m
    ensures SizeBefore(n, x, step) == Iterate(m, x, step)[n]
  {
    if n > 0 {
      SizeBeforeIsIterate(m, n - 1, x, step);
      IterateFollows(m, x, step, n - 1);
    }
  }

  lemma {:induction false} RestIsForEver(k: nat, n: nat, x: nat, step: nat -> nat)
    requires k <= n && Iterate(k + 1, x, step)[k] == Iterate(k + 1, x, step)[k + 1]
    ensures SizeBefore(n + 1, x, step) == SizeBefore(n, x, step)
  {
    if k < n {
      RestIsForEver(k, n - 1, x, step);
    } else {
      SizeBeforeIsIterate(k + 1, k, x, step);
      SizeBeforeIsIterate(k + 1, k + 1, x, step);
    }
  }

  // Before pass n, the earlier passes having resized it (ResizedByPass).
  function BeforePass(p: Load, n: nat): Pool {
    Measured(p, SizeBefore(n, p.size, Stepping(p.demand, p.config)))
  }

  lemma ResizesToNext(p: Load, size: nat)
    requires Sane(p.config)
    ensures Resized(Measured(p, size), true) == Measured(p, size).(size := Stepping(p.demand, p.config)(size))
  {
    NextIsNat(size, p.demand, p.config);
  }

  lemma ResizedByPass(p: Load, n: nat)
    requires Sane(p.config)
    ensures Resized(BeforePass(p, n), true) == BeforePass(p, n).(size := BeforePass(p, n + 1).size)
  {
    ResizesToNext(p, SizeBefore(n, p.size, Stepping(p.demand, p.config)));
  }

  predicate Settled(p: Load, n: nat) {
    Sane(p.config) && n >= 2 + Max(0, p.config.maxSize - p.config.minSize)
  }

  lemma SettledSize(p: Load, n: nat)
    requires Settled(p, n)
    ensures BeforePass(p, n + 1).size == BeforePass(p, n).size
  {
    var k := 2 + Max(0, p.config.maxSize - p.config.minSize);
    SizesRest(k, p.size, p.demand, p.config);
    RestIsForEver(k, n, p.size, Stepping(p.demand, p.config));
  }

  lemma SettledIsUnmoved(p: Load, n: nat)
    requires Settled(p, n)
    ensures Resized(BeforePass(p, n), true) == BeforePass(p, n)
  {
    ResizedByPass(p, n);
    SettledSize(p, n);
  }

  // Following its own recommendations, the optimizer has none left after as many passes as the widest
  // range is wide, plus two, and never again while the demand stays.
  lemma {:induction false} PassesBecomeQuiet(loads: seq<Load>, pools: seq<Pool>, n: nat)
    requires |pools| == |loads|
    requires forall i :: 0 <= i < |pools| ==> Settled(loads[i], n) && pools[i] == BeforePass(loads[i], n)
    ensures AllAdvice(pools) == []
  {
    if pools != [] {
      var i := |pools| - 1;
      PassesBecomeQuiet(loads[..i], pools[..i], n);
      SettledIsUnmoved(loads[i], n);
      AdvisedIff(pools[i]);
    }
  }

  // ----- The pass as the code makes it

  method OptimizePool(pool: Pool, scaling: bool) returns (advice: seq<Recommendation>, resized: Pool)
    ensures advice == Advice(pool) && |advice| <= 1
    ensures resized == Resized(pool, scaling)
    ensures advice != [] ==> advice[0].name == pool.name
  {
    advice, resized := [], pool;
    if pool.metrics.None? {
      return;
    }
    var optimalSize := CalculateOptimalPoolSize(pool.metrics.value, pool.config);
    if optimalSize != pool.size {
      advice := [Recommendation(pool.name, pool.size, optimalSize)];
      if scaling {
        resized := pool.(size := optimalSize);
      }
    }
  }

  // The first n pools have been through the pass.
  ghost predicate Passed(now: seq<Pool>, first: seq<Pool>, n: int, scaling: bool) {
    |now| == |first| && forall k :: 0 <= k < |now| ==> now[k] == if k < n then Resized(first[k], scaling) else first[k]
  }

  lemma PassedOneMore(now: seq<Pool>, first: seq<Pool>, n: nat, scaling: bool)
    requires n < |first| && Passed(now, first, n, scaling)
    ensures now[n] == first[n] && Passed(now[n := Resized(first[n], scaling)], first, n + 1, scaling)
  {
  }

  // Pools in dictionary order.  Resizing takes the recommendation as the pool's next size.
  method OptimizePoolSizes(pools: array<Pool>, optimizationEnabled: bool, autoScalingEnabled: bool)
    returns (recommendations: seq<Recommendation>, optimized: seq<string>)
    modifies pools
    ensures recommendations == if optimizationEnabled then AllAdvice(old(pools[..])) else []
    ensures if autoScalingEnabled then NamesOf(optimized, recommendations) else optimized == []
    ensures forall i :: 0 <= i < pools.Length ==>
              pools[i] == Resized(old(pools[i]), optimizationEnabled && autoScalingEnabled)
  {
    recommendations, optimized := [], [];
    if !optimizationEnabled {
      return;
    }
    for i := 0 to pools.Length
      invariant recommendations == AllAdvice(old(pools[..])[..i])
      invariant if autoScalingEnabled then NamesOf(optimized, recommendations) else optimized == []
      invariant Passed(pools[..], old(pools[..]), i, autoScalingEnabled)
    {
      OneMorePool(old(pools[..]), i);
      PassedOneMore(pools[..], old(pools[..]), i, autoScalingEnabled);
      ghost var before := pools[..];
      var advice, resized := OptimizePool(pools[i], autoScalingEnabled);
      pools[i] := resized;
      assert pools[..] == before[i := resized];
      recommendations := recommendations + advice;
      if autoScalingEnabled && advice != [] {
        optimized := optimized + [advice[0].name];
      }
    }
    assert old(pools[..])[..pools.Length] == old(pools[..]);
  }
}
