/**
  The gas gate of gas_checker.py: `wait_gas` blocks until the cached gas
  price, refreshed at most once a minute, is at most MAX_GWEI. The module
  globals `last_check` and `last_gas` become the fields of `GasOracle`; the
  lock only serialises callers, so one caller's run is modelled. Time is an
  integer clock in milliseconds; prices are held in wei, so the comparison
  with a whole number of gwei is exact.
 */
module GasGate {
  import opened Options

  datatype Price = Finite(wei: nat) | Infinite

  /** What the RPC price query gives: a price in wei, or an exception. */
  datatype FetchResult = Ok(wei: nat) | Fail

  /**
    One turn of the `while True` loop: the time that passes before the clock
    is read, the price query's result if this turn fetches, and how long the
    query takes.
   */
  datatype Step = Step(delay: nat, fetch: FetchResult, took: nat)

  datatype Cache = Cache(lastCheck: Option<int>, lastGas: Option<Price>, clock: int)

  /**
    The end of a call: whether it returned (`passed`; false when the steps ran
    out while it still waits), the cache and clock after it, the steps used,
    the price each turn compared with MAX_GWEI, the times of the fetches it
    made, and the turns it spent on `continue`.
   */
  datatype GasResult = GasResult(passed: bool, cache: Cache, used: nat, seen: seq<Price>,
                                 fetchTimes: seq<int>, spins: nat)

  const Window: int := 60000
  const RetrySleep: nat := 60000

  /** `get_gas`: a failed query counts as an infinite price. */
  function GetGas(r: FetchResult): Price
  {
    match r
    case Ok(w) => Finite(w)
    case Fail => Infinite
  }

  /** MAX_GWEI expressed in wei. */
  function Ceiling(maxGwei: int): int
  {
    maxGwei * 1000000000
  }

  /** `gas <= MAX_GWEI`, with `float("inf")` above every bound. */
  predicate Accepts(p: Price, maxGwei: int)
  {
    p.Finite? && p.wei <= Ceiling(maxGwei)
  }

  /** `last_check` and `last_gas` are set together. */
  predicate CacheValid(c: Cache)
  {
    c.lastCheck.Some? == c.lastGas.Some?
  }

  /** The cached sample is trusted at time `now`. */
  predicate Fresh(c: Cache, now: int)
  {
    c.lastCheck.Some? && now - c.lastCheck.value < Window
  }

  /** The loop of `wait_gas` from step `i` on. */
  function Loop(c: Cache, maxGwei: int, steps: seq<Step>, i: nat): GasResult
    requires i <= |steps|
    requires CacheValid(c)
    decreases |steps| - i
  {
    if i == |steps| then GasResult(false, c, i, [], [], 0)
    else
      var now := c.clock + steps[i].delay;
      if Fresh(c, now) then
        if Accepts(c.lastGas.value, maxGwei) then GasResult(true, c.(clock := now), i + 1, [c.lastGas.value], [], 0)
        else
          var r := Loop(c.(clock := now), maxGwei, steps, i + 1);
          r.(seen := [c.lastGas.value] + r.seen, spins := r.spins + 1)
      else
        var t := now + steps[i].took;
        var gas := GetGas(steps[i].fetch);
        var fetched := Cache(Some(t), Some(gas), t);
        if Accepts(gas, maxGwei) then GasResult(true, fetched, i + 1, [gas], [t], 0)
        else
          var r := Loop(fetched.(clock := t + RetrySleep), maxGwei, steps, i + 1);
          r.(seen := [gas] + r.seen, fetchTimes := [t] + r.fetchTimes)
  }

  /** `wait_gas`: with gating off it returns at once. */
  function WaitGasSpec(c: Cache, checkGwei: bool, maxGwei: int, steps: seq<Step>): GasResult
    requires CacheValid(c)
  {
    if !checkGwei then GasResult(true, c, 0, [], [], 0) else Loop(c, maxGwei, steps, 0)
  }

  /** With CHECK_GWEI off nothing is fetched and the cache is left as it was. */
  lemma DisabledIsNoOp(c: Cache, maxGwei: int, steps: seq<Step>)
    requires CacheValid(c)
    ensures WaitGasSpec(c, false, maxGwei, steps) == GasResult(true, c, 0, [], [], 0)
  {
  }

  /**
    A call returns only when the price it holds is acceptable; otherwise it
    used every step. The cache stays well formed and the clock moves forward.
   */
  lemma {:induction false} ReturnsOnlyWhenAccepted(c: Cache, maxGwei: int, steps: seq<Step>, i: nat)
    requires i <= |steps|
    requires CacheValid(c)
    ensures var r := Loop(c, maxGwei, steps, i);
      CacheValid(r.cache) && r.cache.clock >= c.clock
      && (r.passed ==> r.cache.lastGas.Some? && Accepts(r.cache.lastGas.value, maxGwei))
      && (!r.passed ==> r.used == |steps|)
    decreases |steps| - i
  {
    if i < |steps| {
      var now := c.clock + steps[i].delay;
      if Fresh(c, now) {
        if !Accepts(c.lastGas.value, maxGwei) {
          ReturnsOnlyWhenAccepted(c.(clock := now), maxGwei, steps, i + 1);
        }
      } else {
        var t := now + steps[i].took;
        var gas := GetGas(steps[i].fetch);
        if !Accepts(gas, maxGwei) {
          ReturnsOnlyWhenAccepted(Cache(Some(t), Some(gas), t + RetrySleep), maxGwei, steps, i + 1);
        }
      }
    }
  }

  /** The price a turn compares with MAX_GWEI: the cached one while it is fresh, otherwise the one it fetches. */
  function Seen(c: Cache, step: Step): Price
    requires CacheValid(c)
  {
    if Fresh(c, c.clock + step.delay) then c.lastGas.value else GetGas(step.fetch)
  }

  /**
    The call returns at the first turn whose price is acceptable, and at no
    other: `seen` holds one price per turn used, the first is what turn `i`
    sees, every one before the last was refused, and the last was accepted
    exactly when the call returned.
   */
  lemma {:induction false} TurnsUntilAccepted(c: Cache, maxGwei: int, steps: seq<Step>, i: nat)
    requires i <= |steps|
    requires CacheValid(c)
    ensures var r := Loop(c, maxGwei, steps, i);
      |r.seen| == r.used - i
      && (i < |steps| ==> |r.seen| > 0 && r.seen[0] == Seen(c, steps[i]))
      && (forall k :: 0 <= k < |r.seen| - 1 ==> !Accepts(r.seen[k], maxGwei))
      && (r.passed <==> |r.seen| > 0 && Accepts(r.seen[|r.seen| - 1], maxGwei))
      && (|r.seen| > 0 ==> r.cache.lastGas == Some(r.seen[|r.seen| - 1]))
    decreases |steps| - i
  {
    if i < |steps| {
      var now := c.clock + steps[i].delay;
      if Fresh(c, now) {
        if !Accepts(c.lastGas.value, maxGwei) {
          TurnsUntilAccepted(c.(clock := now), maxGwei, steps, i + 1);
          ReturnsOnlyWhenAccepted(c.(clock := now), maxGwei, steps, i + 1);
        }
      } else {
        var t := now + steps[i].took;
        var gas := GetGas(steps[i].fetch);
        if !Accepts(gas, maxGwei) {
          TurnsUntilAccepted(Cache(Some(t), Some(gas), t + RetrySleep), maxGwei, steps, i + 1);
          ReturnsOnlyWhenAccepted(Cache(Some(t), Some(gas), t + RetrySleep), maxGwei, steps, i + 1);
        }
      }
    }
  }

  /** A turn that sees an acceptable price returns on that very turn. */
  lemma ReturnsAtAcceptedTurn(c: Cache, maxGwei: int, steps: seq<Step>, i: nat)
    requires i < |steps|
    requires CacheValid(c)
    requires Accepts(Seen(c, steps[i]), maxGwei)
    ensures Loop(c, maxGwei, steps, i).passed && Loop(c, maxGwei, steps, i).used == i + 1
  {
  }

  /** The inclusive bound holds for a cached sample too: a fresh cached price of exactly MAX_GWEI returns at once. */
  lemma CachedBoundaryAccepted(c: Cache, maxGwei: nat, steps: seq<Step>)
    requires CacheValid(c)
    requires |steps| > 0 && Fresh(c, c.clock + steps[0].delay)
    requires c.lastGas == Some(Finite(Ceiling(maxGwei)))
    ensures Loop(c, maxGwei, steps, 0).passed && Loop(c, maxGwei, steps, 0).used == 1
    ensures Loop(c, maxGwei, steps, 0).cache.lastCheck == c.lastCheck
  {
  }

  /** The threshold is inclusive: a fresh price of exactly MAX_GWEI lets the caller through. */
  lemma BoundaryAccepted(c: Cache, maxGwei: nat, steps: seq<Step>)
    requires CacheValid(c)
    requires |steps| > 0 && !Fresh(c, c.clock + steps[0].delay)
    requires steps[0].fetch == Ok(Ceiling(maxGwei))
    ensures Loop(c, maxGwei, steps, 0).passed && Loop(c, maxGwei, steps, 0).used == 1
  {
  }

  /**
    One wei above MAX_GWEI is refused: that turn does not return, it stores
    the sample with its fetch time and then sleeps 60 seconds.
   */
  lemma AboveBoundaryRejected(c: Cache, maxGwei: nat, step: Step)
    requires CacheValid(c)
    requires !Fresh(c, c.clock + step.delay)
    requires step.fetch == Ok(Ceiling(maxGwei) + 1)
    ensures var t := c.clock + step.delay + step.took;
      Loop(c, maxGwei, [step], 0)
      == GasResult(false, Cache(Some(t), Some(Finite(Ceiling(maxGwei) + 1)), t + RetrySleep), 1, [Finite(Ceiling(maxGwei) + 1)], [t], 0)
  {
  }

  /** No cached price, or one that is not acceptable. */
  predicate Blocking(c: Cache, maxGwei: int)
  {
    c.lastGas.None? || !Accepts(c.lastGas.value, maxGwei)
  }

  /** Failed fetches never let a caller through: while every query fails, the call keeps waiting. */
  lemma {:induction false} FailuresNeverPass(c: Cache, maxGwei: int, steps: seq<Step>, i: nat)
    requires i <= |steps|
    requires CacheValid(c) && Blocking(c, maxGwei)
    requires forall k :: i <= k < |steps| ==> steps[k].fetch == Fail
    ensures !Loop(c, maxGwei, steps, i).passed
    decreases |steps| - i
  {
    if i < |steps| {
      var now := c.clock + steps[i].delay;
      if Fresh(c, now) {
        FailuresNeverPass(c.(clock := now), maxGwei, steps, i + 1);
      } else {
        var t := now + steps[i].took;
        FailuresNeverPass(Cache(Some(t), Some(Infinite), t + RetrySleep), maxGwei, steps, i + 1);
      }
    }
  }

  /** Successive times in `ts` lie at least one window apart. */
  predicate Spaced(ts: seq<int>)
  {
    forall k :: 0 <= k < |ts| - 1 ==> ts[k] + Window <= ts[k + 1]
  }

  /**
    At most one fetch per 60-second window: the first fetch comes a full
    window after the cached sample, later ones a window apart, and the last
    fetch time is what `last_check` holds afterwards.
   */
  lemma {:induction false} FetchesSpaced(c: Cache, maxGwei: int, steps: seq<Step>, i: nat)
    requires i <= |steps|
    requires CacheValid(c)
    ensures var r := Loop(c, maxGwei, steps, i);
      Spaced(r.fetchTimes)
      && (|r.fetchTimes| > 0 && c.lastCheck.Some? ==> c.lastCheck.value + Window <= r.fetchTimes[0])
      && (|r.fetchTimes| > 0 ==> r.fetchTimes[0] >= c.clock)
      && (|r.fetchTimes| > 0 ==> r.cache.lastCheck == Some(r.fetchTimes[|r.fetchTimes| - 1]))
      && (|r.fetchTimes| == 0 ==> r.cache.lastCheck == c.lastCheck && r.cache.lastGas == c.lastGas)
    decreases |steps| - i
  {
    if i < |steps| {
      var now := c.clock + steps[i].delay;
      if Fresh(c, now) {
        if !Accepts(c.lastGas.value, maxGwei) {
          FetchesSpaced(c.(clock := now), maxGwei, steps, i + 1);
          var r := Loop(c.(clock := now), maxGwei, steps, i + 1);
          assert Loop(c, maxGwei, steps, i).fetchTimes == r.fetchTimes;
          assert Loop(c, maxGwei, steps, i).cache == r.cache;
        }
      } else {
        var t := now + steps[i].took;
        var gas := GetGas(steps[i].fetch);
        if !Accepts(gas, maxGwei) {
          var c' := Cache(Some(t), Some(gas), t + RetrySleep);
          FetchesSpaced(c', maxGwei, steps, i + 1);
          var r := Loop(c', maxGwei, steps, i + 1);
          assert Loop(c, maxGwei, steps, i).fetchTimes == [t] + r.fetchTimes;
          assert Loop(c, maxGwei, steps, i).cache == r.cache;
          assert ([t] + r.fetchTimes)[1..] == r.fetchTimes;
        }
      }
    }
  }

  /** A state in which the `continue` branch cannot be taken: no sample, an acceptable one, or a stale one. */
  predicate Settled(c: Cache, maxGwei: int)
  {
    c.lastCheck.None? || (c.lastGas.Some? && Accepts(c.lastGas.value, maxGwei))
    || c.clock - c.lastCheck.value >= Window
  }

  /**
    From a settled state the busy `continue` branch is never taken: a
    rejected fetch is followed by the 60-second sleep, after which the sample
    is stale and the next turn fetches again.
   */
  lemma {:induction false} SettledNeverSpins(c: Cache, maxGwei: int, steps: seq<Step>, i: nat)
    requires i <= |steps|
    requires CacheValid(c) && Settled(c, maxGwei)
    ensures Loop(c, maxGwei, steps, i).spins == 0
    decreases |steps| - i
  {
    if i < |steps| {
      var now := c.clock + steps[i].delay;
      if !Fresh(c, now) {
        var t := now + steps[i].took;
        var gas := GetGas(steps[i].fetch);
        if !Accepts(gas, maxGwei) {
          SettledNeverSpins(Cache(Some(t), Some(gas), t + RetrySleep), maxGwei, steps, i + 1);
        }
      }
    }
  }

  /** A call that returns leaves the cache settled, so the next sequential caller does not spin either. */
  lemma ReturnLeavesSettled(c: Cache, checkGwei: bool, maxGwei: int, steps: seq<Step>)
    requires CacheValid(c) && Settled(c, maxGwei)
    ensures var r := WaitGasSpec(c, checkGwei, maxGwei, steps);
      r.spins == 0 && (r.passed ==> Settled(r.cache, maxGwei))
  {
    if checkGwei {
      SettledNeverSpins(c, maxGwei, steps, 0);
      ReturnsOnlyWhenAccepted(c, maxGwei, steps, 0);
    }
  }

  class GasOracle {
    var lastCheck: Option<int>
    var lastGas: Option<Price>
    var clock: int

    function State(): Cache
      reads this
    {
      Cache(lastCheck, lastGas, clock)
    }

    ghost predicate Valid()
      reads this
    {
      CacheValid(State())
    }

    /** The module as imported: no sample yet. */
    constructor (now: int)
      ensures Valid() && lastCheck == None && lastGas == None && clock == now
      ensures forall m :: Settled(State(), m)
    {
      lastCheck, lastGas, clock := None, None, now;
    }

    /** `wait_gas`, for one caller holding the lock. */
    method WaitGas(checkGwei: bool, maxGwei: int, steps: seq<Step>) returns (passed: bool)
      requires Valid()
      modifies this
      ensures Valid()
      ensures passed == WaitGasSpec(old(State()), checkGwei, maxGwei, steps).passed
      ensures State() == WaitGasSpec(old(State()), checkGwei, maxGwei, steps).cache
    {
      if !checkGwei {
        return true;
      }
      ghost var goal := Loop(State(), maxGwei, steps, 0);
      var i := 0;
      while i < |steps|
        invariant i <= |steps| && Valid()
        invariant Loop(State(), maxGwei, steps, i).passed == goal.passed
        invariant Loop(State(), maxGwei, steps, i).cache == goal.cache
        decreases |steps| - i
      {
        clock := clock + steps[i].delay;
        if lastCheck.Some? && clock - lastCheck.value < Window {
          if Accepts(lastGas.value, maxGwei) {
            return true;
          }
          i := i + 1;
          continue;
        }
        var gas := GetGas(steps[i].fetch);
        clock := clock + steps[i].took;
        lastCheck, lastGas := Some(clock), Some(gas);
        if Accepts(gas, maxGwei) {
          return true;
        }
        clock := clock + RetrySleep;
        i := i + 1;
      }
      return false;
    }
  }
}
