/** The pre-trade risk engine, and several threads racing between its check and its update. */
module Risk {
  import opened Machine

  const INT64_MAX: int := 0x7FFF_FFFF_FFFF_FFFF

  type int64 = x: int | -0x8000_0000_0000_0000 <= x <= 0x7FFF_FFFF_FFFF_FFFF

  datatype RiskCheckStatus = APPROVED | REJECTED_FAT_FINGER | REJECTED_MAX_ORDER_SIZE | REJECTED_MAX_POSITION

  datatype RiskConfig = RiskConfig(maxOrderSize: u32, maxPosition: int64, maxPriceDeviationPct: real)

  function Abs(x: int): nat {
    if x < 0 then -x else x
  }

  /** The position change of an order: every side but 'B' sells. */
  function Signed(side: char, shares: u32): int {
    if side == 'B' then shares else -(shares as int)
  }

  /** The relative distance of a price from a positive reference price; rounding is not modelled. */
  function Deviation(price: u32, reference: u32): real
    requires reference > 0
  {
    Abs(price - reference) as real / reference as real
  }

  /** The price is too far from the reference; without a reference there is no such check. */
  predicate FatFinger(config: RiskConfig, price: u32, reference: u32) {
    reference > 0 && Deviation(price, reference) > config.maxPriceDeviationPct
  }

  /** The outcome of a check made at the given position. */
  function Check(config: RiskConfig, position: int, side: char, shares: u32, price: u32,
                 reference: u32): RiskCheckStatus
  {
    if shares > config.maxOrderSize then REJECTED_MAX_ORDER_SIZE
    else if FatFinger(config, price, reference) then REJECTED_FAT_FINGER
    else if Abs(position + Signed(side, shares)) > config.maxPosition then REJECTED_MAX_POSITION
    else APPROVED
  }

  /** Approval means all three limits at once, the price one as a band around the reference. */
  lemma ApprovedMeans(config: RiskConfig, position: int, side: char, shares: u32, price: u32, reference: u32)
    ensures Check(config, position, side, shares, price, reference) == APPROVED <==>
            && shares <= config.maxOrderSize
            && (reference > 0 ==>
                  && price as real <= (1.0 + config.maxPriceDeviationPct) * reference as real
                  && price as real >= (1.0 - config.maxPriceDeviationPct) * reference as real)
            && -(config.maxPosition as int) <= (if side == 'B' then position + shares else position - shares)
               <= config.maxPosition
  {
    if reference > 0 {
      var r := reference as real;
      var d := Abs(price - reference) as real;
      var pct := config.maxPriceDeviationPct;
      DivisionBound(d, r, pct);
      assert (1.0 + pct) * r == r + pct * r && (1.0 - pct) * r == r - pct * r;
      assert d == if price >= reference then price as real - r else r - price as real;
    }
  }

  /** Which status each broken limit gives: the order size is looked at first, then the band around a
      positive reference price, then the position that a buy would raise and any other side would lower. */
  lemma StatusMeans(config: RiskConfig, position: int, side: char, shares: u32, price: u32, reference: u32)
    ensures var status := Check(config, position, side, shares, price, reference);
            var inBand := reference == 0
                          || (1.0 - config.maxPriceDeviationPct) * reference as real <= price as real
                             <= (1.0 + config.maxPriceDeviationPct) * reference as real;
            var moved := if side == 'B' then position + shares else position - shares;
            var inLimits := -(config.maxPosition as int) <= moved <= config.maxPosition;
            && (shares > config.maxOrderSize ==> status == REJECTED_MAX_ORDER_SIZE)
            && (shares <= config.maxOrderSize && !inBand ==> status == REJECTED_FAT_FINGER)
            && (shares <= config.maxOrderSize && inBand && !inLimits ==> status == REJECTED_MAX_POSITION)
            && (shares <= config.maxOrderSize && inBand && inLimits ==> status == APPROVED)
  {
    if reference > 0 {
      var r := reference as real;
      var pct := config.maxPriceDeviationPct;
      DivisionBound(Abs(price - reference) as real, r, pct);
      assert (1.0 + pct) * r == r + pct * r && (1.0 - pct) * r == r - pct * r;
    }
  }

  lemma DivisionBound(d: real, r: real, pct: real)
    requires r > 0.0
    ensures d / r > pct <==> d > pct * r
  {
    var x := d / r;
    assert x * r == d;
    if x > pct {
      assert (x - pct) * r > 0.0;
    } else {
      assert (pct - x) * r >= 0.0;
    }
  }

  /** Two's complement addition, as an atomic fetch_add performs it. */
  function Wrap64(x: int): int64 {
    (x + 0x8000_0000_0000_0000) % 0x1_0000_0000_0000_0000 - 0x8000_0000_0000_0000
  }

  /** The sum in 64 bits differs from the sum by a multiple of 2^64. */
  lemma WrapMeans(x: int)
    ensures (x - Wrap64(x)) % 0x1_0000_0000_0000_0000 == 0
    ensures -0x8000_0000_0000_0000 <= Wrap64(x) < 0x8000_0000_0000_0000
  {
  }

  lemma WrapExact(x: int)
    requires Abs(x) <= INT64_MAX
    ensures Wrap64(x) == x
  {
  }

  class PreTradeRiskEngine {
    const config: RiskConfig
    var currentPosition: int64

    constructor (config: RiskConfig)
      ensures this.config == config && currentPosition == 0
    {
      this.config := config;
      currentPosition := 0;
    }

    /** Where the position is looked at, its arithmetic must stay inside 64 bits, as it does within the limits. */
    method CheckOrder(side: char, shares: u32, price: u32, reference: u32) returns (status: RiskCheckStatus)
      requires shares <= config.maxOrderSize && !FatFinger(config, price, reference) ==>
                 -INT64_MAX <= (if side == 'B' then currentPosition + shares else currentPosition - shares) <= INT64_MAX
      ensures status == Check(config, currentPosition, side, shares, price, reference)
      ensures status == APPROVED ==>
                var moved := if side == 'B' then currentPosition + shares else currentPosition - shares;
                -(config.maxPosition as int) <= moved <= config.maxPosition
      ensures status == REJECTED_MAX_POSITION ==>
                var moved := if side == 'B' then currentPosition + shares else currentPosition - shares;
                moved < -(config.maxPosition as int) || moved > config.maxPosition
    {
      if shares > config.maxOrderSize {
        return REJECTED_MAX_ORDER_SIZE;
      }
      if reference > 0 {
        var deviation := Deviation(price, reference);
        if deviation > config.maxPriceDeviationPct {
          return REJECTED_FAT_FINGER;
        }
      }
      var currentPos := currentPosition;
      var newPos: int64 := if side == 'B' then currentPos + shares else currentPos - shares;
      if (if newPos < 0 then -newPos else newPos) > config.maxPosition {
        return REJECTED_MAX_POSITION;
      }
      return APPROVED;
    }

    method UpdatePosition(executedQty: int64)
      modifies this
      ensures currentPosition == Wrap64(old(currentPosition) + executedQty)
    {
      currentPosition := Wrap64(currentPosition + executedQty);
    }
  }
}

/** Several threads, each checking and then updating the shared position. The relaxed load in the check
    and the atomic addition are single steps, interleaved arbitrarily, and a load may be stale. */
module RiskRace {
  import opened Machine
  import opened Risk

  /** `seen` is the place in the position's history of the newest value that the thread has loaded or
      stored; `approved` is the quantity of its approved order that is not yet added, if any. */
  datatype Thread = Thread(seen: nat, approved: Option<int>)

  /** `log` is all values that the position has had, oldest first. */
  datatype State = State(log: seq<int>, threads: seq<Thread>)

  datatype Side = Long | Short

  /** A load names the place in the history of the value that it returns. */
  datatype Action =
    | Checks(thread: nat, load: nat, side: char, shares: u32, price: u32, reference: u32)
    | Updates(thread: nat)

  predicate Enabled(s: State, a: Action) {
    && a.thread < |s.threads| && s.log != []
    && match a
       case Checks(t, load, _, _, _, _) => s.threads[t].approved.None? && s.threads[t].seen <= load < |s.log|
       case Updates(t) => s.threads[t].approved.Some?
  }

  function Last(log: seq<int>): int
    requires log != []
  {
    log[|log| - 1]
  }

  function Step(config: RiskConfig, s: State, a: Action): State
    requires Enabled(s, a)
  {
    match a
    case Checks(t, load, side, shares, price, reference) =>
      var approved := Check(config, s.log[load], side, shares, price, reference) == APPROVED;
      s.(threads := s.threads[t := Thread(load, if approved then Some(Signed(side, shares)) else None)])
    case Updates(t) =>
      State(s.log + [Wrap64(Last(s.log) + s.threads[t].approved.value)], s.threads[t := Thread(|s.log|, None)])
  }

  ghost predicate Reaches(config: RiskConfig, s: State, actions: seq<Action>, t: State)
    decreases |actions|
  {
    if actions == [] then s == t
    else Enabled(s, actions[0]) && Reaches(config, Step(config, s, actions[0]), actions[1..], t)
  }

  /** An idle thread may check any order at any position since the newest one that it has seen, and a
      thread with an approved order may add it. */
  lemma StepsAllowed(s: State, t: nat, load: nat, side: char, shares: u32, price: u32, reference: u32)
    requires t < |s.threads| && s.log != []
    ensures Enabled(s, Checks(t, load, side, shares, price, reference)) <==>
              s.threads[t].approved == None && s.threads[t].seen <= load < |s.log|
    ensures Enabled(s, Updates(t)) <==> s.threads[t].approved != None
  {
  }

  /** What a thread's two steps do: a check that approves leaves the order's signed shares to be added, one
      that does not leaves nothing, and neither moves the position; an addition moves it by just those
      shares. Other threads are as they were. */
  lemma RaceStepMeans(config: RiskConfig, s: State, a: Action)
    requires Enabled(s, a)
    ensures var s' := Step(config, s, a);
            && |s'.threads| == |s.threads|
            && (forall i :: 0 <= i < |s.threads| && i != a.thread ==> s'.threads[i] == s.threads[i])
            && (match a
                case Checks(t, load, side, shares, price, reference) =>
                  var approved := Check(config, s.log[load], side, shares, price, reference) == APPROVED;
                  && s'.log == s.log && s'.threads[t].seen == load
                  && (approved ==>
                        s'.threads[t].approved == Some(if side == 'B' then shares as int else -(shares as int)))
                  && (!approved ==> s'.threads[t].approved == None)
                case Updates(t) =>
                  var sum := s.log[|s.log| - 1] + s.threads[t].approved.value;
                  && s'.threads[t] == Thread(|s.log|, None) && |s'.log| == |s.log| + 1
                  && s'.log[..|s.log|] == s.log && (s'.log[|s.log|] - sum) % 0x1_0000_0000_0000_0000 == 0
                  && (-INT64_MAX <= sum <= INT64_MAX ==> s'.log[|s.log|] == sum))
  {
    if a.Updates? {
      var sum := Last(s.log) + s.threads[a.thread].approved.value;
      WrapMeans(sum);
      if -INT64_MAX <= sum <= INT64_MAX {
        WrapExact(sum);
      }
      hide Wrap64;
    }
  }

  function Start(threads: nat): State {
    State([0], seq(threads, _ => Thread(0, None)))
  }

  // ------------------------------------------------------------------ invariant

  /** A position as seen from one side of the market. */
  function Toward(side: Side, x: int): int {
    if side.Long? then x else -x
  }

  /** The last place in the history within the limit, on one side. */
  function LastWithin(log: seq<int>, limit: int, side: Side): (a: int)
    ensures -1 <= a < |log|
    ensures a >= 0 ==> Toward(side, log[a]) <= limit
    ensures forall j :: a < j < |log| ==> Toward(side, log[j]) > limit
  {
    if log == [] then -1
    else if Toward(side, Last(log)) <= limit then |log| - 1
    else LastWithin(log[..|log| - 1], limit, side)
  }

  lemma LastWithinAppend(log: seq<int>, x: int, limit: int, side: Side)
    ensures LastWithin(log + [x], limit, side)
            == if Toward(side, x) <= limit then |log| else LastWithin(log, limit, side)
  {
    assert (log + [x])[..|log|] == log;
  }

  /** How many threads have seen the history beyond place `a`. */
  function Beyond(threads: seq<Thread>, a: int): (n: nat)
    ensures n <= |threads|
  {
    if threads == [] then 0
    else Beyond(threads[..|threads| - 1], a) + if threads[|threads| - 1].seen > a then 1 else 0
  }

  lemma {:induction false} BeyondUpdate(threads: seq<Thread>, t: nat, thread: Thread, a: int)
    requires t < |threads|
    ensures Beyond(threads[t := thread], a)
            == Beyond(threads, a) - (if threads[t].seen > a then 1 else 0) + if thread.seen > a then 1 else 0
  {
    var last := |threads| - 1;
    var updated := threads[t := thread];
    if t == last {
      assert updated[..last] == threads[..last];
    } else {
      assert updated[..last] == threads[..last][t := thread];
      BeyondUpdate(threads[..last], t, thread, a);
    }
  }

  lemma {:induction false} BeyondNone(threads: seq<Thread>, a: int)
    requires forall i :: 0 <= i < |threads| ==> threads[i].seen <= a
    ensures Beyond(threads, a) == 0
  {
    if threads != [] {
      BeyondNone(threads[..|threads| - 1], a);
    }
  }

  lemma BeyondNotAll(threads: seq<Thread>, i: nat, a: int)
    requires i < |threads| && threads[i].seen <= a
    ensures Beyond(threads, a) <= |threads| - 1
  {
    BeyondUpdate(threads, i, Thread(0, None), a);
    BeyondUpdate(threads, i, Thread(if a < 0 then 0 else a + 1, None), a);
  }

  /** The worst position: the limit, exceeded by every other thread's largest order. */
  function Worst(config: RiskConfig, threads: nat): int
    requires threads > 0
  {
    config.maxPosition + (threads - 1) * config.maxOrderSize
  }

  /** Places seen lie in the history; approved quantities are order-sized, and were within the limit
      at the position that was loaded. */
  ghost predicate ThreadsOk(config: RiskConfig, s: State) {
    forall i :: 0 <= i < |s.threads| ==>
      var thread := s.threads[i];
      && thread.seen < |s.log|
      && (thread.approved.Some? ==>
            && Abs(thread.approved.value) <= config.maxOrderSize
            && Abs(s.log[thread.seen] + thread.approved.value) <= config.maxPosition)
  }

  /** Some thread has seen the history exactly up to place `a`. */
  ghost predicate Stands(threads: seq<Thread>, a: int) {
    exists i :: 0 <= i < |threads| && threads[i].seen == a
  }

  /** How far the position can be when it was `at` where it was last within the limit, and `beyond`
      threads have gone on from there, each with one largest order at most: the last one to stand
      there stayed within the limit by itself. */
  predicate Reachable(config: RiskConfig, at: int, position: int, beyond: nat, stands: bool) {
    || (stands && position <= at + beyond * config.maxOrderSize)
    || (beyond > 0 && position <= config.maxPosition + (beyond - 1) * config.maxOrderSize)
  }

  ghost predicate Bounded(config: RiskConfig, s: State, side: Side)
    requires s.log != []
  {
    var a := LastWithin(s.log, config.maxPosition, side);
    && a >= 0
    && Reachable(config, Toward(side, s.log[a]), Toward(side, Last(s.log)), Beyond(s.threads, a), Stands(s.threads, a))
  }

  ghost predicate Inv(config: RiskConfig, s: State) {
    && s.log != [] && |s.threads| > 0
    && ThreadsOk(config, s) && Bounded(config, s, Long) && Bounded(config, s, Short)
    && forall k :: 0 <= k < |s.log| ==> Abs(s.log[k]) <= Worst(config, |s.threads|)
  }

  lemma TimesSize(m: int, n: int, size: nat)
    requires m <= n
    ensures m * size <= n * size && (m + 1) * size == m * size + size
  {
  }

  lemma BoundedMeans(config: RiskConfig, s: State, side: Side)
    requires s.log != [] && |s.threads| > 0 && Bounded(config, s, side)
    ensures Toward(side, Last(s.log)) <= Worst(config, |s.threads|)
  {
    var a := LastWithin(s.log, config.maxPosition, side);
    var beyond: int := Beyond(s.threads, a);
    if i :| 0 <= i < |s.threads| && s.threads[i].seen == a {
      BeyondNotAll(s.threads, i, a);
      TimesSize(beyond, |s.threads| - 1, config.maxOrderSize);
    }
    TimesSize(beyond - 1, |s.threads| - 1, config.maxOrderSize);
  }

  /** A thread goes on, adding `quantity` to the position or nothing. */
  lemma GoesOn(config: RiskConfig, at: int, position: int, beyond: nat, stands: bool, quantity: int, stands': bool)
    requires Reachable(config, at, position, beyond, stands) && at <= config.maxPosition
    requires quantity <= config.maxOrderSize
    requires stands && !stands' ==> at + quantity <= config.maxPosition
    ensures Reachable(config, at, position + quantity, beyond + 1, stands')
  {
    TimesSize(beyond, beyond, config.maxOrderSize);
    TimesSize(beyond - 1, beyond - 1, config.maxOrderSize);
  }

  lemma GoesBack(config: RiskConfig, at: int, position: int, beyond: nat, stands: bool, quantity: int)
    requires Reachable(config, at, position, beyond, stands) && quantity <= 0
    ensures Reachable(config, at, position + quantity, beyond, stands)
  {
  }

  /** A thread that loads a newer place. */
  lemma LoadKeepsBounded(config: RiskConfig, s: State, t: nat, thread: Thread, side: Side)
    requires s.log != [] && t < |s.threads| && Bounded(config, s, side)
    requires s.threads[t].seen <= thread.seen < |s.log|
    ensures Bounded(config, s.(threads := s.threads[t := thread]), side)
  {
    var a := LastWithin(s.log, config.maxPosition, side);
    var threads' := s.threads[t := thread];
    BeyondUpdate(s.threads, t, thread, a);
    StandsAfter(s.threads, t, thread, a);
    if s.threads[t].seen <= a < thread.seen {
      GoesOn(config, Toward(side, s.log[a]), Toward(side, Last(s.log)), Beyond(s.threads, a), Stands(s.threads, a), 0,
             Stands(threads', a));
    }
  }

  lemma StandsAfter(threads: seq<Thread>, t: nat, thread: Thread, a: int)
    requires t < |threads|
    ensures Stands(threads, a) && threads[t].seen != a ==> Stands(threads[t := thread], a)
    ensures thread.seen == a ==> Stands(threads[t := thread], a)
    ensures threads[t].seen != a && thread.seen != a ==> (Stands(threads, a) <==> Stands(threads[t := thread], a))
  {
    if i :| 0 <= i < |threads| && threads[i].seen == a && i != t {
      assert threads[t := thread][i].seen == a;
    }
    assert threads[t := thread][t] == thread;
  }

  /** The state after an addition whose result fits in 64 bits. */
  function Added(s: State, t: nat): State
    requires s.log != [] && t < |s.threads| && s.threads[t].approved.Some?
  {
    State(s.log + [Last(s.log) + s.threads[t].approved.value], s.threads[t := Thread(|s.log|, None)])
  }

  /** Taking the position within the limit starts afresh. */
  lemma AddBackWithin(config: RiskConfig, s: State, t: nat, side: Side)
    requires s.log != [] && t < |s.threads| && ThreadsOk(config, s) && s.threads[t].approved.Some?
    requires Toward(side, Last(s.log) + s.threads[t].approved.value) <= config.maxPosition
    ensures Bounded(config, Added(s, t), side)
  {
    var p := Last(s.log) + s.threads[t].approved.value;
    var threads' := s.threads[t := Thread(|s.log|, None)];
    LastWithinAppend(s.log, p, config.maxPosition, side);
    BeyondNone(threads', |s.log|);
    assert threads'[t].seen == |s.log|;
  }

  /** What one addition can do on top of a bounded position. */
  lemma AddedQuantity(config: RiskConfig, s: State, t: nat, side: Side)
    requires s.log != [] && t < |s.threads| && ThreadsOk(config, s) && s.threads[t].approved.Some?
    ensures var q := Toward(side, s.threads[t].approved.value);
            var a := LastWithin(s.log, config.maxPosition, side);
            && q <= config.maxOrderSize
            && (s.threads[t].seen > a ==> q < 0)
            && (s.threads[t].seen == a ==> Toward(side, s.log[a]) + q <= config.maxPosition)
  {
  }

  /** What an addition that stays beyond the limit does to the counts. */
  lemma AddedCounts(config: RiskConfig, s: State, t: nat, side: Side)
    requires s.log != [] && t < |s.threads| && ThreadsOk(config, s) && s.threads[t].approved.Some?
    requires Toward(side, Last(s.log) + s.threads[t].approved.value) > config.maxPosition
    ensures var a := LastWithin(s.log, config.maxPosition, side);
            var s' := Added(s, t);
            && LastWithin(s'.log, config.maxPosition, side) == a
            && Toward(side, Last(s'.log)) == Toward(side, Last(s.log)) + Toward(side, s.threads[t].approved.value)
            && Beyond(s'.threads, a) == Beyond(s.threads, a) + (if s.threads[t].seen <= a then 1 else 0)
            && (s.threads[t].seen != a ==> Stands(s'.threads, a) == Stands(s.threads, a))
            && (a >= 0 ==> s'.log[a] == s.log[a])
  {
    var p := Last(s.log) + s.threads[t].approved.value;
    var thread := Thread(|s.log|, None);
    var a := LastWithin(s.log, config.maxPosition, side);
    LastWithinAppend(s.log, p, config.maxPosition, side);
    hide LastWithin, Beyond;
    BeyondUpdate(s.threads, t, thread, a);
    StandsAfter(s.threads, t, thread, a);
  }

  /** Taking it further beyond the limit, or less far. */
  lemma AddBeyond(config: RiskConfig, s: State, t: nat, side: Side)
    requires s.log != [] && t < |s.threads| && ThreadsOk(config, s) && Bounded(config, s, side)
    requires s.threads[t].approved.Some?
    requires Toward(side, Last(s.log) + s.threads[t].approved.value) > config.maxPosition
    ensures Bounded(config, Added(s, t), side)
  {
    hide ThreadsOk, LastWithin, Beyond, Toward, Stands, Reachable;
    var a := LastWithin(s.log, config.maxPosition, side);
    var q := Toward(side, s.threads[t].approved.value);
    AddedCounts(config, s, t, side);
    AddedQuantity(config, s, t, side);
    var at, position := Toward(side, s.log[a]), Toward(side, Last(s.log));
    if s.threads[t].seen <= a {
      GoesOn(config, at, position, Beyond(s.threads, a), Stands(s.threads, a), q, Stands(Added(s, t).threads, a));
    } else {
      GoesBack(config, at, position, Beyond(s.threads, a), Stands(s.threads, a), q);
    }
  }

  lemma AddKeepsSide(config: RiskConfig, s: State, t: nat, side: Side)
    requires s.log != [] && t < |s.threads| && ThreadsOk(config, s) && Bounded(config, s, side)
    requires s.threads[t].approved.Some?
    ensures Bounded(config, Added(s, t), side)
    ensures Toward(side, Last(s.log) + s.threads[t].approved.value) <= Worst(config, |s.threads|)
  {
    hide Bounded, ThreadsOk, Toward;
    if Toward(side, Last(s.log) + s.threads[t].approved.value) <= config.maxPosition {
      AddBackWithin(config, s, t, side);
    } else {
      AddBeyond(config, s, t, side);
    }
    BoundedMeans(config, Added(s, t), side);
  }

  lemma AddKeepsThreads(config: RiskConfig, s: State, t: nat)
    requires s.log != [] && t < |s.threads| && ThreadsOk(config, s) && s.threads[t].approved.Some?
    ensures ThreadsOk(config, Added(s, t))
  {
  }

  lemma AddKeepsInv(config: RiskConfig, s: State, t: nat)
    requires Inv(config, s) && t < |s.threads| && s.threads[t].approved.Some?
    ensures Inv(config, Added(s, t))
    ensures Abs(Last(s.log) + s.threads[t].approved.value) <= Worst(config, |s.threads|)
  {
    AddKeepsSide(config, s, t, Long);
    AddKeepsSide(config, s, t, Short);
    AddKeepsThreads(config, s, t);
    hide Bounded, ThreadsOk, Worst;
  }

  lemma CheckKeepsInv(config: RiskConfig, s: State, a: Action)
    requires Inv(config, s) && Enabled(s, a) && a.Checks?
    ensures Inv(config, Step(config, s, a))
  {
    var thread := Step(config, s, a).threads[a.thread];
    LoadKeepsBounded(config, s, a.thread, thread, Long);
    LoadKeepsBounded(config, s, a.thread, thread, Short);
    hide Bounded, LastWithin, Beyond;
  }

  /** Position arithmetic cannot wrap round: the worst position and one order more fit in 64 bits. */
  predicate FitsIn64(config: RiskConfig, threads: nat) {
    config.maxPosition + threads * config.maxOrderSize <= INT64_MAX
  }

  lemma StepKeepsInv(config: RiskConfig, s: State, a: Action)
    requires Inv(config, s) && Enabled(s, a) && FitsIn64(config, |s.threads|)
    ensures Inv(config, Step(config, s, a)) && |Step(config, s, a).threads| == |s.threads|
  {
    hide Inv, Check, Wrap64, Abs;
    match a
    case Checks(_, _, _, _, _, _) =>
      CheckKeepsInv(config, s, a);
    case Updates(t) =>
      AddKeepsInv(config, s, t);
      TimesSize(|s.threads| - 1, |s.threads|, config.maxOrderSize);
      WrapExact(Last(s.log) + s.threads[t].approved.value);
  }

  lemma {:induction false} ReachableInv(config: RiskConfig, s: State, actions: seq<Action>, t: State)
    requires Inv(config, s) && Reaches(config, s, actions, t) && FitsIn64(config, |s.threads|)
    ensures Inv(config, t) && |t.threads| == |s.threads|
    decreases |actions|
  {
    hide Inv, Step, Enabled;
    if actions != [] {
      StepKeepsInv(config, s, actions[0]);
      ReachableInv(config, Step(config, s, actions[0]), actions[1..], t);
    }
  }

  lemma StartInv(config: RiskConfig, threads: nat)
    requires threads > 0 && config.maxPosition >= 0
    ensures Inv(config, Start(threads))
  {
    var s := Start(threads);
    BeyondNone(s.threads, 0);
    assert s.threads[0].seen == 0;
    TimesSize(0, threads - 1, config.maxOrderSize);
    TimesSize(0, 0, config.maxOrderSize);
  }

  /** In every interleaving of any number of threads, stale loads included, every position that is
      ever stored, and so every one that is ever loaded, is within the limit plus one largest order for
      each thread but one, in absolute value; a single thread stays within the limit. */
  lemma PositionBounded(config: RiskConfig, threads: nat, actions: seq<Action>, t: State)
    requires threads > 0 && config.maxPosition >= 0 && FitsIn64(config, threads)
    requires Reaches(config, Start(threads), actions, t)
    ensures forall k :: 0 <= k < |t.log| ==>
              var worst := config.maxPosition + (threads - 1) * config.maxOrderSize; -worst <= t.log[k] <= worst
  {
    StartInv(config, threads);
    hide Reaches, Bounded, ThreadsOk;
    ReachableInv(config, Start(threads), actions, t);
  }

  // ------------------------------------------------------------------ the bound is reached

  lemma {:induction false} Append(config: RiskConfig, s: State, actions: seq<Action>, t: State, a: Action)
    requires Reaches(config, s, actions, t) && Enabled(t, a)
    ensures Reaches(config, s, actions + [a], Step(config, t, a))
    decreases |actions|
  {
    hide Step, Enabled;
    if actions == [] {
      assert actions + [a] == [a] && [a][1..] == [];
    } else {
      assert (actions + [a])[1..] == actions[1..] + [a];
      Append(config, Step(config, s, actions[0]), actions[1..], t, a);
    }
  }

  /** The state in which thread `t` has checked one order at the newest position. */
  function AfterCheck(s: State, t: nat, quantity: int): State
    requires t < |s.threads| && s.log != []
  {
    s.(threads := s.threads[t := Thread(|s.log| - 1, Some(quantity))])
  }

  /** A thread that looks at the newest position and finds the order within the limits. */
  lemma ChecksNow(config: RiskConfig, s0: State, before: seq<Action>, s: State, t: nat, side: char, shares: u32)
    returns (actions: seq<Action>)
    requires Reaches(config, s0, before, s) && t < |s.threads| && s.log != []
    requires s.threads[t].approved.None? && s.threads[t].seen < |s.log|
    requires shares <= config.maxOrderSize && Abs(Last(s.log) + Signed(side, shares)) <= config.maxPosition
    ensures Reaches(config, s0, actions, AfterCheck(s, t, Signed(side, shares)))
  {
    var a := Checks(t, |s.log| - 1, side, shares, 0, 0);
    assert Step(config, s, a) == AfterCheck(s, t, Signed(side, shares));
    Append(config, s0, before, s, a);
    actions := before + [a];
  }

  lemma UpdatesNow(config: RiskConfig, s0: State, before: seq<Action>, s: State, t: nat) returns (actions: seq<Action>)
    requires Reaches(config, s0, before, s) && t < |s.threads| && s.log != [] && s.threads[t].approved.Some?
    requires Abs(Last(s.log) + s.threads[t].approved.value) <= INT64_MAX
    ensures Reaches(config, s0, actions, Added(s, t))
  {
    WrapExact(Last(s.log) + s.threads[t].approved.value);
    Append(config, s0, before, s, Updates(t));
    actions := before + [Updates(t)];
  }

  function Distance(x: int, y: int): nat {
    Abs(y - x)
  }

  /** One thread takes the position share by share to any other one within the limit. */
  lemma {:induction false} Walk(config: RiskConfig, s0: State, before: seq<Action>, s: State, target: int)
    returns (actions: seq<Action>, t: State)
    requires Reaches(config, s0, before, s) && s.log != [] && |s.threads| > 0
    requires s.threads[0] == Thread(|s.log| - 1, None)
    requires 1 <= config.maxOrderSize && Abs(Last(s.log)) <= config.maxPosition && Abs(target) <= config.maxPosition
    ensures Reaches(config, s0, actions, t) && |t.log| >= |s.log| && Last(t.log) == target
    ensures t.threads == s.threads[0 := Thread(|t.log| - 1, None)]
    decreases Distance(Last(s.log), target)
  {
    hide Reaches;
    actions, t := before, s;
    if Last(s.log) != target {
      var side := if Last(s.log) < target then 'B' else 'S';
      actions := ChecksNow(config, s0, before, s, 0, side, 1);
      var s1 := AfterCheck(s, 0, Signed(side, 1));
      actions := UpdatesNow(config, s0, actions, s1, 0);
      actions, t := Walk(config, s0, actions, Added(s1, 0), target);
    }
  }

  /** Threads 1 to n - 1 hold an approved largest buy, and the threads from n on none; all have seen
      no more than there is. */
  ghost predicate Waiting(config: RiskConfig, s: State, n: nat) {
    && s.log != []
    && forall i :: 1 <= i < |s.threads| ==>
         && s.threads[i].seen < |s.log|
         && s.threads[i].approved == if i < n then Some(config.maxOrderSize as int) else None
  }

  /** All threads but the first check the largest buy at the same position. */
  lemma CheckOthers(config: RiskConfig, s0: State, before: seq<Action>, s: State)
    returns (actions: seq<Action>, t: State)
    requires Reaches(config, s0, before, s) && |s.threads| > 0 && Waiting(config, s, 1)
    requires Abs(Last(s.log) + config.maxOrderSize) <= config.maxPosition
    ensures Reaches(config, s0, actions, t) && Waiting(config, t, |t.threads|)
    ensures t.log == s.log && |t.threads| == |s.threads| && t.threads[0] == s.threads[0]
  {
    hide Reaches;
    actions, t := before, s;
    for n := 1 to |s.threads|
      invariant Reaches(config, s0, actions, t) && Waiting(config, t, n)
      invariant t.log == s.log && |t.threads| == |s.threads| && t.threads[0] == s.threads[0]
    {
      actions := ChecksNow(config, s0, actions, t, n, 'B', config.maxOrderSize);
      t := AfterCheck(t, n, config.maxOrderSize);
    }
  }

  /** All threads but the first add what they hold. */
  lemma {:induction false} UpdateOthers(config: RiskConfig, s0: State, before: seq<Action>, s: State, n: nat)
    returns (actions: seq<Action>, t: State)
    requires Reaches(config, s0, before, s) && 1 <= n <= |s.threads| && Waiting(config, s, n)
    requires 0 <= Last(s.log) && Last(s.log) + (n - 1) * config.maxOrderSize <= INT64_MAX
    ensures Reaches(config, s0, actions, t) && t.log != []
    ensures Last(t.log) == Last(s.log) + (n - 1) * config.maxOrderSize
    decreases n
  {
    hide Reaches;
    actions, t := before, s;
    if n > 1 {
      TimesSize(n - 2, n - 1, config.maxOrderSize);
      TimesSize(0, n - 2, config.maxOrderSize);
      actions := UpdatesNow(config, s0, before, s, n - 1);
      actions, t := UpdateOthers(config, s0, actions, Added(s, n - 1), n - 1);
    }
  }

  function Other(side: Side): Side {
    if side.Long? then Short else Long
  }

  function Order(side: Side): char {
    if side.Long? then 'B' else 'S'
  }

  /** No thread has an order under way, and none has seen more than there is. */
  ghost predicate AllIdle(s: State) {
    s.log != [] && forall i :: 0 <= i < |s.threads| ==> s.threads[i].approved.None? && s.threads[i].seen < |s.log|
  }

  /** Two threads check the same order at the same position before either adds it. */
  lemma BothAdd(config: RiskConfig, s0: State, before: seq<Action>, s: State, side: Side, size: u32)
    returns (actions: seq<Action>, t: State)
    requires Reaches(config, s0, before, s) && AllIdle(s) && |s.threads| >= 2
    requires size <= config.maxOrderSize && Toward(side, Last(s.log)) == config.maxPosition - size
    requires 0 <= config.maxPosition && config.maxPosition + size <= INT64_MAX
    ensures Reaches(config, s0, actions, t) && AllIdle(t) && |t.threads| == |s.threads|
    ensures Toward(side, Last(t.log)) == config.maxPosition + size
  {
    hide Reaches;
    var q := Signed(Order(side), size);
    assert q == Toward(side, size);
    actions := ChecksNow(config, s0, before, s, 0, Order(side), size);
    var s1 := AfterCheck(s, 0, q);
    actions := ChecksNow(config, s0, actions, s1, 1, Order(side), size);
    var s2 := AfterCheck(s1, 1, q);
    actions := UpdatesNow(config, s0, actions, s2, 0);
    var s3 := Added(s2, 0);
    actions := UpdatesNow(config, s0, actions, s3, 1);
    t := Added(s3, 1);
  }

  /** Two threads get to where an order of the given size on the given side is just allowed. That is within
      the limit, or beyond it on the other side, where both add an order that is smaller by the width
      of the limits. */
  lemma {:induction false} Approach(config: RiskConfig, threads: nat, side: Side, size: u32)
    returns (actions: seq<Action>, t: State)
    requires threads > 0 && FitsIn64(config, threads)
    requires 1 <= size <= config.maxOrderSize && 1 <= config.maxPosition
    requires threads >= 2 || size <= 2 * config.maxPosition
    ensures Reaches(config, Start(threads), actions, t) && AllIdle(t) && |t.threads| == threads
    ensures Toward(side, Last(t.log)) == config.maxPosition - size
    decreases size
  {
    var start := Start(threads);
    assert Reaches(config, start, [], start);
    TimesSize(1, threads, config.maxOrderSize);
    hide Reaches;
    if size <= 2 * config.maxPosition {
      actions, t := Walk(config, start, [], start, Toward(side, config.maxPosition - size));
    } else {
      var less := size - 2 * config.maxPosition;
      actions, t := Approach(config, threads, Other(side), less);
      actions, t := BothAdd(config, start, actions, t, Other(side), less);
    }
  }

  /** All threads hold an approved largest buy, checked where it was just allowed, and add it. */
  lemma AllAdd(config: RiskConfig, s0: State, before: seq<Action>, s: State) returns (actions: seq<Action>, t: State)
    requires Reaches(config, s0, before, s) && AllIdle(s) && |s.threads| > 0 && FitsIn64(config, |s.threads|)
    requires Last(s.log) == config.maxPosition - config.maxOrderSize && 0 <= config.maxPosition
    ensures Reaches(config, s0, actions, t) && t.log != []
    ensures Last(t.log) == config.maxPosition + (|s.threads| - 1) * config.maxOrderSize
  {
    var size := config.maxOrderSize;
    TimesSize(1, |s.threads|, size);
    TimesSize(|s.threads| - 1, |s.threads|, size);
    hide Reaches;
    actions, t := CheckOthers(config, s0, before, s);
    actions := ChecksNow(config, s0, actions, t, 0, 'B', size);
    t := AfterCheck(t, 0, size);
    actions := UpdatesNow(config, s0, actions, t, 0);
    t := Added(t, 0);
    actions, t := UpdateOthers(config, s0, actions, t, |s.threads|);
  }

  /** The bound cannot be lowered: two threads get the position to where the largest buy is just allowed, all
      threads check it there before any adds it, and then all add. */
  lemma BoundIsReached(config: RiskConfig, threads: nat) returns (actions: seq<Action>, t: State)
    requires threads > 0 && FitsIn64(config, threads)
    requires 1 <= config.maxOrderSize && 1 <= config.maxPosition
    ensures Reaches(config, Start(threads), actions, t) && t.log != []
    ensures Last(t.log) == config.maxPosition + (threads - 1) * config.maxOrderSize
  {
    var start := Start(threads);
    assert Reaches(config, start, [], start);
    hide Reaches;
    if threads == 1 {
      actions, t := Walk(config, start, [], start, config.maxPosition);
    } else {
      actions, t := Approach(config, threads, Long, config.maxOrderSize);
      actions, t := AllAdd(config, start, actions, t);
    }
  }

  // ------------------------------------------------------------------ when the race does no harm

  /** Nothing but orders of no shares gets through. */
  ghost predicate Still(s: State) {
    && s.log != []
    && (forall k :: 0 <= k < |s.log| ==> s.log[k] == 0)
    && (forall i :: 0 <= i < |s.threads| && s.threads[i].approved.Some? ==> s.threads[i].approved.value == 0)
  }

  lemma {:induction false} StaysStill(config: RiskConfig, s: State, actions: seq<Action>, t: State)
    requires config.maxOrderSize == 0 || config.maxPosition == 0
    requires Still(s) && Reaches(config, s, actions, t)
    ensures Still(t)
    decreases |actions|
  {
    if actions != [] {
      assert Still(Step(config, s, actions[0]));
      StaysStill(config, Step(config, s, actions[0]), actions[1..], t);
    }
  }

  /** Some interleaving of the threads stores the position `p`. */
  ghost predicate CanStore(config: RiskConfig, threads: nat, p: int) {
    exists actions, t :: Reaches(config, Start(threads), actions, t) && p in t.log
  }

  lemma StoresWithin(config: RiskConfig, threads: nat, p: int)
    requires threads > 0 && config.maxPosition >= 0 && FitsIn64(config, threads) && CanStore(config, threads, p)
    ensures Abs(p) <= config.maxPosition + (threads - 1) * config.maxOrderSize
    ensures config.maxOrderSize == 0 || config.maxPosition == 0 ==> p == 0
  {
    var actions, t :| Reaches(config, Start(threads), actions, t) && p in t.log;
    hide Reaches;
    PositionBounded(config, threads, actions, t);
    if config.maxOrderSize == 0 || config.maxPosition == 0 {
      StaysStill(config, Start(threads), actions, t);
    }
  }

  lemma StoresBound(config: RiskConfig, threads: nat)
    requires threads > 0 && FitsIn64(config, threads)
    requires 1 <= config.maxOrderSize && 1 <= config.maxPosition
    ensures CanStore(config, threads, config.maxPosition + (threads - 1) * config.maxOrderSize)
  {
    hide Reaches;
    var actions, t := BoundIsReached(config, threads);
  }

  lemma StoresZero(config: RiskConfig, threads: nat)
    ensures CanStore(config, threads, 0)
  {
    var start := Start(threads);
    assert Reaches(config, start, [], start) && 0 in start.log;
  }

  /** The race breaks the position limit exactly when it can: the limit holds in every interleaving if
      and only if there is a single thread, or no order of a share is ever allowed. */
  lemma LimitHoldsWhen(config: RiskConfig, threads: nat)
    requires threads > 0 && config.maxPosition >= 0 && FitsIn64(config, threads)
    ensures (forall p :: CanStore(config, threads, p) ==> -config.maxPosition <= p <= config.maxPosition) <==>
              threads == 1 || config.maxOrderSize == 0 || config.maxPosition == 0
  {
    hide CanStore;
    forall p | CanStore(config, threads, p)
      ensures Abs(p) <= config.maxPosition + (threads - 1) * config.maxOrderSize
      ensures config.maxOrderSize == 0 || config.maxPosition == 0 ==> p == 0
    {
      StoresWithin(config, threads, p);
    }
    if threads > 1 && config.maxOrderSize > 0 && config.maxPosition > 0 {
      StoresBound(config, threads);
      TimesSize(1, threads - 1, config.maxOrderSize);
    }
  }

  /** The worst position is stored in some interleaving if and only if orders of a share are allowed at
      all, or it is 0. */
  lemma BoundIsReachedWhen(config: RiskConfig, threads: nat)
    requires threads > 0 && config.maxPosition >= 0 && FitsIn64(config, threads)
    ensures CanStore(config, threads, Worst(config, threads)) <==>
              (config.maxOrderSize > 0 && config.maxPosition > 0) || Worst(config, threads) == 0
  {
    hide CanStore;
    StoresZero(config, threads);
    if CanStore(config, threads, Worst(config, threads)) {
      StoresWithin(config, threads, Worst(config, threads));
    }
    if config.maxOrderSize > 0 && config.maxPosition > 0 {
      StoresBound(config, threads);
    }
  }
}
