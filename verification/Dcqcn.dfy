/** DCQCN congestion control: rate decrease on notification, timed recovery, and the alpha estimate. */
module Dcqcn {
  import opened Common
  import Bits

  datatype Config = Config(initial: nat, minRate: nat, gain: real, ratePeriod: nat, alphaPeriod: nat, enabled: bool)

  datatype Flow = Flow(current: nat, target: nat, alpha: real, lastCnp: nat, rateTime: nat, alphaTime: nat, inRecovery: bool)

  /** A gain that can be turned into an unsigned rate increment. */
  predicate GainOk(cfg: Config) { cfg.gain >= 0.0 }

  function NewFlow(cfg: Config, now: nat): Flow { Flow(cfg.initial, cfg.initial, 1.0, 0, now, now, false) }

  /** A rate times a factor, truncated. */
  function Scaled(rate: nat, factor: real): int { (rate as real * factor).Floor }

  lemma ScaledBounds(rate: nat, factor: real)
    ensures factor >= 0.0 ==> Scaled(rate, factor) >= 0
    ensures factor <= 1.0 ==> Scaled(rate, factor) <= rate
  {
    var c := rate as real;
    if factor >= 0.0 {
      assert c * factor >= 0.0;
    }
    if factor <= 1.0 {
      assert c * (1.0 - factor) >= 0.0;
      assert c * factor == c - c * (1.0 - factor);
    }
  }

  /** current * (1 - alpha / 2), truncated, but not below the minimum; recovery starts from there. */
  function DecreaseRate(cfg: Config, f: Flow): Flow {
    var rate := Max(cfg.minRate, Scaled(f.current, 1.0 - f.alpha / 2.0));
    f.(current := rate, target := rate)
  }

  function RateIncrement(cfg: Config): nat
    requires GainOk(cfg)
  {
    assert Scaled(cfg.initial, cfg.gain) >= 0 by { ScaledBounds(cfg.initial, cfg.gain); }
    Scaled(cfg.initial, cfg.gain)
  }

  /** Raise the target additively, then move halfway towards it, rounding up. */
  function RecoverRate(cfg: Config, f: Flow): Flow
    requires GainOk(cfg)
  {
    if !f.inRecovery then f else
    var target := Min(cfg.initial, f.target + RateIncrement(cfg));
    var rate := (f.current + target + 1) / 2;
    if rate >= cfg.initial then f.(target := target, current := cfg.initial, inRecovery := false)
    else f.(target := target, current := rate)
  }

  function Clamp(x: real): real { if x < 0.0 then 0.0 else if x > 1.0 then 1.0 else x }

  /** The moving average of "was there a notification". */
  function Blend(gain: real, alpha: real, cnpReceived: bool): real {
    (1.0 - gain) * alpha + gain * (if cnpReceived then 1.0 else 0.0)
  }

  function UpdateAlpha(cfg: Config, f: Flow, cnpReceived: bool): Flow {
    f.(alpha := Clamp(Blend(cfg.gain, f.alpha, cnpReceived)))
  }

  /** Unsigned time difference. */
  function Since(now: nat, t: nat): int { if now >= t then now - t else now - t + TWO_64 }

  function CnpReceived(cfg: Config, f: Flow, time: nat): Flow { DecreaseRate(cfg, f).(lastCnp := time, inRecovery := true) }

  /** Both timers of one flow at a new time. */
  function AdvanceFlow(cfg: Config, f: Flow, now: nat): Flow
    requires GainOk(cfg)
  {
    var f1 := if f.inRecovery && Since(now, f.rateTime) >= cfg.ratePeriod then RecoverRate(cfg, f).(rateTime := now) else f;
    if Since(now, f1.alphaTime) >= cfg.alphaPeriod
    then UpdateAlpha(cfg, f1, Since(now, f1.lastCnp) < cfg.alphaPeriod).(alphaTime := now) else f1
  }

  /** The rates are ordered, alpha is a fraction, and a flow not in recovery runs at full rate. */
  predicate FlowOk(cfg: Config, f: Flow) {
    && cfg.minRate <= f.current <= f.target <= cfg.initial
    && 0.0 <= f.alpha <= 1.0
    && (!f.inRecovery ==> f.current == cfg.initial)
  }

  class CongestionControlManager {
    const cfg: Config
    var flows: map<nat, Flow>
    var now: nat

    constructor (cfg: Config)
      ensures this.cfg == cfg && flows == map[] && now == 0
    {
      this.cfg, flows, now := cfg, map[], 0;
    }

    ghost function FlowOf(qp: nat): Flow
      reads this
    {
      if qp in flows then flows[qp] else NewFlow(cfg, now)
    }

    /** Every flow the manager keeps is in order. */
    ghost predicate Valid()
      reads this
    {
      GainOk(cfg) && cfg.minRate <= cfg.initial && forall qp <- flows :: FlowOk(cfg, flows[qp])
    }

    method HandleCnp(qp: nat, time: nat)
      requires Valid()
      modifies this`flows
      ensures Valid()
      ensures flows == if cfg.enabled then old(flows)[qp := CnpReceived(cfg, old(FlowOf(qp)), time)] else old(flows)
    {
      if !cfg.enabled {
        return;
      }
      var f := if qp in flows then flows[qp] else NewFlow(cfg, now);
      NewFlowOk(cfg, now);
      CnpKeepsOk(cfg, f, time);
      flows := flows[qp := CnpReceived(cfg, f, time)];
    }

    method GetCurrentRate(qp: nat) returns (rate: nat)
      requires Valid()
      ensures rate == FlowOf(qp).current && cfg.minRate <= rate <= cfg.initial
    {
      rate := if qp in flows then flows[qp].current else cfg.initial;
    }

    /** Moves the clock and runs both timers of every flow. */
    method AdvanceTime(elapsed: nat)
      requires Valid()
      modifies this
      ensures Valid()
      ensures now == old(now) + elapsed && flows.Keys == old(flows).Keys
      ensures forall qp <- flows :: flows[qp] == if cfg.enabled then AdvanceFlow(cfg, old(flows)[qp], now) else old(flows)[qp]
    {
      now := now + elapsed;
      if !cfg.enabled {
        return;
      }
      hide AdvanceFlow;
      hide FlowOk;
      var todo := flows.Keys;
      while todo != {}
        invariant Valid() && todo <= flows.Keys == old(flows).Keys && now == old(now) + elapsed
        invariant forall qp <- flows :: flows[qp] == if qp in todo then old(flows)[qp] else AdvanceFlow(cfg, old(flows)[qp], now)
        decreases todo
      {
        var qp :| qp in todo;
        AdvanceKeepsOk(cfg, flows[qp], now);
        flows := flows[qp := AdvanceFlow(cfg, flows[qp], now)];
        todo := todo - {qp};
      }
    }
  }

  // ---------------------------------------------------------------------------
  // Reachable states
  // ---------------------------------------------------------------------------

  lemma NewFlowOk(cfg: Config, now: nat)
    ensures FlowOk(cfg, NewFlow(cfg, now)) <==> cfg.minRate <= cfg.initial
  {
  }

  lemma CnpKeepsOk(cfg: Config, f: Flow, time: nat)
    requires FlowOk(cfg, f)
    ensures FlowOk(cfg, CnpReceived(cfg, f, time))
    ensures CnpReceived(cfg, f, time).current <= f.current
  {
    ScaledBounds(f.current, 1.0 - f.alpha / 2.0);
    hide Scaled;
  }

  lemma RecoverKeepsOk(cfg: Config, f: Flow)
    requires FlowOk(cfg, f) && GainOk(cfg)
    ensures FlowOk(cfg, RecoverRate(cfg, f))
    ensures f.current <= RecoverRate(cfg, f).current
  {
    hide RateIncrement;
  }

  lemma AdvanceKeepsOk(cfg: Config, f: Flow, now: nat)
    requires FlowOk(cfg, f) && GainOk(cfg)
    ensures FlowOk(cfg, AdvanceFlow(cfg, f, now))
  {
    RecoverKeepsOk(cfg, f);
    hide RecoverRate, Blend;
  }

  datatype Event = Cnp(time: nat) | Advance(now: nat)

  function Step(cfg: Config, f: Flow, e: Event): Flow
    requires GainOk(cfg)
  {
    match e
    case Cnp(time) => CnpReceived(cfg, f, time)
    case Advance(now) => AdvanceFlow(cfg, f, now)
  }

  function Run(cfg: Config, f: Flow, events: seq<Event>): Flow
    requires GainOk(cfg)
  {
    if events == [] then f else Step(cfg, Run(cfg, f, events[..|events| - 1]), events[|events| - 1])
  }

  /** min <= current <= target <= initial and 0 <= alpha <= 1 in every reachable state, exactly for a sane configuration. */
  lemma {:induction false} RatesStayOrdered(cfg: Config, start: nat, events: seq<Event>)
    requires GainOk(cfg)
    ensures cfg.minRate <= cfg.initial ==> FlowOk(cfg, Run(cfg, NewFlow(cfg, start), events))
    ensures cfg.minRate > cfg.initial ==> !FlowOk(cfg, Run(cfg, NewFlow(cfg, start), []))
    decreases |events|
  {
    hide AdvanceFlow;
    hide CnpReceived;
    if events != [] {
      var n := |events| - 1;
      RatesStayOrdered(cfg, start, events[..n]);
      var f := Run(cfg, NewFlow(cfg, start), events[..n]);
      if cfg.minRate <= cfg.initial {
        match events[n] {
          case Cnp(time) => CnpKeepsOk(cfg, f, time);
          case Advance(now) => AdvanceKeepsOk(cfg, f, now);
        }
      }
    }
  }

  // ---------------------------------------------------------------------------
  // The congestion estimate
  // ---------------------------------------------------------------------------

  predicate AlphaDue(cfg: Config, f: Flow, now: nat) { Since(now, f.alphaTime) >= cfg.alphaPeriod }

  /** The last notification counts as recent. */
  predicate RecentCnp(cfg: Config, f: Flow, now: nat) { Since(now, f.lastCnp) < cfg.alphaPeriod }

  lemma BlendMoves(gain: real, alpha: real, hit: bool)
    requires gain >= 0.0 && 0.0 <= alpha <= 1.0
    ensures hit ==> Blend(gain, alpha, hit) >= alpha && (Blend(gain, alpha, hit) > alpha <==> gain > 0.0 && alpha < 1.0)
    ensures !hit ==> Blend(gain, alpha, hit) <= alpha
  {
    assert Blend(gain, alpha, true) == alpha + gain * (1.0 - alpha);
    assert Blend(gain, alpha, false) == alpha - gain * alpha;
    GainProduct(gain, 1.0 - alpha);
    GainProduct(gain, alpha);
  }

  lemma GainProduct(x: real, y: real)
    requires x >= 0.0 && y >= 0.0
    ensures x * y >= 0.0 && (x * y > 0.0 <==> x > 0.0 && y > 0.0)
  {
  }

  lemma AdvanceAlpha(cfg: Config, f: Flow, now: nat)
    requires GainOk(cfg)
    ensures AdvanceFlow(cfg, f, now).lastCnp == f.lastCnp
    ensures AdvanceFlow(cfg, f, now).alpha ==
              if AlphaDue(cfg, f, now) then Clamp(Blend(cfg.gain, f.alpha, RecentCnp(cfg, f, now))) else f.alpha
  {
    hide RateIncrement, Blend, Clamp;
  }

  /** A time step raises the estimate exactly when it is due, the last notification is recent, and there is room to rise. */
  lemma AlphaRisesIff(cfg: Config, f: Flow, now: nat)
    requires FlowOk(cfg, f) && GainOk(cfg)
    ensures AdvanceFlow(cfg, f, now).alpha > f.alpha
            <==> AlphaDue(cfg, f, now) && RecentCnp(cfg, f, now) && cfg.gain > 0.0 && f.alpha < 1.0
  {
    AdvanceAlpha(cfg, f, now);
    BlendMoves(cfg.gain, f.alpha, RecentCnp(cfg, f, now));
    hide Blend, AdvanceFlow, AlphaDue, RecentCnp;
  }

  /** As the engine drives a flow: every notification carries time zero, and the clock has passed one alpha period. */
  predicate EngineDriven(cfg: Config, events: seq<Event>) {
    forall i :: 0 <= i < |events| ==> if events[i].Cnp? then events[i].time == 0 else events[i].now >= cfg.alphaPeriod
  }

  /**
   * The engine reports every notification as if it came at time zero. Past the first alpha
   * period none of them counts as recent, so the congestion estimate never rises again, however
   * many notifications arrive.
   */
  lemma {:induction false} EngineNeverRaisesAlpha(cfg: Config, f: Flow, events: seq<Event>)
    requires FlowOk(cfg, f) && GainOk(cfg) && f.lastCnp == 0 && EngineDriven(cfg, events)
    ensures var r := Run(cfg, f, events); FlowOk(cfg, r) && r.lastCnp == 0 && r.alpha <= f.alpha
    decreases |events|
  {
    hide AdvanceFlow, CnpReceived, FlowOk;
    if events != [] {
      var n := |events| - 1;
      EngineNeverRaisesAlpha(cfg, f, events[..n]);
      var g := Run(cfg, f, events[..n]);
      match events[n] {
        case Cnp(time) =>
          CnpKeepsOk(cfg, g, time);
          CnpAlpha(cfg, g, time);
        case Advance(now) =>
          AdvanceKeepsOk(cfg, g, now);
          AlphaRisesIff(cfg, g, now);
          AdvanceAlpha(cfg, g, now);
      }
    }
  }

  lemma CnpAlpha(cfg: Config, f: Flow, time: nat)
    ensures CnpReceived(cfg, f, time).alpha == f.alpha && CnpReceived(cfg, f, time).lastCnp == time
  {
    hide Scaled;
  }

  // ---------------------------------------------------------------------------
  // Recovery
  // ---------------------------------------------------------------------------

  /** n recovery steps without a notification in between. */
  function Recovered(cfg: Config, f: Flow, n: nat): Flow
    requires GainOk(cfg)
  {
    if n == 0 then f else RecoverRate(cfg, Recovered(cfg, f, n - 1))
  }

  lemma {:induction false} RecoveredOk(cfg: Config, f: Flow, n: nat)
    requires FlowOk(cfg, f) && GainOk(cfg)
    ensures FlowOk(cfg, Recovered(cfg, f, n)) && f.current <= Recovered(cfg, f, n).current
  {
    hide RecoverRate;
    if n > 0 {
      RecoveredOk(cfg, f, n - 1);
      RecoverKeepsOk(cfg, Recovered(cfg, f, n - 1));
    }
  }

  /** Additive phase: the target climbs by the increment until it reaches the initial rate. */
  lemma {:induction false} TargetClimbs(cfg: Config, f: Flow, n: nat)
    requires FlowOk(cfg, f) && GainOk(cfg)
    ensures var r := Recovered(cfg, f, n);
            r.inRecovery ==> r.target == Min(cfg.initial, f.target + n * RateIncrement(cfg))
  {
    if n > 0 {
      TargetClimbs(cfg, f, n - 1);
      assert n * RateIncrement(cfg) == (n - 1) * RateIncrement(cfg) + RateIncrement(cfg);
      hide RateIncrement;
    }
  }

  /** Halving phase: with the target at the initial rate, each step at least halves the gap. */
  lemma {:induction false} GapHalves(cfg: Config, f: Flow, b: nat, n: nat)
    requires FlowOk(cfg, f) && GainOk(cfg)
    requires f.inRecovery ==> f.target == cfg.initial
    requires cfg.initial - f.current < Bits.Pow2(b) && n >= b
    ensures var r := Recovered(cfg, f, n);
            r.current == cfg.initial && (n > 0 ==> !r.inRecovery)
    decreases n
  {
    if n > 0 {
      RecoveredShift(cfg, f, n);
      RecoverKeepsOk(cfg, f);
      GapHalves(cfg, RecoverRate(cfg, f), if b == 0 then 0 else b - 1, n - 1);
    }
  }

  lemma {:induction false} RecoveredShift(cfg: Config, f: Flow, n: nat)
    requires GainOk(cfg) && n > 0
    ensures Recovered(cfg, f, n) == Recovered(cfg, RecoverRate(cfg, f), n - 1)
  {
    hide RecoverRate;
    if n > 1 {
      RecoveredShift(cfg, f, n - 1);
    }
  }

  lemma {:induction false} RecoveredAdd(cfg: Config, f: Flow, m: nat, n: nat)
    requires GainOk(cfg)
    ensures Recovered(cfg, f, m + n) == Recovered(cfg, Recovered(cfg, f, m), n)
    decreases n
  {
    hide RecoverRate;
    if n > 0 {
      RecoveredAdd(cfg, f, m, n - 1);
    }
  }

  /**
   * Recovery reaches exactly the initial rate within k + b steps, where k increments close
   * the target's gap and 2^b exceeds the rate's gap; and it stays there.
   */
  lemma RecoveryReachesInitial(cfg: Config, f: Flow, k: nat, b: nat, n: nat)
    requires FlowOk(cfg, f) && GainOk(cfg)
    requires f.target + k * RateIncrement(cfg) >= cfg.initial && cfg.initial - f.current < Bits.Pow2(b) && n >= k + b
    ensures var r := Recovered(cfg, f, n);
            r.current == cfg.initial && (n > k ==> !r.inRecovery)
  {
    hide RateIncrement;
    hide RecoverRate;
    var m := Recovered(cfg, f, k);
    RecoveredOk(cfg, f, k);
    TargetClimbs(cfg, f, k);
    GapHalves(cfg, m, b, n - k);
    RecoveredAdd(cfg, f, k, n - k);
  }

  // ---------------------------------------------------------------------------
  // The same over time
  // ---------------------------------------------------------------------------

  /** A flow through time steps at the given times, with no notification among them. */
  function Undisturbed(cfg: Config, f: Flow, times: seq<nat>): Flow
    requires GainOk(cfg)
  {
    if times == [] then f else AdvanceFlow(cfg, Undisturbed(cfg, f, times[..|times| - 1]), times[|times| - 1])
  }

  /** Each time is at least one rate period after the one before, the first after the flow's own. */
  predicate PeriodsApart(cfg: Config, since: nat, times: seq<nat>) {
    times == [] ||
    var n := |times| - 1;
    PeriodsApart(cfg, since, times[..n]) && times[n] >= (if n == 0 then since else times[n - 1]) + cfg.ratePeriod
  }

  predicate SameRates(a: Flow, b: Flow) { a.current == b.current && a.target == b.target && a.inRecovery == b.inRecovery }

  /** A time step a period later is one recovery step on the rates. */
  lemma StepRecovers(cfg: Config, f: Flow, g: Flow, now: nat)
    requires GainOk(cfg) && SameRates(f, g) && now >= f.rateTime + cfg.ratePeriod
    ensures SameRates(AdvanceFlow(cfg, f, now), RecoverRate(cfg, g)) && AdvanceFlow(cfg, f, now).rateTime <= now
  {
    hide RateIncrement, Blend;
  }

  /** Times a period apart: the rates are those after as many recovery steps. */
  lemma {:induction false} TimedIsRecovered(cfg: Config, f: Flow, times: seq<nat>)
    requires GainOk(cfg) && PeriodsApart(cfg, f.rateTime, times)
    ensures SameRates(Undisturbed(cfg, f, times), Recovered(cfg, f, |times|))
    ensures Undisturbed(cfg, f, times).rateTime <= if times == [] then f.rateTime else times[|times| - 1]
    decreases |times|
  {
    hide AdvanceFlow, RecoverRate, SameRates;
    if times == [] {
      assert SameRates(f, f) by { RatesReflexive(f); }
    } else {
      var n := |times| - 1;
      TimedIsRecovered(cfg, f, times[..n]);
      StepRecovers(cfg, Undisturbed(cfg, f, times[..n]), Recovered(cfg, f, n), times[n]);
    }
  }

  lemma RatesReflexive(f: Flow)
    ensures SameRates(f, f)
  {
  }

  /**
   * Left undisturbed, a flow is back at exactly the initial rate after k + b time steps at
   * least one rate period apart, and leaves recovery there.
   */
  lemma RecoversInTime(cfg: Config, f: Flow, times: seq<nat>, k: nat, b: nat)
    requires FlowOk(cfg, f) && GainOk(cfg) && PeriodsApart(cfg, f.rateTime, times)
    requires f.target + k * RateIncrement(cfg) >= cfg.initial && cfg.initial - f.current < Bits.Pow2(b) && |times| >= k + b
    ensures var r := Undisturbed(cfg, f, times);
            r.current == cfg.initial && (|times| > k ==> !r.inRecovery)
  {
    hide RateIncrement, RecoverRate, AdvanceFlow, Recovered, Undisturbed;
    TimedIsRecovered(cfg, f, times);
    RecoveryReachesInitial(cfg, f, k, b, |times|);
  }

  lemma {:induction false} Pow2Exceeds(x: nat)
    ensures x < Bits.Pow2(x)
  {
    if x > 0 {
      Pow2Exceeds(x - 1);
    }
  }

  /** With a zero increment the target never moves. */
  lemma {:induction false} StuckBelowTarget(cfg: Config, f: Flow, n: nat)
    requires FlowOk(cfg, f) && GainOk(cfg) && f.inRecovery && RateIncrement(cfg) == 0 && f.target < cfg.initial
    ensures var r := Recovered(cfg, f, n);
            FlowOk(cfg, r) && r.inRecovery && r.target == f.target && r.current < cfg.initial
  {
    if n > 0 {
      StuckBelowTarget(cfg, f, n - 1);
      hide RateIncrement;
    }
  }

  /** A flow in recovery gets back to the initial rate exactly when the increment is at least one or its target is already there. */
  lemma RecoversIffIncrement(cfg: Config, f: Flow)
    requires FlowOk(cfg, f) && GainOk(cfg) && f.inRecovery
    ensures (exists n: nat :: Recovered(cfg, f, n).current == cfg.initial) <==> (RateIncrement(cfg) >= 1 || f.target == cfg.initial)
  {
    hide RecoverRate;
    if RateIncrement(cfg) >= 1 || f.target == cfg.initial {
      var k := if f.target == cfg.initial then 0 else cfg.initial - f.target;
      assert f.target + k * RateIncrement(cfg) >= cfg.initial by {
        if k > 0 {
          Bits.MulAtLeast(RateIncrement(cfg), k);
        }
      }
      var b := cfg.initial - f.current;
      Pow2Exceeds(b);
      hide RateIncrement;
      RecoveryReachesInitial(cfg, f, k, b, k + b);
      assert Recovered(cfg, f, k + b).current == cfg.initial;
    } else {
      hide RateIncrement;
      forall n: nat ensures Recovered(cfg, f, n).current != cfg.initial {
        StuckBelowTarget(cfg, f, n);
      }
    }
  }
}
