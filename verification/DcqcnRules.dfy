/** How far one notification, one recovery step and one estimate update move a flow, in numbers. */
module DcqcnRules {
  import opened Common
  import opened Bits
  import opened Dcqcn

  // ---------------------------------------------------------------------------
  // Rate cuts
  // ---------------------------------------------------------------------------

  /** A truncated product by its bounds. */
  lemma ScaledIsFloor(rate: nat, factor: real, r: int)
    ensures r == Scaled(rate, factor) <==> r as real <= rate as real * factor < r as real + 1.0
  {
  }

  /**
   * The size of one cut. The new rate is current * (2 - alpha) / 2 rounded down, or the minimum
   * where that is lower. No cut takes more than half.
   */
  lemma CutSize(cfg: Config, f: Flow, time: nat)
    requires FlowOk(cfg, f)
    ensures var g := CnpReceived(cfg, f, time); var r, scaled := g.current as real, f.current as real * (2.0 - f.alpha);
            && (g.current > cfg.minRate ==> 2.0 * r <= scaled < 2.0 * (r + 1.0))
            && (g.current == cfg.minRate ==> scaled < 2.0 * (r + 1.0))
            && Max(cfg.minRate, f.current / 2) <= g.current <= f.current
            && g == Flow(g.current, g.current, f.alpha, time, f.rateTime, f.alphaTime, true)
  {
    var c, factor := f.current as real, 1.0 - f.alpha / 2.0;
    CnpKeepsOk(cfg, f, time);
    HalfProduct(c, f.alpha);
    ScaledIsFloor(f.current, factor, Scaled(f.current, factor));
    HalfLeft(f.current, factor);
    hide Scaled;
  }

  lemma HalfProduct(c: real, alpha: real)
    ensures c * (2.0 - alpha) == 2.0 * (c * (1.0 - alpha / 2.0))
  {
  }

  lemma HalfLeft(c: nat, factor: real)
    requires factor >= 0.5
    ensures Scaled(c, factor) >= c / 2
  {
    var product := c as real * factor;
    assert product >= c as real * 0.5 by { GainProduct(c as real, factor - 0.5); }
    assert c == 2 * (c / 2) + c % 2;
    assert (c / 2) as real <= product;
  }

  /** The estimate of a new flow is 1: its first notification halves the initial rate. */
  lemma FirstCut(cfg: Config, now: nat, time: nat)
    requires cfg.minRate <= cfg.initial
    ensures CnpReceived(cfg, NewFlow(cfg, now), time).current == Max(cfg.minRate, cfg.initial / 2)
  {
    FullCut(cfg, NewFlow(cfg, now), time);
  }

  lemma FullCut(cfg: Config, f: Flow, time: nat)
    requires f.alpha == 1.0
    ensures CnpReceived(cfg, f, time).current == Max(cfg.minRate, f.current / 2)
  {
    assert f.current == 2 * (f.current / 2) + f.current % 2;
    ScaledIsFloor(f.current, 0.5, f.current / 2);
    hide Scaled;
  }

  /** A flow after notifications at these times, with nothing in between. */
  function Notified(cfg: Config, f: Flow, times: seq<nat>): Flow {
    if times == [] then f else CnpReceived(cfg, Notified(cfg, f, times[..|times| - 1]), times[|times| - 1])
  }

  /** While the estimate is 1, n notifications divide the rate by 2^n, down to the minimum. */
  lemma {:induction false} RepeatedCuts(cfg: Config, f: Flow, times: seq<nat>)
    requires f.alpha == 1.0 && cfg.minRate <= f.current
    ensures var g := Notified(cfg, f, times);
            g.alpha == 1.0 && g.current == Max(cfg.minRate, f.current / Pow2(|times|))
    decreases |times|
  {
    hide CnpReceived;
    var n := |times|;
    if n > 0 {
      RepeatedCuts(cfg, f, times[..n - 1]);
      var g := Notified(cfg, f, times[..n - 1]);
      FullCut(cfg, g, times[n - 1]);
      CnpAlpha(cfg, g, times[n - 1]);
      DivDiv(f.current, Pow2(n - 1), 2);
      OneMoreHalf(cfg.minRate, f.current, Pow2(n - 1), Pow2(n), g.current);
    }
  }

  lemma OneMoreHalf(m: nat, c: nat, d: nat, twice: nat, x: nat)
    requires d > 0 && twice == d * 2 && x == Max(m, c / d) && (c / d) / 2 == c / twice
    ensures Max(m, x / 2) == Max(m, c / twice)
  {
  }

  // ---------------------------------------------------------------------------
  // Recovery steps
  // ---------------------------------------------------------------------------

  /**
   * One recovery step: the target rises by the increment, initial * gain rounded down, but not
   * past the initial rate; the distance left to it is half of what it was, rounded down; and
   * recovery ends exactly when the initial rate is reached.
   */
  lemma RecoveryStep(cfg: Config, f: Flow)
    requires FlowOk(cfg, f) && GainOk(cfg) && f.inRecovery
    ensures var g, inc := RecoverRate(cfg, f), RateIncrement(cfg);
            && inc as real <= cfg.initial as real * cfg.gain < inc as real + 1.0
            && g.target == Min(cfg.initial, f.target + inc)
            && g.target - g.current == (g.target - f.current) / 2
            && (g.inRecovery <==> g.current < cfg.initial)
            && g == Flow(g.current, g.target, f.alpha, f.lastCnp, f.rateTime, f.alphaTime, g.inRecovery)
  {
    ScaledIsFloor(cfg.initial, cfg.gain, Scaled(cfg.initial, cfg.gain));
    hide Scaled;
  }

  // ---------------------------------------------------------------------------
  // Time steps
  // ---------------------------------------------------------------------------

  predicate RateDue(cfg: Config, f: Flow, now: nat) { f.inRecovery && Since(now, f.rateTime) >= cfg.ratePeriod }

  /** What one time step does: each timer acts when its period is over, and only then. */
  lemma TimeStep(cfg: Config, f: Flow, now: nat)
    requires FlowOk(cfg, f) && 0.0 <= cfg.gain <= 1.0
    ensures var g := AdvanceFlow(cfg, f, now);
            && g.lastCnp == f.lastCnp
            && (if RateDue(cfg, f, now)
                then var r := RecoverRate(cfg, f); g.current == r.current && g.target == r.target && g.inRecovery == r.inRecovery && g.rateTime == now
                else g.current == f.current && g.target == f.target && g.inRecovery == f.inRecovery && g.rateTime == f.rateTime)
            && (if AlphaDue(cfg, f, now)
                then g.alphaTime == now
                     && (if RecentCnp(cfg, f, now) then 1.0 - g.alpha == (1.0 - cfg.gain) * (1.0 - f.alpha)
                         else g.alpha == (1.0 - cfg.gain) * f.alpha)
                else g.alpha == f.alpha && g.alphaTime == f.alphaTime)
  {
    AdvanceAlpha(cfg, f, now);
    if AlphaDue(cfg, f, now) {
      BlendExact(cfg.gain, f.alpha, RecentCnp(cfg, f, now));
    }
    hide Blend, Clamp, RateIncrement;
  }

  lemma BlendExact(gain: real, alpha: real, hit: bool)
    requires 0.0 <= gain <= 1.0 && 0.0 <= alpha <= 1.0
    ensures var a := Clamp(Blend(gain, alpha, hit));
            if hit then 1.0 - a == (1.0 - gain) * (1.0 - alpha) else a == (1.0 - gain) * alpha
  {
    GainProduct(gain, 1.0 - alpha);
    GainProduct(1.0 - gain, alpha);
    GainProduct(1.0 - gain, 1.0 - alpha);
    GainProduct(gain, alpha);
    assert Blend(gain, alpha, true) == alpha + gain * (1.0 - alpha);
    assert Blend(gain, alpha, false) == (1.0 - gain) * alpha;
    assert 1.0 - Blend(gain, alpha, true) == (1.0 - gain) * (1.0 - alpha);
    assert alpha - gain * alpha == (1.0 - gain) * alpha;
  }

  function Power(x: real, n: nat): real { if n == 0 then 1.0 else x * Power(x, n - 1) }

  /** Step times at which the estimate is due each time and no notification is recent. */
  predicate Quiet(cfg: Config, f: Flow, times: seq<nat>) {
    && (forall i :: 0 <= i < |times| ==> f.lastCnp + cfg.alphaPeriod <= times[i] && (i == 0 ==> f.alphaTime + cfg.alphaPeriod <= times[0]))
    && forall i :: 0 < i < |times| ==> times[i - 1] + cfg.alphaPeriod <= times[i]
  }

  function Advanced(cfg: Config, f: Flow, times: seq<nat>): Flow
    requires GainOk(cfg)
  {
    if times == [] then f else AdvanceFlow(cfg, Advanced(cfg, f, times[..|times| - 1]), times[|times| - 1])
  }

  /** Without notifications the estimate decays geometrically: after n updates it is alpha * (1 - gain)^n. */
  lemma {:induction false} AlphaDecays(cfg: Config, f: Flow, times: seq<nat>)
    requires FlowOk(cfg, f) && 0.0 <= cfg.gain <= 1.0 && Quiet(cfg, f, times)
    ensures var g := Advanced(cfg, f, times);
            && FlowOk(cfg, g) && g.alpha == Power(1.0 - cfg.gain, |times|) * f.alpha && g.lastCnp == f.lastCnp
            && g.alphaTime == if times == [] then f.alphaTime else times[|times| - 1]
    decreases |times|
  {
    hide AdvanceFlow, FlowOk;
    var n := |times|;
    if n > 0 {
      var before := Advanced(cfg, f, times[..n - 1]);
      AlphaDecays(cfg, f, times[..n - 1]);
      AdvanceKeepsOk(cfg, before, times[n - 1]);
      TimeStep(cfg, before, times[n - 1]);
      Associate(1.0 - cfg.gain, Power(1.0 - cfg.gain, n - 1), f.alpha);
    }
  }

  lemma Associate(x: real, y: real, z: real)
    ensures x * (y * z) == x * y * z
  {
  }
}
