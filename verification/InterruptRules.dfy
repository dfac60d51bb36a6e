/** When interrupts fire: thresholds, timers and the adaptive threshold, read off the state before. */
module InterruptRules {
  import opened Common
  import opened Interrupts

  predicate Live(s: State, v: nat) { v < |s.table| && s.table[v].enabled && !s.table[v].masked }

  /** The vector a queue's completions go to. */
  function Target(s: State, queue: nat): nat { if queue < |s.mapping| then s.mapping[queue] else s.defaultVector }

  /** The threshold in force: the adapted one, else the queue's own, else the common one. */
  function InForce(s: State, queue: nat): nat {
    var v := Target(s, queue);
    if s.adaptive.enabled && v in s.tuning then s.tuning[v].threshold
    else if queue in s.perQueue then s.perQueue[queue].packetThreshold
    else s.coalesce.packetThreshold
  }

  /** Other vectors keep what they have. */
  ghost predicate OthersKept(s: State, s': State, v: nat) {
    forall w: nat :: w != v ==> Get(s'.pending, w) == Get(s.pending, w) && Get(s'.delivered, w) == Get(s.delivered, w)
  }

  /**
   * A completion on a live vector fires exactly when it brings the pending count to the
   * threshold in force, and then delivers all of it; so afterwards nothing is pending or less
   * than the threshold. On a vector that is not live it changes nothing.
   */
  lemma CompletionFires(s: State, queue: nat)
    ensures var v, s' := Target(s, queue), OnCompletion(s, queue); var n := Get(s.pending, v) + 1;
            && (!Live(s, v) ==> s' == s)
            && (Live(s, v) ==>
                  && OthersKept(s, s', v) && Get(s'.accepted, v) == Get(s.accepted, v) + 1
                  && (if n >= InForce(s, queue)
                      then v !in s'.pending && v !in s'.timed && Get(s'.delivered, v) == Get(s.delivered, v) + n
                      else v in s'.pending && s'.pending[v] == n && v in s'.timed && s'.timed[v] == 0 && s'.delivered == s.delivered))
  {
    hide Tune;
  }

  /** An explicit flush of a live vector delivers all that is pending, or one interrupt if nothing is. */
  lemma FlushFires(s: State, v: nat)
    ensures var s' := Flush(s, v);
            && OthersKept(s, s', v) && s'.accepted == s.accepted && v !in s'.timed
            && (if Live(s, v)
                then v !in s'.pending && Get(s'.delivered, v) == Get(s.delivered, v) + (if Get(s.pending, v) == 0 then 1 else s.pending[v])
                else s'.pending == s.pending && s'.delivered == s.delivered)
  {
    hide Tune;
  }

  /** Firing a set of vectors, seen from a pending one. */
  lemma FireAllAt(s: State, vs: set<nat>, v: nat)
    requires v in s.pending && s.pending[v] >= 1
    ensures var s' := FireAll(s, vs);
            if v in vs && Live(s, v) then v !in s'.pending && Get(s'.delivered, v) == Get(s.delivered, v) + s.pending[v]
            else v in s'.pending && s'.pending[v] == s.pending[v] && Get(s'.delivered, v) == Get(s.delivered, v)
  {
    hide Tune;
  }

  /** Flushing everything leaves nothing pending on any live vector, and what is pending on the others. */
  lemma FlushAllFires(s: State, v: nat)
    requires Balanced(s) && v in s.pending
    ensures var s' := FlushAll(s);
            && v !in s'.timed
            && (if Live(s, v) then v !in s'.pending && Get(s'.delivered, v) == Get(s.delivered, v) + s.pending[v]
                else v in s'.pending && s'.pending[v] == s.pending[v] && Get(s'.delivered, v) == Get(s.delivered, v))
  {
    FireAllAt(s, s.pending.Keys, v);
    hide FireAll;
  }

  /** Whether a pending vector's time has come, and its age if it has not. */
  lemma AgeAt(s: State, elapsed: nat, v: nat, age: nat)
    requires v in s.pending && age == (Get(s.timed, v) + elapsed) % TWO_32
    ensures var timed := TimedAll(s); var due, rest := Expired(s, timed, elapsed, timed.Keys), Aged(s, timed, elapsed, timed.Keys);
            if age >= s.coalesce.timerThreshold then v in due && v !in rest else v !in due && v in rest && rest[v] == age
  {
  }

  /**
   * A timer tick fires a pending vector exactly when the vector is live, the timer is on and the
   * age it has reached, in 32-bit arithmetic, is at least the timer threshold.
   */
  lemma TickFires(s: State, elapsed: nat, v: nat, age: nat)
    requires Balanced(s) && v in s.pending && age == ((if v in s.timed then s.timed[v] else 0) + elapsed) % TWO_32
    ensures var s', limit := Tick(s, elapsed), s.coalesce.timerThreshold;
            && (v !in s'.pending <==> Live(s, v) && limit > 0 && age >= limit)
            && (v in s'.pending ==> s'.pending[v] == s.pending[v] && Get(s'.delivered, v) == Get(s.delivered, v))
            && (v !in s'.pending ==> Get(s'.delivered, v) == Get(s.delivered, v) + s.pending[v])
            && (limit > 0 ==> (v in s'.timed <==> age < limit) && (v in s'.timed ==> s'.timed[v] == age))
  {
    assert s.pending[v] >= 1 && s.timed.Keys <= s.pending.Keys;
    hide Balanced;
    var timed := TimedAll(s);
    FireAllAt(s, Expired(s, timed, elapsed, timed.Keys), v);
    AgeAt(s, elapsed, v, age);
    hide FireAll, Live, Expired, Aged, TimedAll;
  }

  // ---------------------------------------------------------------------------
  // The adaptive threshold
  // ---------------------------------------------------------------------------

  lemma QuotientBounds(x: nat, c: nat, k: nat)
    requires c > 0
    ensures x / c >= k <==> x >= k * c
    ensures x / c <= k <==> x < (k + 1) * c
  {
    var q := x / c;
    assert x == q * c + x % c;
    if q >= k { Ordered(k, q, c); } else { Ordered(q + 1, k, c); }
    if q <= k { Ordered(q + 1, k + 1, c); } else { Ordered(k + 1, q, c); }
  }

  lemma Ordered(a: nat, b: nat, c: nat)
    requires a <= b
    ensures a * c <= b * c && (a + 1) * c == a * c + c
  {
    assert b * c == a * c + (b - a) * c;
  }

  /**
   * The threshold moves by one at the end of a sample, up when the batches of the sample
   * average at least highBatch and it is below its maximum, down when they average below
   * lowBatch + 1, it did not go up and it is above its minimum. Each sample starts from zero.
   */
  lemma ThresholdMoves(cfg: AdaptiveConfig, t: Tuning, batch: nat)
    ensures var n, total, t' := t.interrupts + 1, t.totalBatch + batch, Tune(cfg, t, batch);
            var full := n >= cfg.sampleInterval;
            var up := full && total >= cfg.highBatch * n && t.threshold < cfg.maxThreshold;
            var down := full && !up && total < (cfg.lowBatch + 1) * n && t.threshold > cfg.minThreshold;
            && t'.threshold == t.threshold + (if up then 1 else if down then -1 else 0)
            && (if full then t'.interrupts == t'.totalBatch == 0 else t'.interrupts == n && t'.totalBatch == total)
  {
    QuotientBounds(t.totalBatch + batch, t.interrupts + 1, cfg.highBatch);
    QuotientBounds(t.totalBatch + batch, t.interrupts + 1, cfg.lowBatch);
  }

  // ---------------------------------------------------------------------------
  // Runs
  // ---------------------------------------------------------------------------

  /** No threshold in the tables is above the bound, and no pending count has reached it. */
  ghost predicate Below(s: State, bound: nat) {
    && bound >= 1 && s.coalesce.packetThreshold <= bound && (s.adaptive.enabled ==> s.adaptive.maxThreshold <= bound)
    && (forall q <- s.perQueue :: s.perQueue[q].packetThreshold <= bound)
    && (forall v <- s.tuning :: s.tuning[v].threshold <= bound)
    && (forall v <- s.pending :: s.pending[v] < bound)
  }

  /** Reconfiguration sets no threshold above the bound. */
  predicate Bounded(e: Event, bound: nat) {
    match e
    case SetCoalesce(_, config) => config.packetThreshold <= bound
    case SetAdaptive(config) => config.enabled ==> config.maxThreshold <= bound
    case _ => true
  }

  lemma TuneBelow(cfg: AdaptiveConfig, t: Tuning, batch: nat, bound: nat)
    requires t.threshold <= bound && cfg.maxThreshold <= bound
    ensures Tune(cfg, t, batch).threshold <= bound
  {
    ThresholdMoves(cfg, t, batch);
  }

  lemma FireBelow(s: State, v: nat, bound: nat)
    requires Below(s.(pending := s.pending - {v}), bound)
    requires v in s.pending ==> s.pending[v] <= bound
    ensures Below(Fire(s, v).(pending := s.pending - {v}), bound)
  {
    TuneBelow(s.adaptive, TuningOf(s, v), Batch(s, v), if s.adaptive.enabled then bound else Max(bound, Max(TuningOf(s, v).threshold, s.adaptive.maxThreshold)));
    hide Tune, Add, Batch;
  }

  /** A completion is counted and may bring its own vector to the bound, but no other. */
  lemma CountBelow(s: State, queue: nat, v: nat, bound: nat)
    requires Below(s, bound)
    ensures var counted := Count(s, queue, v);
            && Below(counted.(pending := counted.pending - {v}), bound)
            && v in counted.pending && Get(counted.pending, v) == counted.pending[v] <= bound
            && ThresholdOf(s, queue, v) <= bound
  {
    var counted := Count(s, queue, v);
    assert Get(counted.pending, v) == Get(s.pending, v) + 1;
    assert forall w <- counted.pending :: w != v ==> w in s.pending && counted.pending[w] == s.pending[w];
  }

  lemma FiredPending(s: State, v: nat)
    ensures Fire(s, v).pending == if CanFire(s, v) then s.pending - {v} else s.pending
    ensures !CanFire(s, v) ==> Fire(s, v) == s
  {
    hide Tune, Add, Batch;
  }

  lemma CompletionBelow(s: State, queue: nat, bound: nat)
    requires Below(s, bound)
    ensures Below(OnCompletion(s, queue), bound)
  {
    var v := VectorOf(s, queue);
    if CanFire(s, v) {
      var counted := Count(s, queue, v);
      CountBelow(s, queue, v, bound);
      FireBelow(counted, v, bound);
      FiredPending(counted, v);
      assert CanFire(counted, v);
      hide Fire, Count, ThresholdOf;
      assert Fire(counted, v).(pending := counted.pending - {v}) == Fire(counted, v);
      if counted.pending[v] < ThresholdOf(s, queue, v) {
        assert forall w <- counted.pending :: w != v ==> w in counted.pending - {v};
      }
    }
  }

  lemma FlushBelow(s: State, v: nat, bound: nat)
    requires Below(s, bound)
    ensures Below(Flush(s, v), bound)
  {
    FireBelow(s, v, bound);
    FiredPending(s, v);
    hide Fire, Add;
    assert CanFire(s, v) ==> Fire(s, v).(pending := s.pending - {v}) == Fire(s, v);
  }

  lemma FireAllBelow(s: State, vs: set<nat>, timed: map<nat, nat>, bound: nat)
    requires Below(s, bound)
    ensures Below(FireAll(s, vs).(timed := timed), bound)
  {
    hide Tune;
    if s.adaptive.enabled {
      forall v | v in vs ensures Tune(s.adaptive, TuningOf(s, v), Batch(s, v)).threshold <= bound {
        TuneBelow(s.adaptive, TuningOf(s, v), Batch(s, v), bound);
      }
    }
  }

  lemma StepBelow(s: State, e: Event, bound: nat)
    requires Below(s, bound) && Bounded(e, bound)
    ensures Below(Step(s, e), bound)
  {
    hide OnCompletion, Flush, FireAll;
    match e {
      case Completion(queue) => CompletionBelow(s, queue, bound);
      case FlushOne(v) => FlushBelow(s, v, bound);
      case FlushEverything => FireAllBelow(s, s.pending.Keys, s.timed - s.pending.Keys, bound);
      case Timer(elapsed) =>
        var timed := TimedAll(s);
        FireAllBelow(s, Expired(s, timed, elapsed, timed.Keys), Aged(s, timed, elapsed, timed.Keys), bound);
        hide Expired, Aged, TimedAll, Below;
      case _ =>
    }
  }

  /**
   * Nothing waits for a threshold it has reached: over every run in which no threshold above
   * the bound is ever set, adaptation included, every pending count stays below the bound.
   */
  lemma {:induction false} PendingStaysBelow(s: State, events: seq<Event>, bound: nat)
    requires Below(s, bound) && forall i :: 0 <= i < |events| ==> Bounded(events[i], bound)
    ensures Below(Run(s, events), bound)
    decreases |events|
  {
    hide Step, Below;
    if events != [] {
      PendingStaysBelow(s, events[..|events| - 1], bound);
      StepBelow(Run(s, events[..|events| - 1]), events[|events| - 1], bound);
    }
  }
}
