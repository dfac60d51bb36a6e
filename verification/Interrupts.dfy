/** Interrupt dispatch with coalescing: every accepted completion is delivered exactly once or still pending. */
module Interrupts {
  import opened Common

  datatype Vector = Vector(enabled: bool, masked: bool)

  datatype Coalesce = Coalesce(packetThreshold: nat, timerThreshold: nat)

  datatype AdaptiveConfig = AdaptiveConfig(enabled: bool, minThreshold: nat, maxThreshold: nat, lowBatch: nat, highBatch: nat, sampleInterval: nat)

  datatype Tuning = Tuning(interrupts: nat, totalBatch: nat, threshold: nat)

  /**
   * The dispatcher's tables and maps, with three running totals by vector: interrupts
   * delivered (summed batch sizes), completions accepted, and explicit flushes that fired
   * with nothing pending.
   */
  datatype State = State(
    table: seq<Vector>, mapping: seq<nat>, defaultVector: nat, coalesce: Coalesce, perQueue: map<nat, Coalesce>,
    adaptive: AdaptiveConfig, tuning: map<nat, Tuning>, pending: map<nat, nat>, timed: map<nat, nat>,
    delivered: map<nat, nat>, accepted: map<nat, nat>, spurious: map<nat, nat>)

  function Get(m: map<nat, nat>, v: nat): nat { if v in m then m[v] else 0 }

  function Add(m: map<nat, nat>, v: nat, n: nat): (r: map<nat, nat>)
    ensures forall w :: Get(r, w) == Get(m, w) + if w == v then n else 0
  {
    m[v := Get(m, v) + n]
  }

  predicate CanFire(s: State, v: nat) { v < |s.table| && s.table[v].enabled && !s.table[v].masked }

  /** An interrupt with nothing pending still reports a batch of one. */
  function Batch(s: State, v: nat): nat { if Get(s.pending, v) == 0 then 1 else Get(s.pending, v) }

  /** Moves the threshold by one at the end of a sample period, within its limits. */
  function Tune(cfg: AdaptiveConfig, t: Tuning, batch: nat): Tuning {
    var count, total := t.interrupts + 1, t.totalBatch + batch;
    if count < cfg.sampleInterval then Tuning(count, total, t.threshold) else
    var average := total / count;
    if average >= cfg.highBatch && t.threshold < cfg.maxThreshold then Tuning(0, 0, t.threshold + 1)
    else if average <= cfg.lowBatch && t.threshold > cfg.minThreshold then Tuning(0, 0, t.threshold - 1)
    else Tuning(0, 0, t.threshold)
  }

  function TuningOf(s: State, v: nat): Tuning { if v in s.tuning then s.tuning[v] else Tuning(0, 0, 1) }

  /** Fire one vector, unless it is missing, disabled or masked. */
  function Fire(s: State, v: nat): State {
    if !CanFire(s, v) then s else
    s.(pending := s.pending - {v},
       delivered := Add(s.delivered, v, Batch(s, v)),
       tuning := if s.adaptive.enabled then s.tuning[v := Tune(s.adaptive, TuningOf(s, v), Batch(s, v))] else s.tuning)
  }

  /** Fire a set of vectors: each one independently of the others. */
  function FireAll(s: State, vs: set<nat>): State {
    var fired := set v | v in vs && CanFire(s, v);
    s.(pending := s.pending - fired,
       delivered := map v | v in s.delivered.Keys + fired :: Get(s.delivered, v) + if v in fired then Batch(s, v) else 0,
       tuning := if s.adaptive.enabled then Tuned(s, fired) else s.tuning)
  }

  /** The tuning after each of these vectors has fired once. */
  function Tuned(s: State, fired: set<nat>): map<nat, Tuning> {
    map v | v in s.tuning.Keys + fired :: if v in fired then Tune(s.adaptive, TuningOf(s, v), Batch(s, v)) else s.tuning[v]
  }

  lemma TunedStep(s: State, fired: set<nat>, v: nat)
    requires v !in fired
    ensures Tuned(s, fired + {v}) == Tuned(s, fired)[v := Tune(s.adaptive, TuningOf(s, v), Batch(s, v))]
    ensures v in s.tuning ==> v in Tuned(s, fired) && Tuned(s, fired)[v] == s.tuning[v]
    ensures v !in s.tuning ==> v !in Tuned(s, fired)
  {
    hide Tune, TuningOf, Batch;
  }

  lemma FireAllNone(s: State)
    ensures FireAll(s, {}) == s
  {
    assert FireAll(s, {}).pending == s.pending;
    assert FireAll(s, {}).delivered == s.delivered;
    assert FireAll(s, {}).tuning == s.tuning;
  }

  /** Firing a set and then one more vector is firing the larger set, in whatever order. */
  lemma FireAllStep(s: State, vs: set<nat>, v: nat)
    requires v !in vs
    ensures Fire(FireAll(s, vs), v) == FireAll(s, vs + {v})
  {
    hide Tune;
    var fired := set w | w in vs && CanFire(s, w);
    var fired' := set w | w in vs + {v} && CanFire(s, w);
    if CanFire(s, v) {
      assert fired' == fired + {v};
      FirePendingStep(s, vs, v);
      FireDeliveredStep(s, vs, v);
      FireTuningStep(s, vs, v);
      hide FireAll;
      hide Fire;
      FireAllRest(s, vs, v);
    } else {
      assert fired' == fired;
    }
  }

  lemma FireAllRest(s: State, vs: set<nat>, v: nat)
    ensures var a, b := Fire(FireAll(s, vs), v), FireAll(s, vs + {v});
            a == b.(pending := a.pending, delivered := a.delivered, tuning := a.tuning)
  {
    hide Tune;
    hide Add;
    hide Batch;
  }

  lemma FirePendingStep(s: State, vs: set<nat>, v: nat)
    requires CanFire(s, v)
    ensures Fire(FireAll(s, vs), v).pending == FireAll(s, vs + {v}).pending
  {
    hide Tune;
    hide Add;
    hide Batch;
  }

  lemma FireDeliveredStep(s: State, vs: set<nat>, v: nat)
    requires CanFire(s, v) && v !in vs
    ensures Fire(FireAll(s, vs), v).delivered == FireAll(s, vs + {v}).delivered
  {
    hide Tune;
  }

  lemma FireTuningStep(s: State, vs: set<nat>, v: nat)
    requires CanFire(s, v) && v !in vs
    ensures Fire(FireAll(s, vs), v).tuning == FireAll(s, vs + {v}).tuning
  {
    hide Tune, Add, Tuned;
    var fired := set u | u in vs && CanFire(s, u);
    assert (set u | u in vs + {v} && CanFire(s, u)) == fired + {v};
    TunedStep(s, fired, v);
    assert Batch(FireAll(s, vs), v) == Batch(s, v);
  }

  function VectorOf(s: State, queue: nat): nat { if queue < |s.mapping| then s.mapping[queue] else s.defaultVector }

  function ConfigOf(s: State, queue: nat): Coalesce { if queue in s.perQueue then s.perQueue[queue] else s.coalesce }

  function ThresholdOf(s: State, queue: nat, v: nat): nat {
    if s.adaptive.enabled && v in s.tuning then s.tuning[v].threshold else ConfigOf(s, queue).packetThreshold
  }

  /** The completion is counted before any interrupt is raised. */
  function Count(s: State, queue: nat, v: nat): State {
    s.(pending := Add(s.pending, v, 1), timed := s.timed[v := 0], accepted := Add(s.accepted, v, 1),
       tuning := if s.adaptive.enabled && v !in s.tuning then s.tuning[v := Tuning(0, 0, ConfigOf(s, queue).packetThreshold)] else s.tuning)
  }

  function OnCompletion(s: State, queue: nat): State {
    var v := VectorOf(s, queue);
    if !CanFire(s, v) then s else
    var counted := Count(s, queue, v);
    if Get(counted.pending, v) >= ThresholdOf(s, queue, v) then Fire(counted, v).(timed := counted.timed - {v}) else counted
  }

  function Flush(s: State, v: nat): State {
    var fired := Fire(s, v);
    fired.(timed := s.timed - {v}, spurious := if CanFire(s, v) && Get(s.pending, v) == 0 then Add(s.spurious, v, 1) else s.spurious)
  }

  function FlushAll(s: State): State { FireAll(s, s.pending.Keys).(timed := s.timed - s.pending.Keys) }

  /** Every pending vector is timed from now on. */
  function TimedAll(s: State): map<nat, nat> { map v | v in s.timed.Keys + s.pending.Keys :: Get(s.timed, v) }

  predicate Expires(s: State, timed: map<nat, nat>, v: nat, elapsed: nat)
    requires v in timed
  {
    (timed[v] + elapsed) % TWO_32 >= s.coalesce.timerThreshold
  }

  function Tick(s: State, elapsed: nat): State {
    if s.coalesce.timerThreshold == 0 || s.pending == map[] then s else
    var timed := TimedAll(s);
    FireAll(s, Expired(s, timed, elapsed, timed.Keys)).(timed := Aged(s, timed, elapsed, timed.Keys))
  }

  // ---------------------------------------------------------------------------
  // The dispatcher
  // ---------------------------------------------------------------------------

  class InterruptDispatcher {
    const defaultVector: nat
    const coalesce: Coalesce
    var table: seq<Vector>
    var mapping: seq<nat>
    var perQueue: map<nat, Coalesce>
    var adaptive: AdaptiveConfig
    var tuning: map<nat, Tuning>
    var pending: map<nat, nat>
    var timed: map<nat, nat>
    var delivered: map<nat, nat>
    ghost var accepted: map<nat, nat>
    ghost var spurious: map<nat, nat>

    constructor (table: seq<Vector>, mapping: seq<nat>, defaultVector: nat, coalesce: Coalesce, adaptive: AdaptiveConfig)
      ensures View() == State(table, mapping, defaultVector, coalesce, map[], adaptive, map[], map[], map[], map[], map[], map[])
    {
      this.table, this.mapping, this.defaultVector, this.coalesce, this.adaptive := table, mapping, defaultVector, coalesce, adaptive;
      perQueue, tuning, pending, timed, delivered, accepted, spurious := map[], map[], map[], map[], map[], map[], map[];
    }

    ghost function View(): State
      reads this
    {
      State(table, mapping, defaultVector, coalesce, perQueue, adaptive, tuning, pending, timed, delivered, accepted, spurious)
    }

    method TryFire(v: nat)
      modifies this`pending, this`tuning, this`delivered
      ensures View() == Fire(old(View()), v)
    {
      if v >= |table| || !table[v].enabled || table[v].masked {
        return;
      }
      var batch := Get(pending, v);
      pending := pending - {v};
      if batch == 0 {
        batch := 1;
      }
      if adaptive.enabled {
        tuning := tuning[v := Tune(adaptive, if v in tuning then tuning[v] else Tuning(0, 0, 1), batch)];
      }
      delivered := Add(delivered, v, batch);
    }

    method Complete(queue: nat) returns (taken: bool)
      modifies this
      ensures View() == OnCompletion(old(View()), queue)
      ensures taken <==> CanFire(old(View()), VectorOf(old(View()), queue))
    {
      hide Fire;
      var v := if queue < |mapping| then mapping[queue] else defaultVector;
      if v >= |table| || !table[v].enabled || table[v].masked {
        return false;
      }
      var config := if queue in perQueue then perQueue[queue] else coalesce;
      pending := Add(pending, v, 1);
      timed := timed[v := 0];
      accepted := Add(accepted, v, 1);
      var threshold := config.packetThreshold;
      if adaptive.enabled {
        if v in tuning {
          threshold := tuning[v].threshold;
        } else {
          tuning := tuning[v := Tuning(0, 0, config.packetThreshold)];
        }
      }
      if pending[v] >= threshold {
        TryFire(v);
        timed := timed - {v};
      }
      taken := true;
    }

    method FlushVector(v: nat)
      modifies this
      ensures View() == Flush(old(View()), v)
    {
      hide Fire;
      ghost var idle := CanFire(View(), v) && Get(pending, v) == 0;
      TryFire(v);
      timed := timed - {v};
      if idle {
        spurious := Add(spurious, v, 1);
      }
    }

    /** Fires every pending vector, in arbitrary order. */
    method FlushPending()
      modifies this
      ensures View() == FlushAll(old(View()))
    {
      hide Fire;
      hide FireAll;
      ghost var s0 := View();
      var todo := pending.Keys;
      ghost var done: set<nat> := {};
      FireAllNone(s0);
      assert timed - {} == timed;
      while todo != {}
        invariant done !! todo && done + todo == s0.pending.Keys
        invariant View() == FireAll(s0, done).(timed := s0.timed - done)
        decreases todo
      {
        var v :| v in todo;
        FireAllStep(s0, done, v);
        FireIgnoresTimed(FireAll(s0, done), s0.timed - done, v);
        TryFire(v);
        timed := timed - {v};
        assert (s0.timed - done) - {v} == s0.timed - (done + {v});
        todo, done := todo - {v}, done + {v};
      }
    }

    /** Ages every timed vector and fires the ones whose time has come, in arbitrary order. */
    method TimerTick(elapsed: nat)
      modifies this
      ensures View() == Tick(old(View()), elapsed)
    {
      hide Fire;
      hide FireAll;
      hide Expired;
      hide Aged;
      if coalesce.timerThreshold == 0 || pending == map[] {
        return;
      }
      ghost var s0 := View();
      var aged := map v | v in timed.Keys + pending.Keys :: Get(timed, v);
      assert aged == TimedAll(s0);
      var todo := aged.Keys;
      ghost var done: set<nat> := {};
      var rest: map<nat, nat> := map[];
      FireAllNone(s0);
      NothingAged(s0, aged, elapsed);
      while todo != {}
        invariant done !! todo && done + todo == aged.Keys
        invariant View() == FireAll(s0, Expired(s0, aged, elapsed, done))
        invariant rest == Aged(s0, aged, elapsed, done)
        decreases todo
      {
        var v :| v in todo;
        AgedStep(s0, aged, elapsed, done, v);
        if (aged[v] + elapsed) % TWO_32 >= coalesce.timerThreshold {
          FireAllStep(s0, Expired(s0, aged, elapsed, done), v);
          TryFire(v);
        } else {
          rest := rest[v := (aged[v] + elapsed) % TWO_32];
        }
        todo, done := todo - {v}, done + {v};
      }
      timed := rest;
    }
  }

  /** Of the vectors looked at, those whose time has come. */
  function Expired(s: State, timed: map<nat, nat>, elapsed: nat, seen: set<nat>): set<nat> {
    set v | v in seen && v in timed && Expires(s, timed, v, elapsed)
  }

  /** Of the vectors looked at, the others with their new age. */
  function Aged(s: State, timed: map<nat, nat>, elapsed: nat, seen: set<nat>): map<nat, nat> {
    map v | v in seen && v in timed && !Expires(s, timed, v, elapsed) :: (timed[v] + elapsed) % TWO_32
  }

  lemma NothingAged(s: State, timed: map<nat, nat>, elapsed: nat)
    ensures Expired(s, timed, elapsed, {}) == {} && Aged(s, timed, elapsed, {}) == map[]
  {
  }

  lemma AgedStep(s: State, timed: map<nat, nat>, elapsed: nat, seen: set<nat>, v: nat)
    requires v in timed && v !in seen
    ensures v !in Expired(s, timed, elapsed, seen)
    ensures Expires(s, timed, v, elapsed) ==>
              && Expired(s, timed, elapsed, seen + {v}) == Expired(s, timed, elapsed, seen) + {v}
              && Aged(s, timed, elapsed, seen + {v}) == Aged(s, timed, elapsed, seen)
    ensures !Expires(s, timed, v, elapsed) ==>
              && Expired(s, timed, elapsed, seen + {v}) == Expired(s, timed, elapsed, seen)
              && Aged(s, timed, elapsed, seen + {v}) == Aged(s, timed, elapsed, seen)[v := (timed[v] + elapsed) % TWO_32]
  {
    hide Expires;
  }

  lemma FireIgnoresTimed(s: State, timed: map<nat, nat>, v: nat)
    ensures Fire(s.(timed := timed), v) == Fire(s, v).(timed := timed)
  {
    hide Tune, Add;
    var t := s.(timed := timed);
    assert CanFire(t, v) == CanFire(s, v);
    assert Batch(t, v) == Batch(s, v) && TuningOf(t, v) == TuningOf(s, v);
  }

  // ---------------------------------------------------------------------------
  // Runs
  // ---------------------------------------------------------------------------

  datatype Event =
    | Completion(queue: nat)
    | FlushOne(vector: nat)
    | FlushEverything
    | Timer(elapsed: nat)
    | Mask(vector: nat, masked: bool)
    | Enable(vector: nat, enabled: bool)
    | Remap(queue: nat, vector: nat)
    | SetCoalesce(queue: nat, config: Coalesce)
    | ClearCoalesce(queue: nat)
    | SetAdaptive(adaptive: AdaptiveConfig)

  function Step(s: State, e: Event): State {
    match e
    case Completion(queue) => OnCompletion(s, queue)
    case FlushOne(v) => Flush(s, v)
    case FlushEverything => FlushAll(s)
    case Timer(elapsed) => Tick(s, elapsed)
    case Mask(v, masked) => if v < |s.table| then s.(table := s.table[v := s.table[v].(masked := masked)]) else s
    case Enable(v, enabled) => if v < |s.table| then s.(table := s.table[v := s.table[v].(enabled := enabled)]) else s
    case Remap(queue, v) => if queue < |s.mapping| then s.(mapping := s.mapping[queue := v]) else s
    case SetCoalesce(queue, config) => s.(perQueue := s.perQueue[queue := config])
    case ClearCoalesce(queue) => s.(perQueue := s.perQueue - {queue})
    case SetAdaptive(config) =>
      s.(adaptive := config, tuning := if config.enabled then map v | v in s.tuning :: Tuning(0, 0, s.coalesce.packetThreshold) else s.tuning)
  }

  function Run(s: State, events: seq<Event>): State {
    if events == [] then s else Step(Run(s, events[..|events| - 1]), events[|events| - 1])
  }

  /** Nothing pending, nothing timed, no totals. */
  predicate Fresh(s: State) {
    s.pending == map[] && s.timed == map[] && s.delivered == map[] && s.accepted == map[] && s.spurious == map[]
  }

  /**
   * For every vector, what was delivered plus what is pending is what was accepted plus the
   * flushes that fired idle; pending counts are positive; timed vectors are pending.
   */
  ghost predicate Balanced(s: State) {
    && (forall v: nat :: Get(s.delivered, v) + Get(s.pending, v) == Get(s.accepted, v) + Get(s.spurious, v))
    && (forall v <- s.pending :: s.pending[v] >= 1)
    && s.timed.Keys <= s.pending.Keys
  }

  lemma FireAllBalances(s: State, vs: set<nat>, timed: map<nat, nat>)
    requires Balanced(s) && vs <= s.pending.Keys
    requires forall v <- timed :: v in s.pending && v !in vs
    ensures Balanced(FireAll(s, vs).(timed := timed))
  {
    hide Tune;
    var s' := FireAll(s, vs).(timed := timed);
    forall v: nat ensures Get(s'.delivered, v) + Get(s'.pending, v) == Get(s.delivered, v) + Get(s.pending, v) {
      assert v in s.pending ==> s.pending[v] >= 1;
    }
  }

  lemma CountBalances(s: State, queue: nat, v: nat)
    requires Balanced(s)
    ensures Balanced(Count(s, queue, v))
  {
    hide ConfigOf;
    var s' := Count(s, queue, v);
    forall w <- s'.pending ensures s'.pending[w] >= 1 {
      assert Get(s'.pending, w) == Get(s.pending, w) + if w == v then 1 else 0;
    }
    forall w: nat ensures Get(s'.delivered, w) + Get(s'.pending, w) == Get(s'.accepted, w) + Get(s'.spurious, w) {
      assert Get(s.delivered, w) + Get(s.pending, w) == Get(s.accepted, w) + Get(s.spurious, w);
    }
  }

  lemma FireBalances(s: State, v: nat)
    requires Balanced(s) && v in s.pending
    ensures Balanced(Fire(s, v).(timed := s.timed - {v}))
  {
    hide Tune;
    var s' := Fire(s, v).(timed := s.timed - {v});
    forall w: nat ensures Get(s'.delivered, w) + Get(s'.pending, w) == Get(s'.accepted, w) + Get(s'.spurious, w) {
      assert Get(s.delivered, w) + Get(s.pending, w) == Get(s.accepted, w) + Get(s.spurious, w);
    }
  }

  lemma CompletionBalances(s: State, queue: nat)
    requires Balanced(s)
    ensures Balanced(OnCompletion(s, queue))
  {
    hide ThresholdOf;
    hide Fire;
    hide Balanced;
    var v := VectorOf(s, queue);
    CountBalances(s, queue, v);
    FireBalances(Count(s, queue, v), v);
  }

  lemma FlushBalances(s: State, v: nat)
    requires Balanced(s)
    ensures Balanced(Flush(s, v))
  {
    hide Tune;
    var s' := Flush(s, v);
    assert v in s.pending ==> s.pending[v] >= 1;
  }

  lemma TickBalances(s: State, elapsed: nat)
    requires Balanced(s)
    ensures Balanced(Tick(s, elapsed))
  {
    if s.coalesce.timerThreshold != 0 && s.pending != map[] {
      hide FireAll;
      hide Expires;
      var timed := TimedAll(s);
      FireAllBalances(s, Expired(s, timed, elapsed, timed.Keys), Aged(s, timed, elapsed, timed.Keys));
    }
  }

  lemma StepBalances(s: State, e: Event)
    requires Balanced(s)
    ensures Balanced(Step(s, e))
  {
    hide OnCompletion;
    hide Flush;
    hide Tick;
    match e {
      case Completion(queue) => CompletionBalances(s, queue);
      case FlushOne(v) => FlushBalances(s, v);
      case FlushEverything => FireAllBalances(s, s.pending.Keys, s.timed - s.pending.Keys);
      case Timer(elapsed) => TickBalances(s, elapsed);
      case _ =>
    }
  }

  /**
   * Interrupt conservation, vector by vector, over every run of completions, flushes, ticks,
   * masking, enabling, remapping and reconfiguration.
   */
  lemma {:induction false} InterruptsConserved(s: State, events: seq<Event>)
    requires Fresh(s)
    ensures Balanced(Run(s, events))
    decreases |events|
  {
    hide Step;
    if events != [] {
      InterruptsConserved(s, events[..|events| - 1]);
      StepBalances(Run(s, events[..|events| - 1]), events[|events| - 1]);
    }
  }

  /** A timer tick delivers exactly what was pending on the vectors it fires, and never an empty interrupt. */
  lemma TicksFireOnlyPending(s: State, elapsed: nat, v: nat)
    requires Balanced(s)
    ensures var s' := Tick(s, elapsed);
            && (Get(s'.delivered, v) != Get(s.delivered, v) ==>
                  v in s.pending && v !in s'.pending && Get(s'.delivered, v) == Get(s.delivered, v) + s.pending[v])
            && s'.spurious == s.spurious
  {
    hide Tune;
  }
}
