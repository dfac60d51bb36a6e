/** What the reliability manager guarantees over every run of posts, ACKs, NAKs and timeout checks. */
module ReliabilityRuns {
  import opened Common
  import opened RoceTypes
  import opened Reliability
  import opened Bits

  /**
   * A pending operation with its history: posting number, unbounded number of its last
   * packet, posting time, how often a timeout sent it again, and whether a NAK ever hit it.
   */
  datatype Entry = Entry(op: Pending, id: nat, last: nat, postedAt: nat, scheduled: nat, nakked: bool)

  /** One queue pair's list with the identifiers of the operations reported completed and failed. */
  datatype Track = Track(entries: seq<Entry>, posted: nat, completed: seq<nat>, failed: seq<nat>, clock: U64)

  datatype Event =
    | Post(first: nat, last: nat, wrId: U64, opcode: WqeOpcode, time: U64)
    | Ack(psn: U24)
    | Nak(psn: U24, syndrome: Byte)
    | Tick(now: U64)

  function Ops(es: seq<Entry>): (r: seq<Pending>)
    ensures |r| == |es|
  {
    seq(|es|, i requires 0 <= i < |es| => es[i].op)
  }

  function CompletedEntries(es: seq<Entry>, ack: U24): seq<Entry> {
    if es == [] then [] else
    var e := es[|es| - 1];
    CompletedEntries(es[..|es| - 1], ack) + if CompletedBy(e.op, ack) then [e] else []
  }

  function SurvivingEntries(es: seq<Entry>, ack: U24): seq<Entry> {
    if es == [] then [] else
    var e := es[|es| - 1];
    SurvivingEntries(es[..|es| - 1], ack) + if e.op.waiting && !Acknowledged(e.op, ack) then [e] else []
  }

  function Ids(es: seq<Entry>): seq<nat> {
    if es == [] then [] else Ids(es[..|es| - 1]) + [es[|es| - 1].id]
  }

  function WaitingIds(es: seq<Entry>): seq<nat> {
    if es == [] then [] else
    var e := es[|es| - 1];
    WaitingIds(es[..|es| - 1]) + if e.op.waiting then [e.id] else []
  }

  function NakEntry(cfg: Config, e: Entry, psn: U24, syndrome: Byte): Entry {
    e.(op := NakOp(cfg, e.op, psn, syndrome), nakked := e.nakked || NakHits(e.op, psn, syndrome))
  }

  function TickEntry(cfg: Config, e: Entry, now: U64): Entry {
    e.(op := TickOp(cfg, e.op, now), scheduled := e.scheduled + if Retransmits(cfg, e.op, now) then 1 else 0)
  }

  function NakEntries(cfg: Config, es: seq<Entry>, psn: U24, syndrome: Byte): (r: seq<Entry>)
    ensures |r| == |es|
  {
    seq(|es|, i requires 0 <= i < |es| => NakEntry(cfg, es[i], psn, syndrome))
  }

  function TickEntries(cfg: Config, es: seq<Entry>, now: U64): (r: seq<Entry>)
    ensures |r| == |es|
  {
    seq(|es|, i requires 0 <= i < |es| => TickEntry(cfg, es[i], now))
  }

  /** The operations that stop waiting between two states of the list. */
  function NewlyFailed(es: seq<Entry>, es': seq<Entry>): seq<nat>
    requires |es| == |es'|
  {
    if es == [] then [] else
    var n := |es| - 1;
    NewlyFailed(es[..n], es'[..n]) + if es[n].op.waiting && !es'[n].op.waiting then [es[n].id] else []
  }

  function Step(cfg: Config, s: Track, e: Event): Track {
    match e
    case Post(first, last, wrId, opcode, time) =>
      var op := NewPending(first % TWO_24, last % TWO_24, wrId, opcode, time);
      s.(entries := s.entries + [Entry(op, s.posted, last, time, 0, false)], posted := s.posted + 1, clock := time)
    case Ack(psn) =>
      s.(entries := SurvivingEntries(s.entries, psn), completed := s.completed + Ids(CompletedEntries(s.entries, psn)))
    case Nak(psn, syndrome) =>
      var es := NakEntries(cfg, s.entries, psn, syndrome);
      s.(entries := es, failed := s.failed + NewlyFailed(s.entries, es))
    case Tick(now) =>
      var es := TickEntries(cfg, s.entries, now);
      s.(entries := es, failed := s.failed + NewlyFailed(s.entries, es), clock := now)
  }

  const EMPTY := Track([], 0, [], [], 0)

  function Run(cfg: Config, events: seq<Event>): Track {
    if events == [] then EMPTY else Step(cfg, Run(cfg, events[..|events| - 1]), events[|events| - 1])
  }

  /** The times that events carry never run backwards. */
  predicate Timely(events: seq<Event>) {
    forall i, j :: 0 <= i < j < |events| && HasTime(events[i]) && HasTime(events[j]) ==> TimeOf(events[i]) <= TimeOf(events[j])
  }

  predicate HasTime(e: Event) { e.Post? || e.Tick? }

  function TimeOf(e: Event): U64
    requires HasTime(e)
  {
    if e.Post? then e.time else e.now
  }

  // ---------------------------------------------------------------------------
  // The history follows the manager
  // ---------------------------------------------------------------------------

  /** Stripped of history, the tracked list changes exactly as the manager changes its list. */
  lemma {:induction false} AckFollowsManager(es: seq<Entry>, ack: U24)
    ensures Ops(SurvivingEntries(es, ack)) == SurvivingOps(Ops(es), ack)
    ensures Ops(CompletedEntries(es, ack)) == CompletedOps(Ops(es), ack)
  {
    hide Acknowledged;
    if es != [] {
      var n := |es| - 1;
      AckFollowsManager(es[..n], ack);
      assert Ops(es)[..n] == Ops(es[..n]);
    }
  }

  lemma NakAndTickFollowManager(cfg: Config, es: seq<Entry>, psn: U24, syndrome: Byte, now: U64)
    ensures Ops(NakEntries(cfg, es, psn, syndrome)) == NakOps(cfg, Ops(es), psn, syndrome)
    ensures Ops(TickEntries(cfg, es, now)) == TickOps(cfg, Ops(es), now)
  {
    hide NakOp;
    hide TickOp;
    assert Ops(NakEntries(cfg, es, psn, syndrome)) == NakOps(cfg, Ops(es), psn, syndrome);
    assert Ops(TickEntries(cfg, es, now)) == TickOps(cfg, Ops(es), now);
  }

  // ---------------------------------------------------------------------------
  // Conservation: waiting, completed once, or failed
  // ---------------------------------------------------------------------------

  function FirstIds(n: nat): seq<nat> { if n == 0 then [] else FirstIds(n - 1) + [n - 1] }

  /** Every posted operation is waiting, completed or failed: exactly one of them, exactly once. */
  ghost predicate Conserved(s: Track) {
    multiset(WaitingIds(s.entries)) + multiset(s.completed) + multiset(s.failed) == multiset(FirstIds(s.posted))
  }

  lemma IdsStep(es: seq<Entry>, e: Entry)
    ensures Ids(es + [e]) == Ids(es) + [e.id]
    ensures WaitingIds(es + [e]) == WaitingIds(es) + if e.op.waiting then [e.id] else []
  {
    assert (es + [e])[..|es|] == es;
  }

  lemma {:induction false} AckMovesToCompleted(es: seq<Entry>, ack: U24)
    ensures multiset(WaitingIds(es)) == multiset(WaitingIds(SurvivingEntries(es, ack))) + multiset(Ids(CompletedEntries(es, ack)))
  {
    hide Acknowledged;
    hide Ids;
    hide WaitingIds;
    if es == [] {
      NoIds();
    } else {
      var n := |es| - 1;
      AckMovesToCompleted(es[..n], ack);
      assert es == es[..n] + [es[n]];
      IdsStep(es[..n], es[n]);
      IdsStep(SurvivingEntries(es[..n], ack), es[n]);
      IdsStep(CompletedEntries(es[..n], ack), es[n]);
      if !es[n].op.waiting || !Acknowledged(es[n].op, ack) {
        assert CompletedEntries(es, ack) == CompletedEntries(es[..n], ack);
      }
      if !es[n].op.waiting || Acknowledged(es[n].op, ack) {
        assert SurvivingEntries(es, ack) == SurvivingEntries(es[..n], ack);
      }
    }
  }

  lemma NoIds()
    ensures Ids([]) == [] && WaitingIds([]) == []
  {
  }

  lemma {:induction false} FailureMovesToFailed(es: seq<Entry>, es': seq<Entry>)
    requires |es| == |es'|
    requires forall i :: 0 <= i < |es| ==> es'[i].id == es[i].id && (es'[i].op.waiting ==> es[i].op.waiting)
    ensures multiset(WaitingIds(es)) == multiset(WaitingIds(es')) + multiset(NewlyFailed(es, es'))
  {
    if es != [] {
      var n := |es| - 1;
      FailureMovesToFailed(es[..n], es'[..n]);
    }
  }

  lemma ConservedStep(cfg: Config, s: Track, e: Event)
    requires Conserved(s)
    ensures Conserved(Step(cfg, s, e))
  {
    hide NakEntries, TickEntries, FirstIds, WaitingIds, Ids, NewlyFailed, SurvivingEntries, CompletedEntries;
    match e {
      case Post(_, _, _, _, _) =>
        PostConserves(cfg, s, e);
      case Ack(psn) =>
        AckMovesToCompleted(s.entries, psn);
        Append(s.completed, Ids(CompletedEntries(s.entries, psn)));
      case Nak(psn, syndrome) =>
        var es := NakEntries(cfg, s.entries, psn, syndrome);
        NakOnlyFails(cfg, s.entries, psn, syndrome);
        FailureMovesToFailed(s.entries, es);
        Append(s.failed, NewlyFailed(s.entries, es));
      case Tick(now) =>
        var es := TickEntries(cfg, s.entries, now);
        TickOnlyFails(cfg, s.entries, now);
        FailureMovesToFailed(s.entries, es);
        Append(s.failed, NewlyFailed(s.entries, es));
    }
  }

  lemma Append(a: seq<nat>, b: seq<nat>)
    ensures multiset(a + b) == multiset(a) + multiset(b)
  {
  }

  lemma PostConserves(cfg: Config, s: Track, e: Event)
    requires Conserved(s) && e.Post?
    ensures Conserved(Step(cfg, s, e))
  {
    var es := Step(cfg, s, e).entries;
    assert es[..|es| - 1] == s.entries;
    assert FirstIds(s.posted + 1) == FirstIds(s.posted) + [s.posted];
  }

  lemma NakOnlyFails(cfg: Config, es: seq<Entry>, psn: U24, syndrome: Byte)
    ensures var es' := NakEntries(cfg, es, psn, syndrome);
            forall i :: 0 <= i < |es| ==> es'[i].id == es[i].id && (es'[i].op.waiting ==> es[i].op.waiting)
  {
    hide NakHits;
  }

  lemma TickOnlyFails(cfg: Config, es: seq<Entry>, now: U64)
    ensures var es' := TickEntries(cfg, es, now);
            forall i :: 0 <= i < |es| ==> es'[i].id == es[i].id && (es'[i].op.waiting ==> es[i].op.waiting)
  {
    hide Timeout;
    hide Elapsed;
  }

  /** Over every run, each posted operation is still waiting, completed once, or failed, and never two of these. */
  lemma {:induction false} EachOperationSettlesOnce(cfg: Config, events: seq<Event>)
    ensures Conserved(Run(cfg, events))
    decreases |events|
  {
    hide Conserved;
    hide Step;
    if events == [] {
      EmptyConserved();
    } else {
      EachOperationSettlesOnce(cfg, events[..|events| - 1]);
      ConservedStep(cfg, Run(cfg, events[..|events| - 1]), events[|events| - 1]);
    }
  }

  lemma EmptyConserved()
    ensures Conserved(EMPTY)
  {
  }

  lemma {:induction false} FirstIdsOnce(n: nat, k: nat)
    ensures multiset(FirstIds(n))[k] == if k < n then 1 else 0
  {
    if n > 0 {
      FirstIdsOnce(n - 1, k);
    }
  }

  /** In particular nothing is completed twice, and nothing completed ever fails or still waits. */
  lemma CompletedAtMostOnce(cfg: Config, events: seq<Event>, k: nat)
    ensures var s := Run(cfg, events);
            multiset(WaitingIds(s.entries))[k] + multiset(s.completed)[k] + multiset(s.failed)[k] == if k < s.posted then 1 else 0
  {
    EachOperationSettlesOnce(cfg, events);
    hide Run;
    FirstIdsOnce(Run(cfg, events).posted, k);
  }

  // ---------------------------------------------------------------------------
  // Cumulative ACK
  // ---------------------------------------------------------------------------

  /** The true packet numbers of all waiting operations are within half the space of the ACK's. */
  predicate InWindow(es: seq<Entry>, ack: nat) {
    forall i :: 0 <= i < |es| && es[i].op.waiting ==> es[i].op.endPsn == es[i].last % TWO_24 && -HALF_SPACE <= ack - es[i].last < HALF_SPACE
  }

  /** Reference: the waiting operations whose true last packet number is at most the ACK's. */
  function Covered(es: seq<Entry>, ack: nat): seq<Entry> {
    if es == [] then [] else
    var e := es[|es| - 1];
    Covered(es[..|es| - 1], ack) + if e.op.waiting && e.last <= ack then [e] else []
  }

  /** Inside the window, an ACK completes exactly the operations it covers, in posting order. */
  lemma {:induction false} AckCompletesCovered(es: seq<Entry>, ack: nat)
    requires InWindow(es, ack)
    ensures CompletedEntries(es, ack % TWO_24) == Covered(es, ack)
  {
    hide Acknowledged;
    if es != [] {
      var n := |es| - 1;
      AckCompletesCovered(es[..n], ack);
      if es[n].op.waiting {
        AcknowledgedIsCovered(es[n], ack);
      }
    }
  }

  lemma AcknowledgedIsCovered(e: Entry, ack: nat)
    requires e.op.endPsn == e.last % TWO_24 && -HALF_SPACE <= ack - e.last < HALF_SPACE
    ensures Acknowledged(e.op, ack % TWO_24) <==> e.last <= ack
  {
    HalfSpaceIsOrder(ack, e.last);
  }

  predicate InPostingOrder(es: seq<Entry>) {
    forall i, j :: 0 <= i < j < |es| ==> es[i].id < es[j].id
  }

  lemma OrderAppend(es: seq<Entry>, e: Entry)
    requires InPostingOrder(es) && forall x <- es :: x.id < e.id
    ensures InPostingOrder(es + [e])
  {
    forall i | 0 <= i < |es| ensures es[i].id < e.id {
      assert es[i] in es;
    }
  }

  lemma {:induction false} AckKeepsOrder(es: seq<Entry>, ack: U24)
    requires InPostingOrder(es)
    ensures InPostingOrder(SurvivingEntries(es, ack)) && InPostingOrder(CompletedEntries(es, ack))
    ensures forall x <- SurvivingEntries(es, ack) + CompletedEntries(es, ack) :: x in es
  {
    hide Acknowledged;
    if es != [] {
      var n := |es| - 1;
      var survivors, done := SurvivingEntries(es[..n], ack), CompletedEntries(es[..n], ack);
      AckKeepsOrder(es[..n], ack);
      forall x | x in survivors || x in done ensures x in es && x.id < es[n].id {
        assert x in survivors + done;
        var i :| 0 <= i < n && es[i] == x;
      }
      OrderAppend(survivors, es[n]);
      OrderAppend(done, es[n]);
      assert survivors + [] == survivors && done + [] == done;
    }
  }

  // ---------------------------------------------------------------------------
  // Retry bound and backoff
  // ---------------------------------------------------------------------------

  /** The least time k timeouts take: the sum of the first k timeout values. */
  function MinElapsed(cfg: Config, k: nat): nat {
    if k == 0 then 0 else MinElapsed(cfg, k - 1) + Timeout(cfg, k - 1)
  }

  ghost predicate EntryOk(cfg: Config, clock: nat, posted: nat, e: Entry) {
    && e.id < posted
    && e.op.endPsn == e.last % TWO_24
    && (e.op.waiting ==> e.op.retryCount <= Max(cfg.maxRetries, cfg.rnrRetryCount))
    && e.scheduled <= e.op.retryCount && e.scheduled <= cfg.maxRetries
    && e.op.sendTime <= clock && e.postedAt <= clock
    && (!e.nakked ==> e.op.sendTime >= e.postedAt + MinElapsed(cfg, e.op.retryCount))
  }

  ghost predicate Inv(cfg: Config, s: Track) {
    InPostingOrder(s.entries) && forall e <- s.entries :: EntryOk(cfg, s.clock, s.posted, e)
  }

  lemma NakEntryOk(cfg: Config, clock: nat, posted: nat, e: Entry, psn: U24, syndrome: Byte)
    requires EntryOk(cfg, clock, posted, e)
    ensures EntryOk(cfg, clock, posted, NakEntry(cfg, e, psn, syndrome))
  {
    hide NakHits;
    hide MinElapsed;
  }

  lemma TickEntryOk(cfg: Config, clock: nat, posted: nat, e: Entry, now: U64)
    requires EntryOk(cfg, clock, posted, e) && clock <= now
    ensures EntryOk(cfg, now, posted, TickEntry(cfg, e, now))
  {
    hide Timeout;
    assert MinElapsed(cfg, e.op.retryCount + 1) == MinElapsed(cfg, e.op.retryCount) + Timeout(cfg, e.op.retryCount);
  }

  lemma InvStep(cfg: Config, s: Track, e: Event)
    requires Inv(cfg, s) && (HasTime(e) ==> s.clock <= TimeOf(e))
    ensures Inv(cfg, Step(cfg, s, e))
  {
    hide NakEntry;
    hide TickEntry;
    match e {
      case Post(_, _, _, _, _) =>
        PostInv(cfg, s, e);
      case Ack(psn) =>
        AckKeepsOrder(s.entries, psn);
        forall x <- SurvivingEntries(s.entries, psn) ensures x in s.entries {
          assert x in SurvivingEntries(s.entries, psn) + CompletedEntries(s.entries, psn);
        }
      case Nak(psn, syndrome) =>
        NakInv(cfg, s, psn, syndrome);
      case Tick(now) =>
        TickInv(cfg, s, now);
    }
  }

  lemma PostInv(cfg: Config, s: Track, e: Event)
    requires Inv(cfg, s) && e.Post? && s.clock <= e.time
    ensures Inv(cfg, Step(cfg, s, e))
  {
    forall x <- s.entries ensures EntryOk(cfg, e.time, s.posted + 1, x) && x.id < s.posted {
      assert EntryOk(cfg, s.clock, s.posted, x);
    }
    OrderAppend(s.entries, Entry(NewPending(e.first % TWO_24, e.last % TWO_24, e.wrId, e.opcode, e.time), s.posted, e.last, e.time, 0, false));
  }

  lemma NakInv(cfg: Config, s: Track, psn: U24, syndrome: Byte)
    requires Inv(cfg, s)
    ensures Inv(cfg, Step(cfg, s, Nak(psn, syndrome)))
  {
    hide EntryOk;
    hide NakOp;
    forall i | 0 <= i < |s.entries| ensures EntryOk(cfg, s.clock, s.posted, NakEntry(cfg, s.entries[i], psn, syndrome)) {
      NakEntryOk(cfg, s.clock, s.posted, s.entries[i], psn, syndrome);
    }
  }

  lemma TickInv(cfg: Config, s: Track, now: U64)
    requires Inv(cfg, s) && s.clock <= now
    ensures Inv(cfg, Step(cfg, s, Tick(now)))
  {
    hide EntryOk;
    hide TickOp;
    forall i | 0 <= i < |s.entries| ensures EntryOk(cfg, now, s.posted, TickEntry(cfg, s.entries[i], now)) {
      TickEntryOk(cfg, s.clock, s.posted, s.entries[i], now);
    }
  }

  /** The clock is the time of the last timed event. */
  lemma {:induction false} ClockIsLast(cfg: Config, events: seq<Event>, t: nat)
    requires forall i :: 0 <= i < |events| && HasTime(events[i]) ==> TimeOf(events[i]) <= t
    ensures Run(cfg, events).clock <= t
    decreases |events|
  {
    hide NakEntries;
    hide TickEntries;
    if events != [] {
      ClockIsLast(cfg, events[..|events| - 1], t);
    }
  }

  /**
   * In every reachable state: a waiting operation's retry count is at most the larger of the
   * two limits; a timeout has sent it again at most maxRetries times; and an operation never
   * hit by a NAK that timed out k times has been out for at least the sum of k backoffs.
   */
  lemma {:induction false} RetriesBounded(cfg: Config, events: seq<Event>)
    requires Timely(events)
    ensures Inv(cfg, Run(cfg, events))
    decreases |events|
  {
    hide Step;
    hide Inv;
    if events == [] {
      EmptyInv(cfg);
    } else {
      var before, e := events[..|events| - 1], events[|events| - 1];
      RetriesBounded(cfg, before);
      if HasTime(e) {
        ClockIsLast(cfg, before, TimeOf(e));
      }
      InvStep(cfg, Run(cfg, before), e);
    }
  }

  lemma EmptyInv(cfg: Config)
    ensures Inv(cfg, EMPTY)
  {
  }

  // ---------------------------------------------------------------------------
  // The backoff sum in closed form, and when it holds
  // ---------------------------------------------------------------------------

  lemma DoubleLessOne(a: nat, p: nat)
    ensures a * (2 * p - 1) == a * (p - 1) + a * p
  {
  }

  lemma {:induction false} MinElapsedBound(cfg: Config, k: nat)
    ensures MinElapsed(cfg, k) <= cfg.ackTimeout * (Pow2(k) - 1)
    ensures k > 0 && cfg.ackTimeout * Pow2(k - 1) >= TWO_64 ==> MinElapsed(cfg, k) < cfg.ackTimeout * (Pow2(k) - 1)
    decreases k
  {
    if k > 0 {
      MinElapsedBound(cfg, k - 1);
      var a, p := cfg.ackTimeout, Pow2(k - 1);
      DoubleLessOne(a, p);
      assert Timeout(cfg, k - 1) <= a * p;
    } else {
      assert cfg.ackTimeout * (Pow2(0) - 1) == 0;
    }
  }

  lemma TimeoutFits(cfg: Config, k: nat)
    requires cfg.ackTimeout * Pow2(k) < TWO_64
    ensures Timeout(cfg, k) == cfg.ackTimeout * Pow2(k)
    ensures k > 0 ==> cfg.ackTimeout * Pow2(k - 1) < TWO_64
  {
    if k > 0 {
      assert cfg.ackTimeout * Pow2(k) == 2 * (cfg.ackTimeout * Pow2(k - 1));
    }
  }

  lemma {:induction false} MinElapsedExact(cfg: Config, k: nat)
    requires k > 0 ==> cfg.ackTimeout * Pow2(k - 1) < TWO_64
    ensures MinElapsed(cfg, k) == cfg.ackTimeout * (Pow2(k) - 1)
    decreases k
  {
    hide Timeout;
    if k > 0 {
      TimeoutFits(cfg, k - 1);
      MinElapsedExact(cfg, k - 1);
      DoubleLessOne(cfg.ackTimeout, Pow2(k - 1));
    } else {
      assert cfg.ackTimeout * (Pow2(0) - 1) == 0;
    }
  }

  /**
   * k timeouts take at least ackTimeout * (2^k - 1) exactly when the last of those backoffs
   * still fits in 64 bits; past that the shifted timeout wraps and the sum falls short.
   */
  lemma BackoffDoublesExactly(cfg: Config, k: nat)
    ensures MinElapsed(cfg, k) == cfg.ackTimeout * (Pow2(k) - 1) <==> (k == 0 || cfg.ackTimeout * Pow2(k - 1) < TWO_64)
  {
    if k == 0 || cfg.ackTimeout * Pow2(k - 1) < TWO_64 {
      MinElapsedExact(cfg, k);
    } else {
      MinElapsedBound(cfg, k);
    }
  }

  /** Checked at the earliest moments, k times in a row. */
  function Rushed(cfg: Config, op: Pending, start: nat, k: nat): Pending
    requires start + MinElapsed(cfg, k) < TWO_64
  {
    if k == 0 then op else
    assert start + MinElapsed(cfg, k - 1) < TWO_64;
    TickOp(cfg, Rushed(cfg, op, start, k - 1), start + MinElapsed(cfg, k))
  }

  /** The bound is attained: an operation checked at exactly those moments has timed out k times. */
  lemma {:induction false} BackoffAttained(cfg: Config, op: Pending, start: U64, k: nat)
    requires op.waiting && op.retryCount == 0 && op.sendTime == start && k <= cfg.maxRetries
    requires start + MinElapsed(cfg, k) < TWO_64
    ensures var r := Rushed(cfg, op, start, k);
            r.waiting && r.retryCount == k && r.sendTime == start + MinElapsed(cfg, k)
    decreases k
  {
    hide Timeout;
    if k > 0 {
      BackoffAttained(cfg, op, start, k - 1);
    }
  }

  // ---------------------------------------------------------------------------
  // Checks that are handed the length of their own step
  // ---------------------------------------------------------------------------

  /** An operation after checks at the given times, whatever clock they come from. */
  function Checked(cfg: Config, op: Pending, ds: seq<U64>): Pending {
    if ds == [] then op else TickOp(cfg, Checked(cfg, op, ds[..|ds| - 1]), ds[|ds| - 1])
  }

  /** A whole list after the engine's time steps. */
  function CheckedAll(cfg: Config, ops: seq<Pending>, ds: seq<U64>): (r: seq<Pending>)
    ensures |r| == |ops|
  {
    if ds == [] then ops else TickOps(cfg, CheckedAll(cfg, ops, ds[..|ds| - 1]), ds[|ds| - 1])
  }

  /** Time steps treat every operation of a list on its own. */
  lemma {:induction false} StepsCheckEach(cfg: Config, ops: seq<Pending>, ds: seq<U64>, i: nat)
    requires i < |ops|
    ensures CheckedAll(cfg, ops, ds)[i] == Checked(cfg, ops[i], ds)
    decreases |ds|
  {
    hide TickOp;
    if ds != [] {
      StepsCheckEach(cfg, ops, ds[..|ds| - 1], i);
    }
  }

  /** The time that has really passed when each check is handed the length of its step. */
  function Total(ds: seq<U64>): nat {
    if ds == [] then 0 else Total(ds[..|ds| - 1]) + ds[|ds| - 1]
  }

  predicate NeverDecrease(ds: seq<U64>) { forall i, j :: 0 <= i < j < |ds| ==> ds[i] <= ds[j] }

  /** As the engine posts it: sent at time zero, not retried yet. */
  predicate JustPosted(op: Pending) { op.waiting && op.retryCount == 0 && op.sendTime == 0 }

  /** So far, the retries took at least the summed timeouts. */
  predicate BackedOff(cfg: Config, op: Pending, ds: seq<U64>) { Total(ds) >= MinElapsed(cfg, Checked(cfg, op, ds).retryCount) }

  /**
   * A step shorter than the one that last fired: the unsigned difference wraps, reaches the
   * timeout, and the next retry comes before its time.
   */
  predicate FiresEarly(cfg: Config, op: Pending, total: nat, d: U64) {
    && op.waiting && d < op.sendTime
    && Timeout(cfg, op.retryCount) <= TWO_64 - (op.sendTime - d)
    && total + d < MinElapsed(cfg, op.retryCount + 1)
  }

  /** One check keeps the bound exactly when it does not fire early. */
  lemma CheckKeepsBackoffIff(cfg: Config, op: Pending, total: nat, d: U64)
    requires total >= MinElapsed(cfg, op.retryCount)
    ensures total + d >= MinElapsed(cfg, TickOp(cfg, op, d).retryCount) <==> !FiresEarly(cfg, op, total, d)
  {
    hide Timeout;
  }

  /**
   * With step lengths for times, the retries of an operation take at least the summed timeouts
   * at every moment of the run exactly when no check fires early.
   */
  lemma {:induction false} ElapsedChecksBackOffIff(cfg: Config, op: Pending, ds: seq<U64>)
    requires JustPosted(op)
    ensures (forall j :: 0 <= j <= |ds| ==> BackedOff(cfg, op, ds[..j]))
            <==> (forall j :: 0 <= j < |ds| ==> !FiresEarly(cfg, Checked(cfg, op, ds[..j]), Total(ds[..j]), ds[j]))
    decreases |ds|
  {
    hide Checked, Total, FiresEarly, MinElapsed, TickOp;
    if ds == [] {
      StartBackedOff(cfg, op);
      assert ds[..0] == [];
    } else {
      var n := |ds| - 1;
      var before := ds[..n];
      ElapsedChecksBackOffIff(cfg, op, before);
      assert forall j :: 0 <= j <= n ==> before[..j] == ds[..j];
      assert ds[..n + 1] == ds && forall j :: 0 <= j < n ==> before[j] == ds[j];
      OneMoreCheck(cfg, op, ds);
      if BackedOff(cfg, op, before) {
        CheckKeepsBackoffIff(cfg, Checked(cfg, op, before), Total(before), ds[n]);
      }
      EarlierToo(cfg, op, ds);
    }
  }

  lemma StartBackedOff(cfg: Config, op: Pending)
    requires JustPosted(op)
    ensures BackedOff(cfg, op, [])
  {
  }

  lemma OneMoreCheck(cfg: Config, op: Pending, ds: seq<U64>)
    requires ds != []
    ensures var before, d := ds[..|ds| - 1], ds[|ds| - 1];
            Checked(cfg, op, ds) == TickOp(cfg, Checked(cfg, op, before), d) && Total(ds) == Total(before) + d
  {
  }

  lemma EarlierToo(cfg: Config, op: Pending, ds: seq<U64>)
    requires ds != []
    ensures var n := |ds| - 1; var before := ds[..n];
            && ((forall j :: 0 <= j <= |ds| ==> BackedOff(cfg, op, ds[..j]))
                <==> (forall j :: 0 <= j <= n ==> BackedOff(cfg, op, before[..j])) && BackedOff(cfg, op, ds))
            && ((forall j :: 0 <= j < |ds| ==> !FiresEarly(cfg, Checked(cfg, op, ds[..j]), Total(ds[..j]), ds[j]))
                <==> (forall j :: 0 <= j < n ==> !FiresEarly(cfg, Checked(cfg, op, before[..j]), Total(before[..j]), before[j]))
                     && !FiresEarly(cfg, Checked(cfg, op, before), Total(before), ds[n]))
  {
    hide Checked, Total, FiresEarly, BackedOff;
    var n := |ds| - 1;
    var before := ds[..n];
    assert forall j :: 0 <= j <= n ==> before[..j] == ds[..j];
    assert ds[..n + 1] == ds && ds[..n] == before && before[..n] == before;
    assert forall j :: 0 <= j < n ==> before[j] == ds[j];
  }

  /** The send time is always one of the step lengths handed in so far, or zero. */
  lemma {:induction false} SendTimeIsAStep(cfg: Config, op: Pending, ds: seq<U64>)
    requires JustPosted(op)
    ensures Checked(cfg, op, ds).sendTime == 0 || Checked(cfg, op, ds).sendTime in ds
    decreases |ds|
  {
    hide Timeout;
    if ds != [] {
      SendTimeIsAStep(cfg, op, ds[..|ds| - 1]);
    }
  }

  /** Steps that never get shorter keep the bound throughout. */
  lemma GrowingStepsBackOff(cfg: Config, op: Pending, ds: seq<U64>)
    requires JustPosted(op) && NeverDecrease(ds)
    ensures BackedOff(cfg, op, ds)
  {
    hide Checked, Total, MinElapsed, Timeout;
    forall j | 0 <= j < |ds| ensures !FiresEarly(cfg, Checked(cfg, op, ds[..j]), Total(ds[..j]), ds[j]) {
      SendTimeIsAStep(cfg, op, ds[..j]);
    }
    ElapsedChecksBackOffIff(cfg, op, ds);
    assert ds[..|ds|] == ds;
  }

  /**
   * A step of 4096 microseconds and then one of 1: with a timeout of 4096 the operation has
   * been sent three times after 4097 microseconds, although two backoffs take 3 * 4096.
   */
  lemma ShortStepRetriesEarly(cfg: Config, op: Pending)
    requires JustPosted(op) && cfg.ackTimeout == 4096 && cfg.maxRetries >= 2
    ensures var r := Checked(cfg, op, [4096, 1]);
            r.waiting && r.retryCount == 2 && Total([4096, 1]) == 4097 < MinElapsed(cfg, 2) == 3 * 4096
  {
    assert [4096, 1][..1] == [4096] && [4096][..0] == [];
    assert Pow2(0) == 1 && Pow2(1) == 2;
    assert Timeout(cfg, 0) == 4096 && Timeout(cfg, 1) == 8192;
    assert Checked(cfg, op, []) == op && Total([]) == 0;
    assert Checked(cfg, op, [4096]) == TickOp(cfg, op, 4096) && Total([4096]) == 4096;
    assert MinElapsed(cfg, 1) == 4096;
  }
}
