/** Which pending operations a refusal, an ACK or a timeout concerns, and what it does to them, over true packet numbers. */
module ReliabilityRules {
  import opened Common
  import opened RoceTypes
  import opened Bits
  import opened Reliability

  /** The packets first to last of a stream, by their unbounded numbers. */
  datatype Span = Span(first: nat, last: nat)

  /** The operation covers these packets, fewer than 2^24 of them. */
  predicate Covering(op: Pending, span: Span) {
    span.first <= span.last < span.first + TWO_24 - 1 && op.startPsn == span.first % TWO_24 && op.endPsn == span.last % TWO_24
  }

  /** Packet k is less than 2^24 places from either end. */
  predicate Near(span: Span, k: nat) { span.last - TWO_24 < k < span.first + TWO_24 }

  /** The packets of an operation a refusal with this syndrome has to name to concern it. */
  predicate Names(span: Span, k: nat, syndrome: Byte) {
    match syndrome
    case 0x60 => span.first <= k <= span.last
    case 0x20 => k == span.first || k == span.last
    case 0x61 => k == span.first
    case 0x62 => k == span.first
    case 0x63 => k == span.first
    case _ => false
  }

  /**
   * A sequence error concerns the operation if it names any of its packets, a receiver that is
   * not ready if it names the first or the last one, the other refusals only if it names the first.
   */
  lemma NakHitsIff(op: Pending, span: Span, k: nat, syndrome: Byte)
    requires Covering(op, span) && Near(span, k)
    ensures NakHits(op, k % TWO_24, syndrome) <==> Names(span, k, syndrome)
  {
    SameNumber(k, span.first);
    SameNumber(k, span.last);
    InSpan(k, span.first, span.last);
  }

  lemma SameNumber(k: int, m: int)
    requires -TWO_24 < k - m < TWO_24
    ensures k % TWO_24 == m % TWO_24 <==> k == m
  {
    ModDifference(k, m);
  }

  lemma InSpan(k: int, first: int, last: int)
    requires first <= last < first + TWO_24 - 1 && last - TWO_24 < k < first + TWO_24
    ensures PsnInWindow(k % TWO_24, first % TWO_24, (last % TWO_24 - first % TWO_24 + 1) % TWO_24) <==> first <= k <= last
  {
    ModDifference(k, first);
    ModSuccessor(last, first);
    SmallMod(k - first);
    SmallMod(last + 1 - first);
  }

  lemma SmallMod(d: int)
    requires -TWO_24 < d < TWO_24
    ensures d % TWO_24 == (if d < 0 then d + TWO_24 else d)
  {
  }

  lemma ModSuccessor(last: int, first: int)
    ensures (last % TWO_24 - first % TWO_24 + 1) % TWO_24 == (last + 1 - first) % TWO_24
  {
  }

  /** How many NAKs of this kind an operation survives. */
  function Limit(cfg: Config, syndrome: Byte): nat {
    match syndrome
    case 0x60 => cfg.maxRetries
    case 0x20 => cfg.rnrRetryCount
    case _ => 0
  }

  /** What a NAK does to one operation. */
  lemma NakEffect(cfg: Config, op: Pending, span: Span, k: nat, syndrome: Byte)
    requires Covering(op, span) && Near(span, k)
    ensures var r := NakOp(cfg, op, k % TWO_24, syndrome);
            && (!Names(span, k, syndrome) ==> r == op)
            && (Names(span, k, syndrome) && syndrome in {0x20, 0x60} ==>
                  && r.retryCount == op.retryCount + 1
                  && (r.waiting <==> op.waiting && op.retryCount < Limit(cfg, syndrome))
                  && r.sendTime == (if syndrome == 0x60 then 0 else op.sendTime))
            && (Names(span, k, syndrome) && syndrome in {0x61, 0x62, 0x63} ==>
                  !r.waiting && r.retryCount == op.retryCount && r.sendTime == op.sendTime)
            && Covering(r, span) && r.wrId == op.wrId && r.opcode == op.opcode
  {
    NakHitsIff(op, span, k, syndrome);
    hide NakHits;
  }

  /** The pending list of a sender, each operation with its packets, all of them near packet k. */
  predicate Spanned(ops: seq<Pending>, spans: seq<Span>, k: nat) {
    |ops| == |spans| && forall i :: 0 <= i < |ops| ==> Covering(ops[i], spans[i]) && Near(spans[i], k)
  }

  /** Some operation the NAK concerns has used up its retries of this kind. */
  predicate LimitReached(cfg: Config, ops: seq<Pending>, spans: seq<Span>, k: nat, syndrome: Byte)
    requires |ops| == |spans|
  {
    exists i :: 0 <= i < |ops| && Names(spans[i], k, syndrome) && ops[i].retryCount >= Limit(cfg, syndrome)
  }

  /** Some operation the NAK concerns has not. */
  predicate RetryLeft(cfg: Config, ops: seq<Pending>, spans: seq<Span>, k: nat, syndrome: Byte)
    requires |ops| == |spans|
  {
    exists i :: 0 <= i < |ops| && Names(spans[i], k, syndrome) && ops[i].retryCount < Limit(cfg, syndrome)
  }

  /** What a NAK reports, and when a receiver that is not ready makes the sender retransmit. */
  lemma NakReport(cfg: Config, ops: seq<Pending>, spans: seq<Span>, k: nat, syndrome: Byte)
    requires Spanned(ops, spans, k)
    ensures NakError(cfg, ops, k % TWO_24, syndrome) ==
            match syndrome
            case 0x61 => Some(RemoteInvalidRequestError)
            case 0x62 => Some(RemoteAccessError)
            case 0x63 => Some(RemoteOperationError)
            case 0x60 => if LimitReached(cfg, ops, spans, k, syndrome) then Some(RetryExceededError) else None
            case 0x20 => if LimitReached(cfg, ops, spans, k, syndrome) then Some(RnrRetryExceededError) else None
            case _ => None
    ensures syndrome == 0x20 ==>
              (SomeToRetry(cfg, ops, k % TWO_24, syndrome) <==> RetryLeft(cfg, ops, spans, k, syndrome))
  {
    forall i | 0 <= i < |ops| ensures NakHits(ops[i], k % TWO_24, syndrome) <==> Names(spans[i], k, syndrome) {
      NakHitsIff(ops[i], spans[i], k, syndrome);
    }
    hide NakHits, Covering, Near;
    if syndrome in {0x20, 0x60} {
      assert SomeExhausted(cfg, ops, k % TWO_24, syndrome) <==> LimitReached(cfg, ops, spans, k, syndrome) by {
        hide Names;
        if LimitReached(cfg, ops, spans, k, syndrome) {
          var i :| 0 <= i < |ops| && Names(spans[i], k, syndrome) && ops[i].retryCount >= Limit(cfg, syndrome);
          assert Exhausted(cfg, ops[i], k % TWO_24, syndrome);
        }
      }
    }
  }

  /** A NAK keeps every operation's packets, so the account above goes on over any run of them. */
  lemma NakKeepsSpans(cfg: Config, ops: seq<Pending>, spans: seq<Span>, k: nat, syndrome: Byte)
    requires Spanned(ops, spans, k)
    ensures Spanned(NakOps(cfg, ops, k % TWO_24, syndrome), spans, k)
  {
    hide NakOp, Near, Covering;
    forall i | 0 <= i < |ops| ensures Covering(NakOps(cfg, ops, k % TWO_24, syndrome)[i], spans[i]) {
      NakEffect(cfg, ops[i], spans[i], k, syndrome);
    }
  }

  // ---------------------------------------------------------------------------
  // A receiver that stays not ready
  // ---------------------------------------------------------------------------

  /** The pending list after n such NAKs for packet k. */
  function NotReady(cfg: Config, ops: seq<Pending>, k: nat, n: nat): (r: seq<Pending>)
    ensures |r| == |ops|
  {
    if n == 0 then ops else NakOps(cfg, NotReady(cfg, ops, k, n - 1), k % TWO_24, SYNDROME_RNR_NAK)
  }

  /** Every NAK counts against the operations whose first or last packet it names, and against no other. */
  lemma {:induction false} NotReadyCounts(cfg: Config, ops: seq<Pending>, spans: seq<Span>, k: nat, n: nat)
    requires Spanned(ops, spans, k)
    ensures Spanned(NotReady(cfg, ops, k, n), spans, k)
    ensures forall i :: 0 <= i < |ops| ==>
              var r := NotReady(cfg, ops, k, n)[i];
              if k in {spans[i].first, spans[i].last}
              then r.retryCount == ops[i].retryCount + n
                   && (r.waiting <==> ops[i].waiting && (n > 0 ==> r.retryCount <= cfg.rnrRetryCount))
              else r == ops[i]
  {
    hide NakOp, NakHits, Near, Covering;
    if n > 0 {
      NotReadyCounts(cfg, ops, spans, k, n - 1);
      var before := NotReady(cfg, ops, k, n - 1);
      NakKeepsSpans(cfg, before, spans, k, SYNDROME_RNR_NAK);
      forall i | 0 <= i < |ops|
        ensures var r := NotReady(cfg, ops, k, n)[i];
                if k in {spans[i].first, spans[i].last}
                then r.retryCount == ops[i].retryCount + n
                     && (r.waiting <==> ops[i].waiting && r.retryCount <= cfg.rnrRetryCount)
                else r == ops[i]
      {
        NakEffect(cfg, before[i], spans[i], k, SYNDROME_RNR_NAK);
      }
    }
  }

  /**
   * A receiver that stays not ready: an operation just posted, the only one that starts or ends
   * with packet k, is sent again rnrRetryCount times and keeps waiting; the NAK after that
   * reports that retries ran out, and the operation waits no longer.
   */
  lemma RetriesThenFails(cfg: Config, ops: seq<Pending>, spans: seq<Span>, k: nat, i: nat, n: nat)
    requires Spanned(ops, spans, k) && i < |ops| && ops[i].waiting && ops[i].retryCount == 0 && k in {spans[i].first, spans[i].last}
    requires forall m :: 0 <= m < |ops| && m != i ==> k != spans[m].first && k != spans[m].last
    requires n <= cfg.rnrRetryCount
    ensures var before := NotReady(cfg, ops, k, n);
            var error, again := NakError(cfg, before, k % TWO_24, SYNDROME_RNR_NAK), SomeToRetry(cfg, before, k % TWO_24, SYNDROME_RNR_NAK);
            var after := NotReady(cfg, ops, k, n + 1)[i];
            if n < cfg.rnrRetryCount then error == None && again && after.waiting && after.retryCount == n + 1
            else error == Some(RnrRetryExceededError) && !again && !after.waiting
  {
    NotReadyCounts(cfg, ops, spans, k, n);
    NotReadyCounts(cfg, ops, spans, k, n + 1);
    var before := NotReady(cfg, ops, k, n);
    hide NotReady, SomeToRetry, SomeExhausted, NakError, Near, Covering;
    NakReport(cfg, before, spans, k, SYNDROME_RNR_NAK);
    assert Names(spans[i], k, SYNDROME_RNR_NAK);
  }

  // ---------------------------------------------------------------------------
  // What is reported
  // ---------------------------------------------------------------------------

  /** The identifiers reported are those of the operations, one each and in their order. */
  lemma {:induction false} WrIdsAt(ops: seq<Pending>, i: nat)
    requires i < |ops|
    ensures |WrIds(ops)| == |ops| && WrIds(ops)[i] == ops[i].wrId
    decreases |ops|
  {
    var n := |ops| - 1;
    if n == 0 {
      assert WrIds(ops[..0]) == [];
    } else {
      WrIdsAt(ops[..n], if i < n then i else 0);
    }
  }

  /** A timeout check sends this operation again: it counts one retry more and still waits. */
  predicate SentAgain(cfg: Config, op: Pending, now: U64) {
    op.waiting && TickOp(cfg, op, now).waiting && TickOp(cfg, op, now).retryCount == op.retryCount + 1
  }

  /** The first numbers of the operations sent again, in posting order. */
  function AgainIn(cfg: Config, ops: seq<Pending>, now: U64, from: nat): seq<U24>
    requires from <= |ops|
    decreases |ops| - from
  {
    if from == |ops| then []
    else (if SentAgain(cfg, ops[from], now) then [ops[from].startPsn] else []) + AgainIn(cfg, ops, now, from + 1)
  }

  /** A timeout check returns exactly the first numbers of the operations it sends again, in posting order. */
  lemma RetransmittedExactly(cfg: Config, ops: seq<Pending>, now: U64)
    ensures RetransmitPsns(cfg, ops, now) == AgainIn(cfg, ops, now, 0)
  {
    AgainFrom(cfg, ops, now, |ops|);
    assert ops[..|ops|] == ops;
  }

  lemma {:induction false} AgainFrom(cfg: Config, ops: seq<Pending>, now: U64, i: nat)
    requires i <= |ops|
    ensures AgainIn(cfg, ops, now, 0) == RetransmitPsns(cfg, ops[..i], now) + AgainIn(cfg, ops, now, i)
    decreases i
  {
    hide Timeout, Elapsed;
    if i > 0 {
      AgainFrom(cfg, ops, now, i - 1);
      assert ops[..i][..i - 1] == ops[..i - 1];
    }
  }

  /** When a check acts on an operation: the time since it was sent, on a 64-bit clock, has reached the doubled timeout. */
  lemma TimeoutEffect(cfg: Config, op: Pending, now: U64, elapsed: nat, timeout: nat)
    requires elapsed == (now - op.sendTime) % TWO_64 && timeout == (cfg.ackTimeout * Pow2(op.retryCount)) % TWO_64
    ensures var r := TickOp(cfg, op, now);
            if op.waiting && elapsed >= timeout
            then r == op.(retryCount := op.retryCount + 1, sendTime := now, waiting := op.retryCount < cfg.maxRetries)
            else r == op
  {
    assert Elapsed(now, op.sendTime) == elapsed;
  }
}
