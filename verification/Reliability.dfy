/** Acknowledgement, refusal and timeout handling for posted operations. */
module Reliability {
  import opened Common
  import Bits
  import opened RoceTypes

  const HALF_SPACE := 0x80_0000

  datatype Config = Config(maxRetries: nat, rnrRetryCount: nat, ackTimeout: U64)

  /** An operation awaiting acknowledgement. */
  datatype Pending = Pending(startPsn: U24, endPsn: U24, sendTime: U64, wrId: U64, opcode: WqeOpcode, retryCount: nat, waiting: bool)

  function NewPending(startPsn: U24, endPsn: U24, wrId: U64, opcode: WqeOpcode, time: U64): Pending {
    Pending(startPsn, endPsn, time, wrId, opcode, 0, true)
  }

  // ---------------------------------------------------------------------------
  // Acknowledgements
  // ---------------------------------------------------------------------------

  /** The operation's last packet lies in the half space at or behind the acknowledged one. */
  predicate Acknowledged(op: Pending, ack: U24) { (ack - op.endPsn) % TWO_24 < HALF_SPACE }

  predicate CompletedBy(op: Pending, ack: U24) { op.waiting && Acknowledged(op, ack) }

  /** The waiting operations an ACK completes, in list order. */
  function CompletedOps(ops: seq<Pending>, ack: U24): seq<Pending> {
    if ops == [] then [] else
    var op := ops[|ops| - 1];
    CompletedOps(ops[..|ops| - 1], ack) + if CompletedBy(op, ack) then [op] else []
  }

  /** The operations still waiting after an ACK; failed ones are dropped with the completed ones. */
  function SurvivingOps(ops: seq<Pending>, ack: U24): seq<Pending> {
    if ops == [] then [] else
    var op := ops[|ops| - 1];
    SurvivingOps(ops[..|ops| - 1], ack) + if op.waiting && !Acknowledged(op, ack) then [op] else []
  }

  function WrIds(ops: seq<Pending>): seq<U64> {
    if ops == [] then [] else WrIds(ops[..|ops| - 1]) + [ops[|ops| - 1].wrId]
  }

  lemma NothingCompleted(ops: seq<Pending>, ack: U24)
    ensures WrIds(CompletedOps(ops[..0], ack)) == []
  {
  }

  lemma CompletedStep(ops: seq<Pending>, i: nat, ack: U24)
    requires i < |ops|
    ensures CompletedOps(ops[..i + 1], ack)
         == if CompletedBy(ops[i], ack) then CompletedOps(ops[..i], ack) + [ops[i]] else CompletedOps(ops[..i], ack)
  {
    assert ops[..i + 1][..i] == ops[..i];
  }

  lemma WrIdsStep(ops: seq<Pending>, op: Pending)
    ensures WrIds(ops + [op]) == WrIds(ops) + [op.wrId]
  {
    assert (ops + [op])[..|ops|] == ops;
  }

  // ---------------------------------------------------------------------------
  // Refusals
  // ---------------------------------------------------------------------------

  /** The refusal concerns this operation. */
  predicate NakHits(op: Pending, nak: U24, syndrome: Byte) {
    if syndrome == SYNDROME_PSN_SEQ_ERROR then PsnInWindow(nak, op.startPsn, (op.endPsn - op.startPsn + 1) % TWO_24)
    else if syndrome == SYNDROME_RNR_NAK then op.startPsn == nak || op.endPsn == nak
    else syndrome in {SYNDROME_INVALID_REQUEST, SYNDROME_REMOTE_ACCESS_ERROR, SYNDROME_REMOTE_OP_ERROR} && op.startPsn == nak
  }

  function NakOp(cfg: Config, op: Pending, nak: U24, syndrome: Byte): Pending {
    if !NakHits(op, nak, syndrome) then op
    else if syndrome == SYNDROME_PSN_SEQ_ERROR then
      op.(retryCount := op.retryCount + 1, sendTime := 0, waiting := op.waiting && op.retryCount + 1 <= cfg.maxRetries)
    else if syndrome == SYNDROME_RNR_NAK then
      op.(retryCount := op.retryCount + 1, waiting := op.waiting && op.retryCount + 1 <= cfg.rnrRetryCount)
    else op.(waiting := false)
  }

  /** The NAK hits an operation that has no retry of its kind left. */
  predicate Exhausted(cfg: Config, op: Pending, nak: U24, syndrome: Byte) {
    && NakHits(op, nak, syndrome)
    && (|| (syndrome == SYNDROME_PSN_SEQ_ERROR && op.retryCount + 1 > cfg.maxRetries)
        || (syndrome == SYNDROME_RNR_NAK && op.retryCount + 1 > cfg.rnrRetryCount))
  }

  predicate SomeExhausted(cfg: Config, ops: seq<Pending>, nak: U24, syndrome: Byte) {
    exists i :: 0 <= i < |ops| && Exhausted(cfg, ops[i], nak, syndrome)
  }

  predicate SomeToRetry(cfg: Config, ops: seq<Pending>, nak: U24, syndrome: Byte) {
    exists i :: 0 <= i < |ops| && NakHits(ops[i], nak, syndrome) && !Exhausted(cfg, ops[i], nak, syndrome)
  }

  /** The fatal error a NAK reports: always for a refusal, and for a retryable one when retries ran out. */
  function NakError(cfg: Config, ops: seq<Pending>, nak: U24, syndrome: Byte): Option<WqeStatus> {
    if syndrome == SYNDROME_INVALID_REQUEST then Some(RemoteInvalidRequestError)
    else if syndrome == SYNDROME_REMOTE_ACCESS_ERROR then Some(RemoteAccessError)
    else if syndrome == SYNDROME_REMOTE_OP_ERROR then Some(RemoteOperationError)
    else if !SomeExhausted(cfg, ops, nak, syndrome) then None
    else if syndrome == SYNDROME_RNR_NAK then Some(RnrRetryExceededError)
    else Some(RetryExceededError)
  }

  lemma OneMoreNakked(cfg: Config, ops: seq<Pending>, i: nat, nak: U24, syndrome: Byte)
    requires i < |ops|
    ensures SomeExhausted(cfg, ops[..i + 1], nak, syndrome)
            <==> SomeExhausted(cfg, ops[..i], nak, syndrome) || Exhausted(cfg, ops[i], nak, syndrome)
    ensures SomeToRetry(cfg, ops[..i + 1], nak, syndrome)
            <==> SomeToRetry(cfg, ops[..i], nak, syndrome) || (NakHits(ops[i], nak, syndrome) && !Exhausted(cfg, ops[i], nak, syndrome))
  {
    hide NakHits, Exhausted;
    assert ops[..i + 1] == ops[..i] + [ops[i]];
    assert forall k :: 0 <= k < i ==> ops[..i][k] == ops[..i + 1][k];
    assert ops[..i + 1][i] == ops[i];
  }

  function NakOps(cfg: Config, ops: seq<Pending>, nak: U24, syndrome: Byte): (r: seq<Pending>)
    ensures |r| == |ops|
  {
    seq(|ops|, i requires 0 <= i < |ops| => NakOp(cfg, ops[i], nak, syndrome))
  }

  // ---------------------------------------------------------------------------
  // Timeouts
  // ---------------------------------------------------------------------------

  /** Exponential backoff, in 64-bit arithmetic. */
  function Timeout(cfg: Config, retryCount: nat): U64 { (cfg.ackTimeout * Bits.Pow2(retryCount)) % TWO_64 }

  /** Unsigned difference of two 64-bit clocks. */
  function Elapsed(now: U64, since: U64): U64 { if now >= since then now - since else now - since + TWO_64 }

  predicate TimesOut(cfg: Config, op: Pending, now: U64) {
    op.waiting && Elapsed(now, op.sendTime) >= Timeout(cfg, op.retryCount)
  }

  function TickOp(cfg: Config, op: Pending, now: U64): Pending {
    if !TimesOut(cfg, op, now) then op
    else op.(retryCount := op.retryCount + 1, sendTime := now, waiting := op.retryCount + 1 <= cfg.maxRetries)
  }

  function TickOps(cfg: Config, ops: seq<Pending>, now: U64): (r: seq<Pending>)
    ensures |r| == |ops|
  {
    seq(|ops|, i requires 0 <= i < |ops| => TickOp(cfg, ops[i], now))
  }

  /** The operation is sent again. */
  predicate Retransmits(cfg: Config, op: Pending, now: U64) { TimesOut(cfg, op, now) && op.retryCount + 1 <= cfg.maxRetries }

  function RetransmitPsns(cfg: Config, ops: seq<Pending>, now: U64): seq<U24> {
    if ops == [] then [] else
    var op := ops[|ops| - 1];
    RetransmitPsns(cfg, ops[..|ops| - 1], now) + if Retransmits(cfg, op, now) then [op.startPsn] else []
  }

  // ---------------------------------------------------------------------------
  // The manager
  // ---------------------------------------------------------------------------

  datatype AckResult = AckResult(success: bool, needsRetransmit: bool, completed: seq<U64>, error: Option<WqeStatus>)

  class ReliabilityManager {
    const config: Config
    var pendingOps: map<U32, seq<Pending>>

    constructor (config: Config)
      ensures this.config == config && pendingOps == map[]
    {
      this.config, pendingOps := config, map[];
    }

    method AddPending(qp: U32, startPsn: U24, endPsn: U24, wrId: U64, opcode: WqeOpcode, time: U64)
      modifies this`pendingOps
      ensures pendingOps == old(pendingOps)[qp := (if qp in old(pendingOps) then old(pendingOps)[qp] else [])
                                                  + [NewPending(startPsn, endPsn, wrId, opcode, time)]]
    {
      var ops := if qp in pendingOps then pendingOps[qp] else [];
      pendingOps := pendingOps[qp := ops + [NewPending(startPsn, endPsn, wrId, opcode, time)]];
    }

    /** Marks completed operations and collects their identifiers, then erases all that no longer wait. */
    method ProcessAck(qp: U32, ack: U24) returns (res: AckResult)
      modifies this`pendingOps
      ensures qp !in old(pendingOps) ==> pendingOps == old(pendingOps) && res == AckResult(false, false, [], None)
      ensures qp in old(pendingOps) ==>
                && pendingOps == old(pendingOps)[qp := SurvivingOps(old(pendingOps)[qp], ack)]
                && res == AckResult(true, false, WrIds(CompletedOps(old(pendingOps)[qp], ack)), None)
    {
      if qp !in pendingOps {
        return AckResult(false, false, [], None);
      }
      var ops := pendingOps[qp];
      var marked, completed := CompleteUpTo(ops, ack);
      var kept := [];
      for i := 0 to |marked|
        invariant kept == SurvivingOps(ops[..i], ack)
      {
        assert ops[..i + 1][..i] == ops[..i];
        if marked[i].waiting {
          kept := kept + [marked[i]];
        }
      }
      assert ops[..|ops|] == ops;
      pendingOps := pendingOps[qp := kept];
      res := AckResult(true, false, completed, None);
    }

    method CompleteUpTo(ops: seq<Pending>, ack: U24) returns (marked: seq<Pending>, completed: seq<U64>)
      ensures |marked| == |ops|
      ensures forall i :: 0 <= i < |ops| ==> marked[i] == ops[i].(waiting := ops[i].waiting && !Acknowledged(ops[i], ack))
      ensures completed == WrIds(CompletedOps(ops, ack))
    {
      hide Acknowledged;
      hide CompletedOps;
      hide WrIds;
      NothingCompleted(ops, ack);
      marked, completed := ops, [];
      for i := 0 to |ops|
        invariant |marked| == |ops|
        invariant forall k :: 0 <= k < |ops| ==>
                    marked[k] == if k < i then ops[k].(waiting := ops[k].waiting && !Acknowledged(ops[k], ack)) else ops[k]
        invariant completed == WrIds(CompletedOps(ops[..i], ack))
      {
        CompletedStep(ops, i, ack);
        if marked[i].waiting && Acknowledged(marked[i], ack) {
          WrIdsStep(CompletedOps(ops[..i], ack), ops[i]);
          completed := completed + [marked[i].wrId];
          marked := marked[i := marked[i].(waiting := false)];
        }
      }
      assert ops[..|ops|] == ops;
    }

    /** Applies a refusal to every operation of a list. */
    method NakList(ops: seq<Pending>, nak: U24, syndrome: Byte) returns (r: seq<Pending>, error: Option<WqeStatus>, retransmit: bool)
      ensures r == NakOps(config, ops, nak, syndrome)
      ensures error == NakError(config, ops, nak, syndrome)
      ensures retransmit <==>
                || syndrome == SYNDROME_PSN_SEQ_ERROR
                || (syndrome == SYNDROME_RNR_NAK && SomeToRetry(config, ops, nak, syndrome))
    {
      r, error, retransmit := ops, None, syndrome == SYNDROME_PSN_SEQ_ERROR;
      if syndrome == SYNDROME_INVALID_REQUEST {
        error := Some(RemoteInvalidRequestError);
      } else if syndrome == SYNDROME_REMOTE_ACCESS_ERROR {
        error := Some(RemoteAccessError);
      } else if syndrome == SYNDROME_REMOTE_OP_ERROR {
        error := Some(RemoteOperationError);
      }
      for i := 0 to |ops|
        invariant |r| == |ops|
        invariant forall k :: 0 <= k < |ops| ==> r[k] == if k < i then NakOp(config, ops[k], nak, syndrome) else ops[k]
        invariant error == NakError(config, ops[..i], nak, syndrome)
        invariant retransmit <==>
                    || syndrome == SYNDROME_PSN_SEQ_ERROR
                    || (syndrome == SYNDROME_RNR_NAK && SomeToRetry(config, ops[..i], nak, syndrome))
      {
        hide NakHits, NakOp, SomeExhausted, SomeToRetry;
        OneMoreNakked(config, ops, i, nak, syndrome);
        if NakHits(ops[i], nak, syndrome) {
          if syndrome == SYNDROME_PSN_SEQ_ERROR {
            if ops[i].retryCount + 1 > config.maxRetries {
              error := Some(RetryExceededError);
            }
          } else if syndrome == SYNDROME_RNR_NAK {
            if ops[i].retryCount + 1 > config.rnrRetryCount {
              error := Some(RnrRetryExceededError);
            } else {
              retransmit := true;
            }
          }
        }
        r := r[i := NakOp(config, ops[i], nak, syndrome)];
      }
      assert ops[..|ops|] == ops;
    }

    /** Applies a refusal to every operation of the queue pair. */
    method ProcessNak(qp: U32, nak: U24, syndrome: Byte) returns (res: AckResult)
      modifies this`pendingOps
      ensures pendingOps == if qp in old(pendingOps) then old(pendingOps)[qp := NakOps(config, old(pendingOps)[qp], nak, syndrome)] else old(pendingOps)
      ensures qp in old(pendingOps) ==>
                var ops := old(pendingOps)[qp];
                && res.success && res.completed == []
                && res.error == NakError(config, ops, nak, syndrome)
                && (res.needsRetransmit <==>
                      || syndrome == SYNDROME_PSN_SEQ_ERROR
                      || (syndrome == SYNDROME_RNR_NAK && SomeToRetry(config, ops, nak, syndrome)))
      ensures qp !in old(pendingOps) ==> res == AckResult(false, false, [], None)
    {
      hide NakOps;
      if qp !in pendingOps {
        return AckResult(false, false, [], None);
      }
      var ops, error, retransmit := NakList(pendingOps[qp], nak, syndrome);
      pendingOps := pendingOps[qp := ops];
      res := AckResult(true, retransmit, [], error);
    }

    /** Retries or fails every operation whose timeout has passed. */
    method CheckTimeouts(qp: U32, now: U64) returns (retransmit: seq<U24>)
      modifies this`pendingOps
      ensures pendingOps == if qp in old(pendingOps) then old(pendingOps)[qp := TickOps(config, old(pendingOps)[qp], now)] else old(pendingOps)
      ensures retransmit == if qp in old(pendingOps) then RetransmitPsns(config, old(pendingOps)[qp], now) else []
    {
      retransmit := [];
      if qp !in pendingOps {
        return;
      }
      var ops := pendingOps[qp];
      var r := ops;
      for i := 0 to |ops|
        invariant |r| == |ops|
        invariant forall k :: 0 <= k < |ops| ==> r[k] == if k < i then TickOp(config, ops[k], now) else ops[k]
        invariant retransmit == RetransmitPsns(config, ops[..i], now)
      {
        assert ops[..i + 1][..i] == ops[..i];
        if r[i].waiting && Elapsed(now, r[i].sendTime) >= Timeout(config, r[i].retryCount) {
          var op := r[i].(retryCount := r[i].retryCount + 1, sendTime := now);
          if op.retryCount > config.maxRetries {
            op := op.(waiting := false);
          } else {
            retransmit := retransmit + [op.startPsn];
          }
          r := r[i := op];
        }
      }
      assert ops[..|ops|] == ops;
      assert r == TickOps(config, ops, now);
      pendingOps := pendingOps[qp := r];
    }
  }

  // ---------------------------------------------------------------------------
  // Half-space comparison against unbounded sequence numbers
  // ---------------------------------------------------------------------------

  /** While the true distance is below half the space, the comparison is the true order. */
  lemma HalfSpaceIsOrder(ack: int, last: int)
    requires -HALF_SPACE <= ack - last < HALF_SPACE
    ensures (ack % TWO_24 - last % TWO_24) % TWO_24 < HALF_SPACE <==> last <= ack
  {
    ModDifference(ack, last);
  }

  lemma ModDifference(a: int, b: int)
    ensures (a % TWO_24 - b % TWO_24) % TWO_24 == (a - b) % TWO_24
  {
  }

  /** One step further on either side the comparison is wrong. */
  lemma HalfSpaceIsSharp(ack: int, last: int)
    ensures ack - last == HALF_SPACE ==> (ack % TWO_24 - last % TWO_24) % TWO_24 >= HALF_SPACE && last <= ack
    ensures ack - last == -HALF_SPACE - 1 ==> (ack % TWO_24 - last % TWO_24) % TWO_24 < HALF_SPACE && last > ack
  {
    ModDifference(ack, last);
  }
}
