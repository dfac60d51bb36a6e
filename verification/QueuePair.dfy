/** The RDMA queue pair: connection state, sequence numbers and receive queue. */
module RoceQueuePair {
  import opened Common
  import opened RoceTypes

  datatype QpState = Reset | Init | Rtr | Rts | Sqd | SqErr | Error

  datatype Qp = Qp(number: U32, pd: U32, state: QpState, destQp: U32, pathMtu: Byte, sqPsn: U24, rqPsn: U24, recvQueue: seq<RecvWqe>)

  predicate CanReceive(qp: Qp) { qp.state == Rtr || qp.state == Rts }

  predicate CanSend(qp: Qp) { qp.state == Rts }

  predicate ValidTransition(from: QpState, to: QpState) {
    match from
    case Reset => to == Init || to == Reset
    case Init => to == Rtr || to == Reset || to == Error
    case Rtr => to == Rts || to == Reset || to == Error
    case Rts => to == Sqd || to == Reset || to == Error || to == SqErr
    case Sqd => to == Rts || to == Reset || to == Error
    case SqErr => to == Reset || to == Error
    case Error => to == Reset
  }

  /** What a caller may change; sequence numbers are masked to 24 bits. */
  datatype ModifyParams = ModifyParams(target: Option<QpState>, destQp: Option<U32>, sqPsn: Option<U32>, rqPsn: Option<U32>,
                                       pathMtu: Option<Byte>)

  function ToState(target: QpState): ModifyParams { ModifyParams(Some(target), None, None, None, None) }

  function Or<T>(given: Option<T>, current: T): T { if given.Some? then given.value else current }

  function Modified(qp: Qp, params: ModifyParams): Qp {
    qp.(state := Or(params.target, qp.state), destQp := Or(params.destQp, qp.destQp),
        sqPsn := Or(params.sqPsn, qp.sqPsn) % TWO_24, rqPsn := Or(params.rqPsn, qp.rqPsn) % TWO_24,
        pathMtu := Or(params.pathMtu, qp.pathMtu))
  }

  class RdmaQueuePair {
    const number: U32
    const pd: U32
    const recvQueueDepth: nat
    var state: QpState
    var destQp: U32
    var pathMtu: Byte
    var sqPsn: U24
    var rqPsn: U24
    var recvQueue: seq<RecvWqe>

    constructor (number: U32, pd: U32, recvQueueDepth: nat)
      ensures View() == Qp(number, pd, Reset, 0, 3, 0, 0, []) && this.recvQueueDepth == recvQueueDepth
    {
      this.number, this.pd, this.recvQueueDepth := number, pd, recvQueueDepth;
      state, destQp, pathMtu, sqPsn, rqPsn, recvQueue := Reset, 0, 3, 0, 0, [];
    }

    ghost function View(): Qp
      reads this
    {
      Qp(number, pd, state, destQp, pathMtu, sqPsn, rqPsn, recvQueue)
    }

    /** Applies all given parameters, or none when the state may not change as asked. */
    method Modify(params: ModifyParams) returns (ok: bool)
      modifies this`state, this`destQp, this`sqPsn, this`rqPsn, this`pathMtu
      ensures ok <==> params.target.Some? ==> ValidTransition(old(state), params.target.value)
      ensures View() == if ok then Modified(old(View()), params) else old(View())
      ensures ok ==> state == (if params.target.Some? then params.target.value else old(state))
                     && destQp == (if params.destQp.Some? then params.destQp.value else old(destQp))
                     && sqPsn == (if params.sqPsn.Some? then params.sqPsn.value % 0x100_0000 else old(sqPsn))
                     && rqPsn == (if params.rqPsn.Some? then params.rqPsn.value % 0x100_0000 else old(rqPsn))
                     && pathMtu == (if params.pathMtu.Some? then params.pathMtu.value else old(pathMtu))
    {
      if params.target.Some? {
        if !ValidTransition(state, params.target.value) {
          return false;
        }
        state := params.target.value;
      }
      if params.destQp.Some? {
        destQp := params.destQp.value;
      }
      if params.sqPsn.Some? {
        sqPsn := params.sqPsn.value % TWO_24;
      }
      if params.rqPsn.Some? {
        rqPsn := params.rqPsn.value % TWO_24;
      }
      if params.pathMtu.Some? {
        pathMtu := params.pathMtu.value;
      }
      ok := true;
    }

    method PostRecv(wqe: RecvWqe) returns (ok: bool)
      modifies this`recvQueue
      ensures ok <==> old(state) in {Init, Rtr, Rts} && |old(recvQueue)| < recvQueueDepth
      ensures recvQueue == if ok then old(recvQueue) + [wqe] else old(recvQueue)
    {
      if state !in {Init, Rtr, Rts} || |recvQueue| >= recvQueueDepth {
        return false;
      }
      recvQueue := recvQueue + [wqe];
      ok := true;
    }

    method ConsumeRecv() returns (wqe: Option<RecvWqe>)
      modifies this`recvQueue
      ensures wqe.Some? <==> CanReceive(View()) && old(recvQueue) != []
      ensures old(recvQueue) == if wqe.Some? then [wqe.value] + recvQueue else recvQueue
    {
      if (state != Rtr && state != Rts) || recvQueue == [] {
        return None;
      }
      wqe := Some(recvQueue[0]);
      recvQueue := recvQueue[1..];
    }

    method NextSendPsn() returns (psn: U24)
      modifies this`sqPsn
      ensures psn == old(sqPsn) && sqPsn == AdvancePsn(psn, 1)
    {
      psn := sqPsn;
      sqPsn := AdvancePsn(sqPsn, 1);
    }

    method AdvanceRecvPsn()
      modifies this`rqPsn
      ensures rqPsn == AdvancePsn(old(rqPsn), 1)
    {
      rqPsn := AdvancePsn(rqPsn, 1);
    }
  }

  lemma AdvanceNone(psn: U24)
    ensures AdvancePsn(psn, 0) == psn
  {
  }

  /** Consecutive advances add up, around the wrap. */
  lemma AdvanceTwice(psn: U24, a: nat, b: nat)
    ensures AdvancePsn(AdvancePsn(psn, a), b) == AdvancePsn(psn, a + b)
  {
  }

  /** Two packets fewer than 2^24 apart never share a sequence number. */
  lemma AdvanceInjective(psn: U24, a: nat, b: nat)
    requires AdvancePsn(psn, a) == AdvancePsn(psn, b)
    requires -TWO_24 < a - b < TWO_24
    ensures a == b
  {
  }

  // ---------------------------------------------------------------------------
  // The connection's states over any run
  // ---------------------------------------------------------------------------

  /** Which changes of state are allowed: back to RESET always, to the error state from any state but RESET and itself, and six more. */
  lemma TransitionTable(from: QpState, to: QpState)
    ensures ValidTransition(from, to) <==>
              || to == Reset
              || (to == Error && from != Reset && from != Error)
              || (from, to) in {(Reset, Init), (Init, Rtr), (Rtr, Rts), (Rts, Sqd), (Sqd, Rts), (Rts, SqErr)}
  {
  }

  /** The queue pair after a run of modifications, refused ones included. */
  function ModifiedBy(qp: Qp, run: seq<ModifyParams>): Qp {
    if run == [] then qp else
    var before, params := ModifiedBy(qp, run[..|run| - 1]), run[|run| - 1];
    if params.target.Some? && !ValidTransition(before.state, params.target.value) then before else Modified(before, params)
  }

  function StateAt(qp: Qp, run: seq<ModifyParams>, n: nat): QpState
    requires n <= |run|
  {
    ModifiedBy(qp, run[..n]).state
  }

  /** Since the pair was last in RESET it went through INIT at i and then RTR at j. */
  predicate CameThrough(qp: Qp, run: seq<ModifyParams>, n: nat, i: nat, j: nat)
    requires n <= |run|
  {
    i < j <= n && StateAt(qp, run, i) == Init && StateAt(qp, run, j) == Rtr && forall m :: i <= m <= n ==> StateAt(qp, run, m) != Reset
  }

  lemma ModifyStep(qp: Qp, run: seq<ModifyParams>, n: nat)
    requires n < |run|
    ensures StateAt(qp, run, n + 1) == StateAt(qp, run, n) || ValidTransition(StateAt(qp, run, n), StateAt(qp, run, n + 1))
  {
    assert run[..n + 1][..n] == run[..n];
  }

  /**
   * A pair that starts in RESET sends, over any run of modifications, only after INIT and RTR:
   * in RTS, SQD and SQErr it has come through both, in this order, since it was last reset; in
   * RTR it has come through INIT.
   */
  lemma {:induction false} OnlyThroughInitAndRtr(qp: Qp, run: seq<ModifyParams>, n: nat)
    requires qp.state == Reset && n <= |run|
    ensures StateAt(qp, run, n) in {Rts, Sqd, SqErr} ==> exists i, j :: CameThrough(qp, run, n, i, j)
    ensures StateAt(qp, run, n) == Rtr ==> exists i :: CameThrough(qp, run, n, i, n)
    decreases n
  {
    hide StateAt;
    if n > 0 {
      ModifyStep(qp, run, n - 1);
      OnlyThroughInitAndRtr(qp, run, n - 1);
      var was, now := StateAt(qp, run, n - 1), StateAt(qp, run, n);
      if now in {Rts, Sqd, SqErr} {
        if was == Rtr {
          var i :| CameThrough(qp, run, n - 1, i, n - 1);
          assert CameThrough(qp, run, n, i, n - 1);
        } else {
          var i, j :| CameThrough(qp, run, n - 1, i, j);
          assert CameThrough(qp, run, n, i, j);
        }
      } else if now == Rtr {
        if was == Rtr {
          var i :| CameThrough(qp, run, n - 1, i, n - 1);
          assert CameThrough(qp, run, n, i, n);
        } else {
          assert CameThrough(qp, run, n, n - 1, n);
        }
      }
    } else {
      StartsAt(qp, run);
    }
  }

  lemma StartsAt(qp: Qp, run: seq<ModifyParams>)
    ensures StateAt(qp, run, 0) == qp.state
  {
  }
}
