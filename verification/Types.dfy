/** Types, constants and sequence-number arithmetic shared by the RoCEv2 transport. */
module RoceTypes {
  import opened Common
  import Bits

  // ---------------------------------------------------------------------------
  // Packet sequence numbers
  // ---------------------------------------------------------------------------

  /** 24-bit sequence numbers wrap. */
  function AdvancePsn(psn: U24, increment: nat): U24 {
    (psn + increment) % TWO_24
  }

  /** psn lies in [base, base + window) on the 24-bit circle. */
  predicate PsnInWindow(psn: U24, base: U24, window: nat) {
    (psn - base) % TWO_24 < window
  }

  // ---------------------------------------------------------------------------
  // Opcodes and syndromes, by their code on the wire
  // ---------------------------------------------------------------------------

  const SEND_FIRST: Byte := 0x00
  const SEND_MIDDLE: Byte := 0x01
  const SEND_LAST: Byte := 0x02
  const SEND_LAST_IMM: Byte := 0x03
  const SEND_ONLY: Byte := 0x04
  const SEND_ONLY_IMM: Byte := 0x05
  const WRITE_FIRST: Byte := 0x06
  const WRITE_MIDDLE: Byte := 0x07
  const WRITE_LAST: Byte := 0x08
  const WRITE_LAST_IMM: Byte := 0x09
  const WRITE_ONLY: Byte := 0x0A
  const WRITE_ONLY_IMM: Byte := 0x0B
  const READ_REQUEST: Byte := 0x0C
  const READ_RESPONSE_FIRST: Byte := 0x0D
  const READ_RESPONSE_MIDDLE: Byte := 0x0E
  const READ_RESPONSE_LAST: Byte := 0x0F
  const READ_RESPONSE_ONLY: Byte := 0x10
  const ACKNOWLEDGE: Byte := 0x11

  const SYNDROME_ACK: Byte := 0x00
  const SYNDROME_RNR_NAK: Byte := 0x20
  const SYNDROME_PSN_SEQ_ERROR: Byte := 0x60
  const SYNDROME_INVALID_REQUEST: Byte := 0x61
  const SYNDROME_REMOTE_ACCESS_ERROR: Byte := 0x62
  const SYNDROME_REMOTE_OP_ERROR: Byte := 0x63

  predicate OpcodeIsFirst(op: Byte) { op in {SEND_FIRST, WRITE_FIRST, READ_RESPONSE_FIRST} }

  predicate OpcodeIsLast(op: Byte) {
    op in {SEND_LAST, SEND_LAST_IMM, WRITE_LAST, WRITE_LAST_IMM, READ_RESPONSE_LAST}
  }

  predicate OpcodeIsOnly(op: Byte) {
    op in {SEND_ONLY, SEND_ONLY_IMM, WRITE_ONLY, WRITE_ONLY_IMM, READ_RESPONSE_ONLY}
  }

  predicate OpcodeIsSend(op: Byte) { SEND_FIRST <= op <= SEND_ONLY_IMM }

  predicate OpcodeIsWrite(op: Byte) { WRITE_FIRST <= op <= WRITE_ONLY_IMM }

  predicate OpcodeIsReadResponse(op: Byte) { READ_RESPONSE_FIRST <= op <= READ_RESPONSE_ONLY }

  // ---------------------------------------------------------------------------
  // Work requests and completions
  // ---------------------------------------------------------------------------

  datatype WqeOpcode = Send | SendImm | RdmaWrite | RdmaWriteImm | RdmaRead

  datatype WqeStatus =
    | Success
    | LocalAccessError
    | RemoteInvalidRequestError
    | RemoteAccessError
    | RemoteOperationError
    | RetryExceededError
    | RnrRetryExceededError

  datatype SglEntry = SglEntry(address: U64, length: U64)

  datatype SendWqe = SendWqe(wrId: U64, opcode: WqeOpcode, sgl: seq<SglEntry>, totalLength: U32,
                             solicited: bool, immediate: U32, remoteAddress: U64, rkey: U32, lkey: U32)

  datatype RecvWqe = RecvWqe(wrId: U64, sgl: seq<SglEntry>)

  datatype Cqe = Cqe(wrId: U64, status: WqeStatus, opcode: WqeOpcode, qpNumber: U32,
                     bytesCompleted: U32, immediate: Option<U32>, isSend: bool)

  // ---------------------------------------------------------------------------
  // Cutting a message into packets
  // ---------------------------------------------------------------------------

  /** Path MTU code to bytes; unknown codes mean 1024. */
  function MtuBytes(code: Byte): (mtu: nat)
    ensures 256 <= mtu <= 4096
  {
    match code
    case 1 => 256
    case 2 => 512
    case 3 => 1024
    case 4 => 2048
    case 5 => 4096
    case _ => 1024
  }

  /** The packet count as computed, in 32-bit arithmetic that wraps. */
  function PacketCount(length: U32, mtu: nat): nat
    requires mtu > 0
  {
    if length == 0 then 1 else ((length + mtu - 1) % TWO_32) / mtu
  }

  /** n packets of at most mtu bytes, no fewer than needed, carry length bytes. */
  predicate Covers(n: nat, length: nat, mtu: nat) {
    n >= 1 && (n - 1) * mtu <= length <= n * mtu && (n > 1 ==> (n - 1) * mtu < length)
  }

  /** The i-th slice of a message cut every mtu bytes. */
  function Slice(msg: seq<Byte>, mtu: nat, i: nat): (s: seq<Byte>)
    ensures i * mtu <= |msg| ==> |s| == Min(mtu, |msg| - i * mtu)
  {
    if i * mtu > |msg| then [] else
    assert (i + 1) * mtu == i * mtu + mtu;
    msg[i * mtu..Min((i + 1) * mtu, |msg|)]
  }

  /** Walking the slices: where packet i starts, and where the next one does. */
  lemma OffsetStep(n: nat, length: nat, mtu: nat, i: nat)
    requires i < n && (Covers(n, length, mtu) || n == 0)
    ensures i * mtu <= length
    ensures Min((i + 1) * mtu, length) == i * mtu + Min(mtu, length - i * mtu)
    ensures i + 1 < n ==> (i + 1) * mtu <= length
    ensures i + 1 == n ==> (i + 1) * mtu >= length
  {
    assert (i + 1) * mtu == i * mtu + mtu;
    MulMonotone(i, n - 1, mtu);
    if i + 1 < n {
      MulMonotone(i + 1, n - 1, mtu);
    }
  }

  lemma MulMonotone(a: nat, b: nat, m: nat)
    requires a <= b
    ensures a * m <= b * m
  {
    assert b * m == a * m + (b - a) * m;
  }

  /**
   * The computed packet count is the ceiling quotient exactly when the 32-bit sum does
   * not wrap; when it wraps, the count is zero and no packet is produced at all.
   */
  lemma PacketCountExact(length: U32, mtu: nat)
    requires 256 <= mtu <= 4096
    ensures Covers(PacketCount(length, mtu), length, mtu) <==> length + mtu - 1 < TWO_32
    ensures length + mtu - 1 >= TWO_32 ==> PacketCount(length, mtu) == 0
  {
    if length > 0 {
      if length + mtu - 1 < TWO_32 {
        CeilingCovers(length, mtu);
      } else {
        var wrapped := length + mtu - 1 - TWO_32;
        assert (length + mtu - 1) % TWO_32 == wrapped;
        Bits.DivUnique(wrapped, mtu, 0, wrapped);
      }
    }
  }

  lemma CeilingCovers(length: nat, mtu: nat)
    requires length > 0 && mtu > 0
    ensures Covers((length + mtu - 1) / mtu, length, mtu)
  {
    var n, r := (length + mtu - 1) / mtu, (length + mtu - 1) % mtu;
    assert length + mtu - 1 == n * mtu + r;
    assert (n - 1) * mtu == n * mtu - mtu;
    if n == 0 {
      assert false;
    }
  }
}
