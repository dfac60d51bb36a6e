/** The host memory the transport reads from and writes into. */
module HostMemory {
  import opened Common

  /** Identity-mapped memory with a fault injector that may veto an access by address and length. */
  datatype Host = Host(bytes: seq<Byte>, fault: (nat, nat) -> bool)

  /** The whole access lies inside the buffer and no fault is injected. */
  predicate Accessible(h: Host, address: nat, length: nat) {
    !h.fault(address, length) && address <= |h.bytes| && length <= |h.bytes| - address
  }

  ghost predicate FaultFree(h: Host) {
    forall a: nat, n: nat :: !h.fault(a, n)
  }

  /** data laid over bytes at address a. */
  function Splice(bytes: seq<Byte>, a: nat, data: seq<Byte>): (r: seq<Byte>)
    requires a + |data| <= |bytes|
    ensures |r| == |bytes|
    ensures forall i :: 0 <= i < |bytes| ==> r[i] == if a <= i < a + |data| then data[i - a] else bytes[i]
  {
    bytes[..a] + data + bytes[a + |data|..]
  }

  function HostWrite(h: Host, address: nat, data: seq<Byte>): (r: Option<Host>)
    ensures r.Some? <==> Accessible(h, address, |data|)
    ensures r.Some? ==> r.value.fault == h.fault && |r.value.bytes| == |h.bytes|
  {
    if Accessible(h, address, |data|) then Some(h.(bytes := Splice(h.bytes, address, data))) else None
  }

  function HostRead(h: Host, address: nat, length: nat): (r: Option<seq<Byte>>)
    ensures r.Some? <==> Accessible(h, address, length)
    ensures r.Some? ==> |r.value| == length
  {
    if Accessible(h, address, length) then Some(h.bytes[address..address + length]) else None
  }

  /** A byte buffer copied into and out of in place. */
  class SimpleHostMemory {
    const buffer: array<Byte>
    const fault: (nat, nat) -> bool

    constructor (size: nat, fault: (nat, nat) -> bool)
      ensures fresh(buffer)
      ensures View() == Host(seq(size, _ => 0), fault)
    {
      buffer := new Byte[size](_ => 0);
      this.fault := fault;
    }

    ghost function View(): Host
      reads buffer
    {
      Host(buffer[..], fault)
    }

    method Read(address: nat, length: nat) returns (r: Option<seq<Byte>>)
      ensures r == HostRead(View(), address, length)
    {
      if fault(address, length) || address > buffer.Length || length > buffer.Length - address {
        return None;
      }
      r := Some(buffer[address..address + length]);
    }

    method Write(address: nat, data: seq<Byte>) returns (ok: bool)
      modifies buffer
      ensures ok <==> HostWrite(old(View()), address, data).Some?
      ensures View() == if ok then HostWrite(old(View()), address, data).value else old(View())
    {
      if fault(address, |data|) || address > buffer.Length || |data| > buffer.Length - address {
        return false;
      }
      forall i | 0 <= i < |data| {
        buffer[address + i] := data[i];
      }
      assert buffer[..] == Splice(old(buffer[..]), address, data);
      ok := true;
    }
  }
}
