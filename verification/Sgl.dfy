/** Scatter-gather lists: reading a message out of one, and filling one packet by packet. */
module Sgl {
  import opened Common
  import opened RoceTypes
  import opened HostMemory
  import opened MemoryRegions

  /** Where the next byte goes: an entry and an offset into it. */
  datatype Cursor = Cursor(index: nat, offset: nat)

  const START := Cursor(0, 0)

  /** READ responses check the local key of every stretch they fill; SEND does not. */
  datatype Guard = Unguarded | Guarded(regions: Regions, lkey: nat)

  predicate Permits(g: Guard, address: U64, length: nat) {
    g.Guarded? ==> length < TWO_64 && ValidateLkey(g.regions, g.lkey, address, length, true)
  }

  datatype SglWrite = SglWrite(host: Host, written: nat, cursor: Cursor)

  /** How much goes into the current entry; an offset past its end would wrap to unlimited room. */
  function Stretch(e: SglEntry, offset: nat, available: nat): (n: nat)
    ensures n <= available
    ensures offset <= e.length ==> n == Min(e.length - offset, available)
  {
    if offset <= e.length then Min(e.length - offset, available) else available
  }

  function Destination(e: SglEntry, offset: nat): U64 {
    if e.address + offset < TWO_64 then e.address + offset else (e.address + offset) % TWO_64
  }

  /** Past n more bytes: a full entry hands over to the next one. */
  function NextCursor(e: SglEntry, c: Cursor, n: nat): Cursor {
    if c.offset + n >= e.length then Cursor(c.index + 1, 0) else Cursor(c.index, c.offset + n)
  }

  /** Fills the list from the cursor, entry by entry, stopping at the first refused stretch. */
  function WriteSgl(h: Host, g: Guard, sgl: seq<SglEntry>, data: seq<Byte>, c: Cursor): SglWrite
    decreases |sgl| - c.index, |data|
  {
    if data == [] || c.index >= |sgl| then SglWrite(h, 0, c) else
    var e := sgl[c.index];
    var n := Stretch(e, c.offset, |data|);
    if !Permits(g, Destination(e, c.offset), n) then SglWrite(h, 0, c) else
    match HostWrite(h, Destination(e, c.offset), data[..n])
    case None => SglWrite(h, 0, c)
    case Some(h') =>
      Behind(n, WriteSgl(h', g, sgl, data[n..], NextCursor(e, c, n)))
  }

  lemma Subslices<T>(s: seq<T>, i: nat, n: nat)
    requires i + n <= |s|
    ensures s[i..][..n] == s[i..i + n]
    ensures s[i..][n..] == s[i + n..]
    ensures s[..i] + s[i..][..n] == s[..i + n]
  {
  }

  /** One stretch written, the rest of the data to go. */
  lemma WriteSglStep(h: Host, g: Guard, sgl: seq<SglEntry>, data: seq<Byte>, i: nat, c: Cursor, n: nat, h': Host)
    requires i < |data| && c.index < |sgl|
    requires n == Stretch(sgl[c.index], c.offset, |data| - i)
    requires Permits(g, Destination(sgl[c.index], c.offset), n)
    requires HostWrite(h, Destination(sgl[c.index], c.offset), data[i..i + n]) == Some(h')
    ensures WriteSgl(h, g, sgl, data[i..], c)
         == Behind(n, WriteSgl(h', g, sgl, data[i + n..], NextCursor(sgl[c.index], c, n)))
  {
    Subslices(data, i, n);
  }

  /** Nothing left to write, no entry left, or the next stretch refused. */
  lemma WriteSglStops(h: Host, g: Guard, sgl: seq<SglEntry>, data: seq<Byte>, i: nat, c: Cursor)
    requires i <= |data|
    requires i < |data| && c.index < |sgl| ==>
               var e := sgl[c.index];
               var n := Stretch(e, c.offset, |data| - i);
               !(Permits(g, Destination(e, c.offset), n) && HostWrite(h, Destination(e, c.offset), data[i..i + n]).Some?)
    ensures WriteSgl(h, g, sgl, data[i..], c) == SglWrite(h, 0, c)
  {
    if i < |data| && c.index < |sgl| {
      Subslices(data, i, Stretch(sgl[c.index], c.offset, |data| - i));
    }
  }

  /** A result behind i bytes already written. */
  function Behind(i: nat, r: SglWrite): SglWrite { r.(written := i + r.written) }

  /** Writes one stretch, or leaves memory alone. */
  method WriteStretch(mem: SimpleHostMemory, g: Guard, dest: U64, src: seq<Byte>) returns (ok: bool)
    modifies mem.buffer
    ensures ok <==> Permits(g, dest, |src|) && HostWrite(old(mem.View()), dest, src).Some?
    ensures ok ==> HostWrite(old(mem.View()), dest, src) == Some(mem.View())
    ensures !ok ==> mem.View() == old(mem.View())
  {
    if !Permits(g, dest, |src|) {
      return false;
    }
    ok := mem.Write(dest, src);
  }

  /** The write loop over a real memory and cursor computes WriteSgl. */
  method WriteToSgl(mem: SimpleHostMemory, g: Guard, sgl: seq<SglEntry>, data: seq<Byte>, index0: nat, offset0: nat)
    returns (written: nat, index: nat, offset: nat)
    modifies mem.buffer
    ensures SglWrite(mem.View(), written, Cursor(index, offset)) == WriteSgl(old(mem.View()), g, sgl, data, Cursor(index0, offset0))
  {
    hide WriteSgl;
    hide Permits;
    hide HostWrite;
    written, index, offset := 0, index0, offset0;
    ghost var goal := WriteSgl(mem.View(), g, sgl, data, Cursor(index0, offset0));
    assert data[0..] == data;
    while written < |data| && index < |sgl|
      invariant written <= |data|
      invariant goal == Behind(written, WriteSgl(mem.View(), g, sgl, data[written..], Cursor(index, offset)))
      decreases |sgl| - index, |data| - written
    {
      var e := sgl[index];
      var toWrite := Stretch(e, offset, |data| - written);
      ghost var before, c := mem.View(), Cursor(index, offset);
      Subslices(data, written, toWrite);
      var ok := WriteStretch(mem, g, Destination(e, offset), data[written..written + toWrite]);
      if !ok {
        WriteSglStops(mem.View(), g, sgl, data, written, c);
        return;
      }
      WriteSglStep(before, g, sgl, data, written, c, toWrite, mem.View());
      ghost var next := NextCursor(e, c, toWrite);
      assert goal == Behind(written + toWrite, WriteSgl(mem.View(), g, sgl, data[written + toWrite..], next));
      written, offset := written + toWrite, offset + toWrite;
      if offset >= e.length {
        index, offset := index + 1, 0;
      }
      assert Cursor(index, offset) == next;
    }
    WriteSglStops(mem.View(), g, sgl, data, written, Cursor(index, offset));
  }

  // ---------------------------------------------------------------------------
  // Flat view: a list is a sequence of byte addresses
  // ---------------------------------------------------------------------------

  function Range(a: nat, n: nat): (s: seq<nat>)
    ensures |s| == n
    ensures forall i :: 0 <= i < n ==> s[i] == a + i
  {
    seq(n, i => a + i)
  }

  /** The addresses a list covers, in fill order. */
  function Addresses(sgl: seq<SglEntry>): seq<nat> {
    if sgl == [] then [] else Range(sgl[0].address, sgl[0].length) + Addresses(sgl[1..])
  }

  predicate CursorOk(sgl: seq<SglEntry>, c: Cursor) {
    c.index < |sgl| ==> c.offset <= sgl[c.index].length
  }

  /** The addresses still to be filled from a cursor on. */
  function Remaining(sgl: seq<SglEntry>, c: Cursor): seq<nat>
    requires CursorOk(sgl, c)
  {
    if c.index >= |sgl| then [] else
    assert sgl[c.index..][0] == sgl[c.index];
    Addresses(sgl[c.index..])[c.offset..]
  }

  predicate InRange(sgl: seq<SglEntry>, size: nat) {
    size < TWO_64 && forall i :: 0 <= i < |sgl| ==> sgl[i].address + sgl[i].length <= size
  }

  predicate Within(addrs: seq<nat>, size: nat) {
    forall i :: 0 <= i < |addrs| ==> addrs[i] < size
  }

  /** data[k] stored at addrs[k], in order. */
  function Scatter(bytes: seq<Byte>, addrs: seq<nat>, data: seq<Byte>): (r: seq<Byte>)
    requires |addrs| == |data| && Within(addrs, |bytes|)
    ensures |r| == |bytes|
    decreases |data|
  {
    if data == [] then bytes else
    var n := |data| - 1;
    Scatter(bytes, addrs[..n], data[..n])[addrs[n] := data[n]]
  }

  lemma {:induction false} ScatterConcat(bytes: seq<Byte>, a1: seq<nat>, d1: seq<Byte>, a2: seq<nat>, d2: seq<Byte>)
    requires |a1| == |d1| && |a2| == |d2| && Within(a1, |bytes|) && Within(a2, |bytes|)
    ensures Within(a1 + a2, |bytes|)
    ensures Scatter(bytes, a1 + a2, d1 + d2) == Scatter(Scatter(bytes, a1, d1), a2, d2)
    decreases |d2|
  {
    if d2 == [] {
      assert a1 + a2 == a1 && d1 + d2 == d1;
    } else {
      var n := |d2| - 1;
      ScatterConcat(bytes, a1, d1, a2[..n], d2[..n]);
      assert (a1 + a2)[..|a1| + n] == a1 + a2[..n];
      assert (d1 + d2)[..|d1| + n] == d1 + d2[..n];
    }
  }

  /** Writing a contiguous stretch is scattering to its addresses. */
  lemma {:induction false} SpliceIsScatter(bytes: seq<Byte>, a: nat, data: seq<Byte>)
    requires a + |data| <= |bytes|
    ensures Splice(bytes, a, data) == Scatter(bytes, Range(a, |data|), data)
    decreases |data|
  {
    if data != [] {
      var n := |data| - 1;
      SpliceIsScatter(bytes, a, data[..n]);
      assert Range(a, |data|)[..n] == Range(a, n);
      assert Splice(bytes, a, data) == Splice(bytes, a, data[..n])[a + n := data[n]];
    } else {
      assert Splice(bytes, a, data) == bytes;
    }
  }

  predicate Distinct(addrs: seq<nat>) {
    forall i, j :: 0 <= i < j < |addrs| ==> addrs[i] != addrs[j]
  }

  lemma {:induction false} ScatterKeeps(bytes: seq<Byte>, addrs: seq<nat>, data: seq<Byte>, x: nat)
    requires |addrs| == |data| && Within(addrs, |bytes|) && x < |bytes| && x !in addrs
    ensures Scatter(bytes, addrs, data)[x] == bytes[x]
    decreases |data|
  {
    if data != [] {
      var n := |data| - 1;
      ScatterKeeps(bytes, addrs[..n], data[..n], x);
    }
  }

  lemma {:induction false} ScatterStores(bytes: seq<Byte>, addrs: seq<nat>, data: seq<Byte>, k: nat)
    requires |addrs| == |data| && Within(addrs, |bytes|) && Distinct(addrs) && k < |data|
    ensures Scatter(bytes, addrs, data)[addrs[k]] == data[k]
    decreases |data|
  {
    var n := |data| - 1;
    if k < n {
      ScatterStores(bytes, addrs[..n], data[..n], k);
      assert addrs[k] != addrs[n];
    }
  }

  /** Scattering to distinct addresses leaves exactly the data there and nothing else changed. */
  lemma ScatterReads(bytes: seq<Byte>, addrs: seq<nat>, data: seq<Byte>)
    requires |addrs| == |data| && Within(addrs, |bytes|)
    ensures var r := Scatter(bytes, addrs, data);
            && (Distinct(addrs) ==> forall k :: 0 <= k < |data| ==> r[addrs[k]] == data[k])
            && forall x :: 0 <= x < |bytes| && x !in addrs ==> r[x] == bytes[x]
  {
    hide Scatter, Distinct;
    var r := Scatter(bytes, addrs, data);
    if Distinct(addrs) {
      forall k | 0 <= k < |data| ensures r[addrs[k]] == data[k] {
        ScatterStores(bytes, addrs, data, k);
      }
    }
    forall x | 0 <= x < |bytes| && x !in addrs ensures r[x] == bytes[x] {
      ScatterKeeps(bytes, addrs, data, x);
    }
  }

  lemma {:induction false} AddressesWithin(sgl: seq<SglEntry>, size: nat)
    requires InRange(sgl, size)
    ensures Within(Addresses(sgl), size)
  {
    if sgl != [] {
      assert sgl[0].address + sgl[0].length <= size;
      AddressesWithin(sgl[1..], size);
    }
  }

  lemma RemainingWithin(sgl: seq<SglEntry>, c: Cursor, size: nat)
    requires InRange(sgl, size) && CursorOk(sgl, c)
    ensures Within(Remaining(sgl, c), size)
  {
    if c.index < |sgl| {
      AddressesWithin(sgl[c.index..], size);
    }
  }

  /** Every stretch of every entry carries the permission the guard asks for. */
  ghost predicate GuardOpen(g: Guard, sgl: seq<SglEntry>) {
    forall i, offset: nat, n: nat :: 0 <= i < |sgl| ==> StretchPermitted(g, sgl[i], offset, n)
  }

  predicate StretchPermitted(g: Guard, e: SglEntry, offset: nat, n: nat) {
    offset + n <= e.length && e.address + offset < TWO_64 ==> Permits(g, e.address + offset, n)
  }

  /** The next stretch of the current entry, and what remains behind it. */
  lemma RemainingStep(sgl: seq<SglEntry>, c: Cursor, n: nat)
    requires c.index < |sgl| && c.offset + n <= sgl[c.index].length
    ensures var e := sgl[c.index];
            var c' := NextCursor(e, c, n);
            && CursorOk(sgl, c')
            && |Remaining(sgl, c)| >= n
            && Remaining(sgl, c)[..n] == Range(e.address + c.offset, n)
            && Remaining(sgl, c)[n..] == Remaining(sgl, c')
  {
    var e := sgl[c.index];
    var tail := sgl[c.index + 1..];
    assert sgl[c.index..] == [e] + tail;
    assert Addresses(sgl[c.index..]) == Range(e.address, e.length) + Addresses(tail);
    if c.offset + n >= e.length {
      assert Remaining(sgl, c)[n..] == Addresses(tail);
      if c.index + 1 >= |sgl| {
        assert tail == [];
      }
    }
  }

  /** r stored as much of the data as fits, at the remaining addresses in order. */
  ghost predicate FilledBy(h: Host, sgl: seq<SglEntry>, data: seq<Byte>, c: Cursor, r: SglWrite)
    requires CursorOk(sgl, c)
  {
    var rest := Remaining(sgl, c);
    var n := Min(|data|, |rest|);
    && Within(rest, |h.bytes|)
    && r.written == n
    && r.host == h.(bytes := Scatter(h.bytes, rest[..n], data[..n]))
    && CursorOk(sgl, r.cursor)
    && Remaining(sgl, r.cursor) == rest[n..]
  }

  /**
   * With the list inside memory and no fault, filling from a cursor stores as much of the
   * data as the list still has room for, at the remaining addresses in order.
   */
  lemma {:induction false} WriteSglIsScatter(h: Host, g: Guard, sgl: seq<SglEntry>, data: seq<Byte>, c: Cursor)
    requires FaultFree(h) && InRange(sgl, |h.bytes|) && CursorOk(sgl, c) && GuardOpen(g, sgl)
    ensures FilledBy(h, sgl, data, c, WriteSgl(h, g, sgl, data, c))
    decreases |sgl| - c.index, |data|
  {
    hide WriteSgl;
    hide FilledBy;
    assert data[0..] == data;
    if data == [] || c.index >= |sgl| {
      WriteSglStops(h, g, sgl, data, 0, c);
      FilledNothing(h, sgl, data, c);
    } else {
      var e := sgl[c.index];
      var n := Stretch(e, c.offset, |data|);
      assert e.address + c.offset + n <= |h.bytes|;
      assert StretchPermitted(g, e, c.offset, n);
      assert data[0..0 + n] == data[..n];
      var h' := HostWrite(h, Destination(e, c.offset), data[..n]).value;
      WriteSglStep(h, g, sgl, data, 0, c, n, h');
      RemainingStep(sgl, c, n);
      WriteSglIsScatter(h', g, sgl, data[n..], NextCursor(e, c, n));
      FilledStep(h, sgl, data, c, n, WriteSgl(h', g, sgl, data[n..], NextCursor(e, c, n)));
    }
  }

  lemma FilledNothing(h: Host, sgl: seq<SglEntry>, data: seq<Byte>, c: Cursor)
    requires InRange(sgl, |h.bytes|) && CursorOk(sgl, c)
    requires data == [] || c.index >= |sgl|
    ensures FilledBy(h, sgl, data, c, SglWrite(h, 0, c))
  {
    RemainingWithin(sgl, c, |h.bytes|);
  }

  lemma FilledStep(h: Host, sgl: seq<SglEntry>, data: seq<Byte>, c: Cursor, n: nat, r: SglWrite)
    requires InRange(sgl, |h.bytes|) && c.index < |sgl| && n <= |data| && c.offset + n <= sgl[c.index].length
    requires var e := sgl[c.index];
             && CursorOk(sgl, NextCursor(e, c, n))
             && Accessible(h, e.address + c.offset, n)
             && FilledBy(h.(bytes := Splice(h.bytes, e.address + c.offset, data[..n])), sgl, data[n..], NextCursor(e, c, n), r)
    ensures FilledBy(h, sgl, data, c, Behind(n, r))
  {
    hide Scatter;
    hide Addresses;
    var dest := sgl[c.index].address + c.offset;
    var rest := Remaining(sgl, c);
    RemainingWithin(sgl, c, |h.bytes|);
    RemainingStep(sgl, c, n);
    SpliceIsScatter(h.bytes, dest, data[..n]);
    var m := Min(|data[n..]|, |rest[n..]|);
    assert Min(|data|, |rest|) == n + m;
    ScatterSplit(h.bytes, rest, data, n, m);
    Subslices(rest, n, m);
  }

  /** Storing the first n bytes and then m more. */
  lemma ScatterSplit(bytes: seq<Byte>, rest: seq<nat>, data: seq<Byte>, n: nat, m: nat)
    requires n + m <= |data| && n + m <= |rest| && Within(rest, |bytes|)
    ensures Scatter(bytes, rest[..n + m], data[..n + m])
         == Scatter(Scatter(bytes, rest[..n], data[..n]), rest[n..][..m], data[n..][..m])
  {
    Subslices(rest, n, m);
    Subslices(data, n, m);
    ScatterConcat(bytes, rest[..n], data[..n], rest[n..][..m], data[n..][..m]);
  }

  // ---------------------------------------------------------------------------
  // Gathering
  // ---------------------------------------------------------------------------

  predicate Readable(h: Host, t: Regions, lkey: nat, e: SglEntry) {
    ValidateLkey(t, lkey, e.address, e.length, false) && Accessible(h, e.address, e.length)
  }

  function Gather(h: Host, sgl: seq<SglEntry>): seq<Byte>
    requires forall i :: 0 <= i < |sgl| ==> Accessible(h, sgl[i].address, sgl[i].length)
  {
    if sgl == [] then [] else
    var e := sgl[|sgl| - 1];
    assert Accessible(h, e.address, e.length);
    Gather(h, sgl[..|sgl| - 1]) + h.bytes[e.address..e.address + e.length]
  }

  /** The local message, or nothing when some entry may not be read. */
  function ReadSgl(h: Host, t: Regions, lkey: nat, sgl: seq<SglEntry>): seq<Byte> {
    if forall i :: 0 <= i < |sgl| ==> Readable(h, t, lkey, sgl[i]) then Gather(h, sgl) else []
  }

  method ReadFromSgl(mem: SimpleHostMemory, t: Regions, lkey: nat, sgl: seq<SglEntry>) returns (data: seq<Byte>)
    ensures data == ReadSgl(mem.View(), t, lkey, sgl)
  {
    data := [];
    for i := 0 to |sgl|
      invariant forall k :: 0 <= k < i ==> Readable(mem.View(), t, lkey, sgl[k])
      invariant data == Gather(mem.View(), sgl[..i])
    {
      if !ValidateLkey(t, lkey, sgl[i].address, sgl[i].length, false) {
        return [];
      }
      var chunk := mem.Read(sgl[i].address, sgl[i].length);
      if chunk.None? {
        return [];
      }
      assert sgl[..i + 1][..i] == sgl[..i];
      data := data + chunk.value;
    }
    assert sgl[..|sgl|] == sgl;
  }

  lemma {:induction false} AddressesAppend(sgl: seq<SglEntry>, e: SglEntry)
    ensures Addresses(sgl + [e]) == Addresses(sgl) + Range(e.address, e.length)
  {
    if sgl == [] {
      assert Addresses([e]) == Range(e.address, e.length) + Addresses([e][1..]);
    } else {
      AddressesAppend(sgl[1..], e);
      assert (sgl + [e])[1..] == sgl[1..] + [e];
    }
  }

  /** Gathering reads the byte at each address of the list, in fill order. */
  lemma {:induction false} GatherReads(h: Host, sgl: seq<SglEntry>)
    requires forall i :: 0 <= i < |sgl| ==> Accessible(h, sgl[i].address, sgl[i].length)
    ensures |Gather(h, sgl)| == |Addresses(sgl)| && Within(Addresses(sgl), |h.bytes|)
    ensures forall k :: 0 <= k < |Addresses(sgl)| ==> Gather(h, sgl)[k] == h.bytes[Addresses(sgl)[k]]
    decreases |sgl|
  {
    if sgl != [] {
      var front, e := sgl[..|sgl| - 1], sgl[|sgl| - 1];
      assert sgl == front + [e];
      GatherReads(h, front);
      AddressesAppend(front, e);
      assert Accessible(h, e.address, e.length);
      hide Addresses;
    }
  }

  /** Scatter and gather are inverse: a list of distinct addresses filled with a message of its size reads back as that message. */
  lemma FilledReadsBack(h: Host, g: Guard, sgl: seq<SglEntry>, data: seq<Byte>)
    requires FaultFree(h) && InRange(sgl, |h.bytes|) && GuardOpen(g, sgl)
    requires |data| == |Addresses(sgl)| && Distinct(Addresses(sgl))
    ensures var r := WriteSgl(h, g, sgl, data, START);
            && r.written == |data|
            && (forall i :: 0 <= i < |sgl| ==> Accessible(r.host, sgl[i].address, sgl[i].length))
            && Gather(r.host, sgl) == data
  {
    WriteSglIsScatter(h, g, sgl, data, START);
    var r := WriteSgl(h, g, sgl, data, START);
    assert Remaining(sgl, START) == Addresses(sgl) by { assert sgl[0..] == sgl; }
    assert r.host == h.(bytes := Scatter(h.bytes, Addresses(sgl), data)) by {
      hide WriteSgl, Remaining, Scatter;
      assert Addresses(sgl)[..|data|] == Addresses(sgl) && data[..|data|] == data;
    }
    hide WriteSgl, Remaining, Scatter, Addresses, Gather;
    ScatterReads(h.bytes, Addresses(sgl), data);
    GatherReads(r.host, sgl);
  }
}
