/** Descriptor and completion rings refine bounded first-in first-out queues. */
module Rings {
  import opened Common
  import Bits
  import opened RoceTypes
  import opened HostMemory

  datatype RingConfig = RingConfig(descriptorSize: nat, ringSize: nat, baseAddress: U64, hostBacked: bool)

  /** The slot index n places further round the ring. */
  function Around(ringSize: nat, index: nat, n: nat): (r: nat)
    requires ringSize > 0
    ensures r < ringSize
  {
    (index + n) % ringSize
  }

  lemma AroundStep(ringSize: nat, index: nat, n: nat)
    requires ringSize > 0
    ensures Around(ringSize, Around(ringSize, index, 1), n) == Around(ringSize, index, n + 1)
    ensures Around(ringSize, Around(ringSize, index, n), 1) == Around(ringSize, index, n + 1)
    ensures index < ringSize ==> Around(ringSize, index, 0) == index
  {
    Bits.ModAdd(index + 1, n, ringSize);
    Bits.ModAdd(index + n, 1, ringSize);
    if index < ringSize {
      Bits.DivUnique(index, ringSize, 0, index);
    }
  }

  lemma AroundDistinct(ringSize: nat, index: nat, j: nat, k: nat)
    requires index < ringSize && j < k < ringSize
    ensures Around(ringSize, index, j) != Around(ringSize, index, k)
  {
    AroundNear(ringSize, index, j);
    AroundNear(ringSize, index, k);
  }

  lemma AroundNear(ringSize: nat, index: nat, n: nat)
    requires index < ringSize && n < ringSize
    ensures Around(ringSize, index, n) == if index + n < ringSize then index + n else index + n - ringSize
  {
    if index + n < ringSize {
      Bits.DivUnique(index + n, ringSize, 0, index + n);
    } else {
      Bits.DivUnique(index + n, ringSize, 1, index + n - ringSize);
    }
  }

  // ---------------------------------------------------------------------------
  // Slots in a flat byte store
  // ---------------------------------------------------------------------------

  /** Slot addresses are computed in 64-bit arithmetic. */
  function SlotAddress(base: nat, size: nat, slot: nat): nat { (base + slot * size) % TWO_64 }

  function Slot(bytes: seq<Byte>, base: nat, size: nat, slot: nat): seq<Byte> {
    var a := SlotAddress(base, size, slot);
    if a + size <= |bytes| then bytes[a..a + size] else []
  }

  /** Slots of one ring never overlap, even where the ring wraps round the address space. */
  lemma SlotsApart(base: nat, size: nat, ringSize: nat, i: nat, j: nat)
    requires base < TWO_64 && ringSize * size <= TWO_64 && i < j < ringSize
    requires SlotAddress(base, size, i) + size <= TWO_64 && SlotAddress(base, size, j) + size <= TWO_64
    ensures var a, b := SlotAddress(base, size, i), SlotAddress(base, size, j); a + size <= b || b + size <= a
  {
    MulMonotone(i + 1, j, size);
    MulMonotone(j + 1, ringSize, size);
    assert (i + 1) * size == i * size + size && (j + 1) * size == j * size + size;
    OffsetsApart(base, i * size, j * size, size);
  }

  lemma OffsetsApart(base: nat, x: nat, y: nat, size: nat)
    requires base < TWO_64 && x + size <= y && y + size <= TWO_64
    requires (base + x) % TWO_64 + size <= TWO_64 && (base + y) % TWO_64 + size <= TWO_64
    ensures var a, b := (base + x) % TWO_64, (base + y) % TWO_64; a + size <= b || b + size <= a
  {
  }

  lemma SpliceSlot(bytes: seq<Byte>, base: nat, size: nat, ringSize: nat, i: nat, data: seq<Byte>, j: nat)
    requires base < TWO_64 && ringSize * size <= TWO_64 && i < ringSize && j < ringSize && |bytes| <= TWO_64
    requires |data| == size && SlotAddress(base, size, i) + size <= |bytes|
    ensures var bytes' := Splice(bytes, SlotAddress(base, size, i), data);
            Slot(bytes', base, size, j) == if i == j then data else Slot(bytes, base, size, j)
  {
    hide SlotAddress;
    if SlotAddress(base, size, j) + size <= |bytes| {
      if i < j {
        SlotsApart(base, size, ringSize, i, j);
      } else if j < i {
        SlotsApart(base, size, ringSize, j, i);
      }
    }
  }

  /** The queue a ring holds: count slots from the consumer index on. */
  function Queue(bytes: seq<Byte>, base: nat, size: nat, ringSize: nat, consumer: nat, count: nat): (q: seq<seq<Byte>>)
    requires count > 0 ==> ringSize > 0
    ensures |q| == count
    ensures forall k :: 0 <= k < count ==> q[k] == Slot(bytes, base, size, Around(ringSize, consumer, k))
  {
    seq(count, k requires 0 <= k < count => Slot(bytes, base, size, Around(ringSize, consumer, k)))
  }

  /** Writing the slot at the producer index appends to the queue. */
  lemma WriteAppends(bytes: seq<Byte>, base: nat, size: nat, ringSize: nat, consumer: nat, count: nat, data: seq<Byte>)
    requires base < TWO_64 && ringSize * size <= TWO_64 && consumer < ringSize && count < ringSize && |bytes| <= TWO_64
    requires |data| == size && SlotAddress(base, size, Around(ringSize, consumer, count)) + size <= |bytes|
    ensures var bytes' := Splice(bytes, SlotAddress(base, size, Around(ringSize, consumer, count)), data);
            Queue(bytes', base, size, ringSize, consumer, count + 1)
            == Queue(bytes, base, size, ringSize, consumer, count) + [data]
  {
    hide SlotAddress, Slot, Around, Splice;
    var p := Around(ringSize, consumer, count);
    var bytes' := Splice(bytes, SlotAddress(base, size, p), data);
    forall k | 0 <= k <= count
      ensures Slot(bytes', base, size, Around(ringSize, consumer, k))
              == if k == count then data else Slot(bytes, base, size, Around(ringSize, consumer, k))
    {
      SpliceSlot(bytes, base, size, ringSize, p, data, Around(ringSize, consumer, k));
      if k < count {
        AroundDistinct(ringSize, consumer, k, count);
      }
    }
  }

  /** Moving the consumer index one slot on drops the head of the queue. */
  lemma AdvanceDropsHead(bytes: seq<Byte>, base: nat, size: nat, ringSize: nat, consumer: nat, count: nat)
    requires consumer < ringSize && 0 < count <= ringSize
    ensures Queue(bytes, base, size, ringSize, Around(ringSize, consumer, 1), count - 1)
            == Queue(bytes, base, size, ringSize, consumer, count)[1..]
    ensures Queue(bytes, base, size, ringSize, consumer, count)[0] == Slot(bytes, base, size, consumer)
  {
    hide SlotAddress, Slot, Around;
    AroundStep(ringSize, consumer, 0);
    forall k | 0 <= k < count - 1
      ensures Around(ringSize, Around(ringSize, consumer, 1), k) == Around(ringSize, consumer, k + 1)
    {
      AroundStep(ringSize, consumer, k);
    }
  }

  /** A write clear of a slot leaves it as it was. */
  lemma SlotUntouched(bytes: seq<Byte>, base: nat, size: nat, slot: nat, address: nat, data: seq<Byte>)
    requires address + |data| <= |bytes|
    requires SlotAddress(base, size, slot) + size <= address || address + |data| <= SlotAddress(base, size, slot)
    ensures Slot(Splice(bytes, address, data), base, size, slot) == Slot(bytes, base, size, slot)
  {
    hide SlotAddress;
  }

  /** A host write clear of every slot leaves a host-backed ring's queue alone. */
  lemma ForeignWriteKeepsQueue(bytes: seq<Byte>, base: nat, size: nat, ringSize: nat, consumer: nat, count: nat,
                               address: nat, data: seq<Byte>)
    requires consumer < ringSize && count <= ringSize && address + |data| <= |bytes|
    requires forall i :: 0 <= i < ringSize ==>
               var a := SlotAddress(base, size, i); a + size <= address || address + |data| <= a
    ensures Queue(Splice(bytes, address, data), base, size, ringSize, consumer, count)
            == Queue(bytes, base, size, ringSize, consumer, count)
  {
    var bytes' := Splice(bytes, address, data);
    forall k | 0 <= k < count
      ensures Slot(bytes', base, size, Around(ringSize, consumer, k)) == Slot(bytes, base, size, Around(ringSize, consumer, k))
    {
      hide SlotAddress, Slot;
      SlotUntouched(bytes, base, size, Around(ringSize, consumer, k), address, data);
    }
  }

  // ---------------------------------------------------------------------------
  // The descriptor ring, over its own storage or over host memory
  // ---------------------------------------------------------------------------

  lemma Shift<T>(a: seq<T>, x: T, b: seq<T>)
    ensures a + ([x] + b) == (a + [x]) + b
  {
  }

  class DescriptorRing {
    const config: RingConfig
    const memory: SimpleHostMemory
    const storage: array<Byte>
    var producer: nat
    var consumer: nat
    var count: nat
    /** Every descriptor handed out so far, oldest first. */
    ghost var popped: seq<seq<Byte>>

    constructor (config: RingConfig, memory: SimpleHostMemory)
      requires config.ringSize < TWO_32 && config.ringSize * config.descriptorSize <= TWO_64
      requires memory.buffer.Length <= TWO_64
      ensures Valid() && this.config == config && this.memory == memory && fresh(storage)
      ensures Contents() == [] && popped == []
    {
      this.config := config;
      this.memory := memory;
      storage := new Byte[if config.hostBacked then 0 else config.descriptorSize * config.ringSize](_ => 0);
      producer, consumer, count := 0, 0, 0;
      popped := [];
      new;
      if config.ringSize > 0 {
        AroundStep(config.ringSize, 0, 0);
      }
    }

    function Base(): nat { if config.hostBacked then config.baseAddress else 0 }

    /** Where the slots live. */
    ghost function Store(): seq<Byte>
      reads memory.buffer, storage
    {
      if config.hostBacked then memory.buffer[..] else storage[..]
    }

    ghost predicate Valid()
      reads this
    {
      && config.ringSize < TWO_32 && config.ringSize * config.descriptorSize <= TWO_64
      && memory.buffer.Length <= TWO_64 && storage != memory.buffer
      && (!config.hostBacked ==> storage.Length == config.ringSize * config.descriptorSize)
      && count <= config.ringSize
      && (config.ringSize > 0 ==> consumer < config.ringSize && producer == Around(config.ringSize, consumer, count))
    }

    /** The queue of a ring that keeps its slots in its own storage. */
    ghost function Stored(): seq<seq<Byte>>
      requires Valid()
      reads this, storage
    {
      if config.hostBacked then [] else Queue(storage[..], 0, config.descriptorSize, config.ringSize, consumer, count)
    }

    /** Of a ring with its own storage, everything handed out followed by everything still queued. */
    ghost function History(): seq<seq<Byte>>
      reads this, storage
    {
      if Valid() && !config.hostBacked then popped + Stored() else []
    }

    ghost function Contents(): (q: seq<seq<Byte>>)
      requires Valid()
      reads this, memory.buffer, storage
      ensures |q| == count
      ensures !config.hostBacked ==> q == Stored()
      ensures config.hostBacked ==> q == Queue(memory.buffer[..], config.baseAddress, config.descriptorSize, config.ringSize, consumer, count)
    {
      Queue(Store(), Base(), config.descriptorSize, config.ringSize, consumer, count)
    }

    /** In-model storage holds every slot, at an address that does not wrap. */
    lemma StorageSlot(slot: nat)
      requires Valid() && !config.hostBacked && slot < config.ringSize
      ensures slot * config.descriptorSize + config.descriptorSize <= storage.Length
      ensures SlotAddress(Base(), config.descriptorSize, slot) == slot * config.descriptorSize
    {
      var d := config.descriptorSize;
      MulMonotone(slot + 1, config.ringSize, d);
      assert (slot + 1) * d == slot * d + d;
      if d == 0 {
        assert slot * d == 0;
      }
      Bits.DivUnique(slot * d, TWO_64, 0, slot * d);
    }

    /** Host memory, where the slots live there, lets this slot through. */
    ghost predicate SlotAccessible(slot: nat)
      reads memory.buffer
    {
      config.hostBacked ==>
        Accessible(memory.View(), SlotAddress(config.baseAddress, config.descriptorSize, slot), config.descriptorSize)
    }

    method StoreSlot(slot: nat, data: seq<Byte>) returns (ok: bool)
      requires Valid() && slot < config.ringSize && |data| == config.descriptorSize
      modifies storage, memory.buffer
      ensures ok <==> old(SlotAccessible(slot))
      ensures ok ==> SlotAddress(Base(), config.descriptorSize, slot) + |data| <= |old(Store())|
      ensures ok ==> Store() == Splice(old(Store()), SlotAddress(Base(), config.descriptorSize, slot), data)
      ensures !ok ==> Store() == old(Store())
      ensures !config.hostBacked ==> memory.buffer[..] == old(memory.buffer[..])
    {
      if config.hostBacked {
        ok := memory.Write(SlotAddress(config.baseAddress, config.descriptorSize, slot), data);
      } else {
        StorageSlot(slot);
        hide SlotAddress;
        var offset := slot * config.descriptorSize;
        forall i | 0 <= i < |data| {
          storage[offset + i] := data[i];
        }
        assert storage[..] == Splice(old(storage[..]), offset, data);
        ok := true;
      }
    }

    method LoadSlot(slot: nat) returns (r: Option<seq<Byte>>)
      requires Valid() && slot < config.ringSize
      ensures r.Some? <==> SlotAccessible(slot)
      ensures r.Some? ==> r.value == Slot(Store(), Base(), config.descriptorSize, slot) && |r.value| == config.descriptorSize
    {
      if config.hostBacked {
        r := memory.Read(SlotAddress(config.baseAddress, config.descriptorSize, slot), config.descriptorSize);
      } else {
        StorageSlot(slot);
        hide SlotAddress;
        var offset := slot * config.descriptorSize;
        r := Some(storage[offset..offset + config.descriptorSize]);
      }
    }

    /** Appends iff the size is right, there is room, and host memory, where used, accepts the write. */
    method PushDescriptor(descriptor: seq<Byte>) returns (ok: bool)
      requires Valid()
      modifies this`producer, this`count, storage, memory.buffer
      ensures Valid()
      ensures ok <==> |descriptor| == config.descriptorSize && old(count) < config.ringSize && old(SlotAccessible(producer))
      ensures Contents() == if ok then old(Contents()) + [descriptor] else old(Contents())
      ensures !config.hostBacked || !ok ==> memory.buffer[..] == old(memory.buffer[..])
    {
      hide Queue, SlotAddress, Around, Splice, Slot;
      if |descriptor| != config.descriptorSize || count == config.ringSize {
        return false;
      }
      ghost var before := Store();
      ok := StoreSlot(producer, descriptor);
      if !ok {
        return;
      }
      WriteAppends(before, Base(), config.descriptorSize, config.ringSize, consumer, count, descriptor);
      AroundStep(config.ringSize, consumer, count);
      producer := Around(config.ringSize, producer, 1);
      count := count + 1;
    }

    /** Takes the head iff the size is right, there is one, and host memory, where used, gives it out. */
    method PopDescriptor(size: nat) returns (r: Option<seq<Byte>>)
      requires Valid()
      modifies this`consumer, this`count, this`popped
      ensures Valid()
      ensures r.Some? <==> size == config.descriptorSize && old(count) > 0 && old(SlotAccessible(consumer))
      ensures r.Some? ==> old(Contents()) == [r.value] + Contents() && popped == old(popped) + [r.value]
      ensures r.Some? ==> |r.value| == config.descriptorSize
      ensures r.Some? ==> config.ringSize > 0 && consumer == Around(config.ringSize, old(consumer), 1)
      ensures r.Some? ==> r.value == Slot(Store(), Base(), config.descriptorSize, old(consumer))
      ensures r.None? ==> Contents() == old(Contents()) && popped == old(popped)
      ensures History() == old(History())
    {
      hide Queue, SlotAddress, Around, Slot, SlotAccessible;
      if size != config.descriptorSize || count == 0 {
        return None;
      }
      r := LoadSlot(consumer);
      if r.None? {
        return;
      }
      AdvanceDropsHead(Store(), Base(), config.descriptorSize, config.ringSize, consumer, count);
      AroundStep(config.ringSize, consumer, count - 1);
      consumer := Around(config.ringSize, consumer, 1);
      count := count - 1;
      popped := popped + [r.value];
      if !config.hostBacked {
        Shift(old(popped), r.value, Stored());
      }
    }

    method Reset()
      requires Valid()
      modifies this`producer, this`consumer, this`count
      ensures Valid() && Contents() == []
    {
      producer, consumer, count := 0, 0, 0;
      if config.ringSize > 0 {
        AroundStep(config.ringSize, 0, 0);
      }
    }
  }

  // ---------------------------------------------------------------------------
  // The completion ring
  // ---------------------------------------------------------------------------

  /** The n entries of a ring from an index on. */
  function FromIndex<T>(store: seq<T>, index: nat, n: nat): (q: seq<T>)
    requires n <= |store|
    ensures |q| == n
    ensures forall k :: 0 <= k < n ==> q[k] == store[Around(|store|, index, k)]
  {
    seq(n, k requires 0 <= k < n => store[Around(|store|, index, k)])
  }

  lemma TakeHead<T>(store: seq<T>, index: nat, n: nat)
    requires 0 < n <= |store| && index < |store|
    ensures FromIndex(store, index, n) == [store[index]] + FromIndex(store, Around(|store|, index, 1), n - 1)
  {
    hide Around;
    AroundStep(|store|, index, 0);
    forall k | 0 <= k < n - 1
      ensures Around(|store|, Around(|store|, index, 1), k) == Around(|store|, index, k + 1)
    {
      AroundStep(|store|, index, k);
    }
  }

  class CompletionQueue<T(0)> {
    const ringSize: nat
    const entries: array<T>
    var producer: nat
    var consumer: nat
    var count: nat
    /** Every entry offered, accepted and polled so far, oldest first. */
    ghost var offered: seq<T>
    ghost var accepted: seq<T>
    ghost var polled: seq<T>

    constructor (ringSize: nat)
      requires ringSize < TWO_32
      ensures Valid() && this.ringSize == ringSize && fresh(entries) && Contents() == [] && offered == []
    {
      this.ringSize := ringSize;
      entries := new T[ringSize];
      producer, consumer, count := 0, 0, 0;
      offered, accepted, polled := [], [], [];
      new;
      if ringSize > 0 {
        AroundStep(ringSize, 0, 0);
      }
    }

    ghost predicate Shape()
      reads this
    {
      && entries.Length == ringSize < TWO_32
      && count <= ringSize
      && (ringSize > 0 ==> consumer < ringSize && producer == Around(ringSize, consumer, count))
    }

    ghost function Contents(): (q: seq<T>)
      requires Shape()
      reads this, entries
      ensures |q| == count
    {
      FromIndex(entries[..], consumer, count)
    }

    /** Over the whole run: what was accepted is what was polled, in order, and then what is still queued. */
    ghost predicate Valid()
      reads this, entries
    {
      Shape() && accepted == polled + Contents() && |accepted| <= |offered|
    }

    method PostCompletion(entry: T) returns (ok: bool)
      requires Valid()
      modifies this`producer, this`count, this`offered, this`accepted, entries
      ensures Valid()
      ensures ok <==> old(count) < ringSize
      ensures offered == old(offered) + [entry]
      ensures accepted == if ok then old(accepted) + [entry] else old(accepted)
      ensures Contents() == if ok then old(Contents()) + [entry] else old(Contents())
    {
      hide Around;
      offered := offered + [entry];
      if count == ringSize {
        return false;
      }
      forall k | 0 <= k < count ensures Around(ringSize, consumer, k) != producer {
        AroundDistinct(ringSize, consumer, k, count);
      }
      AroundStep(ringSize, consumer, count);
      entries[producer] := entry;
      producer := Around(ringSize, producer, 1);
      count := count + 1;
      accepted := accepted + [entry];
      assert Contents() == old(Contents()) + [entry];
      ok := true;
    }

    method PollCompletion() returns (r: Option<T>)
      requires Valid()
      modifies this`consumer, this`count, this`polled
      ensures Valid()
      ensures r.None? <==> old(count) == 0
      ensures r.Some? ==> old(Contents()) == [r.value] + Contents() && polled == old(polled) + [r.value]
      ensures r.None? ==> Contents() == old(Contents()) && polled == old(polled)
    {
      hide Around, FromIndex;
      if count == 0 {
        return None;
      }
      var entry := entries[consumer];
      TakeHead(entries[..], consumer, count);
      AroundStep(ringSize, consumer, count - 1);
      consumer := Around(ringSize, consumer, 1);
      count := count - 1;
      polled := polled + [entry];
      r := Some(entry);
    }
  }
}
