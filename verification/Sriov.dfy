/** SR-IOV resource allocation: queues and interrupt vectors handed to virtual functions by first fit. */
module Sriov {
  import opened Common

  const NOT_FOUND := 0xFFFF

  datatype Range = Range(start: nat, count: nat)

  predicate Holds(r: Range, i: nat) { r.start <= i < r.start + r.count }

  /** A run of count free slots starts here. */
  predicate FreeRun(bits: seq<bool>, start: nat, count: nat) {
    start + count <= |bits| && forall i :: start <= i < start + count ==> !bits[i]
  }

  function Marked(bits: seq<bool>, start: nat, count: nat, v: bool): (r: seq<bool>)
    ensures |r| == |bits|
    ensures forall i :: 0 <= i < |bits| ==> r[i] == if start <= i < start + count then v else bits[i]
  {
    seq(|bits|, i requires 0 <= i < |bits| => if start <= i < start + count then v else bits[i])
  }

  function FreeCount(bits: seq<bool>): nat {
    if bits == [] then 0 else FreeCount(bits[..|bits| - 1]) + if bits[|bits| - 1] then 0 else 1
  }

  /** One kind of resource: a flag for each unit. */
  class ResourcePool {
    const bits: array<bool>

    constructor (total: U16)
      ensures fresh(bits) && bits.Length == total && forall i :: 0 <= i < total ==> !bits[i]
    {
      bits := new bool[total](_ => false);
    }

    /** First fit: the leftmost run of free units, or failure exactly when there is none. */
    method FindFreeRange(count: U16) returns (start: U16)
      requires bits.Length < 0x1_0000
      ensures start != NOT_FOUND <==> count > 0 && exists s: nat :: FreeRun(bits[..], s, count)
      ensures start != NOT_FOUND ==> FreeRun(bits[..], start, count) && forall s: nat :: s < start ==> !FreeRun(bits[..], s, count)
    {
      if count == 0 || count > bits.Length {
        return NOT_FOUND;
      }
      start := 0;
      while start <= bits.Length - count
        invariant start <= bits.Length - count + 1
        invariant forall s: nat :: s < start ==> !FreeRun(bits[..], s, count)
      {
        var found, i := true, 0;
        while i < count && found
          invariant 0 <= i <= count
          invariant found ==> forall k :: start <= k < start + i ==> !bits[k]
          invariant !found ==> !FreeRun(bits[..], start, count)
          decreases count - i, found
        {
          if bits[start + i] {
            found := false;
          } else {
            i := i + 1;
          }
        }
        if found {
          assert FreeRun(bits[..], start, count);
          return;
        }
        start := start + 1;
      }
      start := NOT_FOUND;
    }

    method Mark(start: U16, count: U16, v: bool)
      modifies bits
      ensures bits[..] == Marked(old(bits[..]), start, count, v)
    {
      for i := 0 to count
        invariant forall k :: 0 <= k < bits.Length ==> bits[k] == if start <= k < start + i then v else old(bits[k])
      {
        if start + i < bits.Length {
          bits[start + i] := v;
        }
      }
    }

    method Available() returns (count: nat)
      ensures count == FreeCount(bits[..])
    {
      count := 0;
      for i := 0 to bits.Length
        invariant count == FreeCount(bits[..i])
      {
        assert bits[..i + 1][..i] == bits[..i];
        if !bits[i] {
          count := count + 1;
        }
      }
      assert bits[..bits.Length] == bits[..];
    }
  }

  // ---------------------------------------------------------------------------
  // What a pool's flags mean
  // ---------------------------------------------------------------------------

  function Reserved(total: nat, reserved: nat): nat { if reserved <= total then reserved else total }

  /**
   * The flags tell exactly what is taken: a unit is marked iff it is reserved for the
   * physical function or lies in some virtual function's range; ranges are non-empty, in
   * bounds, clear of the reserved units and pairwise disjoint.
   */
  ghost predicate Accounts(bits: seq<bool>, reserved: nat, ranges: map<nat, Range>) {
    && reserved <= |bits|
    && (forall v <- ranges :: ranges[v].count > 0 && reserved <= ranges[v].start && ranges[v].start + ranges[v].count <= |bits|)
    && (forall v <- ranges, w <- ranges :: v != w ==> Disjoint(ranges[v], ranges[w]))
    && (forall i :: 0 <= i < |bits| ==> (bits[i] <==> i < reserved || OwnedBySome(ranges, i)))
  }

  ghost predicate OwnedBySome(ranges: map<nat, Range>, i: nat) { exists v <- ranges :: Holds(ranges[v], i) }

  predicate Disjoint(a: Range, b: Range) { a.start + a.count <= b.start || b.start + b.count <= a.start }

  lemma OwnersAfterInsert(ranges: map<nat, Range>, v: nat, r: Range, i: nat)
    requires v !in ranges
    ensures OwnedBySome(ranges[v := r], i) <==> Holds(r, i) || OwnedBySome(ranges, i)
  {
    var ranges' := ranges[v := r];
    assert Holds(r, i) <==> Holds(ranges'[v], i);
    if OwnedBySome(ranges, i) {
      var w :| w in ranges && Holds(ranges[w], i);
      assert Holds(ranges'[w], i);
    }
    if OwnedBySome(ranges', i) {
      var w :| w in ranges' && Holds(ranges'[w], i);
      assert w == v || Holds(ranges[w], i);
    }
  }

  lemma AllocateKeepsAccounts(bits: seq<bool>, reserved: nat, ranges: map<nat, Range>, v: nat, start: nat, count: nat)
    requires Accounts(bits, reserved, ranges) && v !in ranges && count > 0 && FreeRun(bits, start, count)
    ensures Accounts(Marked(bits, start, count, true), reserved, ranges[v := Range(start, count)])
  {
    var r, ranges' := Range(start, count), ranges[v := Range(start, count)];
    var bits' := Marked(bits, start, count, true);
    assert !bits[start];
    forall w <- ranges ensures Disjoint(ranges[w], r) {
      DisjointFromFree(bits, reserved, ranges, w, start, count);
    }
    forall i | 0 <= i < |bits| ensures bits'[i] <==> i < reserved || OwnedBySome(ranges', i) {
      OwnersAfterInsert(ranges, v, r, i);
    }
  }

  lemma DisjointFromFree(bits: seq<bool>, reserved: nat, ranges: map<nat, Range>, w: nat, start: nat, count: nat)
    requires Accounts(bits, reserved, ranges) && w in ranges && count > 0 && FreeRun(bits, start, count)
    ensures Disjoint(ranges[w], Range(start, count))
  {
    var r := ranges[w];
    if r.start <= start {
      assert !bits[start];
    } else {
      assert Holds(r, r.start) && OwnedBySome(ranges, r.start);
      assert bits[r.start];
    }
  }

  lemma ReleaseKeepsAccounts(bits: seq<bool>, reserved: nat, ranges: map<nat, Range>, v: nat)
    requires Accounts(bits, reserved, ranges) && v in ranges
    ensures Accounts(Marked(bits, ranges[v].start, ranges[v].count, false), reserved, ranges - {v})
    ensures FreeRun(Marked(bits, ranges[v].start, ranges[v].count, false), ranges[v].start, ranges[v].count)
  {
    var r, ranges' := ranges[v], ranges - {v};
    var bits' := Marked(bits, r.start, r.count, false);
    forall i | 0 <= i < |bits| ensures bits'[i] <==> i < reserved || OwnedBySome(ranges', i) {
      assert ranges == ranges'[v := r];
      OwnersAfterInsert(ranges', v, r, i);
      if OwnedBySome(ranges', i) {
        var w :| w in ranges' && Holds(ranges'[w], i);
        assert Disjoint(ranges[w], r);
      }
    }
  }

  // ---------------------------------------------------------------------------
  // Free counts
  // ---------------------------------------------------------------------------

  ghost function TotalOwned(ranges: map<nat, Range>): nat
    decreases |ranges|
  {
    if ranges == map[] then 0 else
    var v :| v in ranges;
    ranges[v].count + TotalOwned(ranges - {v})
  }

  /** The total does not depend on the order of summation. */
  lemma {:induction false} TotalOwnedRemove(ranges: map<nat, Range>, v: nat)
    requires v in ranges
    ensures TotalOwned(ranges) == ranges[v].count + TotalOwned(ranges - {v})
    decreases |ranges|
  {
    var w :| w in ranges && TotalOwned(ranges) == ranges[w].count + TotalOwned(ranges - {w});
    if w != v {
      TotalOwnedRemove(ranges - {w}, v);
      assert (ranges - {w}) - {v} == (ranges - {v}) - {w};
      TotalOwnedRemove(ranges - {v}, w);
    }
  }

  lemma {:induction false} FreeCountMarked(bits: seq<bool>, start: nat, count: nat, v: bool)
    requires start + count <= |bits| && forall i :: start <= i < start + count ==> bits[i] != v
    ensures FreeCount(Marked(bits, start, count, v)) == if v then FreeCount(bits) - count else FreeCount(bits) + count
    decreases |bits|
  {
    if bits == [] {
      assert Marked(bits, start, count, v) == bits;
    } else {
      var n := |bits| - 1;
      var c := if start + count <= n then count else if count == 0 then 0 else count - 1;
      if start <= n {
        FreeCountMarked(bits[..n], start, c, v);
        assert Marked(bits, start, count, v)[..n] == Marked(bits[..n], start, c, v);
      } else {
        assert Marked(bits, start, count, v) == bits;
      }
    }
  }

  lemma {:induction false} FreeCountReserved(bits: seq<bool>, reserved: nat)
    requires reserved <= |bits| && forall i :: 0 <= i < |bits| ==> (bits[i] <==> i < reserved)
    ensures FreeCount(bits) == |bits| - reserved
    decreases |bits|
  {
    if bits != [] {
      var n := |bits| - 1;
      FreeCountReserved(bits[..n], if reserved <= n then reserved else n);
    }
  }

  /** Free units are the total minus the reserved ones minus those owned. */
  lemma {:induction false} FreeCountBalances(bits: seq<bool>, reserved: nat, ranges: map<nat, Range>)
    requires Accounts(bits, reserved, ranges)
    ensures FreeCount(bits) == |bits| - reserved - TotalOwned(ranges)
    decreases |ranges|
  {
    if ranges == map[] {
      assert forall i :: 0 <= i < |bits| ==> (bits[i] <==> i < reserved || OwnedBySome(ranges, i));
      FreeCountReserved(bits, reserved);
    } else {
      var v :| v in ranges;
      var r := ranges[v];
      var bits' := Marked(bits, r.start, r.count, false);
      ReleaseKeepsAccounts(bits, reserved, ranges, v);
      FreeCountBalances(bits', reserved, ranges - {v});
      forall i | r.start <= i < r.start + r.count ensures bits[i] {
        assert Holds(ranges[v], i) && OwnedBySome(ranges, i);
      }
      FreeCountMarked(bits, r.start, r.count, false);
      TotalOwnedRemove(ranges, v);
    }
  }

  // ---------------------------------------------------------------------------
  // The manager
  // ---------------------------------------------------------------------------

  class PfVfManager {
    const maxVfs: U16
    const pfQueues: nat
    const pfVectors: nat
    const queues: ResourcePool
    const vectors: ResourcePool
    var queueRanges: map<nat, Range>
    var vectorRanges: map<nat, Range>

    /** Both pools account for the same virtual functions, no more than allowed. */
    ghost predicate Valid()
      reads this, queues.bits, vectors.bits
    {
      && queues.bits != vectors.bits && queues.bits.Length < 0x1_0000 && vectors.bits.Length < 0x1_0000
      && queueRanges.Keys == vectorRanges.Keys && |queueRanges| <= maxVfs
      && Accounts(queues.bits[..], pfQueues, queueRanges)
      && Accounts(vectors.bits[..], pfVectors, vectorRanges)
    }

    constructor (maxVfs: U16, totalQueues: U16, totalVectors: U16, reservedQueues: U16, reservedVectors: U16)
      ensures Valid() && fresh(queues.bits) && fresh(vectors.bits)
      ensures queueRanges == map[] && vectorRanges == map[] && this.maxVfs == maxVfs
      ensures pfQueues == Reserved(totalQueues, reservedQueues) && pfVectors == Reserved(totalVectors, reservedVectors)
      ensures queues.bits.Length == totalQueues && vectors.bits.Length == totalVectors
    {
      this.maxVfs := maxVfs;
      pfQueues, pfVectors := Reserved(totalQueues, reservedQueues), Reserved(totalVectors, reservedVectors);
      queues := new ResourcePool(totalQueues);
      vectors := new ResourcePool(totalVectors);
      queueRanges, vectorRanges := map[], map[];
      new;
      queues.Mark(0, reservedQueues, true);
      vectors.Mark(0, reservedVectors, true);
    }

    /**
     * Creation succeeds exactly when the number is new, the limit is not reached and both
     * kinds have a large enough free run; it then owns the leftmost such runs.
     */
    method CreateVf(vf: nat, numQueues: U16, numVectors: U16) returns (ok: bool)
      requires Valid()
      modifies this`queueRanges, this`vectorRanges, queues.bits, vectors.bits
      ensures Valid()
      ensures ok <==> && vf !in old(queueRanges) && |old(queueRanges)| < maxVfs && numQueues > 0 && numVectors > 0
                      && (exists s: nat :: FreeRun(old(queues.bits[..]), s, numQueues))
                      && (exists s: nat :: FreeRun(old(vectors.bits[..]), s, numVectors))
      ensures !ok ==> queueRanges == old(queueRanges) && vectorRanges == old(vectorRanges)
                      && queues.bits[..] == old(queues.bits[..]) && vectors.bits[..] == old(vectors.bits[..])
      ensures ok ==> vf in queueRanges && vf in vectorRanges
                     && queueRanges == old(queueRanges)[vf := Range(queueRanges[vf].start, numQueues)]
                     && vectorRanges == old(vectorRanges)[vf := Range(vectorRanges[vf].start, numVectors)]
                     && (forall s: nat :: s < queueRanges[vf].start ==> !FreeRun(old(queues.bits[..]), s, numQueues))
                     && (forall s: nat :: s < vectorRanges[vf].start ==> !FreeRun(old(vectors.bits[..]), s, numVectors))
    {
      hide Accounts;
      if vf in queueRanges || |queueRanges| >= maxVfs {
        return false;
      }
      var q := queues.FindFreeRange(numQueues);
      if q == NOT_FOUND {
        return false;
      }
      var v := vectors.FindFreeRange(numVectors);
      if v == NOT_FOUND {
        return false;
      }
      AllocateKeepsAccounts(queues.bits[..], pfQueues, queueRanges, vf, q, numQueues);
      AllocateKeepsAccounts(vectors.bits[..], pfVectors, vectorRanges, vf, v, numVectors);
      queues.Mark(q, numQueues, true);
      vectors.Mark(v, numVectors, true);
      queueRanges := queueRanges[vf := Range(q, numQueues)];
      vectorRanges := vectorRanges[vf := Range(v, numVectors)];
      ok := true;
    }

    /** Destruction gives back exactly what the virtual function owned. */
    method DestroyVf(vf: nat) returns (ok: bool)
      requires Valid()
      modifies this`queueRanges, this`vectorRanges, queues.bits, vectors.bits
      ensures Valid()
      ensures ok <==> vf in old(queueRanges)
      ensures queueRanges == old(queueRanges) - {vf} && vectorRanges == old(vectorRanges) - {vf}
      ensures ok ==> FreeRun(queues.bits[..], old(queueRanges)[vf].start, old(queueRanges)[vf].count)
                     && FreeRun(vectors.bits[..], old(vectorRanges)[vf].start, old(vectorRanges)[vf].count)
      ensures !ok ==> queues.bits[..] == old(queues.bits[..]) && vectors.bits[..] == old(vectors.bits[..])
    {
      hide Accounts;
      hide Marked;
      hide FreeRun;
      if vf !in queueRanges {
        assert queueRanges - {vf} == queueRanges && vectorRanges - {vf} == vectorRanges;
        return false;
      }
      var q, v := queueRanges[vf], vectorRanges[vf];
      ReleaseKeepsAccounts(queues.bits[..], pfQueues, queueRanges, vf);
      ReleaseKeepsAccounts(vectors.bits[..], pfVectors, vectorRanges, vf);
      InBounds(queues.bits[..], pfQueues, queueRanges, vf);
      InBounds(vectors.bits[..], pfVectors, vectorRanges, vf);
      queues.Mark(q.start, q.count, false);
      vectors.Mark(v.start, v.count, false);
      queueRanges := queueRanges - {vf};
      vectorRanges := vectorRanges - {vf};
      ok := true;
    }

    method AvailableQueues() returns (count: nat)
      requires Valid()
      ensures count == queues.bits.Length - pfQueues - TotalOwned(queueRanges)
    {
      count := queues.Available();
      FreeCountBalances(queues.bits[..], pfQueues, queueRanges);
    }

    method AvailableVectors() returns (count: nat)
      requires Valid()
      ensures count == vectors.bits.Length - pfVectors - TotalOwned(vectorRanges)
    {
      count := vectors.Available();
      FreeCountBalances(vectors.bits[..], pfVectors, vectorRanges);
    }
  }

  lemma InBounds(bits: seq<bool>, reserved: nat, ranges: map<nat, Range>, v: nat)
    requires Accounts(bits, reserved, ranges) && v in ranges
    ensures ranges[v].start + ranges[v].count <= |bits|
  {
  }
}
