/** Registered memory regions: the two key maps and the access checks made through them. */
module MemoryRegions {
  import opened Common

  const FIRST_KEY := 0x100

  datatype Access = Access(localRead: bool, localWrite: bool, remoteRead: bool, remoteWrite: bool)

  datatype Region = Region(lkey: nat, rkey: nat, address: U64, length: U64, pd: U32, access: Access)

  /** The table's two maps and key counter; byRkey stands for the pointers into byLkey's regions. */
  datatype Regions = Regions(byLkey: map<nat, Region>, byRkey: map<nat, Region>, nextKey: nat)

  const NO_REGIONS := Regions(map[], map[], FIRST_KEY)

  /**
   * Both maps index the same regions by their own keys, so no rkey entry outlives its
   * region, and every key handed out so far is below the counter.
   */
  predicate Consistent(t: Regions) {
    && (forall k <- t.byLkey ::
          var mr := t.byLkey[k];
          mr.lkey == k < t.nextKey && mr.rkey in t.byRkey && t.byRkey[mr.rkey] == mr)
    && (forall k <- t.byRkey ::
          var mr := t.byRkey[k];
          mr.rkey == k < t.nextKey && mr.lkey in t.byLkey && t.byLkey[mr.lkey] == mr)
  }

  /** Registration: refused when the table is full or the length is zero. */
  function Register(t: Regions, maxRegions: nat, pd: U32, address: U64, length: U64, access: Access): (Regions, Option<nat>) {
    if |t.byLkey| >= maxRegions || length == 0 then (t, None) else
    var mr := Region(t.nextKey, t.nextKey + 1, address, length, pd, access);
    (Regions(t.byLkey[mr.lkey := mr], t.byRkey[mr.rkey := mr], t.nextKey + 2), Some(mr.lkey))
  }

  function Deregister(t: Regions, lkey: nat): Regions {
    if lkey !in t.byLkey then t else
    t.(byLkey := t.byLkey - {lkey}, byRkey := t.byRkey - {t.byLkey[lkey].rkey})
  }

  /** 64-bit addition. */
  function Sum64(a: U64, b: U64): U64 { if a + b < TWO_64 then a + b else a + b - TWO_64 }

  /** The bounds and permission check, in the 64-bit arithmetic it is done in. */
  predicate ValidateAccess(mr: Region, address: U64, length: U64, isWrite: bool, isRemote: bool) {
    && address >= mr.address
    && Sum64(address - mr.address, length) <= mr.length
    && Grants(mr.access, isWrite, isRemote)
  }

  predicate Grants(access: Access, isWrite: bool, isRemote: bool) {
    if isRemote then (if isWrite then access.remoteWrite else access.remoteRead)
    else (if isWrite then access.localWrite else access.localRead)
  }

  predicate ValidateLkey(t: Regions, lkey: nat, address: U64, length: U64, isWrite: bool) {
    lkey in t.byLkey && ValidateAccess(t.byLkey[lkey], address, length, isWrite, false)
  }

  predicate ValidateRkey(t: Regions, rkey: nat, pd: U32, address: U64, length: U64, isWrite: bool) {
    rkey in t.byRkey && t.byRkey[rkey].pd == pd && ValidateAccess(t.byRkey[rkey], address, length, isWrite, true)
  }

  /** The region holds the whole range, over the integers. */
  predicate Contains(mr: Region, address: nat, length: nat) {
    mr.address <= address && address + length <= mr.address + mr.length
  }

  /** Some live region of the protection domain grants remote writes to this address. */
  ghost predicate RemotelyWritable(t: Regions, pd: U32, address: nat) {
    exists k <- t.byLkey :: t.byLkey[k].pd == pd && t.byLkey[k].access.remoteWrite && Contains(t.byLkey[k], address, 1)
  }

  lemma RegisterKeepsConsistent(t: Regions, maxRegions: nat, pd: U32, address: U64, length: U64, access: Access)
    requires Consistent(t)
    ensures var (t', key) := Register(t, maxRegions, pd, address, length, access);
            && Consistent(t')
            && (key.Some? ==> key.value !in t.byLkey && t'.byLkey[key.value].rkey !in t.byRkey)
            && forall k <- t.byLkey :: k in t'.byLkey && t'.byLkey[k] == t.byLkey[k]
  {
  }

  /**
   * A registration succeeds exactly when there is room and the length is positive. It then adds
   * one region under each kind of key, with the range, domain and rights asked for, and leaves
   * the others as they are; otherwise nothing changes.
   */
  lemma RegisterRecords(t: Regions, maxRegions: nat, pd: U32, address: U64, length: U64, access: Access)
    requires Consistent(t)
    ensures var (t', key) := Register(t, maxRegions, pd, address, length, access);
            && (key.Some? <==> |t.byLkey| < maxRegions && length > 0)
            && (key.None? ==> t' == t)
            && (key.Some? ==>
                  exists rkey :: rkey !in t.byRkey && key.value !in t.byLkey
                                 && var mr := Region(key.value, rkey, address, length, pd, access);
                                    t'.byLkey == t.byLkey[key.value := mr] && t'.byRkey == t.byRkey[rkey := mr])
  {
  }

  lemma DeregisterKeepsConsistent(t: Regions, lkey: nat)
    requires Consistent(t)
    ensures Consistent(Deregister(t, lkey))
    ensures lkey !in Deregister(t, lkey).byLkey
    ensures forall k <- Deregister(t, lkey).byRkey :: Deregister(t, lkey).byRkey[k].lkey != lkey
    ensures forall k <- t.byLkey :: k != lkey ==> k in Deregister(t, lkey).byLkey && Deregister(t, lkey).byLkey[k] == t.byLkey[k]
    ensures forall k <- t.byRkey :: t.byRkey[k].lkey != lkey ==> k in Deregister(t, lkey).byRkey && Deregister(t, lkey).byRkey[k] == t.byRkey[k]
  {
    if lkey in t.byLkey {
      var t' := Deregister(t, lkey);
      forall k <- t'.byLkey
        ensures t'.byLkey[k].rkey in t'.byRkey
      {
        assert t.byRkey[t.byLkey[k].rkey].lkey == k;
      }
      forall k <- t'.byRkey
        ensures t'.byRkey[k].lkey in t'.byLkey
      {
        assert t.byLkey[t.byRkey[k].lkey].rkey == k;
      }
    }
  }

  /** The range runs past 2^64 as seen from the region's base, and what is left of the sum fits the region. */
  predicate WrapsInside(mr: Region, address: U64, length: U64) {
    address >= mr.address && TWO_64 <= address - mr.address + length <= TWO_64 + mr.length
  }

  /**
   * The access check, done in 64-bit arithmetic, means containment and permission, except for
   * exactly those permitted accesses whose range wraps back into the region.
   */
  lemma BoundsCheckExact(mr: Region, address: U64, length: U64, isWrite: bool, isRemote: bool)
    ensures (ValidateAccess(mr, address, length, isWrite, isRemote) <==>
             Contains(mr, address, length) && Grants(mr.access, isWrite, isRemote))
            <==> !(WrapsInside(mr, address, length) && Grants(mr.access, isWrite, isRemote))
  {
  }

  /** Such an access exists: one byte past the base of a 16-byte region, almost the whole address space long. */
  lemma WrappingAccessAccepted(mr: Region)
    requires mr.address == 0x1000 && mr.length == 16 && mr.access.remoteWrite
    ensures ValidateAccess(mr, 0x1001, TWO_64 - 1, true, true) && !Contains(mr, 0x1001, TWO_64 - 1)
    ensures WrapsInside(mr, 0x1001, TWO_64 - 1)
  {
  }

  class MemoryRegionTable {
    var byLkey: map<nat, Region>
    var byRkey: map<nat, Region>
    var nextKey: nat
    const maxRegions: nat

    constructor (maxRegions: nat)
      ensures View() == NO_REGIONS && this.maxRegions == maxRegions
    {
      byLkey, byRkey, nextKey := map[], map[], FIRST_KEY;
      this.maxRegions := maxRegions;
    }

    ghost function View(): Regions
      reads this
    {
      Regions(byLkey, byRkey, nextKey)
    }

    method GenerateKey() returns (key: nat)
      modifies this`nextKey
      ensures key == old(nextKey) && nextKey == key + 1
    {
      key := nextKey;
      nextKey := nextKey + 1;
    }

    method RegisterMr(pd: U32, address: U64, length: U64, access: Access) returns (key: Option<nat>)
      requires Consistent(View())
      modifies this
      ensures Consistent(View())
      ensures (View(), key) == Register(old(View()), maxRegions, pd, address, length, access)
    {
      hide Consistent;
      RegisterKeepsConsistent(View(), maxRegions, pd, address, length, access);
      if |byLkey| >= maxRegions {
        return None;
      }
      if length == 0 {
        return None;
      }
      var lkey := GenerateKey();
      var rkey := GenerateKey();
      var mr := Region(lkey, rkey, address, length, pd, access);
      byLkey := byLkey[lkey := mr];
      byRkey := byRkey[rkey := mr];
      key := Some(lkey);
    }

    method DeregisterMr(lkey: nat) returns (ok: bool)
      requires Consistent(View())
      modifies this
      ensures Consistent(View())
      ensures View() == Deregister(old(View()), lkey)
      ensures ok <==> lkey in old(byLkey)
    {
      hide Consistent;
      DeregisterKeepsConsistent(View(), lkey);
      if lkey !in byLkey {
        return false;
      }
      byRkey := byRkey - {byLkey[lkey].rkey};
      byLkey := byLkey - {lkey};
      ok := true;
    }
  }
}
