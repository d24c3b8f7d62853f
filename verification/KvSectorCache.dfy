// The sector cache of the key-value store (fdb_kvdb.c: update_sector_cache, get_sector_from_cache,
// read_sector_info and the updates beside every write). What it answers is what walking the records
// on flash would give.

module KvSectorCache {
  import opened Options
  import opened KvFlash
  import opened KvStore
  import opened RecordBytes
  import opened ErasedFlash

  // FDB_SECTOR_CACHE_TABLE_SIZE
  const TABLE_SIZE: nat := 8

  /** `struct kvdb_sec_info`; `emptyKv` is an offset in the sector, None for FAILED_ADDR. */
  datatype Info = Info(sector: nat, store: StoreStatus, dirty: DirtyStatus, emptyKv: Option<nat>, remain: int)

  /** Where the next record of a sector goes. */
  function EmptyOffset(sec: Sector): nat {
    SECTOR_HDR + (if sec.store == StoreUsing then Used(sec.recs) else 0)
  }

  // ---------- what a walk finds ----------

  // the bytes of KV_MAGIC_WORD, where it stands in a header, and where the length does
  const MAGIC: seq<bv8> := [0x4B, 0x56, 0x30, 0x30]
  const MAGIC_OFFSET: nat := 4
  const LEN_OFFSET: nat := 8

  predicate MagicAt(bytes: seq<bv8>, p: nat) {
    p + 4 <= |bytes| && bytes[p..p + 4] == MAGIC
  }

  /** The 32-bit number at `p`, low byte first. */
  function NumberAt(bytes: seq<bv8>, p: nat): nat
    requires p + 4 <= |bytes|
  {
    bytes[p] as nat + 0x100 * bytes[p+1] as nat + 0x1_0000 * bytes[p+2] as nat + 0x100_0000 * bytes[p+3] as nat
  }

  /** `read_kv` takes such a header for one whose length was not written. */
  predicate NoLength(bytes: seq<bv8>, at: nat, maxSize: nat) {
    at + LEN_OFFSET + 4 <= |bytes| ==>
      var len := NumberAt(bytes, at + LEN_OFFSET);
      len == 0xFFFF_FFFF || len > maxSize || len < KV_HDR
  }

  /** A walk ends at such a record. */
  predicate Broken(rec: Rec) { !rec.crcOk && rec.status !in {PreWrite, ErrHdr, Stray} }

  predicate AnyBroken(recs: seq<Rec>) { exists r :: 0 <= r < |recs| && Broken(recs[r]) }

  /** Behind a record whose checksum fails a walk goes on byte by byte, and takes for a record whatever
      has the magic word. */
  function Phantoms(bytes: seq<bv8>, from: nat, end: nat): nat
    decreases end
  {
    if end <= from then 0 else Phantoms(bytes, from, end - 1) + (if MagicAt(bytes, end - 1 + MAGIC_OFFSET) then 1 else 0)
  }

  /** The phantoms behind the beginning of a record that is laid out behind these. */
  function PhantomsIn(recs: seq<Rec>, rec: Rec, bytes: seq<bv8>): nat {
    if rec.crcOk || rec.status == Stray then 0
    else Phantoms(bytes, SECTOR_HDR + Used(recs) + 1, SECTOR_HDR + Used(recs) + rec.Len())
  }

  function AllPhantoms(recs: seq<Rec>, bytes: seq<bv8>): nat {
    if recs == [] then 0
    else AllPhantoms(recs[..|recs|-1], bytes) + PhantomsIn(recs[..|recs|-1], recs[|recs|-1], bytes)
  }

  /** The lengths a walk adds up: it goes from magic word to magic word, misses stray bytes and counts
      a header for every phantom. */
  function WalkSum(recs: seq<Rec>, bytes: seq<bv8>): nat {
    if recs == [] then 0
    else
      var init, last := recs[..|recs|-1], recs[|recs|-1];
      WalkSum(init, bytes) +
      (if AnyBroken(recs) || last.status == Stray then 0 else last.Len() + KV_HDR * PhantomsIn(init, last, bytes))
  }

  function Strays(recs: seq<Rec>): nat {
    if recs == [] then 0 else Strays(recs[..|recs|-1]) + (if recs[|recs|-1].status == Stray then 1 else 0)
  }

  /** A magic word behind the beginning of a record whose checksum fails, as it would stand in a header
      at `p`. */
  predicate PhantomAt(recs: seq<Rec>, r: nat, bytes: seq<bv8>, p: nat) {
    && r < |recs| && !recs[r].crcOk && recs[r].status != Stray
    && SECTOR_HDR + Used(recs[..r]) < p < SECTOR_HDR + Used(recs[..r]) + recs[r].Len()
    && MagicAt(bytes, p + MAGIC_OFFSET)
  }

  /** No phantom has a length, so `read_kv` counts it as a header and goes on behind its first byte. */
  ghost predicate PhantomsAreHeaders(recs: seq<Rec>, bytes: seq<bv8>, maxSize: nat) {
    forall r: nat, p: nat :: PhantomAt(recs, r, bytes, p) ==> NoLength(bytes, p, maxSize)
  }

  /** In a database of less than 16 MB that goes without saying: a name has no zero byte, what is not
      written is erased, and neither is a length. */
  lemma NoZeroNoLength(bytes: seq<bv8>, at: nat, maxSize: nat)
    requires maxSize < 0x0101_0101
    requires forall i :: at + LEN_OFFSET <= i < at + LEN_OFFSET + 4 && i < |bytes| ==> bytes[i] != 0
    ensures NoLength(bytes, at, maxSize)
  {
    if at + LEN_OFFSET + 4 <= |bytes| {
      NumberOfNonZero(bytes, at + LEN_OFFSET);
    }
  }

  lemma NumberOfNonZero(bytes: seq<bv8>, p: nat)
    requires p + 4 <= |bytes| && forall i :: p <= i < p + 4 ==> bytes[i] != 0
    ensures NumberAt(bytes, p) >= 0x0101_0101
  {
    ByteIsPositive(bytes[p]);
    ByteIsPositive(bytes[p+1]);
    ByteIsPositive(bytes[p+2]);
    ByteIsPositive(bytes[p+3]);
  }

  lemma ByteIsPositive(b: bv8)
    requires b != 0
    ensures b as nat >= 1
  {
  }

  /** What the walk concludes: where the erased run behind the sum begins. */
  ghost predicate WalkResult(sec: Sector, bytes: seq<bv8>, secSize: nat, empty: nat, remain: int) {
    var sum := SECTOR_HDR + WalkSum(sec.recs, bytes);
    && (if sum <= secSize then ErasedFrom(bytes, sum, secSize, empty) else empty == secSize)
    && remain == if empty != sum then secSize - empty else if AnyBroken(sec.recs) then 0 else secSize - sum
  }

  /** The bytes of a sector in use are erased behind what was laid out in it. */
  ghost predicate TailErased(bytes: seq<bv8>, sec: Sector, secSize: nat) {
    |bytes| == secSize
    && (sec.store == StoreUsing ==>
          EmptyOffset(sec) <= secSize && forall i :: EmptyOffset(sec) <= i < secSize ==> bytes[i] == ERASED)
  }

  /** What the walk counts too much is what it misses; or it counts less and the last byte laid out is
      not 0xFF. In a sector that never lost power both are nothing. */
  predicate Finds(sec: Sector, bytes: seq<bv8>)
    requires SECTOR_HDR < EmptyOffset(sec) <= |bytes|
  {
    var extra := KV_HDR * AllPhantoms(sec.recs, bytes);
    extra == Strays(sec.recs) || (extra < Strays(sec.recs) && bytes[EmptyOffset(sec) - 1] != ERASED)
  }

  lemma {:induction false} PhantomCounted(bytes: seq<bv8>, from: nat, end: nat, p: nat)
    requires from <= p < end
    ensures MagicAt(bytes, p + MAGIC_OFFSET) ==> Phantoms(bytes, from, end) >= 1
    decreases end
  {
    if p < end - 1 {
      PhantomCounted(bytes, from, end - 1, p);
    }
  }

  lemma {:induction false} SumOfWalk(recs: seq<Rec>, bytes: seq<bv8>)
    requires !AnyBroken(recs)
    requires forall r :: 0 <= r < |recs| && recs[r].status == Stray ==> !recs[r].lenOk
    ensures WalkSum(recs, bytes) + Strays(recs) == Used(recs) + KV_HDR * AllPhantoms(recs, bytes)
  {
    if recs != [] {
      var init := recs[..|recs|-1];
      assert forall r :: 0 <= r < |init| ==> init[r] == recs[r];
      SumOfWalk(init, bytes);
    }
  }

  lemma {:induction false} StraysSame(a: seq<Rec>, b: seq<Rec>)
    requires |a| == |b| && forall i :: 0 <= i < |a| ==> (a[i].status == Stray <==> b[i].status == Stray)
    ensures Strays(a) == Strays(b)
  {
    if a != [] {
      StraysSame(a[..|a|-1], b[..|b|-1]);
    }
  }

  lemma StraysAppend(recs: seq<Rec>, rec: Rec)
    ensures Strays(recs + [rec]) == Strays(recs) + (if rec.status == Stray then 1 else 0)
  {
    assert (recs + [rec])[..|recs|] == recs;
  }

  lemma UsedIsPositive(recs: seq<Rec>)
    requires recs != []
    ensures Used(recs) > 0
  {
  }

  lemma SoundIsUnbroken(sec: Sector, secSize: nat)
    requires SectorSound(sec, secSize)
    ensures !AnyBroken(sec.recs) && forall r :: 0 <= r < |sec.recs| && sec.recs[r].status == Stray ==> !sec.recs[r].lenOk
  {
    assert forall r :: 0 <= r < |sec.recs| ==> RecSound(sec.recs[r], r == 0);
  }

  lemma HasRoom(sec: Sector, secSize: nat)
    requires SectorSound(sec, secSize) && sec.store == StoreUsing && sec.recs != []
    ensures SECTOR_HDR < EmptyOffset(sec) < secSize
  {
    UsedIsPositive(sec.recs);
    assert Used(sec.recs[..|sec.recs|-1]) + sec.recs[|sec.recs|-1].Len() + REMAIN_THRESHOLD < secSize - SECTOR_HDR;
  }

  /** The address a walk comes to is where the next record may go if and only if no more is counted
      than missed, and what is missed is nothing or betrays itself by its last byte. Otherwise it lies
      inside the last record, or as far behind the free address as too much was counted. */
  lemma WalkExactIff(sec: Sector, bytes: seq<bv8>, secSize: nat, empty: nat, remain: int)
    requires SectorSound(sec, secSize) && sec.store == StoreUsing && sec.recs != [] && TailErased(bytes, sec, secSize)
    requires WalkResult(sec, bytes, secSize, empty, remain)
    ensures SECTOR_HDR < EmptyOffset(sec) < secSize && remain == secSize - empty
    ensures empty == EmptyOffset(sec) <==> Finds(sec, bytes)
    ensures var extra := KV_HDR * AllPhantoms(sec.recs, bytes) - Strays(sec.recs);
      && (extra > 0 ==> empty == if EmptyOffset(sec) + extra < secSize then EmptyOffset(sec) + extra else secSize)
      && (extra <= 0 && !Finds(sec, bytes) ==> EmptyOffset(sec) + extra <= empty < EmptyOffset(sec))
  {
    SoundIsUnbroken(sec, secSize);
    SumOfWalk(sec.recs, bytes);
    HasRoom(sec, secSize);
  }

  /** A collection marks its sector on flash only. */
  predicate SameDirty(cached: DirtyStatus, flash: DirtyStatus) {
    cached == flash || (cached == DirtyTrue && flash == DirtyGc)
  }

  ghost predicate Tells(info: Info, fl: Flash, secSize: nat) {
    && info.sector < |fl|
    && info.store == fl[info.sector].store && SameDirty(info.dirty, fl[info.sector].dirty)
    && (info.emptyKv.Some? ==> info.emptyKv.value == EmptyOffset(fl[info.sector]) && info.remain == Remain(fl[info.sector], secSize))
  }

  ghost predicate OnePerSector(t: seq<Option<Info>>) {
    forall i, j :: 0 <= i < j < |t| && t[i].Some? && t[j].Some? ==> t[i].value.sector != t[j].value.sector
  }

  /** Every cached sector is described as it is. */
  ghost predicate SectorsCoherent(t: seq<Option<Info>>, fl: Flash, secSize: nat) {
    && OnePerSector(t)
    && forall i :: 0 <= i < |t| && t[i].Some? ==> Tells(t[i].value, fl, secSize)
  }

  /** An entry follows the only sector that changed. */
  lemma EntryFollows(t: seq<Option<Info>>, fl: Flash, fl': Flash, at: nat, info: Info, secSize: nat)
    requires SectorsCoherent(t, fl, secSize) && at < |t| && t[at].Some? && t[at].value.sector == info.sector < |fl|
    requires |fl'| == |fl| && fl' == fl[info.sector := fl'[info.sector]] && Tells(info, fl', secSize)
    ensures SectorsCoherent(t[at := Some(info)], fl', secSize)
  {
    forall i | 0 <= i < |t| && i != at && t[i].Some?
      ensures Tells(t[i].value, fl', secSize)
    {
      assert Tells(t[i].value, fl, secSize) && t[i].value.sector != info.sector;
    }
  }

  /** No entry has to follow a sector that is not cached. */
  lemma NothingFollows(t: seq<Option<Info>>, fl: Flash, fl': Flash, s: nat, secSize: nat)
    requires SectorsCoherent(t, fl, secSize) && s < |fl| == |fl'| && fl' == fl[s := fl'[s]]
    requires forall i :: 0 <= i < |t| && t[i].Some? ==> t[i].value.sector != s
    ensures SectorsCoherent(t, fl', secSize)
  {
    forall i | 0 <= i < |t| && t[i].Some?
      ensures Tells(t[i].value, fl', secSize)
    {
      assert Tells(t[i].value, fl, secSize);
    }
  }

  lemma TellsRecord(info: Info, fl: Flash, empty: nat, rec: Rec, secSize: nat)
    requires Tells(info, fl, secSize) && fl[info.sector].store == StoreUsing && empty == EmptyOffset(fl[info.sector]) + rec.Len()
    ensures Tells(info.(emptyKv := Some(empty), remain := secSize - empty), Append(fl, info.sector, rec), secSize)
  {
    UsedAppend(fl[info.sector].recs, rec);
  }

  /** The table has the sector's free address. */
  predicate Known(t: seq<Option<Info>>, s: nat) {
    exists i :: 0 <= i < |t| && t[i].Some? && t[i].value.sector == s && t[i].value.emptyKv.Some?
  }

  lemma WalkEndsThere(recs: seq<Rec>, r: nat, bytes: seq<bv8>)
    requires r <= |recs| && (r == |recs| || AnyBroken(recs[..r]))
    ensures WalkSum(recs, bytes) == WalkSum(recs[..r], bytes) && AnyBroken(recs) == AnyBroken(recs[..r])
    decreases |recs|
  {
    if r < |recs| {
      var init := recs[..|recs|-1];
      var b :| 0 <= b < r && Broken(recs[..r][b]);
      assert init[..r] == recs[..r] && recs[b] == recs[..r][b];
      WalkEndsThere(init, r, bytes);
    } else {
      assert recs[..r] == recs;
    }
  }

  /** One record more. */
  lemma WalkNext(recs: seq<Rec>, r: nat, bytes: seq<bv8>)
    requires r < |recs| && !AnyBroken(recs[..r])
    ensures AnyBroken(recs[..r+1]) == Broken(recs[r]) && Used(recs[..r+1]) == Used(recs[..r]) + recs[r].Len()
    ensures WalkSum(recs[..r+1], bytes) == WalkSum(recs[..r], bytes) +
              (if Broken(recs[r]) || recs[r].status == Stray then 0
               else recs[r].Len() + KV_HDR * PhantomsIn(recs[..r], recs[r], bytes))
  {
    assert recs[..r+1][..r] == recs[..r] && recs[..r+1][r] == recs[r];
    if Broken(recs[r]) {
      assert Broken(recs[..r+1][r]);
    }
    assert forall b :: 0 <= b < r ==> recs[..r+1][b] == recs[..r][b];
  }

  lemma HeadersIn(recs: seq<Rec>, r: nat, bytes: seq<bv8>, maxSize: nat)
    requires PhantomsAreHeaders(recs, bytes, maxSize) && r < |recs| && !recs[r].crcOk && recs[r].status != Stray
    ensures var start := SECTOR_HDR + Used(recs[..r]);
            forall p :: start + 1 <= p < start + recs[r].Len() && MagicAt(bytes, p + MAGIC_OFFSET) ==> NoLength(bytes, p, maxSize)
  {
    var start := SECTOR_HDR + Used(recs[..r]);
    forall p | start + 1 <= p < start + recs[r].Len() && MagicAt(bytes, p + MAGIC_OFFSET)
      ensures NoLength(bytes, p, maxSize)
    {
      assert PhantomAt(recs, r, bytes, p);
    }
  }

  class SectorCache {
    const secSize: nat
    const table: array<Option<Info>>

    ghost predicate Valid(fl: Flash)
      reads this, table
    {
      table.Length == TABLE_SIZE && SectorsCoherent(table[..], fl, secSize)
    }

    constructor (secSize: nat, ghost fl: Flash)
      ensures Valid(fl) && this.secSize == secSize && fresh(table)
    {
      this.secSize := secSize;
      table := new Option<Info>[TABLE_SIZE](_ => None);
    }

    /** `get_sector_from_cache` */
    method Find(s: nat) returns (at: Option<nat>)
      ensures at.Some? ==> at.value < table.Length && table[at.value].Some? && table[at.value].value.sector == s
      ensures at.None? ==> forall i :: 0 <= i < table.Length && table[i].Some? ==> table[i].value.sector != s
    {
      for i := 0 to table.Length
        invariant forall j :: 0 <= j < i && table[j].Some? ==> table[j].value.sector != s
      {
        if table[i].Some? && table[i].value.sector == s {
          return Some(i);
        }
      }
      return None;
    }

    /** `update_sector_cache`: replaces the sector's entry or takes a free one, if there is any. */
    method Update(info: Info, ghost fl: Flash)
      requires Valid(fl) && info.sector < |fl|
      modifies table
      ensures Tells(info, fl, secSize) ==> Valid(fl)
      ensures forall i :: 0 <= i < table.Length ==> table[i] == old(table[i]) || table[i] == Some(info)
    {
      var free := table.Length;
      for i := 0 to table.Length
        invariant table[..] == old(table[..]) && table.Length == TABLE_SIZE && 0 <= free <= table.Length
        invariant free < table.Length ==> table[free].None?
        invariant forall j :: 0 <= j < i && table[j].Some? ==> table[j].value.sector != info.sector
      {
        if table[i].Some? && table[i].value.sector == info.sector {
          table[i] := Some(info);
          return;
        } else if table[i].None? {
          free := i;
        }
      }
      if free < table.Length {
        table[free] := Some(info);
      }
    }

    /** `find_next_kv_addr` and `read_kv` behind a record whose checksum fails, up to the record laid out
        next: every magic word on the way is read as a header without a length. */
    method WalkPhantoms(bytes: seq<bv8>, from: nat, end: nat, ghost maxSize: nat) returns (count: nat)
      requires forall p :: from <= p < end && MagicAt(bytes, p + MAGIC_OFFSET) ==> NoLength(bytes, p, maxSize)
      ensures count == Phantoms(bytes, from, end)
    {
      count := 0;
      var p := from;
      while p < end
        invariant (p == from || from <= p <= end) && count == Phantoms(bytes, from, p)
      {
        if MagicAt(bytes, p + MAGIC_OFFSET) {
          count := count + 1;
        }
        p := p + 1;
      }
    }

    /** The lengths `read_sector_info` adds up, and the room it takes them from. */
    method WalkRecords(recs: seq<Rec>, bytes: seq<bv8>, ghost maxSize: nat) returns (emptyKv: nat, remain: int)
      requires PhantomsAreHeaders(recs, bytes, maxSize)
      ensures emptyKv == SECTOR_HDR + WalkSum(recs, bytes)
      ensures remain == if AnyBroken(recs) then 0 else secSize - emptyKv
    {
      emptyKv, remain := SECTOR_HDR, secSize - SECTOR_HDR;
      var r, start, broken := 0, SECTOR_HDR, false;
      while r < |recs| && !broken
        invariant 0 <= r <= |recs| && broken == AnyBroken(recs[..r]) && start == SECTOR_HDR + Used(recs[..r])
        invariant emptyKv == SECTOR_HDR + WalkSum(recs[..r], bytes)
        invariant remain == if broken then 0 else secSize - emptyKv
      {
        WalkNext(recs, r, bytes);
        var rec := recs[r];
        if Broken(rec) {
          remain, broken := 0, true;
        } else if rec.status != Stray {
          var count := 0;
          if !rec.crcOk {
            HeadersIn(recs, r, bytes, maxSize);
            count := WalkPhantoms(bytes, start + 1, start + rec.Len(), maxSize);
          }
          emptyKv := emptyKv + rec.Len() + KV_HDR * count;
          remain := remain - rec.Len() - KV_HDR * count;
        }
        start := start + rec.Len();
        r := r + 1;
      }
      WalkEndsThere(recs, r, bytes);
    }

    /** The walk of `read_sector_info`: record lengths, then the erased tail. */
    method Walk(fl: Flash, s: nat, bytes: seq<bv8>, ghost maxSize: nat) returns (info: Info)
      requires s < |fl| && |bytes| == secSize && PhantomsAreHeaders(fl[s].recs, bytes, maxSize)
      ensures info.sector == s && info.store == fl[s].store && info.dirty == fl[s].dirty && info.emptyKv.Some?
      ensures fl[s].store == StoreUsing ==> WalkResult(fl[s], bytes, secSize, info.emptyKv.value, info.remain)
      ensures fl[s].store != StoreUsing ==> info.emptyKv.value == EmptyOffset(fl[s]) && info.remain == Remain(fl[s], secSize)
    {
      var sec := fl[s];
      var emptyKv: nat, remain := SECTOR_HDR, 0;
      if sec.store == StoreEmpty {
        remain := secSize - SECTOR_HDR;
      } else if sec.store == StoreUsing {
        emptyKv, remain := WalkRecords(sec.recs, bytes, maxSize);
        var ff := ContinueFfAddr(bytes, emptyKv, secSize, 1);
        assert emptyKv <= secSize ==> ErasedFrom(bytes, emptyKv, secSize, ff) by {
          if emptyKv <= secSize {
            var addr: nat :| ErasedFrom(bytes, emptyKv, secSize, addr) && ff == if addr < secSize then Align(addr, 1) else secSize;
            assert ff == addr;
          }
        }
        if emptyKv != ff {
          emptyKv, remain := ff, secSize - ff;
        }
      }
      info := Info(s, sec.store, sec.dirty, Some(emptyKv), remain);
    }

    /** `read_sector_info`: from the cache where it can, from flash otherwise. A sector that is walked is
        described as it is, and may be cached, if the walk finds its end. */
    method ReadSectorInfo(fl: Flash, s: nat, traversal: bool, bytes: seq<bv8>, ghost maxSize: nat) returns (info: Info)
      requires Valid(fl) && s < |fl| && SectorSound(fl[s], secSize) && TailErased(bytes, fl[s], secSize)
      requires fl[s].store == StoreUsing ==> SECTOR_HDR < EmptyOffset(fl[s])
      requires traversal ==> PhantomsAreHeaders(fl[s].recs, bytes, maxSize)
      modifies table
      ensures info.sector == s && info.store == fl[s].store && SameDirty(info.dirty, fl[s].dirty)
      ensures !traversal || fl[s].store != StoreUsing || Finds(fl[s], bytes) ==> Valid(fl) && Tells(info, fl, secSize)
      ensures traversal ==> info.emptyKv.Some?
      ensures Known(old(table[..]), s) ==> Valid(fl) && Tells(info, fl, secSize)
      ensures traversal && fl[s].store == StoreUsing && !Finds(fl[s], bytes) && !Known(old(table[..]), s) ==>
                info.emptyKv.value != EmptyOffset(fl[s])
    {
      var at := Find(s);
      if at.Some? && (!traversal || table[at.value].value.emptyKv.Some?) {
        assert Tells(table[at.value].value, fl, secSize);
        return table[at.value].value;
      }
      if traversal {
        info := Walk(fl, s, bytes, maxSize);
        if fl[s].store == StoreUsing {
          WalkExactIff(fl[s], bytes, secSize, info.emptyKv.value, info.remain);
        }
      } else {
        info := Info(s, fl[s].store, fl[s].dirty, None, 0);
      }
      Update(info, fl);
    }

    // ---------- beside the writes ----------

    /** `update_sector_status_store_cache`, when the first record goes to an empty sector. */
    method AfterStore(s: nat, ghost fl: Flash)
      requires Valid(fl) && s < |fl| && fl[s].store == StoreEmpty && fl[s].recs == []
      modifies table
      ensures Valid(SetStore(fl, s, StoreUsing))
    {
      var at := Find(s);
      if at.Some? {
        assert Tells(table[at.value].value, fl, secSize);
        table[at.value] := Some(table[at.value].value.(store := StoreUsing));
      }
    }

    /** The cache part of `del_kv`: with the record status, a clean sector becomes dirty. */
    method AfterDelete(s: nat, ghost r: nat, ghost st: KvStatus, wasClean: bool, ghost fl: Flash)
      requires Valid(fl) && s < |fl| && r < |fl[s].recs| && fl[s].recs[r].Intact() && wasClean == (fl[s].dirty == DirtyFalse)
      modifies table
      ensures Valid(DelWrites(fl, s, r, st))
    {
      UsedSameLengths(fl[s].recs, fl[s].recs[r := fl[s].recs[r].(status := st)]);
      if wasClean {
        var at := Find(s);
        if at.Some? {
          assert Tells(table[at.value].value, fl, secSize);
          table[at.value] := Some(table[at.value].value.(dirty := DirtyTrue));
        }
      }
    }

    /** `update_sector_empty_addr_cache`, after a record was written where `alloc_kv` found room. */
    method AfterRecord(s: nat, empty: nat, ghost fl: Flash, ghost rec: Rec)
      requires Valid(fl) && s < |fl| && fl[s].store == StoreUsing
      requires empty == EmptyOffset(fl[s]) + rec.Len()
      modifies table
      ensures Valid(Append(fl, s, rec))
    {
      var at := Find(s);
      if at.Some? {
        var info := table[at.value].value.(emptyKv := Some(empty), remain := secSize - empty);
        TellsRecord(table[at.value].value, fl, empty, rec, secSize);
        EntryFollows(table[..], fl, Append(fl, s, rec), at.value, info, secSize);
        table[at.value] := Some(info);
      } else {
        NothingFollows(table[..], fl, Append(fl, s, rec), s, secSize);
      }
    }

    /** `format_sector` drops the entry. */
    method AfterFormat(s: nat, ghost fl: Flash)
      requires Valid(fl) && s < |fl|
      modifies table
      ensures Valid(Format(fl, s))
    {
      var at := Find(s);
      if at.Some? {
        table[at.value] := None;
      }
    }
  }

  /** Marking a sector for collection on flash leaves the cache good enough ... */
  lemma MarkForGc(t: seq<Option<Info>>, fl: Flash, s: nat, secSize: nat)
    requires SectorsCoherent(t, fl, secSize) && s < |fl| && fl[s].dirty in {DirtyTrue, DirtyGc}
    ensures SectorsCoherent(t, SetDirty(fl, s, DirtyGc), secSize)
  {
  }

  /** ... because during a collection `alloc_kv` decides the same on cached information as on flash. */
  lemma SameAllocation(info: Info, fl: Flash, size: nat, gcRequest: bool, secSize: nat)
    requires Tells(info, fl, secSize) && info.emptyKv.Some?
    requires gcRequest || fl[info.sector].dirty != DirtyGc
    ensures (info.remain > size + REMAIN_THRESHOLD
             && (info.dirty == DirtyFalse || (info.dirty == DirtyTrue && !gcRequest)))
        <==> Fits(fl[info.sector], size, gcRequest, secSize)
  {
  }
}
