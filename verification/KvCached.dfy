// The key-value store with both caches (fdb_kvdb.c as it is built here, with FDB_KV_USING_CACHE):
// every lookup goes through the name cache and every look at a sector through the sector cache, and the
// operations still act on the map as those of the store without caches do.

module KvCached {
  import opened Options
  import opened SectorRing
  import opened KvFlash
  import opened KvStore
  import opened KvCache
  import opened KvSectorCache
  import opened RecordBytes

  // ---------- what the walk of a sector may rely on ----------

  /** The last byte of a complete record. */
  predicate EndsErased(p: Pair) {
    if p.1 != [] then p.1[|p.1|-1] == ERASED else p.0 != "" && p.0[|p.0|-1] == '\U{FF}'
  }

  /** What was never written is erased. */
  predicate RecEndsErased(rec: Rec) {
    if rec.Intact() then EndsErased(rec.Pair()) else rec.status != Stray
  }

  /** An unfinished record with a second magic word in its header or its name. */
  predicate Misread(rec: Rec, magic: Rec -> bool) {
    !rec.crcOk && rec.status != Stray && magic(rec)
  }

  /** The bytes of a sector are erased behind its records, end like the last of them, and hold no
      other magic words than those of the records. */
  ghost predicate Shows(bytes: seq<bv8>, sec: Sector, secSize: nat, magic: Rec -> bool) {
    && TailErased(bytes, sec, secSize)
    && (sec.store == StoreUsing && sec.recs != [] && !RecEndsErased(sec.recs[|sec.recs|-1]) ==> bytes[EmptyOffset(sec) - 1] != ERASED)
    && (forall r :: 0 <= r < |sec.recs| && !Misread(sec.recs[r], magic) ==> PhantomsIn(sec.recs[..r], sec.recs[r], bytes) == 0)
  }

  /** A walk finds the end of the sector. */
  ghost predicate Exact(sec: Sector, magic: Rec -> bool) {
    && (forall r :: 0 <= r < |sec.recs| ==> !Misread(sec.recs[r], magic))
    && (sec.recs == [] || Strays(sec.recs) == 0 || !RecEndsErased(sec.recs[|sec.recs|-1]))
  }

  ghost predicate AllExact(fl: Flash, magic: Rec -> bool) {
    forall s :: 0 <= s < |fl| ==> Exact(fl[s], magic)
  }

  /** Behind a stray byte there is room for a record of this length. */
  predicate OpenStray(sec: Sector, len: nat, secSize: nat) {
    Strays(sec.recs) > 0 && sec.store == StoreUsing && Remain(sec, secSize) > len + REMAIN_THRESHOLD
  }

  predicate NoneOpen(fl: Flash, len: nat, secSize: nat) {
    forall s :: 0 <= s < |fl| ==> !OpenStray(fl[s], len, secSize)
  }

  /** Wherever the pair is laid out, a walk finds the end of the sector. */
  predicate Harmless(fl: Flash, p: Pair, secSize: nat) {
    EndsErased(p) ==> NoneOpen(fl, KvLen(|p.0|, |p.1|), secSize)
  }

  ghost predicate LiveHarmless(fl: Flash, secSize: nat) {
    forall p :: Copies(fl, p) > 0 ==> Harmless(fl, p, secSize)
  }

  /** Every walk finds the end of its sector, and goes on doing so as live records are moved. */
  ghost predicate Trusted(fl: Flash, secSize: nat, magic: Rec -> bool) {
    AllExact(fl, magic) && LiveHarmless(fl, secSize)
  }

  /** No more room behind stray bytes than before. */
  ghost predicate Narrows(fl: Flash, fl': Flash, secSize: nat) {
    forall len: nat :: NoneOpen(fl, len, secSize) ==> NoneOpen(fl', len, secSize)
  }

  ghost predicate NamesShort(fl: Flash) {
    forall p :: Copies(fl, p) > 0 ==> Visible(p.0)
  }

  lemma {:induction false} NoPhantoms(recs: seq<Rec>, bytes: seq<bv8>)
    requires forall r :: 0 <= r < |recs| ==> PhantomsIn(recs[..r], recs[r], bytes) == 0
    ensures AllPhantoms(recs, bytes) == 0
  {
    if recs != [] {
      var init := recs[..|recs|-1];
      assert forall r :: 0 <= r < |init| ==> init[r] == recs[r] && init[..r] == recs[..r];
      NoPhantoms(init, bytes);
    }
  }

  lemma NoPhantomAt(recs: seq<Rec>, r: nat, bytes: seq<bv8>, p: nat)
    requires forall r :: 0 <= r < |recs| ==> PhantomsIn(recs[..r], recs[r], bytes) == 0
    ensures !PhantomAt(recs, r, bytes, p)
  {
    if r < |recs| && !recs[r].crcOk && recs[r].status != Stray {
      var start := SECTOR_HDR + Used(recs[..r]);
      if start < p < start + recs[r].Len() {
        PhantomCounted(bytes, start + 1, start + recs[r].Len(), p);
        assert PhantomsIn(recs[..r], recs[r], bytes) == 0;
      }
    }
  }

  /** What `read_sector_info` may rely on, with and without a walk. */
  lemma ReadyToRead(sec: Sector, bytes: seq<bv8>, secSize: nat, magic: Rec -> bool, traversal: bool, maxSize: nat)
    requires SectorOk(sec, secSize) && Shows(bytes, sec, secSize, magic) && (traversal ==> Exact(sec, magic))
    ensures TailErased(bytes, sec, secSize) && (sec.store == StoreUsing ==> SECTOR_HDR < EmptyOffset(sec))
    ensures traversal ==> PhantomsAreHeaders(sec.recs, bytes, maxSize) && (sec.store == StoreUsing ==> Finds(sec, bytes))
  {
    if sec.store == StoreUsing {
      UsedIsPositive(sec.recs);
    }
    if traversal {
      forall r: nat, p: nat
        ensures !PhantomAt(sec.recs, r, bytes, p)
      {
        NoPhantomAt(sec.recs, r, bytes, p);
      }
      NoPhantoms(sec.recs, bytes);
    }
  }

  lemma FewerLive(fl: Flash, fl': Flash, secSize: nat)
    requires forall p :: Copies(fl', p) <= Copies(fl, p)
    ensures Narrows(fl, fl', secSize) && LiveHarmless(fl, secSize) ==> LiveHarmless(fl', secSize)
    ensures NamesShort(fl) ==> NamesShort(fl')
  {
    forall p | Copies(fl', p) > 0
      ensures Copies(fl, p) > 0
    {
    }
  }

  /** One sector changed and is no worse than before. */
  lemma SectorTrusted(fl: Flash, fl': Flash, s: nat, secSize: nat, magic: Rec -> bool)
    requires s < |fl| == |fl'| && fl' == fl[s := fl'[s]]
    requires forall len: nat :: OpenStray(fl'[s], len, secSize) ==> OpenStray(fl[s], len, secSize)
    ensures AllExact(fl, magic) && Exact(fl'[s], magic) ==> AllExact(fl', magic)
    ensures Narrows(fl, fl', secSize)
  {
    forall t | 0 <= t < |fl'| && t != s
      ensures fl'[t] == fl[t]
    {
    }
    forall len: nat | NoneOpen(fl, len, secSize)
      ensures NoneOpen(fl', len, secSize)
    {
      assert !OpenStray(fl[s], len, secSize);
    }
  }

  lemma DelExact(sec: Sector, r: nat, rec: Rec, dirty: DirtyStatus, secSize: nat, magic: Rec -> bool)
    requires r < |sec.recs| && sec.recs[r].Intact() && sec.recs[r].status != Stray
    requires rec == sec.recs[r].(status := rec.status) && rec.status != Stray
    ensures var sec' := sec.(dirty := dirty, recs := sec.recs[r := rec]);
      && (Exact(sec, magic) ==> Exact(sec', magic))
      && forall len: nat :: OpenStray(sec', len, secSize) ==> OpenStray(sec, len, secSize)
  {
    StraysSame(sec.recs, sec.recs[r := rec]);
    UsedSameLengths(sec.recs, sec.recs[r := rec]);
  }

  lemma DelTrusted(fl: Flash, s: nat, r: nat, st: KvStatus, secSize: nat, magic: Rec -> bool)
    requires s < |fl| && r < |fl[s].recs| && fl[s].recs[r].Intact() && fl[s].recs[r].status != Stray
    requires st in {PreDelete, Deleted}
    ensures var fl' := DelWrites(fl, s, r, st);
      && (Trusted(fl, secSize, magic) ==> Trusted(fl', secSize, magic))
      && Narrows(fl, fl', secSize) && (NamesShort(fl) ==> NamesShort(fl'))
  {
    var fl' := DelWrites(fl, s, r, st);
    DelExact(fl[s], r, fl'[s].recs[r], fl'[s].dirty, secSize, magic);
    assert fl'[s] == fl[s].(dirty := fl'[s].dirty, recs := fl[s].recs[r := fl'[s].recs[r]]);
    SectorTrusted(fl, fl', s, secSize, magic);
    forall p
      ensures Copies(fl', p) <= Copies(fl, p)
    {
      DelWritesCopies(fl, s, r, st, p);
    }
    FewerLive(fl, fl', secSize);
  }

  lemma DirtyTrusted(fl: Flash, s: nat, dirty: DirtyStatus, secSize: nat, magic: Rec -> bool)
    requires Trusted(fl, secSize, magic) && s < |fl|
    ensures var fl' := SetDirty(fl, s, dirty);
      Trusted(fl', secSize, magic) && Narrows(fl, fl', secSize) && (NamesShort(fl) ==> NamesShort(fl'))
  {
    var fl' := SetDirty(fl, s, dirty);
    SectorTrusted(fl, fl', s, secSize, magic);
    forall p
      ensures Copies(fl', p) <= Copies(fl, p)
    {
      CopiesUpdate(fl, s, fl'[s], p);
    }
    FewerLive(fl, fl', secSize);
  }

  lemma FormatTrusted(fl: Flash, s: nat, secSize: nat, magic: Rec -> bool)
    requires Trusted(fl, secSize, magic) && s < |fl|
    ensures var fl' := Format(fl, s);
      Trusted(fl', secSize, magic) && Narrows(fl, fl', secSize) && (NamesShort(fl) ==> NamesShort(fl'))
  {
    var fl' := Format(fl, s);
    SectorTrusted(fl, fl', s, secSize, magic);
    forall p
      ensures Copies(fl', p) <= Copies(fl, p)
    {
      CopiesUpdate(fl, s, FormattedSector(), p);
    }
    FewerLive(fl, fl', secSize);
  }

  /** A record behind others; one that ends in 0xFF may not stand behind a stray byte. */
  lemma AppendExact(sec: Sector, rec: Rec, store: StoreStatus, secSize: nat, magic: Rec -> bool)
    requires SectorSound(sec, secSize) && rec.status == Write && rec.Intact() && sec.store in {StoreEmpty, StoreUsing}
    ensures var sec' := sec.(store := store, recs := sec.recs + [rec]);
      && (Exact(sec, magic) && (EndsErased(rec.Pair()) ==> sec.store == StoreEmpty || Strays(sec.recs) == 0) ==> Exact(sec', magic))
      && forall len: nat :: OpenStray(sec', len, secSize) ==> OpenStray(sec, len, secSize)
  {
    StraysAppend(sec.recs, rec);
    UsedAppend(sec.recs, rec);
  }

  lemma ProgramTrusted(fl: Flash, d: nat, rec: Rec, gcRequest: bool, secSize: nat, magic: Rec -> bool)
    requires d < |fl| && SectorSound(fl[d], secSize) && fl[d].store in {StoreEmpty, StoreUsing}
    requires rec.status == Write && rec.Intact() && Fits(fl[d], rec.Len(), gcRequest, secSize)
    ensures var fl' := Program(fl, d, rec, secSize);
      && (Trusted(fl, secSize, magic) && Harmless(fl, rec.Pair(), secSize) ==> Trusted(fl', secSize, magic))
      && Narrows(fl, fl', secSize) && (NamesShort(fl) && Visible(rec.name) ==> NamesShort(fl'))
  {
    var fl' := Program(fl, d, rec, secSize);
    AppendExact(fl[d], rec, fl'[d].store, secSize, magic);
    assert fl'[d] == fl[d].(store := fl'[d].store, recs := fl[d].recs + [rec]);
    SectorTrusted(fl, fl', d, secSize, magic);
    if Harmless(fl, rec.Pair(), secSize) && EndsErased(rec.Pair()) {
      assert !OpenStray(fl[d], rec.Len(), secSize);
    }
    forall p | Copies(fl', p) > 0
      ensures Copies(fl, p) > 0 || p == rec.Pair()
    {
      ProgramCopies(fl, d, rec, secSize, p);
    }
  }

  lemma RecIsIntact(fl: Flash, s: nat, r: nat, secSize: nat)
    requires FlashOk(fl, secSize) && s < |fl| && r < |fl[s].recs| && fl[s].recs[r].status in {Write, PreDelete}
    ensures fl[s].recs[r].Intact()
  {
    assert SectorOk(fl[s], secSize);
    assert RecSound(fl[s].recs[r], r == 0);
  }

  /** Moving a live record keeps live names short. */
  lemma MoveShort(fl: Flash, x: nat, r: nat, d: nat, secSize: nat)
    requires NamesShort(fl) && x < |fl| && r < |fl[x].recs| && fl[x].recs[r].status == Write && d < |fl|
    ensures NamesShort(MoveWrites(fl, x, r, d, secSize))
  {
    forall p
      ensures Copies(MoveWrites(fl, x, r, d, secSize), p) == Copies(fl, p)
    {
      MoveCopies(fl, x, r, d, secSize, p);
      assert fl[x].recs[r].(status := Write) == fl[x].recs[r];
    }
  }

  lemma Replaced(m: map<Name, Value>, fl: Flash, d: nat, key: Name, value: Value, at: Option<Pos>, secSize: nat)
    requires FlashOk(fl, secSize) && Settled(fl) && EmptyCount(fl) >= 1 && Abstracts(m, fl) && OldRecord(fl, key, at)
    requires Target(fl, d, key, value, secSize) && Visible(key)
    ensures var fl' := ReplaceWrites(fl, d, key, value, at, secSize);
      Settled(fl') && EmptyCount(fl') >= 1 && Abstracts(m[key := value], fl')
  {
    ReplaceOk(fl, d, key, value, at, secSize);
    ReplaceAbstracts(m, fl, d, key, value, at, secSize);
  }

  lemma ReplaceShort(fl: Flash, d: nat, key: Name, value: Value, at: Option<Pos>, secSize: nat)
    requires NamesShort(fl) && Visible(key) && d < |fl| && OldRecord(fl, key, at)
    ensures NamesShort(ReplaceWrites(fl, d, key, value, at, secSize))
  {
    forall p | Copies(ReplaceWrites(fl, d, key, value, at, secSize), p) > 0
      ensures Visible(p.0)
    {
      ReplaceCopies(fl, d, key, value, at, secSize, p);
    }
  }

  /** Records where they were: the entries still point at them. */
  lemma SameLiveNames(t: seq<Entry>, fl: Flash, fl': Flash, crc: string -> nat)
    requires NamesCoherent(t, fl, crc) && |fl'| == |fl| && forall s :: 0 <= s < |fl| ==> fl'[s].recs == fl[s].recs
    ensures NamesCoherent(t, fl', crc)
  {
    forall i | 0 <= i < |t| && t[i].addr.Some?
      ensures LiveAt(fl', t[i].addr.value) && crc(NameAt(fl', t[i].addr.value)) == t[i].crc
    {
      assert LiveAt(fl, t[i].addr.value);
    }
  }

  /** No other key of the map has the checksum of this one. */
  predicate Alone(m: map<Name, Value>, crc: string -> nat, key: Name) {
    forall n :: n in m && n != key ==> crc(n) != crc(key)
  }

  lemma AloneOnFlash(m: map<Name, Value>, fl: Flash, crc: string -> nat, key: Name)
    requires Abstracts(m, fl) && NamesShort(fl) && Alone(m, crc, key)
    ensures !Collides(fl, crc, key)
  {
    forall a: Addr | LiveAt(fl, a)
      ensures NameAt(fl, a) in m
    {
      LiveIsCounted(fl, a.0, a.1);
      var p := fl[a.0].recs[a.1].Pair();
      assert Copies(fl, (p.0, p.1)) > 0;
    }
  }

  class CachedKvdb {
    const db: Kvdb
    const names: NameCache
    const sectors: SectorCache
    // the bytes of a sector, and those from the name of a record on
    const image: (Flash, nat) -> seq<bv8>
    const saved: (Flash, Addr) -> string
    // whether the magic word is in the header of a record behind its own, or in its name
    const magic: Rec -> bool

    /** All that is assumed about the bytes on flash. */
    ghost predicate Bound()
      reads this
    {
      && sectors.secSize == db.secSize
      && forall fl, s {:trigger image(fl, s)} ::
           0 <= s < |fl| && SectorSound(fl[s], db.secSize) ==> Shows(image(fl, s), fl[s], db.secSize, magic)
    }

    /** The sector cache describes the flash. */
    ghost predicate SectorsTold()
      reads this, db, sectors, sectors.table
    {
      Bound() && db.Sane() && sectors.Valid(db.flash)
    }

    /** Walks find the end of every sector. */
    ghost predicate Reliable()
      reads this, db
    {
      Trusted(db.flash, db.secSize, magic)
    }

    /** The name cache points at live records of its names. */
    ghost predicate NamesTold()
      reads this, db, names, names.table
    {
      && names.Valid() && !names.lastIsCompleteDel
      && NamesCoherent(names.table[..], db.flash, names.crc)
      && NamesShort(db.flash)
    }

    ghost predicate Told()
      reads this, db, names, names.table, sectors, sectors.table
    {
      SectorsTold() && NamesTold()
    }

    /** Holds between public calls. */
    ghost predicate Valid()
      reads this, db, names, names.table, sectors, sectors.table
    {
      db.Valid() && Told()
    }

    /** A store on freshly formatted flash. */
    constructor (secSize: nat, secNum: nat, crc: string -> nat, image: (Flash, nat) -> seq<bv8>, saved: (Flash, Addr) -> string,
                 magic: Rec -> bool)
      requires GC_EMPTY_SEC_THRESHOLD < secNum
      requires forall fl, s {:trigger image(fl, s)} ::
                 0 <= s < |fl| && SectorSound(fl[s], secSize) ==> Shows(image(fl, s), fl[s], secSize, magic)
      ensures Valid() && Reliable() && db.contents == map[] && db.secSize == secSize && db.secNum == secNum
      ensures names.crc == crc && this.image == image && this.saved == saved && this.magic == magic
    {
      var db := new Kvdb(secSize, secNum);
      this.db := db;
      names := new NameCache(crc);
      sectors := new SectorCache(secSize, db.flash);
      this.image, this.saved, this.magic := image, saved, magic;
      new;
      forall p
        ensures Copies(db.flash, p) == 0
      {
        BlankHoldsNothing(secNum, p);
      }
    }

    /** Opening a store that was closed or recovered, with empty caches. Whether walks find the ends of
        its sectors is a matter of the flash alone. */
    constructor Open(db: Kvdb, crc: string -> nat, image: (Flash, nat) -> seq<bv8>, saved: (Flash, Addr) -> string,
                     magic: Rec -> bool)
      requires db.Valid() && NamesShort(db.flash)
      requires forall fl, s {:trigger image(fl, s)} ::
                 0 <= s < |fl| && SectorSound(fl[s], db.secSize) ==> Shows(image(fl, s), fl[s], db.secSize, magic)
      ensures Valid() && this.db == db
      ensures names.crc == crc && this.image == image && this.saved == saved && this.magic == magic
    {
      this.db := db;
      names := new NameCache(crc);
      sectors := new SectorCache(db.secSize, db.flash);
      this.image, this.saved, this.magic := image, saved, magic;
    }

    // ---------- allocation ----------

    method SectorInfo(s: nat, traversal: bool) returns (info: Info)
      requires SectorsTold() && s < db.secNum && (traversal ==> Reliable())
      modifies sectors.table
      ensures SectorsTold() && info.sector == s && Tells(info, db.flash, db.secSize)
      ensures traversal ==> info.emptyKv.Some?
    {
      assert SectorOk(db.flash[s], db.secSize);
      var bytes := image(db.flash, s);
      ReadyToRead(db.flash[s], bytes, db.secSize, magic, traversal, db.secSize);
      info := sectors.ReadSectorInfo(db.flash, s, traversal, bytes, db.secSize);
    }

    method CountStatus(st: StoreStatus) returns (count: nat)
      requires SectorsTold()
      modifies sectors.table
      ensures SectorsTold() && count == StoreCount(db.flash, st)
    {
      ghost var ring := db.flash[db.oldest..] + db.flash[..db.oldest];
      count := 0;
      var k := 0;
      while k < db.secNum
        invariant 0 <= k <= db.secNum && SectorsTold()
        invariant count == StoreCount(ring[..k], st)
      {
        StoreCountSnoc(ring, k, st);
        var info := SectorInfo(RingAt(db.oldest, db.secNum, k), false);
        if info.store == st {
          count := count + 1;
        }
        k := k + 1;
      }
      assert ring[..k] == ring;
      RingCount(db.flash, db.oldest, st);
    }

    /** `sector_iterator` with `alloc_kv_cb` on cached information: the same sector as on flash, and
        the address behind its records. */
    method ScanFit(st: StoreStatus, size: nat) returns (found: Option<nat>, addr: nat)
      requires SectorsTold() && Reliable() && (db.gcRequest || NoneMarked(db.flash))
      modifies sectors.table
      ensures SectorsTold()
      ensures found.Some? ==> FirstFit(db.flash, db.oldest, st, size, db.gcRequest, db.secSize, found.value)
                              && addr == EmptyOffset(db.flash[found.value])
      ensures found.None? ==> NoFit(db.flash, st, size, db.gcRequest, db.secSize)
    {
      addr := 0;
      var k := 0;
      while k < db.secNum
        invariant 0 <= k <= db.secNum && SectorsTold()
        invariant forall j :: 0 <= j < k ==> !Candidate(db.flash[RingAt(db.oldest, db.secNum, j)], st, size, db.gcRequest, db.secSize)
      {
        var s := RingAt(db.oldest, db.secNum, k);
        var info := SectorInfo(s, false);
        if info.store == st {
          info := SectorInfo(s, true);
          SameAllocation(info, db.flash, size, db.gcRequest, db.secSize);
          if info.remain > size + REMAIN_THRESHOLD
             && (info.dirty == DirtyFalse || (info.dirty == DirtyTrue && !db.gcRequest)) {
            assert RingPos(db.oldest, db.secNum, s) == k;
            return Some(s), info.emptyKv.value;
          }
        }
        k := k + 1;
      }
      NoneFits(db.flash, db.oldest, st, size, db.gcRequest, db.secSize);
      found := None;
    }

    /** `alloc_kv` on cached information decides as it would on flash. */
    method AllocKv(size: nat) returns (found: Option<nat>, addr: nat)
      requires SectorsTold() && Reliable() && (db.gcRequest || NoneMarked(db.flash))
      modifies db`gcRequest, sectors.table
      ensures SectorsTold()
      ensures Allocates(db.flash, db.oldest, size, old(db.gcRequest), db.secSize, found)
      ensures found.Some? ==> addr == EmptyOffset(db.flash[found.value])
      ensures db.gcRequest == (old(db.gcRequest) || (found.None? && EmptyCount(db.flash) == 1))
    {
      var emptySectors := CountStatus(StoreEmpty);
      var usingSectors := CountStatus(StoreUsing);
      found, addr := None, 0;
      if usingSectors > 0 {
        found, addr := ScanFit(StoreUsing, size);
      } else {
        NoneOfStatus(db.flash, StoreUsing, size, db.gcRequest, db.secSize);
      }
      if emptySectors > 0 && found.None? {
        if emptySectors > GC_EMPTY_SEC_THRESHOLD || db.gcRequest {
          found, addr := ScanFit(StoreEmpty, size);
        } else {
          db.gcRequest := true;
        }
      } else if found.None? {
        NoneOfStatus(db.flash, StoreEmpty, size, db.gcRequest, db.secSize);
      }
    }

    // ---------- lookup ----------

    /** `find_kv_no_cache`: the sector cache tells which sectors hold records. */
    method ScanKv(key: Name) returns (found: bool, s: nat, r: nat)
      requires SectorsTold()
      modifies sectors.table
      ensures SectorsTold()
      ensures found ==> s < |db.flash| && r < |db.flash[s].recs| && Matches(db.flash[s].recs[r], key)
      ensures !found ==> NoMatch(db.flash, key)
    {
      OkIsWalkable(db.flash, db.secSize);
      found, s, r := false, 0, 0;
      var k := 0;
      while k < db.secNum
        invariant 0 <= k <= db.secNum && SectorsTold()
        invariant NoMatchBefore(db.flash, db.oldest, k, key)
      {
        s := RingAt(db.oldest, db.secNum, k);
        var info := SectorInfo(s, false);
        if info.store == StoreUsing || info.store == StoreFull {
          found, r := db.FindInSector(s, key);
          if found {
            return;
          }
        }
        k := k + 1;
      }
      found := false;
      AllSearched(db.flash, db.oldest, key);
    }

    /** `find_kv`: the same answer a scan of the flash gives. */
    method FindKv(key: Name) returns (found: bool, s: nat, r: nat)
      requires Told() && Visible(key) && !Collides(db.flash, names.crc, key)
      modifies names.table, sectors.table
      ensures Told()
      ensures found ==> s < |db.flash| && r < |db.flash[s].recs| && Matches(db.flash[s].recs[r], key)
      ensures !found ==> NoMatch(db.flash, key)
    {
      ghost var t := names.table[..];
      var fl := db.flash;
      var bytes := (a: Addr) => saved(fl, a);
      var hit := names.Lookup(key, bytes);
      CoherentSame(t, names.table[..], fl, names.crc);
      if hit.Some? {
        HitIsRight(t, fl, names.crc, key, bytes, db.secSize);
        return true, hit.value.0, hit.value.1;
      }
      found, s, r := ScanKv(key);
      if found {
        ghost var u := names.table[..];
        names.Update(key, Some((s, r)));
        CoherentAfter(u, names.table[..], fl, fl, names.crc, names.crc(key), Some((s, r)));
      }
    }

    /** `fdb_kv_get_blob` */
    method Get(key: Name, bufLen: nat) returns (data: Value, valueLen: nat)
      requires Valid() && Visible(key) && Alone(db.contents, names.crc, key)
      modifies names.table, sectors.table
      ensures Valid() && db.contents == old(db.contents)
      ensures key in db.contents ==>
                (valueLen == |db.contents[key]|
                 && data == db.contents[key][..if bufLen > valueLen then valueLen else bufLen])
      ensures key !in db.contents ==> valueLen == 0 && data == []
    {
      AloneOnFlash(db.contents, db.flash, names.crc, key);
      var found, s, r := FindKv(key);
      if found {
        LookupAgrees(db.contents, db.flash, key, s, r);
        var value := db.flash[s].recs[r].value;
        valueLen := |value|;
        data := value[..if bufLen > valueLen then valueLen else bufLen];
      } else {
        LookupMisses(db.contents, db.flash, key, db.secSize);
        data, valueLen := [], 0;
      }
    }

    // ---------- writes ----------

    /** `del_kv` on flash and in the sector cache. */
    method DelKv(s: nat, r: nat, complete: bool)
      requires SectorsTold() && s < |db.flash| && r < |db.flash[s].recs| && db.flash[s].recs[r].status in {Write, PreDelete}
      modifies db`flash, sectors.table
      ensures SectorsTold() && db.flash == DelWrites(old(db.flash), s, r, if complete then Deleted else PreDelete)
      ensures old(Reliable()) ==> Reliable()
      ensures Narrows(old(db.flash), db.flash, db.secSize)
    {
      ghost var fl, st := db.flash, if complete then Deleted else PreDelete;
      assert SectorOk(fl[s], db.secSize);
      DelWritesOk(fl, s, r, st, db.secSize);
      DelTrusted(fl, s, r, st, db.secSize, magic);
      var wasClean := db.flash[s].dirty == DirtyFalse;
      sectors.AfterDelete(s, r, st, wasClean, fl);
      ghost var _ := db.DelKv(s, r, complete);
    }

    /** A record at the address `alloc_kv` gave, on flash and in the sector cache. */
    method WriteRecord(d: nat, addr: nat, rec: Rec)
      requires SectorsTold() && d < |db.flash| && rec.status == Write && rec.Intact()
      requires db.flash[d].store in {StoreEmpty, StoreUsing} && Fits(db.flash[d], rec.Len(), db.gcRequest, db.secSize)
      requires addr == EmptyOffset(db.flash[d])
      modifies db`flash, sectors.table
      ensures SectorsTold() && db.flash == Program(old(db.flash), d, rec, db.secSize)
      ensures old(Reliable()) && Harmless(old(db.flash), rec.Pair(), db.secSize) ==> Reliable()
      ensures Narrows(old(db.flash), db.flash, db.secSize)
    {
      ghost var fl := db.flash;
      assert SectorOk(fl[d], db.secSize);
      ProgramOk(fl, d, rec, db.gcRequest, db.secSize);
      ProgramTrusted(fl, d, rec, db.gcRequest, db.secSize, magic);
      if db.flash[d].store == StoreEmpty {
        sectors.AfterStore(d, fl);
      }
      var _ := db.WriteRecord(d, rec);
      sectors.AfterRecord(d, addr + rec.Len(), SetStore(fl, d, StoreUsing), rec);
    }

    // ---------- garbage collection ----------

    /** `move_kv` during a collection. */
    method MoveKv(x: nat, r: nat) returns (err: Err, ghost dest: Option<nat>)
      requires Told() && Reliable() && db.gcRequest && !db.inRecovery
      requires x < |db.flash| && db.flash[x].dirty == DirtyGc && r < |db.flash[x].recs| && db.flash[x].recs[r].status == Write
      modifies db`flash, db`gcRequest, names, names.table, sectors.table
      ensures MoveOutcome(old(db.flash), db.oldest, true, false, db.secSize, x, r, err, dest, db.flash)
      ensures db.gcRequest && (err == NoErr ==> Told() && Reliable())
      ensures Narrows(old(db.flash), db.flash, db.secSize)
    {
      ghost var fl := db.flash;
      var len := db.flash[x].recs[r].Len();
      LiveIsCounted(fl, x, r);
      DelKv(x, r, false);
      var d, addr := AllocKv(len);
      dest := d;
      if d.None? {
        return SavedFull, None;
      }
      CopyRecord(x, r, d.value, addr, fl);
      err := NoErr;
    }

    /** The second half of `move_kv`: the copy, and the end of the record that was copied. */
    method CopyRecord(x: nat, r: nat, d: nat, addr: nat, ghost fl: Flash)
      requires SectorsTold() && Reliable() && x < |fl| && r < |fl[x].recs| && fl[x].recs[r].status == Write && d < |fl| && d != x
      requires db.flash == DelWrites(fl, x, r, PreDelete) && addr == EmptyOffset(fl[d])
      requires fl[d].store in {StoreEmpty, StoreUsing} && Fits(fl[d], fl[x].recs[r].Len(), db.gcRequest, db.secSize)
      requires Harmless(db.flash, fl[x].recs[r].Pair(), db.secSize)
      requires names.Valid() && !names.lastIsCompleteDel && NamesCoherent(names.table[..], fl, names.crc) && NamesShort(fl)
      modifies db`flash, names, names.table, sectors.table
      ensures Told() && Reliable() && db.flash == MoveWrites(fl, x, r, d, db.secSize)
      ensures Narrows(old(db.flash), db.flash, db.secSize)
    {
      var rec := db.flash[x].recs[r].(status := Write);
      var to := (d, |db.flash[d].recs|);
      assert rec == fl[x].recs[r];
      RecIsIntact(db.flash, x, r, db.secSize);
      WriteRecord(d, addr, rec);
      DelKv(x, r, true);
      MoveShort(fl, x, r, d, db.secSize);
      names.AfterMove(fl, x, r, d, rec.name, to, db.secSize);
    }

    /** One turn of the record loop of `do_gc`. */
    method GcRecord(x: nat, r: nat, ghost fl1: Flash, ghost spare: Option<nat>) returns (ghost spare': Option<nat>)
      requires Told() && Reliable() && db.gcRequest && !db.inRecovery
      requires x < |db.flash| && r < |db.flash[x].recs| && Collecting(fl1, db.flash, x, r, spare, db.secSize)
      modifies db`flash, db`gcRequest, names, names.table, sectors.table
      ensures Told() && Reliable() && db.gcRequest && Collecting(fl1, db.flash, x, r + 1, spare', db.secSize)
      ensures Narrows(old(db.flash), db.flash, db.secSize)
    {
      ghost var fl := db.flash;
      var rec := db.flash[x].recs[r];
      if rec.Intact() && (rec.status == Write || rec.status == PreDelete) {
        ghost var err, dest;
        err, dest := MoveKv(x, r);
        spare' := AfterMove(fl1, fl, db.flash, db.oldest, db.secSize, x, r, spare, err, dest);
      } else {
        SkipsGarbage(fl1, fl, x, r, spare, db.secSize);
        spare' := spare;
      }
    }

    /** The record loop of `do_gc`. */
    method GcRecords(x: nat) returns (ghost spare: Option<nat>)
      requires Told() && Reliable() && db.gcRequest && !db.inRecovery
      requires x < |db.flash| && Collecting(db.flash, db.flash, x, 0, None, db.secSize)
      modifies db`flash, db`gcRequest, names, names.table, sectors.table
      ensures Told() && Reliable() && db.gcRequest
      ensures Narrows(old(db.flash), db.flash, db.secSize)
      ensures Collecting(old(db.flash), db.flash, x, |old(db.flash)[x].recs|, spare, db.secSize)
    {
      ghost var fl1 := db.flash;
      spare := None;
      var r := 0;
      while r < |db.flash[x].recs|
        invariant Collecting(fl1, db.flash, x, r, spare, db.secSize)
        invariant Told() && Reliable() && db.gcRequest
        invariant Narrows(old(db.flash), db.flash, db.secSize)
      {
        spare := GcRecord(x, r, fl1, spare);
        r := r + 1;
      }
    }

    /** `do_gc` on a sector it collects: the mark goes to the flash only, the entry of the sector is
        dropped when it is formatted. */
    method DoGc(x: nat)
      requires Told() && Reliable() && RestRecs(db.flash) && x < |db.flash| && db.flash[x].dirty in {DirtyTrue, DirtyGc}
      requires db.gcRequest && !db.inRecovery && EmptyCount(db.flash) >= 1
      modifies db`flash, db`oldest, db`gcRequest, names, names.table, sectors.table
      ensures Told() && Reliable() && RestRecs(db.flash) && SameLive(old(db.flash), db.flash) && db.gcRequest
      ensures db.flash[x] == FormattedSector() && db.oldest == NextSector(x, db.secNum)
      ensures Narrows(old(db.flash), db.flash, db.secSize)
      ensures forall s :: 0 <= s < db.secNum && s != x ==>
                db.flash[s].dirty == old(db.flash)[s].dirty && old(db.flash)[s].recs <= db.flash[s].recs
      ensures EmptyCount(db.flash) >= old(EmptyCount(db.flash))
    {
      StartGc(x);
      ghost var fl1 := db.flash;
      ghost var spare := GcRecords(x);
      EndGc(x, fl1, spare);
    }

    method StartGc(x: nat)
      requires Told() && Reliable() && RestRecs(db.flash) && x < |db.flash| && db.flash[x].dirty in {DirtyTrue, DirtyGc}
      requires EmptyCount(db.flash) >= 1
      modifies db`flash
      ensures Told() && Reliable() && db.flash == SetDirty(old(db.flash), x, DirtyGc)
      ensures Narrows(old(db.flash), db.flash, db.secSize)
      ensures Collecting(db.flash, db.flash, x, 0, None, db.secSize)
      ensures SameLive(old(db.flash), db.flash) && EmptyCount(db.flash) == old(EmptyCount(db.flash))
    {
      ghost var fl := db.flash;
      StartCollecting(fl, x, db.secSize);
      MarkForGc(sectors.table[..], fl, x, db.secSize);
      DirtyTrusted(fl, x, DirtyGc, db.secSize, magic);
      db.flash := SetDirty(db.flash, x, DirtyGc);
      SameLiveNames(names.table[..], fl, db.flash, names.crc);
    }

    method EndGc(x: nat, ghost fl1: Flash, ghost spare: Option<nat>)
      requires Told() && Reliable() && x < |fl1| == |db.flash| && Collecting(fl1, db.flash, x, |fl1[x].recs|, spare, db.secSize)
      modifies db`flash, db`oldest, sectors.table
      ensures Told() && Reliable() && RestRecs(db.flash) && db.flash == Format(old(db.flash), x)
      ensures Narrows(old(db.flash), db.flash, db.secSize)
      ensures SameLive(fl1, db.flash) && EmptyCount(db.flash) >= EmptyCount(fl1) && db.oldest == NextSector(x, db.secNum)
    {
      ghost var fl := db.flash;
      FinishCollecting(fl1, fl, x, spare, db.secSize);
      FormatTrusted(fl, x, db.secSize, magic);
      FormatKeepsCoherent(names.table[..], fl, x, names.crc);
      sectors.AfterFormat(x, fl);
      db.flash := Format(db.flash, x);
      db.oldest := NextSector(x, db.secNum);
    }

    /** `do_gc` as the callback of the sector walk. */
    method GcSector(ghost fl0: Flash, start: nat, k: nat, lastGc: nat, freeSize: nat) returns (lastGc': nat, stop: bool)
      requires Told() && Reliable() && db.gcRequest && !db.inRecovery && start < db.secNum && k < db.secNum && lastGc < db.secNum
      requires GcPass(fl0, db.flash, start, k, db.secSize) && db.flash[lastGc].dirty == DirtyFalse
      modifies db`flash, db`oldest, db`gcRequest, names, names.table, sectors.table
      ensures Told() && Reliable() && GcPass(fl0, db.flash, start, k + 1, db.secSize) && db.gcRequest
      ensures Narrows(old(db.flash), db.flash, db.secSize)
      ensures lastGc' < db.secNum && db.flash[lastGc'].dirty == DirtyFalse
      ensures stop ==> freeSize < db.secSize && Enough(db.flash, freeSize, db.secSize)
    {
      var s := RingAt(start, db.secNum, k);
      lastGc', stop := lastGc, false;
      var sector := SectorInfo(s, false);
      if sector.dirty == DirtyTrue || sector.dirty == DirtyGc {
        DoGc(s);
        lastGc' := s;
        stop := GcEnough(lastGc, s, freeSize);
      } else {
        assert SectorOk(db.flash[s], db.secSize);
      }
    }

    /** The test that ends `do_gc`: it looks at the sector collected before. */
    method GcEnough(lastGc: nat, s: nat, freeSize: nat) returns (stop: bool)
      requires Told() && Reliable() && lastGc < db.secNum && s < db.secNum && s != lastGc
      requires db.flash[lastGc].dirty == DirtyFalse && db.flash[s] == FormattedSector()
      modifies sectors.table
      ensures Told()
      ensures stop ==> freeSize < db.secSize && Enough(db.flash, freeSize, db.secSize)
    {
      var last := SectorInfo(lastGc, true);
      stop := last.remain > freeSize;
      if db.flash[lastGc].store == StoreEmpty {
        TwoEmpty(db.flash, lastGc, s);
      }
    }

    /** `gc_check_cb` over the empty sectors. */
    method GcCheck() returns (emptyNum: nat, emptyAddr: nat)
      requires SectorsTold()
      modifies sectors.table
      ensures SectorsTold() && emptyNum == EmptyCount(db.flash)
      ensures emptyAddr < db.secNum && (emptyNum > 0 ==> db.flash[emptyAddr].store == StoreEmpty)
    {
      emptyNum := CountStatus(StoreEmpty);
      emptyAddr := 0;
      ghost var met := false;
      var k := 0;
      while k < db.secNum
        invariant 0 <= k <= db.secNum && emptyAddr < db.secNum && SectorsTold()
        invariant met ==> db.flash[emptyAddr].store == StoreEmpty
        invariant !met ==> forall j :: 0 <= j < k ==> db.flash[RingAt(db.oldest, db.secNum, j)].store != StoreEmpty
      {
        var info := SectorInfo(RingAt(db.oldest, db.secNum, k), false);
        if info.store == StoreEmpty {
          emptyAddr := RingAt(db.oldest, db.secNum, k);
          met := true;
        }
        k := k + 1;
      }
      if emptyNum > 0 && !met {
        var s := StoreCountHas(db.flash, StoreEmpty);
        var j := RingPos(db.oldest, db.secNum, s);
        assert false;
      }
    }

    /** `gc_collect_by_free_size` */
    method GcCollect(freeSize: nat)
      requires Told() && Reliable() && Settled(db.flash) && EmptyCount(db.flash) >= 1 && db.gcRequest && !db.inRecovery
      modifies db`flash, db`oldest, db`gcRequest, names, names.table, sectors.table
      ensures Told() && Reliable() && Settled(db.flash) && !db.gcRequest
      ensures Narrows(old(db.flash), db.flash, db.secSize)
      ensures SameLive(old(db.flash), db.flash) && EmptyCount(db.flash) >= old(EmptyCount(db.flash))
      ensures old(EmptyCount(db.flash)) == 1 ==> NoGarbage(db.flash) || Enough(db.flash, freeSize, db.secSize)
    {
      var emptyNum, lastGc := GcCheck();
      if emptyNum <= GC_EMPTY_SEC_THRESHOLD {
        assert SectorOk(db.flash[lastGc], db.secSize);
        var start := db.oldest;
        var k := 0;
        var stop := false;
        while k < db.secNum && !stop
          invariant 0 <= k <= db.secNum && 0 <= start < db.secNum && 0 <= lastGc < db.secNum
          invariant Told() && Reliable() && db.gcRequest && GcPass(old(db.flash), db.flash, start, k, db.secSize)
          invariant db.flash[lastGc].dirty == DirtyFalse
          invariant Narrows(old(db.flash), db.flash, db.secSize)
          invariant stop ==> freeSize < db.secSize && Enough(db.flash, freeSize, db.secSize)
        {
          lastGc, stop := GcSector(old(db.flash), start, k, lastGc, freeSize);
          k := k + 1;
        }
        if !stop {
          AllVisited(db.flash, start, db.secSize);
        }
      }
      db.gcRequest := false;
    }

    // ---------- set and delete ----------

    /** `new_kv` */
    method NewKv(size: nat) returns (found: Option<nat>, addr: nat)
      requires Told() && Reliable() && Settled(db.flash) && EmptyCount(db.flash) >= 1 && !db.gcRequest && !db.inRecovery
      modifies db`flash, db`oldest, db`gcRequest, names, names.table, sectors.table
      ensures Told() && Reliable() && Settled(db.flash) && EmptyCount(db.flash) >= 1 && !db.gcRequest
      ensures Narrows(old(db.flash), db.flash, db.secSize)
      ensures SameLive(old(db.flash), db.flash)
      ensures found.Some? ==> Allocates(db.flash, db.oldest, size, false, db.secSize, found) && addr == EmptyOffset(db.flash[found.value])
      ensures found.None? ==> NoRoom(db.flash, size, db.secSize)
      ensures found.None? ==> Unavoidable(db.flash, size, db.secSize) || InSlack(db.flash, size, db.secSize)
    {
      found, addr := AllocKv(size);
      if found.None? && db.gcRequest {
        GcCollect(size);
        found, addr := AllocKv(size);
        if found.None? {
          db.gcRequest := false;
        }
      }
      if found.None? && EmptyCount(db.flash) > 1 {
        var e := StoreCountHas(db.flash, StoreEmpty);
        assert SectorOk(db.flash[e], db.secSize) && !Candidate(db.flash[e], StoreEmpty, size, false, db.secSize);
      }
      if found.None? && Enough(db.flash, size, db.secSize) {
        EnoughOrSlack(db.flash, size, db.secSize);
      }
    }

    /** The writes of `set_kv`: the new record is entered in the name cache between the two halves of
        the deletion of the old one. */
    method WriteReplacement(d: nat, addr: nat, key: Name, value: Value, at: Option<Pos>)
      requires Told() && !db.gcRequest && OldRecord(db.flash, key, at) && Visible(key)
      requires Target(db.flash, d, key, value, db.secSize) && addr == EmptyOffset(db.flash[d])
      modifies db`flash, names, names.table, sectors.table
      ensures Told() && db.flash == ReplaceWrites(old(db.flash), d, key, value, at, db.secSize)
      ensures old(Reliable()) && Harmless(old(db.flash), (key, value), db.secSize) ==> Reliable()
    {
      ghost var fl := db.flash;
      var rec := Rec(Write, key, value, true, true);
      var to := (d, |db.flash[d].recs|);
      if at.Some? {
        MarkedTarget(fl, d, key, value, at.value.0, at.value.1, db.secSize);
        DelKv(at.value.0, at.value.1, false);
        UsedSameLengths(fl[d].recs, db.flash[d].recs);
      }
      WriteRecord(d, addr, rec);
      if at.Some? {
        DelKv(at.value.0, at.value.1, true);
      }
      ReplaceShort(fl, d, key, value, at, db.secSize);
      names.AfterSet(fl, d, key, value, at, to, db.secSize);
    }

    /** The part of `set_kv` between the allocation and the final collection. */
    method Replace(d: nat, addr: nat, key: Name, value: Value)
      requires Valid() && Visible(key) && Alone(db.contents, names.crc, key)
      requires Target(db.flash, d, key, value, db.secSize) && addr == EmptyOffset(db.flash[d])
      modifies db`flash, db`contents, names, names.table, sectors.table
      ensures Valid() && db.contents == old(db.contents)[key := value]
      ensures old(Reliable()) && Harmless(old(db.flash), (key, value), db.secSize) ==> Reliable()
    {
      AloneOnFlash(db.contents, db.flash, names.crc, key);
      var found, s, r := FindKv(key);
      var at := if found then Some((s, r)) else None;
      Replaced(db.contents, db.flash, d, key, value, at, db.secSize);
      WriteReplacement(d, addr, key, value, at);
      db.contents := db.contents[key := value];
    }

    /** `set_kv` with a value. Walks stay reliable unless the value ends in 0xFF and there is room for it
        behind a stray byte. */
    method Set(key: Name, value: Value) returns (err: Err)
      requires Valid() && Reliable() && Visible(key) && Alone(db.contents, names.crc, key)
      modifies db, names, names.table, sectors.table
      ensures Valid() && err in {NoErr, SavedFull}
      ensures err == SavedFull || Harmless(old(db.flash), (key, value), db.secSize) ==> Reliable()
      ensures db.contents == if err == NoErr then old(db.contents)[key := value] else old(db.contents)
      ensures err == SavedFull ==> NoRoom(db.flash, KvLen(|key|, |value|), db.secSize)
      ensures err == SavedFull ==>
                Unavoidable(db.flash, KvLen(|key|, |value|), db.secSize) || InSlack(db.flash, KvLen(|key|, |value|), db.secSize)
    {
      var d, addr := NewKv(KvLen(|key|, |value|));
      SameLiveAbstracts(db.contents, old(db.flash), db.flash);
      if d.None? {
        return SavedFull;
      }
      Replace(d.value, addr, key, value);
      err := NoErr;
    }

    method DeleteAt(s: nat, r: nat, key: Name)
      requires Valid() && s < |db.flash| && r < |db.flash[s].recs| && Matches(db.flash[s].recs[r], key)
      modifies db`flash, db`contents, names, names.table, sectors.table
      ensures Valid() && db.contents == old(db.contents) - {key} && (old(Reliable()) ==> Reliable())
    {
      ghost var fl := db.flash;
      RecIsIntact(fl, s, r, db.secSize);
      DelWritesCopies(fl, s, r, Deleted, (key, []));
      DeleteAbstracts(db.contents, fl, s, r);
      DeleteSettled(fl, s, r);
      DelTrusted(fl, s, r, Deleted, db.secSize, magic);
      DelKv(s, r, true);
      names.AfterDelete(fl, key, s, r);
      db.contents := db.contents - {key};
    }

    /** `fdb_kv_del` */
    method Del(key: Name) returns (err: Err)
      requires Valid() && Visible(key) && Alone(db.contents, names.crc, key)
      modifies db, names, names.table, sectors.table
      ensures Valid() && db.oldest == old(db.oldest) && (old(Reliable()) ==> Reliable())
      ensures err == if key in old(db.contents) then NoErr else NameErr
      ensures db.contents == old(db.contents) - {key}
    {
      AloneOnFlash(db.contents, db.flash, names.crc, key);
      var found, s, r := FindKv(key);
      if found {
        LookupAgrees(db.contents, db.flash, key, s, r);
        DeleteAt(s, r, key);
        err := NoErr;
      } else {
        LookupMisses(db.contents, db.flash, key, db.secSize);
        assert db.contents == db.contents - {key};
        err := NameErr;
      }
    }
  }

  ghost predicate NoneMarked(fl: Flash) {
    forall s :: 0 <= s < |fl| ==> fl[s].dirty != DirtyGc
  }
}
