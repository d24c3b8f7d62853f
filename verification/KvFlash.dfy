// Flash model of the FlashDB key-value store (fdb_kvdb.c).
//
// A sector is its header (store and dirty status) and the records laid out one after
// the other behind it. Byte offsets are recovered from the record lengths, so "record r
// of sector s" stands for the flash address the C code handles.

module KvFlash {

  type Name = string
  type Value = seq<bv8>
  type Pair = (Name, Value)

  // sizeof(struct kv_hdr_data), sizeof(struct sector_hdr_data) and FDB_KV_NAME_MAX for a
  // write granularity of one bit.
  const KV_HDR: nat := 24
  const SECTOR_HDR: nat := 16
  const NAME_MAX: nat := 64
  // FDB_SEC_REMAIN_THRESHOLD and FDB_GC_EMPTY_SEC_THRESHOLD
  const REMAIN_THRESHOLD: nat := KV_HDR + NAME_MAX
  const GC_EMPTY_SEC_THRESHOLD: nat := 1

  // Stray is no status of the code: it stands for the status byte of a record whose header was never
  // written behind other records. Nothing there has the magic word, so no walk visits it.
  datatype KvStatus = Unused | PreWrite | Write | PreDelete | Deleted | ErrHdr | Stray
  datatype StoreStatus = StoreUnused | StoreEmpty | StoreUsing | StoreFull
  datatype DirtyStatus = DirtyUnused | DirtyFalse | DirtyTrue | DirtyGc

  /** A record as `read_kv` sees it. `lenOk` is false while the header behind the status
      byte is still erased; `crcOk` is the result of the checksum. */
  datatype Rec = Rec(status: KvStatus, name: Name, value: Value, lenOk: bool, crcOk: bool)
  {
    /** The space it takes. `read_kv` reports the same: a record without a written length counts as a
        header; a stray byte is not read at all. */
    function Len(): nat {
      if lenOk then KvLen(|name|, |value|) else if status == Stray then 1 else KV_HDR
    }

    predicate Live() { status == Write }
    predicate Intact() { lenOk && crcOk }

    function Pair(): Pair { (name, value) }
  }

  datatype Sector = Sector(store: StoreStatus, dirty: DirtyStatus, recs: seq<Rec>)

  type Flash = seq<Sector>

  function KvLen(nameLen: nat, valueLen: nat): nat {
    KV_HDR + nameLen + valueLen
  }

  /** `read_kv` cuts a 64-byte name to 63 characters, so a scan can only ever match
      names shorter than that. */
  predicate Visible(n: Name) { |n| < NAME_MAX }

  function FormattedSector(): Sector { Sector(StoreEmpty, DirtyFalse, []) }

  // ---------- space ----------

  function Used(recs: seq<Rec>): nat {
    if recs == [] then 0 else Used(recs[..|recs|-1]) + recs[|recs|-1].Len()
  }

  /** The space left behind the last record: the `remain` field of a sector whose walk finds its end. */
  function Remain(sec: Sector, secSize: nat): int {
    match sec.store
    case StoreEmpty => secSize - SECTOR_HDR
    case StoreUsing => secSize - SECTOR_HDR - Used(sec.recs)
    case _ => 0
  }

  /** The test of `alloc_kv_cb`. */
  predicate Fits(sec: Sector, size: nat, gcRequest: bool, secSize: nat) {
    && Remain(sec, secSize) > size + REMAIN_THRESHOLD
    && (sec.dirty == DirtyFalse || (sec.dirty == DirtyTrue && !gcRequest))
  }

  /** Every record was placed with more than the threshold left behind it. */
  ghost predicate Placed(recs: seq<Rec>, secSize: nat) {
    forall r :: 0 <= r < |recs| ==> Used(recs[..r]) + recs[r].Len() + REMAIN_THRESHOLD < secSize - SECTOR_HDR
  }

  // ---------- live records ----------

  function Hit(r: Rec, p: Pair): nat {
    if r.Live() && r.Pair() == p then 1 else 0
  }

  function CopiesIn(recs: seq<Rec>, p: Pair): nat {
    if recs == [] then 0 else CopiesIn(recs[..|recs|-1], p) + Hit(recs[|recs|-1], p)
  }

  /** How many records with status WRITE hold this (name, value) pair. */
  function Copies(fl: Flash, p: Pair): nat {
    if fl == [] then 0 else Copies(fl[..|fl|-1], p) + CopiesIn(fl[|fl|-1].recs, p)
  }

  function StoreCount(fl: Flash, st: StoreStatus): nat {
    if fl == [] then 0
    else StoreCount(fl[..|fl|-1], st) + (if fl[|fl|-1].store == st then 1 else 0)
  }

  function EmptyCount(fl: Flash): nat { StoreCount(fl, StoreEmpty) }

  /** `m` is the map a scan can observe: one live record for each of its keys. */
  ghost predicate Abstracts(m: map<Name, Value>, fl: Flash) {
    && (forall n :: n in m ==> Visible(n))
    && forall n, v :: Visible(n) ==> Copies(fl, (n, v)) == (if n in m && m[n] == v then 1 else 0)
  }

  // ---------- consistency ----------

  /** Only the first record of a sector is read without a magic word. */
  predicate RecSound(rec: Rec, first: bool) {
    && (rec.status in {PreWrite, ErrHdr, Stray} || rec.Intact())
    && (!rec.lenOk ==> if first then rec.status in {PreWrite, ErrHdr} else rec.status == Stray)
    && (rec.status == Stray ==> !rec.lenOk)
  }

  /** What even an interrupted operation leaves intact. */
  ghost predicate SectorSound(sec: Sector, secSize: nat) {
    && Placed(sec.recs, secSize)
    && !sec.store.StoreUnused? && !sec.dirty.DirtyUnused?
    && (sec.store == StoreEmpty ==> sec == FormattedSector())
    && (forall r :: 0 <= r < |sec.recs| ==> RecSound(sec.recs[r], r == 0))
  }

  ghost predicate SectorOk(sec: Sector, secSize: nat) {
    && SectorSound(sec, secSize)
    && (sec.store in {StoreUsing, StoreFull} ==> sec.recs != [])
    // garbage is only ever found in a sector marked for collection
    && (sec.dirty == DirtyFalse ==> forall r :: 0 <= r < |sec.recs| ==> sec.recs[r].status !in {PreDelete, Deleted})
  }

  ghost predicate FlashSound(fl: Flash, secSize: nat) {
    forall s {:trigger SectorSound(fl[s], secSize)} :: 0 <= s < |fl| ==> SectorSound(fl[s], secSize)
  }

  ghost predicate FlashOk(fl: Flash, secSize: nat) {
    forall s {:trigger SectorOk(fl[s], secSize)} {:trigger SectorSound(fl[s], secSize)} :: 0 <= s < |fl| ==> SectorOk(fl[s], secSize)
  }

  /** No operation is under way. */
  ghost predicate Settled(fl: Flash) {
    && (forall s :: 0 <= s < |fl| ==> fl[s].dirty != DirtyGc)
    && (forall s, r :: 0 <= s < |fl| && 0 <= r < |fl[s].recs| ==> fl[s].recs[r].status in {Write, Deleted, ErrHdr, Stray})
  }

  /** Only sectors in use hold records. */
  ghost predicate Walkable(fl: Flash) {
    forall s :: 0 <= s < |fl| ==> fl[s].store in {StoreUsing, StoreFull} || fl[s].recs == []
  }

  // ---------- the writes ----------

  function SetStatus(fl: Flash, s: nat, r: nat, st: KvStatus): Flash
    requires s < |fl| && r < |fl[s].recs|
  {
    fl[s := fl[s].(recs := fl[s].recs[r := fl[s].recs[r].(status := st)])]
  }

  function SetDirty(fl: Flash, s: nat, d: DirtyStatus): Flash
    requires s < |fl|
  {
    fl[s := fl[s].(dirty := d)]
  }

  function SetStore(fl: Flash, s: nat, st: StoreStatus): Flash
    requires s < |fl|
  {
    fl[s := fl[s].(store := st)]
  }

  function Append(fl: Flash, s: nat, rec: Rec): Flash
    requires s < |fl|
  {
    fl[s := fl[s].(recs := fl[s].recs + [rec])]
  }

  function Format(fl: Flash, s: nat): Flash
    requires s < |fl|
  {
    fl[s := FormattedSector()]
  }

  /** The store status `update_sec_status` leaves, and whether it reports the sector full. */
  function StatusAfter(sec: Sector, len: nat, secSize: nat): StoreStatus {
    match sec.store
    case StoreEmpty => StoreUsing
    case StoreUsing =>
      if Remain(sec, secSize) < REMAIN_THRESHOLD || Remain(sec, secSize) - len < REMAIN_THRESHOLD
      then StoreFull else StoreUsing
    case st => st
  }

  /** A complete record programmed behind the others: the sector status first, then the record. */
  function Program(fl: Flash, d: nat, rec: Rec, secSize: nat): Flash
    requires d < |fl|
  {
    Append(SetStore(fl, d, StatusAfter(fl[d], rec.Len(), secSize)), d, rec)
  }

  /** `del_kv`: the new record status, then the sector's dirty mark if it was clean. */
  function DelWrites(fl: Flash, s: nat, r: nat, st: KvStatus): Flash
    requires s < |fl| && r < |fl[s].recs|
  {
    var fl1 := SetStatus(fl, s, r, st);
    if fl1[s].dirty == DirtyFalse then SetDirty(fl1, s, DirtyTrue) else fl1
  }

  // ---------- lemmas ----------

  lemma UsedAppend(recs: seq<Rec>, rec: Rec)
    ensures Used(recs + [rec]) == Used(recs) + rec.Len()
  {
    assert (recs + [rec])[..|recs|] == recs;
  }

  lemma {:induction false} UsedPrefix(recs: seq<Rec>, k: nat)
    requires k <= |recs|
    ensures Used(recs[..k]) <= Used(recs)
    decreases |recs|
  {
    if k < |recs| {
      UsedPrefix(recs[..|recs|-1], k);
      assert recs[..|recs|-1][..k] == recs[..k];
    } else {
      assert recs[..k] == recs;
    }
  }

  lemma {:induction false} UsedSameLengths(a: seq<Rec>, b: seq<Rec>)
    requires |a| == |b|
    requires forall i :: 0 <= i < |a| ==> a[i].Len() == b[i].Len()
    ensures Used(a) == Used(b)
  {
    if a != [] {
      UsedSameLengths(a[..|a|-1], b[..|b|-1]);
    }
  }

  lemma PlacedAppend(recs: seq<Rec>, rec: Rec, secSize: nat)
    requires Placed(recs, secSize)
    requires Used(recs) + rec.Len() + REMAIN_THRESHOLD < secSize - SECTOR_HDR
    ensures Placed(recs + [rec], secSize)
  {
    var all := recs + [rec];
    forall r | 0 <= r < |all|
      ensures Used(all[..r]) + all[r].Len() + REMAIN_THRESHOLD < secSize - SECTOR_HDR
    {
      assert all[..r] == recs[..r];
      if r == |recs| { assert recs[..r] == recs; }
    }
  }

  lemma PlacedSameLengths(a: seq<Rec>, b: seq<Rec>, secSize: nat)
    requires Placed(a, secSize) && |a| == |b|
    requires forall i :: 0 <= i < |a| ==> a[i].Len() == b[i].Len()
    ensures Placed(b, secSize)
  {
    forall r | 0 <= r < |b|
      ensures Used(b[..r]) + b[r].Len() + REMAIN_THRESHOLD < secSize - SECTOR_HDR
    {
      UsedSameLengths(a[..r], b[..r]);
    }
  }

  lemma CopiesInAppend(recs: seq<Rec>, rec: Rec, p: Pair)
    ensures CopiesIn(recs + [rec], p) == CopiesIn(recs, p) + Hit(rec, p)
  {
    assert (recs + [rec])[..|recs|] == recs;
  }

  lemma {:induction false} CopiesInUpdate(recs: seq<Rec>, r: nat, rec: Rec, p: Pair)
    requires r < |recs|
    ensures CopiesIn(recs[r := rec], p) + Hit(recs[r], p) == CopiesIn(recs, p) + Hit(rec, p)
    decreases |recs|
  {
    var n := |recs| - 1;
    if r < n {
      CopiesInUpdate(recs[..n], r, rec, p);
      assert recs[r := rec][..n] == recs[..n][r := rec];
    } else {
      assert recs[r := rec][..n] == recs[..n];
    }
  }

  lemma {:induction false} CopiesUpdate(fl: Flash, s: nat, sec: Sector, p: Pair)
    requires s < |fl|
    ensures Copies(fl[s := sec], p) + CopiesIn(fl[s].recs, p) == Copies(fl, p) + CopiesIn(sec.recs, p)
    decreases |fl|
  {
    var n := |fl| - 1;
    if s < n {
      CopiesUpdate(fl[..n], s, sec, p);
      assert fl[s := sec][..n] == fl[..n][s := sec];
    } else {
      assert fl[s := sec][..n] == fl[..n];
    }
  }

  lemma {:induction false} StoreCountUpdate(fl: Flash, s: nat, sec: Sector, st: StoreStatus)
    requires s < |fl|
    ensures StoreCount(fl[s := sec], st) + (if fl[s].store == st then 1 else 0)
         == StoreCount(fl, st) + (if sec.store == st then 1 else 0)
    decreases |fl|
  {
    var n := |fl| - 1;
    if s < n {
      StoreCountUpdate(fl[..n], s, sec, st);
      assert fl[s := sec][..n] == fl[..n][s := sec];
    } else {
      assert fl[s := sec][..n] == fl[..n];
    }
  }

  lemma {:induction false} StoreCountConcat(a: Flash, b: Flash, st: StoreStatus)
    ensures StoreCount(a + b, st) == StoreCount(a, st) + StoreCount(b, st)
    decreases |b|
  {
    if b == [] {
      assert a + b == a;
    } else {
      StoreCountConcat(a, b[..|b|-1], st);
      assert (a + b)[..|a+b|-1] == a + b[..|b|-1];
    }
  }

  lemma {:induction false} StoreCountHas(fl: Flash, st: StoreStatus) returns (s: nat)
    requires StoreCount(fl, st) > 0
    ensures s < |fl| && fl[s].store == st
  {
    var n := |fl| - 1;
    if fl[n].store == st { s := n; } else { s := StoreCountHas(fl[..n], st); }
  }

  lemma StoreIsCounted(fl: Flash, s: nat)
    requires s < |fl|
    ensures StoreCount(fl, fl[s].store) > 0
  {
    StoreCountUpdate(fl, s, fl[s].(store := StoreUnused), fl[s].store);
    StoreCountUpdate(fl, s, fl[s].(store := StoreEmpty), fl[s].store);
  }

  /** A record that is live on flash is counted. */
  lemma LiveIsCounted(fl: Flash, s: nat, r: nat)
    requires s < |fl| && r < |fl[s].recs| && fl[s].recs[r].Live()
    ensures Copies(fl, fl[s].recs[r].Pair()) > 0
  {
    var rec := fl[s].recs[r];
    CopiesUpdate(fl, s, fl[s].(recs := []), rec.Pair());
    CopiesInUpdate(fl[s].recs, r, rec.(status := Deleted), rec.Pair());
  }

  lemma {:induction false} CopiesInHas(recs: seq<Rec>, p: Pair) returns (r: nat)
    requires CopiesIn(recs, p) > 0
    ensures r < |recs| && recs[r].Live() && recs[r].Pair() == p
  {
    var n := |recs| - 1;
    if Hit(recs[n], p) > 0 { r := n; } else { r := CopiesInHas(recs[..n], p); }
  }

  /** A pair that is counted is on flash. */
  lemma {:induction false} CountedIsLive(fl: Flash, p: Pair) returns (s: nat, r: nat)
    requires Copies(fl, p) > 0
    ensures s < |fl| && r < |fl[s].recs| && fl[s].recs[r].Live() && fl[s].recs[r].Pair() == p
  {
    var n := |fl| - 1;
    if CopiesIn(fl[n].recs, p) > 0 {
      s := n;
      r := CopiesInHas(fl[n].recs, p);
    } else {
      s, r := CountedIsLive(fl[..n], p);
    }
  }

  /** One record changes its status. */
  lemma SetStatusCopies(fl: Flash, s: nat, r: nat, st: KvStatus, p: Pair)
    requires s < |fl| && r < |fl[s].recs|
    ensures Copies(SetStatus(fl, s, r, st), p) + Hit(fl[s].recs[r], p)
         == Copies(fl, p) + Hit(fl[s].recs[r].(status := st), p)
  {
    CopiesInUpdate(fl[s].recs, r, fl[s].recs[r].(status := st), p);
    CopiesUpdate(fl, s, SetStatus(fl, s, r, st)[s], p);
  }

  lemma AppendCopies(fl: Flash, s: nat, rec: Rec, p: Pair)
    requires s < |fl|
    ensures Copies(Append(fl, s, rec), p) == Copies(fl, p) + Hit(rec, p)
  {
    CopiesInAppend(fl[s].recs, rec, p);
    CopiesUpdate(fl, s, Append(fl, s, rec)[s], p);
  }

  lemma DelWritesCopies(fl: Flash, s: nat, r: nat, st: KvStatus, p: Pair)
    requires s < |fl| && r < |fl[s].recs| && st in {PreDelete, Deleted}
    ensures Copies(DelWrites(fl, s, r, st), p) + Hit(fl[s].recs[r], p) == Copies(fl, p)
    ensures EmptyCount(DelWrites(fl, s, r, st)) == EmptyCount(fl)
  {
    var fl1 := SetStatus(fl, s, r, st);
    SetStatusCopies(fl, s, r, st, p);
    StoreCountUpdate(fl, s, fl1[s], StoreEmpty);
    CopiesUpdate(fl1, s, fl1[s].(dirty := DirtyTrue), p);
    StoreCountUpdate(fl1, s, fl1[s].(dirty := DirtyTrue), StoreEmpty);
  }

  lemma DelWritesSound(fl: Flash, s: nat, r: nat, st: KvStatus, secSize: nat)
    requires FlashSound(fl, secSize) && s < |fl| && r < |fl[s].recs|
    requires st in {PreDelete, Deleted} && fl[s].recs[r].Intact()
    ensures FlashSound(DelWrites(fl, s, r, st), secSize)
  {
    var sec := DelWrites(fl, s, r, st)[s];
    assert SectorSound(fl[s], secSize);
    SectorDelSound(fl[s], r, st, sec.dirty, secSize);
    assert DelWrites(fl, s, r, st) == fl[s := sec];
  }

  lemma SectorDelSound(sec: Sector, r: nat, st: KvStatus, dirty: DirtyStatus, secSize: nat)
    requires SectorSound(sec, secSize) && r < |sec.recs| && sec.recs[r].Intact()
    requires st in {PreDelete, Deleted} && dirty in {sec.dirty, DirtyTrue}
    ensures SectorSound(Sector(sec.store, dirty, sec.recs[r := sec.recs[r].(status := st)]), secSize)
  {
    var recs := sec.recs[r := sec.recs[r].(status := st)];
    PlacedSameLengths(sec.recs, recs, secSize);
    assert forall i :: 0 <= i < |recs| && i != r ==> recs[i] == sec.recs[i] && RecSound(sec.recs[i], i == 0);
  }

  lemma DelWritesOk(fl: Flash, s: nat, r: nat, st: KvStatus, secSize: nat)
    requires FlashOk(fl, secSize) && s < |fl| && r < |fl[s].recs|
    requires st in {PreDelete, Deleted} && fl[s].recs[r].Intact()
    ensures FlashOk(DelWrites(fl, s, r, st), secSize)
  {
    var sec := DelWrites(fl, s, r, st)[s];
    assert SectorOk(fl[s], secSize);
    SectorDelOk(fl[s], r, st, sec.dirty, secSize);
    assert DelWrites(fl, s, r, st) == fl[s := sec];
  }

  lemma SectorDelOk(sec: Sector, r: nat, st: KvStatus, dirty: DirtyStatus, secSize: nat)
    requires SectorOk(sec, secSize) && r < |sec.recs| && sec.recs[r].Intact()
    requires st in {PreDelete, Deleted} && dirty == (if sec.dirty == DirtyFalse then DirtyTrue else sec.dirty)
    ensures SectorOk(Sector(sec.store, dirty, sec.recs[r := sec.recs[r].(status := st)]), secSize)
  {
    SectorDelSound(sec, r, st, dirty, secSize);
  }

  /** A record programmed where the allocator found room fits, and the sector does not become full. */
  lemma ProgramSound(fl: Flash, d: nat, rec: Rec, gcRequest: bool, secSize: nat)
    requires FlashSound(fl, secSize) && d < |fl|
    requires rec.status == Write && rec.Intact()
    requires fl[d].store in {StoreEmpty, StoreUsing} && Fits(fl[d], rec.Len(), gcRequest, secSize)
    ensures FlashSound(Program(fl, d, rec, secSize), secSize)
    ensures Program(fl, d, rec, secSize)[d] == Sector(StoreUsing, fl[d].dirty, fl[d].recs + [rec])
  {
    assert SectorSound(fl[d], secSize);
    PlacedAppend(fl[d].recs, rec, secSize);
    assert SectorSound(Program(fl, d, rec, secSize)[d], secSize);
  }

  /** ... and it takes at most one empty sector. */
  lemma ProgramOk(fl: Flash, d: nat, rec: Rec, gcRequest: bool, secSize: nat)
    requires FlashOk(fl, secSize) && d < |fl|
    requires rec.status == Write && rec.Intact()
    requires fl[d].store in {StoreEmpty, StoreUsing} && Fits(fl[d], rec.Len(), gcRequest, secSize)
    ensures FlashOk(Program(fl, d, rec, secSize), secSize)
    ensures Program(fl, d, rec, secSize)[d] == Sector(StoreUsing, fl[d].dirty, fl[d].recs + [rec])
    ensures EmptyCount(Program(fl, d, rec, secSize))
         == EmptyCount(fl) - (if fl[d].store == StoreEmpty then 1 else 0)
  {
    var fl' := Program(fl, d, rec, secSize);
    ProgramSound(fl, d, rec, gcRequest, secSize);
    assert SectorOk(fl[d], secSize);
    assert SectorOk(fl'[d], secSize);
    StoreCountUpdate(fl, d, fl'[d], StoreEmpty);
    assert fl' == fl[d := fl'[d]];
  }

  lemma ProgramCopies(fl: Flash, d: nat, rec: Rec, secSize: nat, p: Pair)
    requires d < |fl|
    ensures Copies(Program(fl, d, rec, secSize), p) == Copies(fl, p) + Hit(rec, p)
  {
    var fl1 := SetStore(fl, d, StatusAfter(fl[d], rec.Len(), secSize));
    CopiesUpdate(fl, d, fl1[d], p);
    AppendCopies(fl1, d, rec, p);
  }
}
