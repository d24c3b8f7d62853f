// Flash model of the FlashDB time series log (fdb_tsdb.c): sectors in a ring, each with index
// slots that grow up behind the header and blobs that grow down from the end.

module TsFlash {

  type Bytes = seq<bv8>

  // sizeof(struct sector_hdr_data) and sizeof(struct log_idx_data) for a write granularity of
  // one bit and 32-bit timestamps
  const SECTOR_HDR: nat := 32
  const LOG_IDX: nat := 16
  const ERASED: bv8 := 0xFF

  datatype TslStatus = TslUnused | TslPreWrite | TslWrite | TslUser1 | TslDeleted | TslUser2
  datatype StoreStatus = StoreUnused | StoreEmpty | StoreUsing | StoreFull

  /** An index slot; `addr` is the offset of the blob in its sector. */
  datatype Slot = Slot(status: TslStatus, time: int, len: nat, addr: nat)
  datatype EndInfo = EndInfo(status: TslStatus, time: int, index: nat)

  /** `body` is every byte of the sector outside the header and the slots written so far. */
  datatype Sector = Sector(status: StoreStatus, startTime: int, end0: EndInfo, end1: EndInfo,
                           slots: seq<Slot>, body: Bytes)
  type Flash = seq<Sector>

  /** What a callback can read of an entry. */
  datatype Entry = Entry(time: int, data: Bytes)

  // erased header fields read as -1
  const NO_END := EndInfo(TslUnused, -1, 0xFFFF_FFFF)

  function FormattedSector(secSize: nat): Sector {
    Sector(StoreEmpty, -1, NO_END, NO_END, [], seq(secSize, _ => ERASED))
  }

  function IdxOff(j: nat): nat { SECTOR_HDR + LOG_IDX * j }

  /** Where the blobs of a sector begin. */
  function Bottom(slots: seq<Slot>, secSize: nat): nat {
    if slots == [] then secSize else slots[|slots|-1].addr
  }

  /** The bytes a NOR flash holds after `data` is programmed over `old`. */
  function Programmed(before: Bytes, data: Bytes): Bytes
    requires |before| == |data|
  {
    seq(|data|, i requires 0 <= i < |data| => before[i] & data[i])
  }

  function ReadBytes(body: Bytes, addr: nat, len: nat): Bytes {
    if addr + len <= |body| then body[addr..addr + len] else []
  }

  function ReadEntry(sec: Sector, slot: Slot): Entry {
    Entry(slot.time, ReadBytes(sec.body, slot.addr, slot.len))
  }

  /** Where the blob of slot `j` has to end. */
  function Above(slots: seq<Slot>, j: nat, secSize: nat): nat
    requires j < |slots|
  {
    if j == 0 then secSize else slots[j-1].addr
  }

  ghost predicate SlotsOk(slots: seq<Slot>, secSize: nat) {
    && (forall j :: 0 <= j < |slots| ==> slots[j].addr + slots[j].len <= secSize)
    // blobs do not overlap, and are packed downwards from the end of the sector
    && (forall i, j :: 0 <= i < j < |slots| ==> slots[j].addr + slots[j].len <= slots[i].addr)
    && (forall j {:trigger Above(slots, j, secSize)} :: 0 <= j < |slots| ==>
          slots[j].addr + slots[j].len == Above(slots, j, secSize))
    && (forall j :: 0 <= j < |slots| ==> slots[j].status !in {TslUnused, TslPreWrite})
  }

  ghost predicate Layout(sec: Sector, secSize: nat) {
    && |sec.body| == secSize
    && SlotsOk(sec.slots, secSize)
    // slots and blobs never overlap, and everything between them is erased
    && IdxOff(|sec.slots|) <= Bottom(sec.slots, secSize)
    && (forall i :: IdxOff(|sec.slots|) <= i < Bottom(sec.slots, secSize) ==> sec.body[i] == ERASED)
  }

  ghost predicate Increasing(slots: seq<Slot>) {
    forall i, j :: 0 <= i < j < |slots| ==> slots[i].time < slots[j].time
  }

  ghost predicate SectorOk(sec: Sector, secSize: nat) {
    && Layout(sec, secSize) && Increasing(sec.slots)
    && match sec.status
       case StoreUnused => false
       case StoreEmpty => sec == FormattedSector(secSize)
       case StoreUsing => sec.slots != [] && sec.startTime == sec.slots[0].time && sec.end0 == NO_END && sec.end1 == NO_END
       case StoreFull =>
         && sec.slots != [] && sec.startTime == sec.slots[0].time
         && sec.end0 == EndInfo(TslWrite, sec.slots[|sec.slots|-1].time, IdxOff(|sec.slots| - 1))
  }

  ghost predicate FlashOk(fl: Flash, secSize: nat) {
    forall s {:trigger SectorOk(fl[s], secSize)} :: 0 <= s < |fl| ==> SectorOk(fl[s], secSize)
  }

  // ---------- the log ----------

  /** The entries of a sector in the order they were appended. */
  function Log(sec: Sector): (log: seq<Entry>) {
    seq(|sec.slots|, j requires 0 <= j < |sec.slots| => ReadEntry(sec, sec.slots[j]))
  }

  function Flatten(secs: Flash): seq<Entry> {
    if secs == [] then [] else Flatten(secs[..|secs|-1]) + Log(secs[|secs|-1])
  }

  /** The sectors in the order a walk from `oldest` meets them. */
  function Ring(fl: Flash, oldest: nat): (ring: Flash)
    requires oldest < |fl|
    ensures |ring| == |fl|
  {
    fl[oldest..] + fl[..oldest]
  }

  // ---------- appending to a sector ----------

  /** `write_tsl` in a sector with room: the slot behind the others, the blob in front of them. */
  function Written(sec: Sector, time: int, data: Bytes, secSize: nat): Sector
    requires |data| <= Bottom(sec.slots, secSize) <= |sec.body|
  {
    var addr := Bottom(sec.slots, secSize) - |data|;
    sec.(slots := sec.slots + [Slot(TslWrite, time, |data|, addr)],
         body := sec.body[..addr] + Programmed(sec.body[addr..addr + |data|], data) + sec.body[addr + |data|..])
  }

  predicate HasRoom(sec: Sector, len: nat, secSize: nat) {
    IdxOff(|sec.slots|) + LOG_IDX + len <= Bottom(sec.slots, secSize)
  }

  lemma ErasedAnd(b: bv8)
    ensures ERASED & b == b
  {
  }

  /** Programming erased bytes stores the data. */
  lemma ProgramErased(before: Bytes, data: Bytes)
    requires |before| == |data| && forall i :: 0 <= i < |before| ==> before[i] == ERASED
    ensures Programmed(before, data) == data
  {
    forall i | 0 <= i < |data| ensures Programmed(before, data)[i] == data[i] {
      ErasedAnd(data[i]);
    }
  }

  lemma SpliceKeeps(body: Bytes, addr: nat, data: Bytes, a: nat, l: nat)
    requires addr + |data| <= a && a + l <= |body|
    ensures (body[..addr] + data + body[addr + |data|..])[a..a+l] == body[a..a+l]
  {
    assert body[..addr] + data + body[addr + |data|..] == (body[..addr] + data) + body[addr + |data|..];
  }

  /** What `Written` comes to when the blob lands on erased bytes. */
  ghost predicate Extends(sec: Sector, sec': Sector, time: int, data: Bytes, secSize: nat) {
    var addr := Bottom(sec.slots, secSize) - |data|;
    && 0 <= addr && addr + |data| <= |sec.body|
    && sec'.slots == sec.slots + [Slot(TslWrite, time, |data|, addr)]
    && sec'.body == sec.body[..addr] + data + sec.body[addr + |data|..]
  }

  lemma WrittenExtends(sec: Sector, time: int, data: Bytes, secSize: nat)
    requires Layout(sec, secSize) && HasRoom(sec, |data|, secSize)
    ensures Bottom(sec.slots, secSize) <= secSize
    ensures Extends(sec, Written(sec, time, data, secSize), time, data, secSize)
  {
    var addr := Bottom(sec.slots, secSize) - |data|;
    ProgramErased(sec.body[addr..addr + |data|], data);
  }

  lemma SlotsExtend(slots: seq<Slot>, slot: Slot, secSize: nat)
    requires SlotsOk(slots, secSize)
    requires slot.addr + slot.len == Bottom(slots, secSize) <= secSize && slot.status == TslWrite
    ensures SlotsOk(slots + [slot], secSize)
  {
    var all := slots + [slot];
    var n := |slots|;
    assert forall j :: 0 <= j < n ==> all[j] == slots[j];
    forall i, j | 0 <= i < j < |all| ensures all[j].addr + all[j].len <= all[i].addr {
      if j == n && i < n - 1 {
        assert slots[n-1].addr + slots[n-1].len <= slots[i].addr;
      }
    }
    forall j | 0 <= j < |all| ensures all[j].addr + all[j].len == Above(all, j, secSize) {
      if j < |slots| {
        assert slots[j].addr + slots[j].len == Above(slots, j, secSize);
      }
    }
  }

  lemma ExtendsLayout(sec: Sector, sec': Sector, time: int, data: Bytes, secSize: nat)
    requires Layout(sec, secSize) && Extends(sec, sec', time, data, secSize) && HasRoom(sec, |data|, secSize)
    ensures Layout(sec', secSize)
  {
    SlotsExtend(sec.slots, sec'.slots[|sec.slots|], secSize);
  }

  lemma ExtendsLog(sec: Sector, sec': Sector, time: int, data: Bytes, secSize: nat)
    requires Layout(sec, secSize) && Extends(sec, sec', time, data, secSize) && HasRoom(sec, |data|, secSize)
    ensures Log(sec') == Log(sec) + [Entry(time, data)]
  {
    var n := |sec.slots|;
    var addr := sec'.slots[n].addr;
    forall j | 0 <= j < n ensures Log(sec')[j] == Log(sec)[j] {
      assert sec'.slots[j] == sec.slots[j];
      SpliceKeeps(sec.body, addr, data, sec.slots[j].addr, sec.slots[j].len);
    }
    assert sec'.body[addr..addr+|data|] == data;
    assert Log(sec') == Log(sec) + [Entry(time, data)];
  }

  /** A slot and a blob that fit keep the layout: the entry can be read back, every earlier entry
      reads as before. */
  lemma WrittenOk(sec: Sector, time: int, data: Bytes, secSize: nat)
    requires Layout(sec, secSize) && HasRoom(sec, |data|, secSize) && Bottom(sec.slots, secSize) <= secSize
    ensures Layout(Written(sec, time, data, secSize), secSize)
    ensures Log(Written(sec, time, data, secSize)) == Log(sec) + [Entry(time, data)]
  {
    var sec' := Written(sec, time, data, secSize);
    WrittenExtends(sec, time, data, secSize);
    ExtendsLayout(sec, sec', time, data, secSize);
    ExtendsLog(sec, sec', time, data, secSize);
  }

  // ---------- flattening ----------

  lemma ConcatAssoc<T>(x: seq<T>, y: seq<T>, z: seq<T>)
    ensures (x + y) + z == x + (y + z)
  {
  }

  lemma {:induction false} FlattenConcat(a: Flash, b: Flash)
    ensures Flatten(a + b) == Flatten(a) + Flatten(b)
    decreases |b|
  {
    if b == [] {
      assert a + b == a;
    } else {
      FlattenConcat(a, b[..|b|-1]);
      assert (a + b)[..|a+b|-1] == a + b[..|b|-1];
      ConcatAssoc(Flatten(a), Flatten(b[..|b|-1]), Log(b[|b|-1]));
    }
  }

  lemma FlattenOne(sec: Sector)
    ensures Flatten([sec]) == Log(sec)
  {
    assert [sec][..0] == [];
  }

  lemma {:induction false} FlattenNothing(secs: Flash)
    requires forall s :: 0 <= s < |secs| ==> secs[s].slots == []
    ensures Flatten(secs) == []
  {
    if secs != [] {
      FlattenNothing(secs[..|secs|-1]);
    }
  }

  /** The log split at the k-th sector of the walk. */
  lemma {:induction false} FlattenSplit(ring: Flash, k: nat)
    requires k < |ring|
    ensures Flatten(ring) == Flatten(ring[..k]) + Log(ring[k]) + Flatten(ring[k+1..])
  {
    assert ring == ring[..k] + ([ring[k]] + ring[k+1..]);
    FlattenConcat(ring[..k], [ring[k]] + ring[k+1..]);
    FlattenConcat([ring[k]], ring[k+1..]);
    FlattenOne(ring[k]);
  }
}
