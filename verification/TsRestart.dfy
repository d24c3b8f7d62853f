// Opening a time series log from flash (fdb_tsdb_init, check_sec_hdr_cb and the traversing
// read_sector_info of fdb_tsdb.c).

module TsRestart {
  import opened Options
  import opened SectorRing
  import opened TsFlash
  import opened TsStore

  /** The status `read_tsl` finds at an index offset: behind the slots written it reads whatever
      byte is there. */
  function StatusAt(sec: Sector, idx: nat): TslStatus
    requires idx >= SECTOR_HDR
  {
    if SlotNo(idx) < |sec.slots| then sec.slots[SlotNo(idx)].status
    else if idx < |sec.body| && sec.body[idx] == ERASED then TslUnused
    else TslWrite
  }

  /** The in-memory info of a sector in use that its flash contents determine. */
  function MemoryInfo(sec: Sector, addr: nat, secSize: nat): SecInfo
    requires sec.slots != []
  {
    SecInfo(addr, sec.status, sec.startTime, sec.slots[|sec.slots|-1].time, IdxOff(|sec.slots| - 1),
            sec.end0.status, sec.end1.status, Bottom(sec.slots, secSize) - IdxOff(|sec.slots|),
            IdxOff(|sec.slots|), Bottom(sec.slots, secSize))
  }

  lemma SlotsFit(sec: Sector, secSize: nat, j: nat)
    requires Layout(sec, secSize) && j < |sec.slots|
    ensures IdxOff(|sec.slots|) <= sec.slots[j].addr
    ensures sec.slots[j].addr + sec.slots[j].len == Bottom(sec.slots[..j], secSize)
  {
    assert sec.slots[j].addr + sec.slots[j].len == Above(sec.slots, j, secSize);
    var n := |sec.slots|;
    if j < n - 1 {
      assert sec.slots[n-1].addr + sec.slots[n-1].len <= sec.slots[j].addr;
    }
  }

  /** Behind the last slot the flash reads as unused, unless a blob begins there. */
  lemma BehindLast(sec: Sector, secSize: nat)
    requires Layout(sec, secSize)
    ensures IdxOff(|sec.slots|) < Bottom(sec.slots, secSize) <= secSize ==> StatusAt(sec, IdxOff(|sec.slots|)) == TslUnused
  {
    assert SlotNo(IdxOff(|sec.slots|)) == |sec.slots|;
  }

  /** `read_sector_info` with traversal: walks the slots of a sector in use. The result code is
      READ_ERR exactly when the sector is filled to the last byte; the info is right all the same. */
  method ReadSectorInfo(sec: Sector, addr: nat, before: SecInfo, secSize: nat) returns (info: SecInfo, err: Err)
    requires SectorOk(sec, secSize) && secSize >= SECTOR_HDR
    ensures sec.status == StoreUsing ==> info == MemoryInfo(sec, addr, secSize)
    ensures sec.status == StoreUsing ==> (err == ReadErr <==> info.remain == 0)
    ensures sec.status != StoreUsing ==> info == HeaderInfo(sec, addr, before, secSize) && err == NoErr
  {
    info := HeaderInfo(sec, addr, before, secSize);
    err := NoErr;
    if info.status == StoreUsing {
      var idx := info.emptyIdx;
      ghost var j := 0;
      var n := |sec.slots|;
      BehindLast(sec, secSize);
      assert sec.slots[..n] == sec.slots;
      while StatusAt(sec, idx) != TslUnused
        invariant 0 <= j <= n && idx == IdxOff(j) == info.emptyIdx
        invariant info.emptyData == Bottom(sec.slots[..j], secSize)
        invariant info.remain == info.emptyData - info.emptyIdx > 0
        invariant info.addr == addr && info.status == StoreUsing && info.startTime == sec.startTime
        invariant info.endStat0 == TslUnused && info.endStat1 == TslUnused
        invariant j > 0 ==> info.endTime == sec.slots[j-1].time && info.endIdx == IdxOff(j - 1)
        decreases n - j
      {
        assert SlotNo(idx) == j;
        var slot := sec.slots[SlotNo(idx)];
        SlotsFit(sec, secSize, j);
        assert sec.slots[..j+1][j] == slot;
        info := info.(endTime := slot.time, endIdx := idx, emptyIdx := info.emptyIdx + LOG_IDX,
                      emptyData := info.emptyData - slot.len);
        idx := idx + LOG_IDX;
        j := j + 1;
        if info.remain > LOG_IDX + slot.len {
          info := info.(remain := info.remain - (LOG_IDX + slot.len));
        } else {
          info := info.(remain := 0);
          err := ReadErr;
          assert j == n;
          return;
        }
      }
      assert SlotNo(idx) == j;
      assert j == n;
    }
  }

  /** Which sectors are in use and which are empty, by their address. */
  lemma Statuses(fl: Flash, oldest: nat, cur: SecInfo, lastTime: int, secSize: nat, i: nat)
    requires StoreOk(fl, oldest, cur, lastTime, secSize) && i < |fl|
    ensures fl[i].status == StoreUsing <==> i == cur.addr && cur.status == StoreUsing
    ensures fl[i].status == StoreEmpty <==>
              cur.status == StoreEmpty || (RingPos(oldest, |fl|, cur.addr) + 1 < |fl| && i > cur.addr)
    ensures SectorOk(fl[i], secSize)
  {
    RingIndex(fl, oldest, RingPos(oldest, |fl|, i));
    RingIndex(fl, oldest, RingPos(oldest, |fl|, cur.addr));
    assert SectorOk(fl[i], secSize);
  }

  /** What the walk relies on at address `i`. */
  ghost predicate StatusKnown(fl: Flash, cur: SecInfo, secSize: nat, i: nat)
    requires i < |fl|
  {
    && SectorOk(fl[i], secSize)
    && (fl[i].status == StoreUsing <==> i == cur.addr && cur.status == StoreUsing)
    && cur.status != StoreUnused
    && (cur.status == StoreEmpty ==> fl[i].status == StoreEmpty && cur.addr == 0)
    && (fl[i].status == StoreEmpty ==> cur.status != StoreFull && (cur.status == StoreUsing ==> i > cur.addr))
  }

  /** How far the walk has got before address `s`. */
  ghost predicate WalkedTo(fl: Flash, cur: SecInfo, s: nat, current: Option<SecInfo>, emptyNum: nat, emptyAddr: nat)
    requires s <= |fl|
  {
    && (current.Some? <==> (cur.status == StoreUsing && s > cur.addr) || (cur.status == StoreEmpty && s > 0))
    && (current.Some? ==> current.value.addr == cur.addr)
    && (emptyNum > 0 <==> s > 0 && fl[s-1].status == StoreEmpty)
    && (emptyNum > 0 ==> emptyAddr == s - 1)
  }

  /** `check_sec_hdr_cb` on one sector. */
  method CheckSector(sec: Sector, s: nat, info: SecInfo, current: Option<SecInfo>, emptyNum: nat, emptyAddr: nat,
                     ghost fl: Flash, ghost cur: SecInfo, ghost secSize: nat)
    returns (current': Option<SecInfo>, emptyNum': nat, emptyAddr': nat, checkFailed: bool)
    requires s < |fl| && sec == fl[s] && info.status == sec.status && info.addr == s
    requires StatusKnown(fl, cur, secSize, s) && WalkedTo(fl, cur, s, current, emptyNum, emptyAddr)
    requires s > 0 && fl[s-1].status == StoreEmpty ==> fl[s].status == StoreEmpty
    ensures !checkFailed && WalkedTo(fl, cur, s + 1, current', emptyNum', emptyAddr')
  {
    current', emptyNum', emptyAddr', checkFailed := current, emptyNum, emptyAddr, false;
    if info.status == StoreUsing {
      if current.None? {
        current' := Some(info);
      } else {
        checkFailed := true;
      }
    } else if info.status == StoreEmpty {
      emptyNum' := emptyNum + 1;
      emptyAddr' := s;
      if emptyNum' == 1 && current.None? {
        current' := Some(info);
      }
    }
  }

  /** The walk of `fdb_tsdb_init` with `check_sec_hdr_cb`: finds the sector in use (or the first
      empty one) and the last empty sector, and complains about a second sector in use. */
  method CheckSectors(fl: Flash, secSize: nat, stale: SecInfo, ghost oldest0: nat, ghost cur0: SecInfo, ghost lastTime0: int)
    returns (current: Option<SecInfo>, emptyNum: nat, emptyAddr: nat, checkFailed: bool)
    requires StoreOk(fl, oldest0, cur0, lastTime0, secSize) && secSize >= SECTOR_HDR
    ensures !checkFailed
    ensures current.Some? <==> cur0.status != StoreFull
    ensures current.Some? ==> current.value.addr == cur0.addr
    ensures emptyNum > 0 <==> fl[|fl|-1].status == StoreEmpty
    ensures emptyNum > 0 ==> emptyAddr == |fl| - 1
  {
    current, checkFailed := None, false;
    emptyNum, emptyAddr := 0, 0;
    var info := stale;
    var s := 0;
    while s < |fl| && !checkFailed
      invariant 0 <= s <= |fl| && !checkFailed
      invariant WalkedTo(fl, cur0, s, current, emptyNum, emptyAddr)
    {
      StatusOf(fl, oldest0, cur0, lastTime0, secSize, s);
      var err;
      info, err := ReadSectorInfo(fl[s], s, info, secSize);
      current, emptyNum, emptyAddr, checkFailed := CheckSector(fl[s], s, info, current, emptyNum, emptyAddr, fl, cur0, secSize);
      s := s + 1;
    }
    CurrentInRange(fl, oldest0, cur0, lastTime0, secSize);
  }

  lemma StatusOf(fl: Flash, oldest: nat, cur: SecInfo, lastTime: int, secSize: nat, s: nat)
    requires StoreOk(fl, oldest, cur, lastTime, secSize) && s < |fl|
    ensures StatusKnown(fl, cur, secSize, s)
    ensures s > 0 && fl[s-1].status == StoreEmpty ==> fl[s].status == StoreEmpty
  {
    Statuses(fl, oldest, cur, lastTime, secSize, s);
    if s > 0 { Statuses(fl, oldest, cur, lastTime, secSize, s - 1); }
  }

  lemma CurrentInRange(fl: Flash, oldest: nat, cur: SecInfo, lastTime: int, secSize: nat)
    requires StoreOk(fl, oldest, cur, lastTime, secSize)
    ensures 0 < |fl| && cur.addr < |fl| && cur.status in {StoreEmpty, StoreUsing, StoreFull}
  {
  }

  /** The sector after the latest one is the oldest. */
  lemma OldestFollows(fl: Flash, oldest: nat, cur: SecInfo, lastTime: int, secSize: nat)
    requires StoreOk(fl, oldest, cur, lastTime, secSize) && cur.status != StoreFull
    ensures var latest := if fl[|fl|-1].status == StoreEmpty then |fl| - 1 else cur.addr;
      oldest == if latest + 1 >= |fl| then 0 else latest + 1
  {
    Statuses(fl, oldest, cur, lastTime, secSize, |fl| - 1);
  }

  lemma MemoryIsDetermined(fl: Flash, oldest: nat, cur: SecInfo, lastTime: int, secSize: nat)
    requires StoreOk(fl, oldest, cur, lastTime, secSize)
    ensures cur.addr < |fl| && SectorOk(fl[cur.addr], secSize) && fl[cur.addr].status == cur.status
    ensures cur.status == StoreUsing ==>
              fl[cur.addr].slots != [] && MemoryInfo(fl[cur.addr], cur.addr, secSize) == cur && cur.endTime == lastTime
    ensures cur.status == StoreEmpty ==> cur.remain == secSize - SECTOR_HDR && oldest == cur.addr
  {
    assert SectorOk(fl[cur.addr], secSize);
    if cur.status == StoreUsing {
      CurrentIsLast(fl, oldest, cur, lastTime, secSize);
    }
  }

  /** The last timestamp: that of the sector in use, or of the one before an empty current sector
      when that is not the oldest. */
  function SavedTime(fl: Flash, info: SecInfo, oldest: nat, stale: SecInfo, staleTime: int, secSize: nat): int
    requires info.addr < |fl| && secSize >= SECTOR_HDR
  {
    if info.status == StoreUsing then info.endTime
    else if info.status == StoreEmpty && oldest != info.addr then
      var last := if info.addr == 0 then |fl| - 1 else info.addr - 1;
      HeaderInfo(fl[last], last, stale, secSize).endTime
    else staleTime
  }

  /** The second reading of the current sector. */
  method ReadCurrent(sec: Sector, addr: nat, before: SecInfo, secSize: nat, ghost cur0: SecInfo) returns (info: SecInfo)
    requires SectorOk(sec, secSize) && secSize >= SECTOR_HDR && addr == cur0.addr && sec.status == cur0.status != StoreFull
    requires cur0.status == StoreUsing ==> sec.slots != [] && MemoryInfo(sec, addr, secSize) == cur0
    ensures cur0.status == StoreUsing ==> info == cur0
    ensures cur0.status == StoreEmpty ==> info.addr == addr && info.status == StoreEmpty && info.remain == secSize - SECTOR_HDR
  {
    var err;
    info, err := ReadSectorInfo(sec, addr, before, secSize);
  }

  /** What `fdb_tsdb_init` does after its walk. */
  method Adopt(fl: Flash, secSize: nat, walked: SecInfo, emptyNum: nat, emptyAddr: nat, stale: SecInfo, staleTime: int,
               ghost oldest0: nat, ghost cur0: SecInfo, ghost lastTime0: int)
    returns (info: SecInfo, oldest: nat, lastTime: int)
    requires secSize >= SECTOR_HDR && walked.addr == cur0.addr < |fl| && cur0.status != StoreFull
    requires SectorOk(fl[cur0.addr], secSize) && fl[cur0.addr].status == cur0.status
    requires cur0.status == StoreUsing ==>
               (fl[cur0.addr].slots != [] && MemoryInfo(fl[cur0.addr], cur0.addr, secSize) == cur0 && cur0.endTime == lastTime0)
    requires cur0.status == StoreEmpty ==> oldest0 == cur0.addr
    requires var latest := if emptyNum > 0 then emptyAddr else cur0.addr;
      latest < |fl| && oldest0 == if latest + 1 >= |fl| then 0 else latest + 1
    ensures oldest == oldest0
    ensures cur0.status == StoreUsing ==> info == cur0 && lastTime == lastTime0
    ensures cur0.status == StoreEmpty ==>
              info.addr == cur0.addr && info.status == StoreEmpty && info.remain == secSize - SECTOR_HDR && lastTime == staleTime
  {
    var latest := if emptyNum > 0 then emptyAddr else walked.addr;
    oldest := if latest + 1 >= |fl| then 0 else latest + 1;
    info := ReadCurrent(fl[walked.addr], walked.addr, walked, secSize, cur0);
    lastTime := SavedTime(fl, info, oldest, stale, staleTime, secSize);
  }

  /** `fdb_tsdb_init` on flash whose sector headers are in order. `stale` and `staleTime` are what
      the structures hold before. A log in use comes back as it was in memory; no current sector
      is found exactly on a ring that is full for good. */
  method Init(fl: Flash, secSize: nat, stale: SecInfo, staleTime: int,
              ghost oldest0: nat, ghost cur0: SecInfo, ghost lastTime0: int)
    returns (current: Option<SecInfo>, oldest: nat, lastTime: int, checkFailed: bool)
    requires StoreOk(fl, oldest0, cur0, lastTime0, secSize) && secSize >= SECTOR_HDR
    ensures !checkFailed
    ensures current.None? <==> cur0.status == StoreFull
    ensures cur0.status == StoreUsing ==> current == Some(cur0) && oldest == oldest0 && lastTime == lastTime0
    ensures cur0.status == StoreEmpty ==>
              (current.Some? && current.value.addr == cur0.addr && current.value.status == StoreEmpty
               && current.value.remain == cur0.remain && oldest == oldest0 && lastTime == staleTime)
  {
    var emptyNum, emptyAddr;
    current, emptyNum, emptyAddr, checkFailed := CheckSectors(fl, secSize, stale, oldest0, cur0, lastTime0);
    MemoryIsDetermined(fl, oldest0, cur0, lastTime0, secSize);
    oldest, lastTime := 0, staleTime;
    if current.Some? {
      OldestFollows(fl, oldest0, cur0, lastTime0, secSize);
      var info;
      info, oldest, lastTime := Adopt(fl, secSize, current.value, emptyNum, emptyAddr, stale, staleTime, oldest0, cur0, lastTime0);
      current := Some(info);
    }
  }
}
