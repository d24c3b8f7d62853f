// Appending to the time series log and walking it (fdb_tsdb.c).

module TsStore {
  import opened SectorRing
  import opened TsFlash

  datatype Err = NoErr | WriteErr | SavedFull | ReadErr

  /** `struct tsdb_sec_info`; addresses are a sector number and offsets in that sector. */
  datatype SecInfo = SecInfo(addr: nat, status: StoreStatus, startTime: int, endTime: int, endIdx: nat,
                             endStat0: TslStatus, endStat1: TslStatus, remain: int, emptyIdx: nat, emptyData: nat)

  function LastSector(s: nat, n: nat): int {
    if s >= 1 then s - 1 else n - 1
  }

  /** `read_sector_info` without traversal: fields the header does not give keep their value. */
  function HeaderInfo(sec: Sector, addr: nat, before: SecInfo, secSize: nat): SecInfo
    requires secSize >= SECTOR_HDR
  {
    SecInfo(addr, sec.status, sec.startTime,
            if sec.end0.status == TslWrite then sec.end0.time
            else if sec.end1.status == TslWrite then sec.end1.time else before.endTime,
            if sec.end0.status == TslWrite then sec.end0.index
            else if sec.end1.status == TslWrite then sec.end1.index else before.endIdx,
            sec.end0.status, sec.end1.status, secSize - SECTOR_HDR, SECTOR_HDR, secSize)
  }

  /** What the store keeps in memory about the sector it writes to. */
  ghost predicate AgreesSector(cur: SecInfo, sec: Sector, secSize: nat) {
    && cur.status == sec.status && cur.status != StoreUnused
    && cur.emptyIdx == IdxOff(|sec.slots|) && cur.emptyData == Bottom(sec.slots, secSize)
    && cur.remain == cur.emptyData - cur.emptyIdx
    && (sec.slots != [] ==>
          && cur.startTime == sec.startTime
          && cur.endTime == sec.slots[|sec.slots|-1].time && cur.endIdx == IdxOff(|sec.slots| - 1))
    && (cur.status != StoreFull ==> cur.endStat0 == TslUnused && cur.endStat1 == TslUnused)
  }

  ghost predicate Agrees(cur: SecInfo, fl: Flash, secSize: nat) {
    cur.addr < |fl| && AgreesSector(cur, fl[cur.addr], secSize)
  }

  /** From the oldest sector on: full sectors, the current one, empty ones. */
  ghost predicate RingOk(ring: Flash, pos: nat) {
    && pos < |ring|
    && (forall k :: 0 <= k < pos ==> ring[k].status == StoreFull)
    && (forall k :: pos < k < |ring| ==> ring[k].status == StoreEmpty)
  }

  predicate Earlier(log: seq<Entry>, i: nat, j: nat)
    requires i < j < |log|
  {
    log[i].time < log[j].time
  }

  ghost predicate Rising(log: seq<Entry>) {
    forall i: nat, j: nat {:trigger Earlier(log, i, j)} :: i < j < |log| ==> Earlier(log, i, j)
  }

  ghost predicate EndsAt(log: seq<Entry>, time: int) {
    log != [] ==> log[|log|-1].time == time
  }

  // ---------- sector transitions ----------

  /** The current sector once it is marked full. */
  function Closed(sec: Sector, time: int): Sector
    requires sec.slots != []
  {
    var end := EndInfo(TslWrite, time, IdxOff(|sec.slots| - 1));
    if sec.end0.status == TslUnused then sec.(status := StoreFull, end0 := end)
    else if sec.end1.status == TslUnused then sec.(status := StoreFull, end1 := end)
    else sec.(status := StoreFull)
  }

  function Opened(sec: Sector, time: int): Sector {
    sec.(status := StoreUsing, startTime := time)
  }

  lemma ClosedOk(sec: Sector, secSize: nat)
    requires SectorOk(sec, secSize) && sec.status == StoreUsing
    ensures SectorOk(Closed(sec, sec.slots[|sec.slots|-1].time), secSize)
    ensures Log(Closed(sec, sec.slots[|sec.slots|-1].time)) == Log(sec)
  {
  }

  lemma FormattedOk(secSize: nat)
    requires secSize >= SECTOR_HDR
    ensures SectorOk(FormattedSector(secSize), secSize)
    ensures Log(FormattedSector(secSize)) == []
  {
  }

  /** Writing an entry with a later time to a sector that is open. */
  lemma AppendedOk(sec: Sector, time: int, data: Bytes, secSize: nat)
    requires SectorOk(sec, secSize) && sec.status == StoreUsing
    requires sec.slots[|sec.slots|-1].time < time
    requires HasRoom(sec, |data|, secSize) && Bottom(sec.slots, secSize) <= secSize
    ensures SectorOk(Written(sec, time, data, secSize), secSize)
    ensures Log(Written(sec, time, data, secSize)) == Log(sec) + [Entry(time, data)]
  {
    WrittenOk(sec, time, data, secSize);
  }

  lemma FirstOk(time: int, data: Bytes, secSize: nat)
    requires SECTOR_HDR + LOG_IDX + |data| <= secSize
    ensures SectorOk(Written(Opened(FormattedSector(secSize), time), time, data, secSize), secSize)
    ensures Log(Written(Opened(FormattedSector(secSize), time), time, data, secSize)) == [Entry(time, data)]
  {
    var sec := Opened(FormattedSector(secSize), time);
    FormattedOk(secSize);
    WrittenOk(sec, time, data, secSize);
  }

  // ---------- ring transitions ----------

  lemma RingUpdate(fl: Flash, oldest: nat, s: nat, sec: Sector)
    requires oldest < |fl| && s < |fl|
    ensures Ring(fl[s := sec], oldest) == Ring(fl, oldest)[RingPos(oldest, |fl|, s) := sec]
  {
  }

  lemma RingIndex(fl: Flash, oldest: nat, k: nat)
    requires oldest < |fl| && k < |fl|
    ensures Ring(fl, oldest)[k] == fl[RingAt(oldest, |fl|, k)]
  {
  }

  /** Reusing the oldest sector turns the ring by one. */
  lemma RingShift(fl: Flash, oldest: nat, sec: Sector)
    requires oldest < |fl|
    ensures NextSector(oldest, |fl|) < |fl|
    ensures Ring(fl[oldest := sec], NextSector(oldest, |fl|)) == Ring(fl, oldest)[1..] + [sec]
  {
  }

  /** Replacing the last sector that holds entries. */
  lemma LogGrows(ring: Flash, pos: nat, sec: Sector, e: Entry)
    requires RingOk(ring, pos) && forall k :: pos < k < |ring| ==> ring[k].slots == []
    requires Log(sec) == Log(ring[pos]) + [e]
    ensures Flatten(ring[pos := sec]) == Flatten(ring) + [e]
  {
    var ring' := ring[pos := sec];
    FlattenSplit(ring, pos);
    FlattenSplit(ring', pos);
    assert ring'[..pos] == ring[..pos] && ring'[pos+1..] == ring[pos+1..];
    FlattenNothing(ring[pos+1..]);
  }

  lemma LogSame(ring: Flash, pos: nat, sec: Sector)
    requires pos < |ring| && Log(sec) == Log(ring[pos])
    ensures Flatten(ring[pos := sec]) == Flatten(ring)
  {
    FlattenSplit(ring, pos);
    FlattenSplit(ring[pos := sec], pos);
    assert ring[pos := sec][..pos] == ring[..pos] && ring[pos := sec][pos+1..] == ring[pos+1..];
  }

  lemma LogTurns(ring: Flash, sec: Sector, e: Entry)
    requires ring != [] && Log(sec) == [e]
    ensures |Log(ring[0])| <= |Flatten(ring)|
    ensures Flatten(ring[1..] + [sec]) == Flatten(ring)[|Log(ring[0])|..] + [e]
  {
    FlattenSplit(ring, 0);
    FlattenConcat(ring[1..], [sec]);
    FlattenOne(sec);
  }

  // ---------- what every append keeps ----------

  ghost function Retained(fl: Flash, oldest: nat): seq<Entry>
    requires oldest < |fl|
  {
    Flatten(Ring(fl, oldest))
  }

  /** The ring and the place of the current sector in it. */
  ghost predicate Placed(fl: Flash, oldest: nat, cur: SecInfo) {
    && oldest < |fl| && cur.addr < |fl|
    && var pos := RingPos(oldest, |fl|, cur.addr);
      && RingOk(Ring(fl, oldest), pos)
      && (pos + 1 < |fl| ==> oldest == 0)
      && (cur.status == StoreEmpty ==> pos == 0 && oldest == 0)
      && (cur.status == StoreFull ==> pos + 1 == |fl| && cur.addr + 1 == |fl|)
  }

  ghost predicate LogOk(log: seq<Entry>, lastTime: int) {
    Rising(log) && EndsAt(log, lastTime)
  }

  ghost predicate StoreOk(fl: Flash, oldest: nat, cur: SecInfo, lastTime: int, secSize: nat) {
    && FlashOk(fl, secSize) && Agrees(cur, fl, secSize)
    && Placed(fl, oldest, cur)
    && LogOk(Retained(fl, oldest), lastTime)
  }

  lemma FlashOkUpdate(fl: Flash, s: nat, sec: Sector, secSize: nat)
    requires FlashOk(fl, secSize) && s < |fl| && SectorOk(sec, secSize)
    ensures FlashOk(fl[s := sec], secSize)
  {
  }

  lemma LogAppend(log: seq<Entry>, e: Entry, lastTime: int, drop: nat)
    requires LogOk(log, lastTime) && lastTime < e.time && drop <= |log|
    ensures LogOk(log[drop..] + [e], e.time)
  {
    var all := log[drop..] + [e];
    forall i: nat, j: nat | i < j < |all| ensures Earlier(all, i, j) {
      if j < |all| - 1 {
        assert Earlier(log, drop + i, drop + j);
      } else if i + 1 < j {
        assert Earlier(log, drop + i, |log| - 1);
      }
    }
  }

  lemma EmptiesHoldNothing(fl: Flash, oldest: nat, pos: nat, secSize: nat)
    requires oldest < |fl| && FlashOk(fl, secSize) && RingOk(Ring(fl, oldest), pos)
    ensures forall k :: pos < k < |fl| ==> Ring(fl, oldest)[k] == FormattedSector(secSize)
  {
    forall k | pos < k < |fl| ensures Ring(fl, oldest)[k] == FormattedSector(secSize) {
      RingIndex(fl, oldest, k);
      assert SectorOk(fl[RingAt(oldest, |fl|, k)], secSize);
    }
  }

  /** The last entry of the current sector is the last of the log. */
  lemma CurrentIsLast(fl: Flash, oldest: nat, cur: SecInfo, lastTime: int, secSize: nat)
    requires StoreOk(fl, oldest, cur, lastTime, secSize) && fl[cur.addr].slots != []
    ensures cur.endTime == lastTime
  {
    var pos := RingPos(oldest, |fl|, cur.addr);
    var ring := Ring(fl, oldest);
    RingIndex(fl, oldest, pos);
    EmptiesHoldNothing(fl, oldest, pos, secSize);
    FlattenNothing(ring[pos+1..]);
    FlattenSplit(ring, pos);
  }

  function Advanced(cur: SecInfo, time: int, len: nat): SecInfo
    requires len <= cur.emptyData
  {
    cur.(endIdx := cur.emptyIdx, endTime := time, emptyIdx := cur.emptyIdx + LOG_IDX,
         emptyData := cur.emptyData - len, remain := cur.remain - (LOG_IDX + len))
  }

  lemma AdvancedAgrees(cur: SecInfo, sec: Sector, time: int, data: Bytes, secSize: nat)
    requires AgreesSector(cur, sec, secSize) && sec.status == StoreUsing && cur.startTime == sec.startTime
    requires |data| <= Bottom(sec.slots, secSize) <= |sec.body|
    ensures AgreesSector(Advanced(cur, time, |data|), Written(sec, time, data, secSize), secSize)
  {
  }

  function OpenedInfo(addr: nat, time: int, before: SecInfo, secSize: nat): SecInfo
    requires secSize >= SECTOR_HDR
  {
    HeaderInfo(FormattedSector(secSize), addr, before, secSize).(status := StoreUsing, startTime := time)
  }

  function FirstSector(time: int, data: Bytes, secSize: nat): Sector
    requires |data| <= secSize
  {
    Written(Opened(FormattedSector(secSize), time), time, data, secSize)
  }

  /** The current sector has room. */
  lemma AppendHere(fl: Flash, oldest: nat, cur: SecInfo, lastTime: int, time: int, data: Bytes, secSize: nat)
    requires StoreOk(fl, oldest, cur, lastTime, secSize) && lastTime < time
    requires cur.status == StoreUsing && cur.remain >= LOG_IDX + |data|
    requires SectorOk(fl[cur.addr], secSize) && Bottom(fl[cur.addr].slots, secSize) <= secSize
    ensures var fl' := fl[cur.addr := Written(fl[cur.addr], time, data, secSize)];
      && StoreOk(fl', oldest, Advanced(cur, time, |data|), time, secSize)
      && Retained(fl', oldest) == Retained(fl, oldest) + [Entry(time, data)]
  {
    var c := cur.addr;
    var sec' := Written(fl[c], time, data, secSize);
    CurrentIsLast(fl, oldest, cur, lastTime, secSize);
    AppendedOk(fl[c], time, data, secSize);
    FlashOkUpdate(fl, c, sec', secSize);
    AdvancedAgrees(cur, fl[c], time, data, secSize);
    ReplaceCurrent(fl, oldest, cur, sec', Advanced(cur, time, |data|), Entry(time, data), secSize);
    LogAppend(Retained(fl, oldest), Entry(time, data), lastTime, 0);
    assert Retained(fl, oldest)[0..] == Retained(fl, oldest);
  }

  /** The sector written to is replaced by one with an entry more. */
  lemma ReplaceCurrent(fl: Flash, oldest: nat, cur: SecInfo, sec': Sector, cur': SecInfo, e: Entry, secSize: nat)
    requires FlashOk(fl, secSize) && Placed(fl, oldest, cur) && sec'.status == StoreUsing
    requires cur'.addr == cur.addr && cur'.status == StoreUsing
    requires Log(sec') == Log(fl[cur.addr]) + [e]
    ensures Placed(fl[cur.addr := sec'], oldest, cur')
    ensures Retained(fl[cur.addr := sec'], oldest) == Retained(fl, oldest) + [e]
  {
    var pos := RingPos(oldest, |fl|, cur.addr);
    RingIndex(fl, oldest, pos);
    RingUpdate(fl, oldest, cur.addr, sec');
    EmptiesHoldNothing(fl, oldest, pos, secSize);
    LogGrows(Ring(fl, oldest), pos, sec', e);
  }

  /** The first entry of a store that holds none. */
  lemma AppendFirst(fl: Flash, oldest: nat, cur: SecInfo, lastTime: int, time: int, data: Bytes, secSize: nat)
    requires StoreOk(fl, oldest, cur, lastTime, secSize) && lastTime < time
    requires cur.status == StoreEmpty && SECTOR_HDR + LOG_IDX + |data| <= secSize
    ensures cur.emptyData == secSize && fl[cur.addr] == FormattedSector(secSize)
    ensures var fl' := fl[cur.addr := FirstSector(time, data, secSize)];
      && StoreOk(fl', oldest, Advanced(cur.(status := StoreUsing, startTime := time), time, |data|), time, secSize)
      && Retained(fl', oldest) == Retained(fl, oldest) + [Entry(time, data)]
  {
    var c := cur.addr;
    var sec' := FirstSector(time, data, secSize);
    var cur1 := cur.(status := StoreUsing, startTime := time);
    assert SectorOk(fl[c], secSize);
    FirstOk(time, data, secSize);
    FlashOkUpdate(fl, c, sec', secSize);
    AdvancedAgrees(cur1, Opened(FormattedSector(secSize), time), time, data, secSize);
    FormattedOk(secSize);
    ReplaceCurrent(fl, oldest, cur, sec', Advanced(cur1, time, |data|), Entry(time, data), secSize);
    LogAppend(Retained(fl, oldest), Entry(time, data), lastTime, 0);
    assert Retained(fl, oldest)[0..] == Retained(fl, oldest);
  }

  lemma OpenedAgrees(addr: nat, before: SecInfo, time: int, data: Bytes, secSize: nat)
    requires SECTOR_HDR + LOG_IDX + |data| <= secSize
    ensures var cur' := Advanced(OpenedInfo(addr, time, before, secSize), time, |data|);
      && cur'.addr == addr && cur'.status == StoreUsing
      && AgreesSector(cur', FirstSector(time, data, secSize), secSize)
  {
    AdvancedAgrees(OpenedInfo(addr, time, before, secSize), Opened(FormattedSector(secSize), time), time, data, secSize);
  }

  /** Closing the current sector changes no entry. */
  lemma CloseCurrent(fl: Flash, oldest: nat, cur: SecInfo, lastTime: int, secSize: nat)
    requires StoreOk(fl, oldest, cur, lastTime, secSize) && cur.status == StoreUsing
    ensures fl[cur.addr].slots != []
    ensures var closed := Closed(fl[cur.addr], lastTime);
      && SectorOk(closed, secSize) && closed.status == StoreFull && Log(closed) == Log(fl[cur.addr])
      && FlashOk(fl[cur.addr := closed], secSize)
      && Ring(fl[cur.addr := closed], oldest) == Ring(fl, oldest)[RingPos(oldest, |fl|, cur.addr) := closed]
      && Retained(fl[cur.addr := closed], oldest) == Retained(fl, oldest)
  {
    var c := cur.addr;
    assert SectorOk(fl[c], secSize);
    CurrentIsLast(fl, oldest, cur, lastTime, secSize);
    ClosedOk(fl[c], secSize);
    var closed := Closed(fl[c], lastTime);
    FlashOkUpdate(fl, c, closed, secSize);
    RingUpdate(fl, oldest, c, closed);
    RingIndex(fl, oldest, RingPos(oldest, |fl|, c));
    LogSame(Ring(fl, oldest), RingPos(oldest, |fl|, c), closed);
  }

  lemma NextPlaced(fl: Flash, c: nat, cur: SecInfo)
    requires c + 1 < |fl| && cur.addr == c + 1 && cur.status == StoreUsing
    requires RingOk(Ring(fl, 0), c) && fl[c].status == StoreFull
    ensures Placed(fl, 0, cur)
  {
    RingIndex(fl, 0, c);
  }

  lemma TurnPlaced(fl: Flash, oldest: nat, sec: Sector, cur: SecInfo)
    requires oldest < |fl| && cur.addr == oldest && cur.status == StoreUsing
    requires forall k :: 0 <= k < |fl| ==> Ring(fl, oldest)[k].status == StoreFull
    ensures NextSector(oldest, |fl|) < |fl|
    ensures Placed(fl[oldest := sec], NextSector(oldest, |fl|), cur)
  {
    RingShift(fl, oldest, sec);
  }

  /** The current sector is full and the next one is empty. */
  lemma AppendNext(fl: Flash, oldest: nat, cur: SecInfo, lastTime: int, time: int, data: Bytes, secSize: nat)
    requires StoreOk(fl, oldest, cur, lastTime, secSize) && lastTime < time
    requires cur.status == StoreUsing && SECTOR_HDR + LOG_IDX + |data| <= secSize
    requires RingPos(oldest, |fl|, cur.addr) + 1 < |fl|
    ensures cur.addr + 1 < |fl| && fl[cur.addr + 1] == FormattedSector(secSize) && fl[cur.addr].slots != []
    ensures var fl' := fl[cur.addr := Closed(fl[cur.addr], lastTime)][cur.addr + 1 := FirstSector(time, data, secSize)];
      && StoreOk(fl', oldest, Advanced(OpenedInfo(cur.addr + 1, time, cur, secSize), time, |data|), time, secSize)
      && Retained(fl', oldest) == Retained(fl, oldest) + [Entry(time, data)]
  {
    var c := cur.addr;
    var e := Entry(time, data);
    var cur' := Advanced(OpenedInfo(c + 1, time, cur, secSize), time, |data|);
    CloseCurrent(fl, 0, cur, lastTime, secSize);
    var fl1 := fl[c := Closed(fl[c], lastTime)];
    NextIsEmpty(fl, c, secSize);
    FirstOk(time, data, secSize);
    FlashOkUpdate(fl1, c + 1, FirstSector(time, data, secSize), secSize);
    OpenedAgrees(c + 1, cur, time, data, secSize);
    OpenNext(fl1, c, FirstSector(time, data, secSize), cur', e, secSize);
    LogAppend(Retained(fl, 0), e, lastTime, 0);
    assert Retained(fl, 0)[0..] == Retained(fl, 0);
  }

  lemma NextIsEmpty(fl: Flash, c: nat, secSize: nat)
    requires FlashOk(fl, secSize) && c + 1 < |fl| && RingOk(Ring(fl, 0), c)
    ensures fl[c + 1] == FormattedSector(secSize)
  {
    EmptiesHoldNothing(fl, 0, c, secSize);
    RingIndex(fl, 0, c + 1);
  }

  lemma OpenNext(fl: Flash, c: nat, sec: Sector, cur: SecInfo, e: Entry, secSize: nat)
    requires FlashOk(fl, secSize) && c + 1 < |fl| && RingOk(Ring(fl, 0), c) && fl[c].status == StoreFull
    requires cur.addr == c + 1 && cur.status == StoreUsing && sec.status == StoreUsing
    requires Log(sec) == [e]
    ensures Placed(fl[c + 1 := sec], 0, cur)
    ensures Retained(fl[c + 1 := sec], 0) == Retained(fl, 0) + [e]
  {
    NextPlaced(fl, c, cur);
    NextIsEmpty(fl, c, secSize);
    assert Log(FormattedSector(secSize)) == [];
    ReplaceCurrent(fl, 0, cur, sec, cur, e, secSize);
  }

  /** The current sector is full and so are all others: the oldest one is given up. */
  lemma AppendTurns(fl: Flash, oldest: nat, cur: SecInfo, lastTime: int, before: SecInfo, time: int, data: Bytes, secSize: nat)
    requires StoreOk(fl, oldest, cur, lastTime, secSize) && lastTime < time
    requires cur.status == StoreUsing && SECTOR_HDR + LOG_IDX + |data| <= secSize
    requires RingPos(oldest, |fl|, cur.addr) + 1 == |fl|
    ensures fl[cur.addr].slots != [] && NextSector(cur.addr, |fl|) == oldest && NextSector(oldest, |fl|) < |fl|
    ensures var fl1 := fl[cur.addr := Closed(fl[cur.addr], lastTime)];
      var fl' := fl1[oldest := FirstSector(time, data, secSize)];
      var oldest' := NextSector(oldest, |fl|);
      && fl1[oldest].status == StoreFull && |Log(fl[oldest])| <= |Retained(fl, oldest)|
      && StoreOk(fl', oldest', Advanced(OpenedInfo(oldest, time, before, secSize), time, |data|), time, secSize)
      && Retained(fl', oldest') == Retained(fl, oldest)[|Log(fl[oldest])|..] + [Entry(time, data)]
  {
    var c, n := cur.addr, |fl|;
    var e := Entry(time, data);
    CloseCurrent(fl, oldest, cur, lastTime, secSize);
    var fl1 := fl[c := Closed(fl[c], lastTime)];
    var sec' := FirstSector(time, data, secSize);
    RingIndex(fl1, oldest, 0);
    assert fl1[oldest].status == StoreFull by { RingIndex(fl, oldest, 0); }
    FirstOk(time, data, secSize);
    FlashOkUpdate(fl1, oldest, sec', secSize);
    OpenedAgrees(oldest, before, time, data, secSize);
    RingShift(fl1, oldest, sec');
    TurnPlaced(fl1, oldest, sec', Advanced(OpenedInfo(oldest, time, before, secSize), time, |data|));
    LogTurns(Ring(fl1, oldest), sec', e);
    assert Log(fl1[oldest]) == Log(fl[oldest]);
    LogAppend(Retained(fl, oldest), e, lastTime, |Log(fl[oldest])|);
  }

  // ---------- update_sec_status ----------

  /** What `update_sec_status` does before an entry of `len` bytes is written: it closes a sector
      without room, moves on to the next one (giving up what that holds), and marks an empty
      sector as in use. */
  ghost predicate SecStatusUpdated(fl: Flash, oldest: nat, cur: SecInfo, lastTime: int, rollover: bool, len: nat, time: int,
                                   secSize: nat, err: Err, fl': Flash, oldest': nat, cur': SecInfo)
    requires cur.addr < |fl| && secSize >= SECTOR_HDR
    requires cur.status == StoreUsing ==> fl[cur.addr].slots != []
  {
    var c, n := cur.addr, |fl|;
    var full := cur.status == StoreUsing && cur.remain < LOG_IDX + len;
    if cur.status == StoreFull then
      err == SavedFull && fl' == fl && oldest' == oldest && cur' == cur
    else if full && c + 1 >= n && !rollover then
      && err == SavedFull && oldest' == oldest
      && fl' == fl[c := Closed(fl[c], lastTime)] && cur' == cur.(status := StoreFull)
    else if full then
      var next := NextSector(c, n);
      var fl1 := fl[c := Closed(fl[c], lastTime)];
      && err == NoErr
      && (fl1[next].status == StoreEmpty ==>
            && oldest' == oldest && fl' == fl1[next := Opened(fl1[next], time)]
            && cur' == HeaderInfo(fl1[next], next, cur, secSize).(status := StoreUsing, startTime := time))
      && (fl1[next].status != StoreEmpty ==>
            && oldest' == NextSector(next, n)
            && fl' == fl1[next := Opened(FormattedSector(secSize), time)]
            && cur' == OpenedInfo(next, time, HeaderInfo(fl1[next], next, cur, secSize), secSize))
    else if cur.status == StoreEmpty then
      && err == NoErr && oldest' == oldest
      && fl' == fl[c := Opened(fl[c], time)] && cur' == cur.(status := StoreUsing, startTime := time)
    else
      err == NoErr && fl' == fl && oldest' == oldest && cur' == cur
  }

  /** A store that refuses an entry holds what it held. */
  lemma StaysFull(fl: Flash, oldest: nat, cur: SecInfo, lastTime: int, rollover: bool, len: nat, time: int,
                  secSize: nat, fl': Flash, oldest': nat, cur': SecInfo)
    requires StoreOk(fl, oldest, cur, lastTime, secSize) && secSize >= SECTOR_HDR
    requires cur.status == StoreUsing ==> fl[cur.addr].slots != []
    requires SecStatusUpdated(fl, oldest, cur, lastTime, rollover, len, time, secSize, SavedFull, fl', oldest', cur')
    ensures StoreOk(fl', oldest', cur', lastTime, secSize)
    ensures Retained(fl', oldest') == Retained(fl, oldest)
  {
    if cur.status != StoreFull {
      CloseCurrent(fl, oldest, cur, lastTime, secSize);
    }
  }

  /** The sector chosen has room, and with the entry written there the store is in order again;
      `drop` entries were given up. */
  ghost predicate WriteReady(fl: Flash, oldest: nat, time: int, data: Bytes, secSize: nat,
                             fl': Flash, oldest': nat, cur': SecInfo, drop: nat)
    requires oldest < |fl|
  {
    && |fl'| == |fl| && cur'.addr < |fl'|
    && |data| <= cur'.emptyData == Bottom(fl'[cur'.addr].slots, secSize) <= |fl'[cur'.addr].body|
    && var fl2 := fl'[cur'.addr := Written(fl'[cur'.addr], time, data, secSize)];
      && StoreOk(fl2, oldest', Advanced(cur', time, |data|), time, secSize)
      && drop <= |Retained(fl, oldest)|
      && Retained(fl2, oldest') == Retained(fl, oldest)[drop..] + [Entry(time, data)]
  }

  lemma ReadyFirst(fl: Flash, oldest: nat, cur: SecInfo, lastTime: int, time: int, data: Bytes, secSize: nat)
    requires StoreOk(fl, oldest, cur, lastTime, secSize) && lastTime < time && SECTOR_HDR + LOG_IDX + |data| <= secSize
    requires cur.status == StoreEmpty
    ensures WriteReady(fl, oldest, time, data, secSize, fl[cur.addr := Opened(fl[cur.addr], time)], oldest,
                       cur.(status := StoreUsing, startTime := time), 0)
  {
    AppendFirst(fl, oldest, cur, lastTime, time, data, secSize);
    SameUpdate(fl, cur.addr, Opened(fl[cur.addr], time), FirstSector(time, data, secSize));
    assert Retained(fl, oldest)[0..] == Retained(fl, oldest);
  }

  lemma ReadyHere(fl: Flash, oldest: nat, cur: SecInfo, lastTime: int, time: int, data: Bytes, secSize: nat)
    requires StoreOk(fl, oldest, cur, lastTime, secSize) && lastTime < time
    requires cur.status == StoreUsing && cur.remain >= LOG_IDX + |data| && SectorOk(fl[cur.addr], secSize)
    ensures WriteReady(fl, oldest, time, data, secSize, fl, oldest, cur, 0)
  {
    AppendHere(fl, oldest, cur, lastTime, time, data, secSize);
    assert Retained(fl, oldest)[0..] == Retained(fl, oldest);
  }

  lemma ReadyNext(fl: Flash, oldest: nat, cur: SecInfo, lastTime: int, time: int, data: Bytes, secSize: nat)
    requires StoreOk(fl, oldest, cur, lastTime, secSize) && lastTime < time && SECTOR_HDR + LOG_IDX + |data| <= secSize
    requires cur.status == StoreUsing && RingPos(oldest, |fl|, cur.addr) + 1 < |fl|
    ensures cur.addr + 1 < |fl| && fl[cur.addr + 1] == FormattedSector(secSize) && fl[cur.addr].slots != []
    ensures WriteReady(fl, oldest, time, data, secSize,
                       fl[cur.addr := Closed(fl[cur.addr], lastTime)][cur.addr + 1 := Opened(FormattedSector(secSize), time)],
                       oldest, OpenedInfo(cur.addr + 1, time, cur, secSize), 0)
  {
    AppendNext(fl, oldest, cur, lastTime, time, data, secSize);
    SameUpdate(fl[cur.addr := Closed(fl[cur.addr], lastTime)], cur.addr + 1,
               Opened(FormattedSector(secSize), time), FirstSector(time, data, secSize));
    assert Retained(fl, oldest)[0..] == Retained(fl, oldest);
  }

  lemma ReadyTurns(fl: Flash, oldest: nat, cur: SecInfo, lastTime: int, before: SecInfo, time: int, data: Bytes, secSize: nat)
    requires StoreOk(fl, oldest, cur, lastTime, secSize) && lastTime < time && SECTOR_HDR + LOG_IDX + |data| <= secSize
    requires cur.status == StoreUsing && RingPos(oldest, |fl|, cur.addr) + 1 == |fl|
    ensures fl[cur.addr].slots != [] && NextSector(cur.addr, |fl|) == oldest && NextSector(oldest, |fl|) < |fl|
    ensures fl[cur.addr := Closed(fl[cur.addr], lastTime)][oldest].status == StoreFull
    ensures WriteReady(fl, oldest, time, data, secSize,
                       fl[cur.addr := Closed(fl[cur.addr], lastTime)][oldest := Opened(FormattedSector(secSize), time)],
                       NextSector(oldest, |fl|), OpenedInfo(oldest, time, before, secSize), |Log(fl[oldest])|)
  {
    AppendTurns(fl, oldest, cur, lastTime, before, time, data, secSize);
    SameUpdate(fl[cur.addr := Closed(fl[cur.addr], lastTime)], oldest,
               Opened(FormattedSector(secSize), time), FirstSector(time, data, secSize));
  }

  lemma ReadyToWrite(fl: Flash, oldest: nat, cur: SecInfo, lastTime: int, rollover: bool, time: int, data: Bytes,
                     secSize: nat, fl': Flash, oldest': nat, cur': SecInfo)
    returns (drop: nat)
    requires StoreOk(fl, oldest, cur, lastTime, secSize) && lastTime < time && SECTOR_HDR + LOG_IDX + |data| <= secSize
    requires SectorOk(fl[cur.addr], secSize) && (cur.status == StoreUsing ==> fl[cur.addr].slots != [])
    requires SecStatusUpdated(fl, oldest, cur, lastTime, rollover, |data|, time, secSize, NoErr, fl', oldest', cur')
    ensures WriteReady(fl, oldest, time, data, secSize, fl', oldest', cur', drop)
    ensures drop == if cur.status == StoreUsing && cur.remain < LOG_IDX + |data| && RingPos(oldest, |fl|, cur.addr) + 1 == |fl|
                    then |Log(fl[oldest])| else 0
  {
    drop := 0;
    if cur.status == StoreEmpty {
      ReadyFirst(fl, oldest, cur, lastTime, time, data, secSize);
    } else if cur.remain >= LOG_IDX + |data| {
      ReadyHere(fl, oldest, cur, lastTime, time, data, secSize);
    } else if RingPos(oldest, |fl|, cur.addr) + 1 < |fl| {
      ReadyNext(fl, oldest, cur, lastTime, time, data, secSize);
    } else {
      var fl1 := fl[cur.addr := Closed(fl[cur.addr], lastTime)];
      var next := NextSector(cur.addr, |fl|);
      drop := |Log(fl[oldest])|;
      ReadyTurns(fl, oldest, cur, lastTime, HeaderInfo(fl1[next], next, cur, secSize), time, data, secSize);
    }
  }

  lemma SameUpdate(fl: Flash, s: nat, a: Sector, b: Sector)
    requires s < |fl|
    ensures fl[s := a][s := b] == fl[s := b]
  {
  }

  // ---------- walking ----------

  /** Which slot an index offset addresses. */
  function SlotNo(off: nat): nat
    requires off >= SECTOR_HDR
  {
    (off - SECTOR_HDR) / LOG_IDX
  }

  function Reverse<T>(s: seq<T>): (r: seq<T>)
    ensures |r| == |s|
  {
    seq(|s|, i requires 0 <= i < |s| => s[|s| - 1 - i])
  }

  lemma ReverseConcat<T>(a: seq<T>, b: seq<T>)
    ensures Reverse(a + b) == Reverse(b) + Reverse(a)
  {
  }

  lemma FlattenSnoc(ring: Flash, k: nat)
    requires k < |ring|
    ensures Flatten(ring[..k+1]) == Flatten(ring[..k]) + Log(ring[k])
  {
    assert ring[..k+1][..k] == ring[..k];
  }

  lemma FlattenCons(ring: Flash, k: nat)
    requires k < |ring|
    ensures Flatten(ring[k..]) == Log(ring[k]) + Flatten(ring[k+1..])
  {
    assert ring[k..] == [ring[k]] + ring[k+1..];
    FlattenConcat([ring[k]], ring[k+1..]);
    FlattenOne(ring[k]);
  }

  /** The info an iterator works with: from memory for the sector in use, else from the header. */
  ghost predicate WalkInfo(info: SecInfo, sec: Sector) {
    && info.status == sec.status
    && (sec.status in {StoreUsing, StoreFull} ==>
          && sec.slots != [] && info.endIdx == IdxOff(|sec.slots| - 1)
          && info.startTime == sec.slots[0].time && info.endTime == sec.slots[|sec.slots|-1].time)
    && (sec.status !in {StoreUsing, StoreFull} ==> sec.slots == [])
  }

  /** What the store knows of the k-th sector of the ring. */
  lemma KnownSector(fl: Flash, oldest: nat, cur: SecInfo, lastTime: int, secSize: nat, k: nat, before: SecInfo)
    requires StoreOk(fl, oldest, cur, lastTime, secSize) && k < |fl| && secSize >= SECTOR_HDR
    ensures var sec := Ring(fl, oldest)[k];
      var s := RingAt(oldest, |fl|, k);
      var info := HeaderInfo(sec, s, before, secSize);
      && sec == fl[s]
      && WalkInfo(if info.status == StoreUsing then cur else info, sec)
      && (sec.status == StoreEmpty ==> sec.slots == []) && sec.status != StoreUnused
      && (sec.status == StoreUsing ==> cur.addr == s)
      && SectorOk(sec, secSize)
  {
    var s := RingAt(oldest, |fl|, k);
    RingIndex(fl, oldest, k);
    RingIndex(fl, oldest, RingPos(oldest, |fl|, cur.addr));
    assert SectorOk(fl[s], secSize);
  }
}
