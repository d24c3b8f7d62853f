// The time series database object (fdb_tsdb.c): append, iteration both ways, forward time
// query and initialization from flash.

module TsDb {
  import opened SectorRing
  import opened TsFlash
  import opened TsStore

  /** The store is in order and what it retains is the history without its first entries. */
  ghost predicate ValidAt(fl: Flash, oldest: nat, cur: SecInfo, lastTime: int, secSize: nat, history: seq<Entry>, dropped: nat) {
    && StoreOk(fl, oldest, cur, lastTime, secSize)
    && dropped <= |history| && Retained(fl, oldest) == history[dropped..]
  }

  lemma CurrentSector(fl: Flash, oldest: nat, cur: SecInfo, lastTime: int, secSize: nat)
    requires StoreOk(fl, oldest, cur, lastTime, secSize)
    ensures cur.status == fl[cur.addr].status && cur.status != StoreUnused
    ensures cur.status == StoreUsing ==>
              (fl[cur.addr].slots != [] && cur.emptyIdx == IdxOff(|fl[cur.addr].slots|)
               && fl[cur.addr].end0.status == cur.endStat0 && fl[cur.addr].end1.status == cur.endStat1)
  {
    assert SectorOk(fl[cur.addr], secSize);
  }

  lemma RefusedOutcome(fl: Flash, oldest: nat, cur: SecInfo, lastTime: int, rollover: bool, len: nat, time: int,
                       secSize: nat, history: seq<Entry>, dropped: nat, fl': Flash, oldest': nat, cur': SecInfo)
    requires ValidAt(fl, oldest, cur, lastTime, secSize, history, dropped) && secSize >= SECTOR_HDR
    requires cur.status == StoreUsing ==> fl[cur.addr].slots != []
    requires SecStatusUpdated(fl, oldest, cur, lastTime, rollover, len, time, secSize, SavedFull, fl', oldest', cur')
    ensures ValidAt(fl', oldest', cur', lastTime, secSize, history, dropped) && |fl'| == |fl|
    ensures Retained(fl', oldest') == Retained(fl, oldest)
  {
    StaysFull(fl, oldest, cur, lastTime, rollover, len, time, secSize, fl', oldest', cur');
  }

  /** How many entries are given up for a blob of this length. */
  ghost function Dropping(fl: Flash, oldest: nat, cur: SecInfo, len: nat): nat
    requires oldest < |fl| && cur.addr < |fl|
  {
    if cur.status == StoreUsing && cur.remain < LOG_IDX + len && RingPos(oldest, |fl|, cur.addr) + 1 == |fl|
    then |Log(fl[oldest])| else 0
  }

  lemma UpdateErr(fl: Flash, oldest: nat, cur: SecInfo, lastTime: int, rollover: bool, len: nat, time: int,
                  secSize: nat, err: Err, fl': Flash, oldest': nat, cur': SecInfo)
    requires cur.addr < |fl| && secSize >= SECTOR_HDR && (cur.status == StoreUsing ==> fl[cur.addr].slots != [])
    requires SecStatusUpdated(fl, oldest, cur, lastTime, rollover, len, time, secSize, err, fl', oldest', cur')
    ensures err == if cur.status == StoreFull
                      || (cur.status == StoreUsing && cur.remain < LOG_IDX + len && cur.addr + 1 >= |fl| && !rollover)
                   then SavedFull else NoErr
  {
  }

  lemma AppendOutcome(fl: Flash, oldest: nat, cur: SecInfo, lastTime: int, rollover: bool, time: int, data: Bytes,
                      secSize: nat, history: seq<Entry>, dropped: nat, fl': Flash, oldest': nat, cur': SecInfo)
    returns (drop: nat)
    requires ValidAt(fl, oldest, cur, lastTime, secSize, history, dropped)
    requires lastTime < time && SECTOR_HDR + LOG_IDX + |data| <= secSize
    requires cur.status == StoreUsing ==> fl[cur.addr].slots != []
    requires SecStatusUpdated(fl, oldest, cur, lastTime, rollover, |data|, time, secSize, NoErr, fl', oldest', cur')
    ensures |fl'| == |fl| && cur'.addr < |fl'|
    ensures |data| <= cur'.emptyData == Bottom(fl'[cur'.addr].slots, secSize) <= |fl'[cur'.addr].body|
    ensures ValidAt(fl'[cur'.addr := Written(fl'[cur'.addr], time, data, secSize)], oldest', Advanced(cur', time, |data|), time,
                    secSize, history + [Entry(time, data)], dropped + drop)
    ensures drop == Dropping(fl, oldest, cur, |data|)
  {
    assert SectorOk(fl[cur.addr], secSize);
    drop := ReadyToWrite(fl, oldest, cur, lastTime, rollover, time, data, secSize, fl', oldest', cur');
    HistorySuffix(history, dropped, drop, Entry(time, data));
  }

  class Tsdb {
    const secSize: nat
    const secNum: nat
    const maxLen: nat
    var flash: Flash
    var oldest: nat
    var cur: SecInfo
    var lastTime: int
    var rollover: bool
    // every entry ever appended, and how many of them were given up with their sectors
    ghost var history: seq<Entry>
    ghost var dropped: nat

    ghost predicate Valid()
      reads this
    {
      && |flash| == secNum && SECTOR_HDR + LOG_IDX + maxLen <= secSize
      && ValidAt(flash, oldest, cur, lastTime, secSize, history, dropped)
    }

    /** A store after `tsl_format_all`. */
    constructor (secSize: nat, secNum: nat, maxLen: nat)
      requires secNum >= 1 && SECTOR_HDR + LOG_IDX + maxLen <= secSize
      ensures Valid() && history == [] && dropped == 0 && rollover && lastTime == 0
      ensures this.secSize == secSize && this.secNum == secNum && this.maxLen == maxLen
    {
      this.secSize, this.secNum, this.maxLen := secSize, secNum, maxLen;
      flash := seq(secNum, _ => FormattedSector(secSize));
      oldest, lastTime, rollover := 0, 0, true;
      cur := HeaderInfo(FormattedSector(secSize), 0,
                        SecInfo(0, StoreEmpty, -1, -1, 0, TslUnused, TslUnused, 0, 0, 0), secSize);
      history, dropped := [], 0;
      new;
      FormattedOk(secSize);
      FlattenNothing(Ring(flash, 0));
    }

    /** FDB_TSDB_CTRL_SET_ROLLOVER */
    method SetRollover(on: bool)
      requires Valid()
      modifies this`rollover
      ensures Valid() && rollover == on
    {
      rollover := on;
    }

    /** No sector after the current one is left to write to. */
    ghost predicate AtRingEnd()
      requires oldest < secNum && cur.addr < secNum
      reads this
    {
      RingPos(oldest, secNum, cur.addr) + 1 == secNum
    }

    method FormatSector(s: nat)
      requires s < |flash|
      modifies this`flash
      ensures flash == old(flash)[s := FormattedSector(secSize)]
    {
      flash := flash[s := FormattedSector(secSize)];
    }

    /** `update_sec_status`: closes a sector without room, moves on to the next one (giving up what
        it holds), and marks an empty sector as in use. */
    method UpdateSecStatus(len: nat, time: int) returns (err: Err)
      requires |flash| == secNum && cur.addr < secNum && secSize >= SECTOR_HDR
      requires cur.status == flash[cur.addr].status && cur.status != StoreUnused
      requires cur.status == StoreUsing ==> flash[cur.addr].slots != [] && cur.emptyIdx == IdxOff(|flash[cur.addr].slots|)
                                            && flash[cur.addr].end0.status == cur.endStat0
                                            && flash[cur.addr].end1.status == cur.endStat1
      modifies this`flash, this`oldest, this`cur
      ensures SecStatusUpdated(old(flash), old(oldest), old(cur), lastTime, rollover, len, time, secSize, err, flash, oldest, cur)
    {
      if cur.status == StoreUsing && cur.remain < LOG_IDX + len {
        var sec := flash[cur.addr];
        var end := EndInfo(TslWrite, lastTime, cur.emptyIdx - LOG_IDX);
        if cur.endStat0 == TslUnused {
          sec := sec.(end0 := end);
        } else if cur.endStat1 == TslUnused {
          sec := sec.(end1 := end);
        }
        flash := flash[cur.addr := sec.(status := StoreFull)];
        cur := cur.(status := StoreFull);
        var next;
        if cur.addr + 1 < secNum {
          next := cur.addr + 1;
        } else if rollover {
          next := 0;
        } else {
          return SavedFull;
        }
        cur := HeaderInfo(flash[next], next, cur, secSize);
        if cur.status != StoreEmpty {
          oldest := NextSector(next, secNum);
          FormatSector(next);
          cur := HeaderInfo(flash[next], next, cur, secSize);
        }
      } else if cur.status == StoreFull {
        return SavedFull;
      }
      if cur.status == StoreEmpty {
        cur := cur.(status := StoreUsing, startTime := time);
        flash := flash[cur.addr := Opened(flash[cur.addr], time)];
      }
      err := NoErr;
    }

    /** `write_tsl`: slot PRE_WRITE, slot data, blob, slot WRITE. */
    method WriteTsl(data: Bytes, time: int)
      requires cur.addr < |flash| && |data| <= Bottom(flash[cur.addr].slots, secSize) <= |flash[cur.addr].body|
      requires cur.emptyData == Bottom(flash[cur.addr].slots, secSize)
      modifies this`flash
      ensures flash == old(flash)[cur.addr := Written(old(flash)[cur.addr], time, data, secSize)]
    {
      var sec := flash[cur.addr];
      var j := |sec.slots|;
      var addr := cur.emptyData - |data|;
      sec := sec.(slots := sec.slots + [Slot(TslPreWrite, time, |data|, addr)]);
      sec := sec.(body := sec.body[..addr] + Programmed(sec.body[addr..addr + |data|], data) + sec.body[addr + |data|..]);
      sec := sec.(slots := sec.slots[j := sec.slots[j].(status := TslWrite)]);
      assert sec.slots == flash[cur.addr].slots + [Slot(TslWrite, time, |data|, addr)];
      flash := flash[cur.addr := sec];
    }

    /** The write behind `UpdateSecStatus`. */
    method WriteAndAdvance(data: Bytes, time: int)
      requires cur.addr < |flash| && |data| <= cur.emptyData == Bottom(flash[cur.addr].slots, secSize) <= |flash[cur.addr].body|
      modifies this`flash, this`cur, this`lastTime
      ensures flash == old(flash)[old(cur.addr) := Written(old(flash)[old(cur.addr)], time, data, secSize)]
      ensures cur == Advanced(old(cur), time, |data|) && lastTime == time
    {
      WriteTsl(data, time);
      cur := cur.(endIdx := cur.emptyIdx, endTime := time, emptyIdx := cur.emptyIdx + LOG_IDX,
                  emptyData := cur.emptyData - |data|, remain := cur.remain - (LOG_IDX + |data|));
      lastTime := time;
    }

    /** `tsl_append` */
    method Append(data: Bytes, time: int) returns (err: Err)
      requires Valid()
      modifies this
      ensures Valid() && rollover == old(rollover)
      ensures err == if |data| > maxLen || time <= old(lastTime) then WriteErr
                     else if old(Refuses(|data|)) then SavedFull
                     else NoErr
      ensures err != NoErr ==>
                (history == old(history) && dropped == old(dropped) && lastTime == old(lastTime)
                 && Retained(flash, oldest) == old(Retained(flash, oldest)))
      // a store that has refused an entry refuses every other, also when rollover is switched on again
      ensures err == SavedFull ==> forall len :: Refuses(len)
      // an entry for which the current sector has room goes there
      ensures |data| <= maxLen && time > old(lastTime) && old(cur.status != StoreFull)
              && 32 + 16 * (|old(flash)[old(cur.addr)].slots| + 1) + |data| <= Bottom(old(flash)[old(cur.addr)].slots, secSize) ==>
                err == NoErr && dropped == old(dropped)
      // entries are only ever lost with the whole oldest sector, and only when none is free
      ensures err == NoErr ==>
                (history == old(history) + [Entry(time, data)] && lastTime == time
                 && dropped == old(dropped) + (if old(CannotHold(|data|)) && old(AtRingEnd()) then old(|Log(flash[oldest])|) else 0))
    {
      if |data| > maxLen {
        return WriteErr;
      }
      if time <= lastTime {
        return WriteErr;
      }
      err := AppendChecked(data, time);
    }

    /** The rest of `tsl_append`, for an entry whose length and time are acceptable. */
    method AppendChecked(data: Bytes, time: int) returns (err: Err)
      requires Valid() && |data| <= maxLen && lastTime < time
      modifies this
      ensures Valid() && rollover == old(rollover)
      ensures err == if old(Refuses(|data|)) then SavedFull else NoErr
      ensures err == SavedFull ==> cur.status == StoreFull
      ensures err != NoErr ==>
                (history == old(history) && dropped == old(dropped) && lastTime == old(lastTime)
                 && Retained(flash, oldest) == old(Retained(flash, oldest)))
      ensures err == NoErr ==>
                (history == old(history) + [Entry(time, data)] && lastTime == time
                 && dropped == old(dropped) + (if old(CannotHold(|data|)) && old(AtRingEnd()) then old(|Log(flash[oldest])|) else 0))
    {
      ghost var fl0, oldest0, cur0 := flash, oldest, cur;
      CurrentSector(flash, oldest, cur, lastTime, secSize);
      err := UpdateSecStatus(|data|, time);
      UpdateErr(fl0, oldest0, cur0, lastTime, rollover, |data|, time, secSize, err, flash, oldest, cur);
      FinishAppend(err, data, time, fl0, oldest0, cur0);
    }

    method FinishAppend(err: Err, data: Bytes, time: int, ghost fl0: Flash, ghost oldest0: nat, ghost cur0: SecInfo)
      requires SECTOR_HDR + LOG_IDX + maxLen <= secSize && |data| <= maxLen && lastTime < time && |fl0| == secNum
      requires ValidAt(fl0, oldest0, cur0, lastTime, secSize, history, dropped)
      requires cur0.status == StoreUsing ==> fl0[cur0.addr].slots != []
      requires err in {NoErr, SavedFull}
      requires SecStatusUpdated(fl0, oldest0, cur0, lastTime, rollover, |data|, time, secSize, err, flash, oldest, cur)
      modifies this
      ensures Valid() && rollover == old(rollover)
      ensures err != NoErr ==>
                (history == old(history) && dropped == old(dropped) && lastTime == old(lastTime)
                 && Retained(flash, oldest) == Retained(fl0, oldest0))
      ensures err == SavedFull ==> cur.status == StoreFull
      ensures err == NoErr ==>
                (history == old(history) + [Entry(time, data)] && lastTime == time
                 && dropped == old(dropped) + Dropping(fl0, oldest0, cur0, |data|))
    {
      if err != NoErr {
        RefusedOutcome(fl0, oldest0, cur0, lastTime, rollover, |data|, time, secSize, history, dropped, flash, oldest, cur);
        return;
      }
      ghost var drop := AppendOutcome(fl0, oldest0, cur0, lastTime, rollover, time, data, secSize, history, dropped, flash, oldest, cur);
      WriteAndAdvance(data, time);
      history := history + [Entry(time, data)];
      dropped := dropped + drop;
    }

    /** A ring without rollover is full. */
    ghost predicate Refuses(len: nat)
      reads this
    {
      cur.status == StoreFull || (CannotHold(len) && cur.addr + 1 >= secNum && !rollover)
    }

    /** The current sector has no room for a blob of this length. */
    ghost predicate CannotHold(len: nat)
      reads this
    {
      cur.status == StoreUsing && cur.remain < LOG_IDX + len
    }

    // ---------- iteration ----------

    /** `fdb_tsl_iter` with a callback that never stops: every retained entry, oldest first. */
    method Iter() returns (out: seq<Entry>)
      requires Valid()
      ensures out == Retained(flash, oldest)
    {
      out := [];
      var info := cur;
      var s := oldest;
      var k := 0;
      ghost var ring := Ring(flash, oldest);
      while k < secNum
        invariant 0 <= k <= secNum && |ring| == secNum
        invariant k < secNum ==> s == RingAt(oldest, secNum, k)
        invariant out == Flatten(ring[..k])
      {
        KnownSector(flash, oldest, cur, lastTime, secSize, k, info);
        FlattenSnoc(ring, k);
        info := HeaderInfo(flash[s], s, info, secSize);
        if info.status == StoreUsing || info.status == StoreFull {
          if info.status == StoreUsing {
            info := cur;
          }
          var log := WalkSector(flash[s], info.endIdx);
          out := out + log;
        }
        s := NextSector(s, secNum);
        k := k + 1;
      }
      assert ring[..k] == ring;
    }

    /** `fdb_tsl_iter_reverse`: the same entries, newest first. */
    method IterReverse() returns (out: seq<Entry>)
      requires Valid()
      ensures out == Reverse(Retained(flash, oldest))
    {
      ghost var ring := Ring(flash, oldest);
      ghost var pos := RingPos(oldest, secNum, cur.addr);
      AfterCurrent(flash, oldest, cur, lastTime, secSize);
      forall k | 0 <= k < secNum ensures KnownAt(flash, ring, oldest, cur, k) {
        KnownSector(flash, oldest, cur, lastTime, secSize, k, cur);
      }
      out := WalkBack(flash, cur, secSize, ring, oldest, pos);
    }
  }

  /** The k-th sector of the ring is what an iterator takes it to be. */
  ghost predicate KnownAt(fl: Flash, ring: Flash, oldest: nat, cur: SecInfo, k: nat)
    requires oldest < |fl| == |ring| && k < |fl|
  {
    var sec := ring[k];
    && sec == fl[RingAt(oldest, |fl|, k)] && sec.status != StoreUnused
    && (sec.status == StoreUsing ==> sec.slots != [] && cur.endIdx == IdxOff(|sec.slots| - 1))
    && (sec.status == StoreFull ==> sec.slots != [] && sec.end0.status == TslWrite && sec.end0.index == IdxOff(|sec.slots| - 1))
    && (sec.status == StoreEmpty ==> sec.slots == [])
  }

  /** One sector of `fdb_tsl_iter_reverse`; an empty one ends the walk. */
  method BackOne(sec: Sector, s: nat, before: SecInfo, cur: SecInfo, secSize: nat) returns (info: SecInfo, log: seq<Entry>, stop: bool)
    requires secSize >= SECTOR_HDR && sec.status != StoreUnused
    requires sec.status == StoreUsing ==> sec.slots != [] && cur.endIdx == IdxOff(|sec.slots| - 1)
    requires sec.status == StoreFull ==> sec.slots != [] && sec.end0.status == TslWrite && sec.end0.index == IdxOff(|sec.slots| - 1)
    ensures stop <==> sec.status == StoreEmpty
    ensures !stop ==> log == Reverse(Log(sec))
  {
    info := HeaderInfo(sec, s, before, secSize);
    if info.status == StoreUsing || info.status == StoreFull {
      if info.status == StoreUsing {
        info := cur;
      }
      log := WalkSectorBack(sec, info.endIdx);
      stop := false;
    } else {
      log, stop := [], true;
    }
  }

  /** What is listed when the walk stands before its k-th sector, at address `s`. */
  ghost predicate WalkedBack(fl: Flash, ring: Flash, oldest: nat, pos: nat, k: nat, s: int, out: seq<Entry>)
    requires oldest < |fl| == |ring| && pos < |fl|
  {
    && k <= pos + 1
    && (k < |fl| ==> s == RingAt(oldest, |fl|, BackAt(|fl|, pos, k)))
    && out == Reverse(Flatten(ring[pos + 1 - k..]))
  }

  /** What the walk relies on. */
  ghost predicate WalkReady(fl: Flash, ring: Flash, oldest: nat, cur: SecInfo, pos: nat) {
    && oldest < |fl| == |ring| && pos < |fl|
    && RingOk(ring, pos) && cur.addr == RingAt(oldest, |fl|, pos) && (ring[pos].status == StoreEmpty ==> pos == 0)
    && Flatten(ring[pos+1..]) == []
    && forall k {:trigger KnownAt(fl, ring, oldest, cur, k)} :: 0 <= k < |fl| ==> KnownAt(fl, ring, oldest, cur, k)
  }

  lemma WalkStarts(fl: Flash, ring: Flash, oldest: nat, cur: SecInfo, pos: nat)
    requires WalkReady(fl, ring, oldest, cur, pos)
    ensures WalkedBack(fl, ring, oldest, pos, 0, cur.addr, [])
  {
  }

  lemma WalkEnds(fl: Flash, ring: Flash, oldest: nat, cur: SecInfo, pos: nat, s: int, out: seq<Entry>)
    requires WalkReady(fl, ring, oldest, cur, pos) && WalkedBack(fl, ring, oldest, pos, |fl|, s, out)
    ensures out == Reverse(Flatten(ring))
  {
    assert ring[0..] == ring;
  }

  /** One turn of `fdb_tsl_iter_reverse`. */
  method BackTurn(fl: Flash, cur: SecInfo, secSize: nat, before: SecInfo, s: nat, out: seq<Entry>,
                  ghost ring: Flash, ghost oldest: nat, ghost pos: nat, ghost k: nat)
    returns (info: SecInfo, s': nat, out': seq<Entry>, stop: bool)
    requires WalkReady(fl, ring, oldest, cur, pos) && secSize >= SECTOR_HDR && k < |fl|
    requires WalkedBack(fl, ring, oldest, pos, k, s, out)
    ensures stop ==> out' == Reverse(Flatten(ring))
    ensures !stop ==> WalkedBack(fl, ring, oldest, pos, k + 1, s', out')
  {
    assert KnownAt(fl, ring, oldest, cur, BackAt(|fl|, pos, k));
    var log;
    info, log, stop := BackOne(fl[s], s, before, cur, secSize);
    s', out' := s, out;
    if stop {
      EmptyEnds(ring, pos, k);
    } else {
      BackStep(oldest, ring, pos, k);
      s', out' := LastSector(s, |fl|), out + log;
    }
  }

  /** The sector loop of `fdb_tsl_iter_reverse`. */
  method WalkBack(fl: Flash, cur: SecInfo, secSize: nat, ghost ring: Flash, ghost oldest: nat, ghost pos: nat)
    returns (out: seq<Entry>)
    requires WalkReady(fl, ring, oldest, cur, pos) && secSize >= SECTOR_HDR
    ensures out == Reverse(Flatten(ring))
  {
    out := [];
    var info, s, k := cur, cur.addr, 0;
    WalkStarts(fl, ring, oldest, cur, pos);
    while k < |fl|
      invariant 0 <= k <= |fl| && WalkedBack(fl, ring, oldest, pos, k, s, out)
    {
      var stop;
      info, s, out, stop := BackTurn(fl, cur, secSize, info, s, out, ring, oldest, pos, k);
      if stop {
        return;
      }
      k := k + 1;
    }
    WalkEnds(fl, ring, oldest, cur, pos, s, out);
  }

  lemma HistorySuffix(history: seq<Entry>, dropped: nat, drop: nat, e: Entry)
    requires dropped <= |history| && drop <= |history| - dropped
    ensures (history + [e])[dropped + drop..] == history[dropped..][drop..] + [e]
  {
  }

  /** The entries from the first slot to the one at `endIdx`. */
  method WalkSector(sec: Sector, endIdx: nat) returns (log: seq<Entry>)
    requires sec.slots != [] && endIdx == IdxOff(|sec.slots| - 1)
    ensures log == Log(sec)
  {
    var idx := SECTOR_HDR;
    log := [ReadEntry(sec, sec.slots[SlotNo(idx)])];
    ghost var j := 0;
    while idx + LOG_IDX <= endIdx
      invariant 0 <= j < |sec.slots| && idx == IdxOff(j)
      invariant log == Log(sec)[..j+1]
    {
      idx := idx + LOG_IDX;
      j := j + 1;
      assert SlotNo(idx) == j;
      log := log + [ReadEntry(sec, sec.slots[SlotNo(idx)])];
    }
  }

  /** The same entries from the slot at `endIdx` back to the first. */
  method WalkSectorBack(sec: Sector, endIdx: nat) returns (log: seq<Entry>)
    requires sec.slots != [] && endIdx == IdxOff(|sec.slots| - 1)
    ensures log == Reverse(Log(sec))
  {
    var idx := endIdx;
    ghost var j := |sec.slots| - 1;
    assert SlotNo(idx) == j;
    log := [ReadEntry(sec, sec.slots[SlotNo(idx)])];
    while idx >= SECTOR_HDR + LOG_IDX
      invariant 0 <= j < |sec.slots| && idx == IdxOff(j)
      invariant log == Reverse(Log(sec)[j..])
    {
      idx := idx - LOG_IDX;
      j := j - 1;
      assert SlotNo(idx) == j;
      assert Log(sec)[j..] == [Log(sec)[j]] + Log(sec)[j+1..];
      log := log + [ReadEntry(sec, sec.slots[SlotNo(idx)])];
    }
    assert Log(sec)[0..] == Log(sec);
  }

  /** Nothing is stored behind the current sector. */
  lemma AfterCurrent(fl: Flash, oldest: nat, cur: SecInfo, lastTime: int, secSize: nat)
    requires StoreOk(fl, oldest, cur, lastTime, secSize)
    ensures Flatten(Ring(fl, oldest)[RingPos(oldest, |fl|, cur.addr) + 1..]) == []
  {
    var pos := RingPos(oldest, |fl|, cur.addr);
    EmptiesHoldNothing(fl, oldest, pos, secSize);
    FlattenNothing(Ring(fl, oldest)[pos+1..]);
  }

  /** The place in the ring of the k-th sector of a walk backwards from place `pos`. */
  function BackAt(n: nat, pos: nat, k: nat): (at: nat)
    requires pos < n && k <= pos + 1
    ensures at < n
  {
    if k <= pos then pos - k else n - 1
  }

  lemma BackStep(oldest: nat, ring: Flash, pos: nat, k: nat)
    requires oldest < |ring| && RingOk(ring, pos) && k <= pos + 1 && k < |ring|
    requires ring[BackAt(|ring|, pos, k)].status != StoreEmpty
    ensures k <= pos
    ensures k + 1 < |ring| ==>
              LastSector(RingAt(oldest, |ring|, BackAt(|ring|, pos, k)), |ring|)
              == RingAt(oldest, |ring|, BackAt(|ring|, pos, k + 1))
    ensures Reverse(Flatten(ring[pos + 1 - (k + 1)..]))
         == Reverse(Flatten(ring[pos + 1 - k..])) + Reverse(Log(ring[BackAt(|ring|, pos, k)]))
  {
    var at := BackAt(|ring|, pos, k);
    FlattenCons(ring, at);
    ReverseConcat(Log(ring[at]), Flatten(ring[at+1..]));
  }

  /** An empty sector met on the way back means that everything was seen. */
  lemma {:induction false} EmptyEnds(ring: Flash, pos: nat, k: nat)
    requires RingOk(ring, pos) && k <= pos + 1
    requires ring[BackAt(|ring|, pos, k)].status == StoreEmpty && ring[BackAt(|ring|, pos, k)].slots == []
    requires ring[pos].status == StoreEmpty ==> pos == 0
    ensures Flatten(ring) == Flatten(ring[pos + 1 - k..])
  {
    if k == 0 {
      FlattenCons(ring, 0);
    }
    assert ring[0..] == ring;
  }
}
