// Forward time queries on the time series log (search_start_tsl_addr and
// fdb_tsl_iter_by_time of fdb_tsdb.c for from <= to).

module TsQuery {
  import RecordBytes
  import opened SectorRing
  import opened TsFlash
  import opened TsStore
  import opened TsDb

  predicate InRange(e: Entry, from: int, to: int) { from <= e.time <= to }

  /** The entries of a log in a time range, in their order. */
  function Select(log: seq<Entry>, from: int, to: int): seq<Entry> {
    if log == [] then []
    else Select(log[..|log|-1], from, to) + (if InRange(log[|log|-1], from, to) then [log[|log|-1]] else [])
  }

  lemma {:induction false} SelectConcat(a: seq<Entry>, b: seq<Entry>, from: int, to: int)
    ensures Select(a + b, from, to) == Select(a, from, to) + Select(b, from, to)
    decreases |b|
  {
    if b == [] {
      assert a + b == a;
    } else {
      SelectConcat(a, b[..|b|-1], from, to);
      assert (a + b)[..|a+b|-1] == a + b[..|b|-1];
    }
  }

  lemma {:induction false} SelectNone(log: seq<Entry>, from: int, to: int)
    requires forall i :: 0 <= i < |log| ==> !InRange(log[i], from, to)
    ensures Select(log, from, to) == []
  {
    if log != [] {
      SelectNone(log[..|log|-1], from, to);
    }
  }

  /** Select keeps exactly the entries of the range. */
  lemma {:induction false} SelectIsExact(log: seq<Entry>, from: int, to: int, e: Entry)
    ensures multiset(Select(log, from, to))[e] == if InRange(e, from, to) then multiset(log)[e] else 0
  {
    if log != [] {
      var init, last := log[..|log|-1], log[|log|-1];
      SelectIsExact(init, from, to, e);
      assert log == init + [last];
    }
  }

  /** The first slot with a time not before `from`. */
  ghost predicate FirstFrom(slots: seq<Slot>, from: int, j: nat) {
    && j < |slots| && slots[j].time >= from
    && forall i :: 0 <= i < j ==> slots[i].time < from
  }

  lemma AlignHalf(d: nat)
    ensures RecordBytes.Align(LOG_IDX * d / 2, LOG_IDX) == LOG_IDX * ((d + 1) / 2)
  {
    if d % 2 == 0 {
      var h := d / 2;
      assert LOG_IDX * d / 2 == LOG_IDX * h;
    } else {
      var h := d / 2;
      assert LOG_IDX * d / 2 == LOG_IDX * h + 8;
    }
  }

  /** `search_start_tsl_addr`, forward: a binary search over the index slots from offset `start`
      to offset `end`. */
  method SearchStart(slots: seq<Slot>, start: nat, end: nat, from: int) returns (off: nat)
    requires slots != [] && Increasing(slots) && slots[|slots|-1].time >= from
    requires start == SECTOR_HDR && end == IdxOff(|slots| - 1)
    ensures off >= SECTOR_HDR && off == IdxOff(SlotNo(off)) && FirstFrom(slots, from, SlotNo(off))
  {
    var lo: int, hi: int := start, end;
    ghost var a: int, b: int := 0, |slots| - 1;
    while true
      invariant 0 <= a <= b < |slots| && lo == IdxOff(a) && hi == IdxOff(b)
      invariant forall i :: 0 <= i < a ==> slots[i].time < from
      invariant forall i :: b < i < |slots| ==> slots[i].time > from
      decreases b - a
    {
      AlignHalf(b - a);
      var mid := lo + RecordBytes.Align((hi - lo) / 2, LOG_IDX);
      ghost var m := a + (b - a + 1) / 2;
      assert mid == IdxOff(m) && SlotNo(mid) == m;
      var time := slots[SlotNo(mid)].time;
      if time < from {
        lo, a := mid + LOG_IDX, m + 1;
      } else if time > from {
        hi, b := mid - LOG_IDX, m - 1;
      } else {
        return mid;
      }
      if lo > hi {
        break;
      }
    }
    off := lo;
    assert SlotNo(off) == a;
    assert a < |slots|;
  }

  /** `log` is what the slots of the sector read as. */
  ghost predicate Reads(sec: Sector, log: seq<Entry>) {
    && |log| == |sec.slots|
    && forall j :: 0 <= j < |log| ==> log[j] == ReadEntry(sec, sec.slots[j])
  }

  /** The slot loop of the query from the first slot in range on. */
  method QuerySlots(sec: Sector, start: nat, endIdx: nat, from: int, to: int, ghost log: seq<Entry>, ghost first: nat)
    returns (out: seq<Entry>, stop: bool, ghost end: nat)
    requires Reads(sec, log) && first < |log| && start == IdxOff(first) && endIdx == IdxOff(|log| - 1)
    requires Increasing(sec.slots) && sec.slots[first].time >= from
    requires forall j :: 0 <= j < |sec.slots| ==> sec.slots[j].status != TslUnused
    requires Select(log[..first], from, to) == []
    ensures end <= |log| && out == Select(log[..end], from, to)
    ensures stop ==> end < |log| && sec.slots[end].time > to
    ensures !stop ==> end == |log| && sec.slots[end - 1].time <= to
  {
    var idx := start;
    ghost var j := first;
    out := [];
    while true
      invariant first <= j < |log| && idx == IdxOff(j)
      invariant sec.slots[j].time >= from
      invariant out == Select(log[..j], from, to)
      decreases |log| - j
    {
      assert SlotNo(idx) == j;
      var slot := sec.slots[SlotNo(idx)];
      assert log[j] == ReadEntry(sec, slot) && log[j].time == slot.time;
      if slot.status != TslUnused {
        if slot.time >= from && slot.time <= to {
          SelectNext(log, j, from, to);
          out := out + [ReadEntry(sec, slot)];
        } else {
          return out, true, j;
        }
      }
      if idx + LOG_IDX <= endIdx {
        idx := idx + LOG_IDX;
        j := j + 1;
      } else {
        return out, false, j + 1;
      }
    }
  }

  /** One sector of the query: the entries in range, and whether one behind the range was met. */
  method QuerySector(sec: Sector, endIdx: nat, from: int, to: int) returns (out: seq<Entry>, stop: bool)
    requires sec.slots != [] && Increasing(sec.slots) && endIdx == IdxOff(|sec.slots| - 1)
    requires from <= to && sec.slots[|sec.slots|-1].time >= from
    requires forall j :: 0 <= j < |sec.slots| ==> sec.slots[j].status != TslUnused
    ensures out == Select(Log(sec), from, to)
    ensures stop == (sec.slots[|sec.slots|-1].time > to)
  {
    var idx := SearchStart(sec.slots, SECTOR_HDR, endIdx, from);
    NothingBefore(sec, SlotNo(idx), from, to);
    ghost var end;
    out, stop, end := QuerySlots(sec, idx, endIdx, from, to, Log(sec), SlotNo(idx));
    QueryEnds(sec, end, from, to, stop);
  }

  lemma NothingBefore(sec: Sector, first: nat, from: int, to: int)
    requires FirstFrom(sec.slots, from, first)
    ensures Reads(sec, Log(sec)) && Select(Log(sec)[..first], from, to) == []
  {
    SelectNone(Log(sec)[..first], from, to);
  }

  lemma QueryEnds(sec: Sector, end: nat, from: int, to: int, stop: bool)
    requires Increasing(sec.slots) && end <= |sec.slots| && sec.slots != []
    requires stop ==> end < |sec.slots| && sec.slots[end].time > to
    requires !stop ==> end == |sec.slots| && sec.slots[end - 1].time <= to
    ensures Select(Log(sec)[..end], from, to) == Select(Log(sec), from, to)
    ensures stop <==> sec.slots[|sec.slots|-1].time > to
  {
    if stop {
      RestIsLater(sec, end, from, to);
    } else {
      assert Log(sec)[..end] == Log(sec);
    }
  }

  lemma SelectNext(log: seq<Entry>, j: nat, from: int, to: int)
    requires j < |log| && InRange(log[j], from, to)
    ensures Select(log[..j+1], from, to) == Select(log[..j], from, to) + [log[j]]
  {
    assert log[..j+1][..j] == log[..j];
  }

  lemma RestIsLater(sec: Sector, j: nat, from: int, to: int)
    requires Increasing(sec.slots) && j < |sec.slots| && sec.slots[j].time > to
    ensures Select(Log(sec), from, to) == Select(Log(sec)[..j], from, to)
    ensures sec.slots[|sec.slots|-1].time > to
  {
    var log := Log(sec);
    SelectNone(log[j..], from, to);
    SelectConcat(log[..j], log[j..], from, to);
    assert log[..j] + log[j..] == log;
  }

  // ---------- the sector loop ----------

  /** What the loop relies on at the k-th sector of the ring. */
  ghost predicate QueryAt(fl: Flash, ring: Flash, oldest: nat, cur: SecInfo, k: nat)
    requires oldest < |fl| == |ring| && k < |fl|
  {
    var sec := ring[k];
    && KnownAt(fl, ring, oldest, cur, k)
    && Increasing(sec.slots)
    && (forall j :: 0 <= j < |sec.slots| ==> sec.slots[j].status != TslUnused)
    && (sec.status == StoreUsing ==>
          cur.addr == RingAt(oldest, |fl|, k) && cur.startTime == sec.slots[0].time && cur.endTime == sec.slots[|sec.slots|-1].time)
    && (sec.status == StoreFull ==> sec.startTime == sec.slots[0].time && sec.end0.time == sec.slots[|sec.slots|-1].time)
    && (sec.status == StoreEmpty ==> forall i :: k < i < |ring| ==> ring[i].slots == [])
  }

  /** Entries before `from` so far, or the range reached. */
  ghost predicate Progress(log: seq<Entry>, from: int, found: bool) {
    if found then log != [] && log[|log|-1].time >= from
    else forall i :: 0 <= i < |log| ==> log[i].time < from
  }

  /** The log before, in and behind the k-th sector. */
  lemma {:induction false} SplitLog(ring: Flash, k: nat)
    requires k < |ring|
    ensures Flatten(ring) == Flatten(ring[..k+1]) + Flatten(ring[k+1..])
    ensures Flatten(ring[..k+1]) == Flatten(ring[..k]) + Log(ring[k])
  {
    FlattenSnoc(ring, k);
    FlattenConcat(ring[..k+1], ring[k+1..]);
    assert ring[..k+1] + ring[k+1..] == ring;
  }

  lemma RisingPrefix(a: seq<Entry>, b: seq<Entry>)
    requires Rising(a + b)
    ensures Rising(a)
  {
    forall i: nat, j: nat | i < j < |a| ensures Earlier(a, i, j) {
      assert Earlier(a + b, i, j);
    }
  }

  /** Once the range is reached every later sector ends in or behind it. */
  lemma LaterSector(a: seq<Entry>, b: seq<Entry>, from: int)
    requires Rising(a + b) && a != [] && a[|a|-1].time >= from && b != []
    ensures b[|b|-1].time >= from
  {
    assert Earlier(a + b, |a| - 1, |a + b| - 1);
  }

  /** Behind an entry that is past the range nothing is in it. */
  lemma NothingBehind(a: seq<Entry>, b: seq<Entry>, from: int, to: int)
    requires Rising(a + b) && a != [] && a[|a|-1].time > to
    ensures Select(a + b, from, to) == Select(a, from, to)
  {
    forall i | 0 <= i < |b| ensures !InRange(b[i], from, to) {
      assert Earlier(a + b, |a| - 1, |a| + i);
    }
    SelectNone(b, from, to);
    SelectConcat(a, b, from, to);
  }

  lemma AllBefore(sec: Sector, from: int)
    requires sec.slots != [] && Increasing(sec.slots) && sec.slots[|sec.slots|-1].time < from
    ensures forall i :: 0 <= i < |Log(sec)| ==> Log(sec)[i].time < from
  {
    forall i | 0 <= i < |sec.slots|
      ensures sec.slots[i].time < from
    {
      assert i < |sec.slots| - 1 ==> sec.slots[i].time < sec.slots[|sec.slots|-1].time;
    }
  }

  lemma NoneOf(log: seq<Entry>, more: seq<Entry>, from: int, to: int)
    requires Progress(log, from, false) && forall i :: 0 <= i < |more| ==> more[i].time < from
    ensures Progress(log + more, from, false)
    ensures Select(log + more, from, to) == Select(log, from, to)
  {
    SelectNone(more, from, to);
    SelectConcat(log, more, from, to);
  }

  /** A sector that ends before the range adds nothing to the answer. */
  lemma SkipSector(log: seq<Entry>, sec: Sector, from: int, to: int)
    requires sec.slots != [] && Increasing(sec.slots) && sec.slots[|sec.slots|-1].time < from
    requires Progress(log, from, false)
    ensures Progress(log + Log(sec), from, false)
    ensures Select(log + Log(sec), from, to) == Select(log, from, to)
  {
    AllBefore(sec, from);
    NoneOf(log, Log(sec), from, to);
  }

  lemma LastOfConcat(a: seq<Entry>, sec: Sector)
    requires sec.slots != []
    ensures (a + Log(sec)) != [] && (a + Log(sec))[|a + Log(sec)|-1].time == sec.slots[|sec.slots|-1].time
  {
  }

  /** A sector that holds entries, in the loop of `fdb_tsl_iter_by_time`. `seen` is the log before it. */
  method QuerySectorInUse(sec: Sector, info: SecInfo, first: bool, found: bool, from: int, to: int, ghost seen: seq<Entry>)
    returns (found': bool, part: seq<Entry>, stop: bool)
    requires from <= to && sec.slots != [] && Increasing(sec.slots)
    requires forall j :: 0 <= j < |sec.slots| ==> sec.slots[j].status != TslUnused
    requires info.endIdx == IdxOff(|sec.slots| - 1)
    requires info.startTime == sec.slots[0].time && info.endTime == sec.slots[|sec.slots|-1].time
    requires Progress(seen, from, found) && Rising(seen + Log(sec))
    ensures Select(seen + Log(sec), from, to) == Select(seen, from, to) + part
    ensures Progress(seen + Log(sec), from, found')
    ensures stop ==> sec.slots[|sec.slots|-1].time > to
  {
    LastOfConcat(seen, sec);
    if found || (first && from <= info.startTime) || from <= info.endTime {
      if found {
        LaterSector(seen, Log(sec), from);
      }
      assert info.startTime <= info.endTime;
      found' := true;
      part, stop := QuerySector(sec, info.endIdx, from, to);
      SelectConcat(seen, Log(sec), from, to);
    } else {
      SkipSector(seen, sec, from, to);
      found', part, stop := false, [], false;
    }
  }

  lemma NothingFollows(ring: Flash, k: nat)
    requires k < |ring| && forall i :: k <= i < |ring| ==> ring[i].slots == []
    ensures Flatten(ring) == Flatten(ring[..k])
  {
    FlattenNothing(ring[k..]);
    FlattenConcat(ring[..k], ring[k..]);
    assert ring[..k] + ring[k..] == ring;
  }

  /** One turn of the sector loop of `fdb_tsl_iter_by_time`. */
  method QueryStep(sec: Sector, s: nat, oldest: nat, cur: SecInfo, before: SecInfo, secSize: nat, found: bool, from: int, to: int,
                   ghost fl: Flash, ghost ring: Flash, ghost k: nat)
    returns (info: SecInfo, found': bool, part: seq<Entry>, done: bool)
    requires from <= to && secSize >= SECTOR_HDR && oldest < |fl| == |ring| && k < |fl|
    requires QueryAt(fl, ring, oldest, cur, k) && sec == ring[k] && s == RingAt(oldest, |fl|, k)
    requires Rising(Flatten(ring)) && Progress(Flatten(ring[..k]), from, found)
    ensures !done ==>
              (Select(Flatten(ring[..k+1]), from, to) == Select(Flatten(ring[..k]), from, to) + part
               && Progress(Flatten(ring[..k+1]), from, found'))
    ensures done ==> Select(Flatten(ring), from, to) == Select(Flatten(ring[..k]), from, to) + part
  {
    info := HeaderInfo(sec, s, before, secSize);
    if info.status == StoreUsing || info.status == StoreFull {
      if info.status == StoreUsing {
        info := cur;
      }
      ghost var seen, rest := Flatten(ring[..k]), Flatten(ring[k+1..]);
      SplitLog(ring, k);
      RisingPrefix(seen + Log(sec), rest);
      found', part, done := QuerySectorInUse(sec, info, s == oldest, found, from, to, seen);
      if done {
        LastOfConcat(seen, sec);
        NothingBehind(seen + Log(sec), rest, from, to);
      }
    } else {
      NothingFollows(ring, k);
      found', part, done := found, [], true;
    }
  }

  /** `fdb_tsl_iter_by_time` with from <= to and a callback that never stops. */
  method QueryWalk(fl: Flash, oldest: nat, cur: SecInfo, secSize: nat, from: int, to: int, ghost ring: Flash)
    returns (out: seq<Entry>)
    requires from <= to && secSize >= SECTOR_HDR && oldest < |fl| == |ring|
    requires forall k {:trigger QueryAt(fl, ring, oldest, cur, k)} :: 0 <= k < |fl| ==> QueryAt(fl, ring, oldest, cur, k)
    requires Rising(Flatten(ring))
    ensures out == Select(Flatten(ring), from, to)
  {
    out := [];
    var info, s, found, k := cur, oldest, false, 0;
    while k < |fl|
      invariant 0 <= k <= |fl|
      invariant k < |fl| ==> s == RingAt(oldest, |fl|, k)
      invariant out == Select(Flatten(ring[..k]), from, to)
      invariant Progress(Flatten(ring[..k]), from, found)
    {
      assert QueryAt(fl, ring, oldest, cur, k);
      var part, done;
      info, found, part, done := QueryStep(fl[s], s, oldest, cur, info, secSize, found, from, to, fl, ring, k);
      out := out + part;
      if done {
        return;
      }
      s := NextSector(s, |fl|);
      k := k + 1;
    }
    assert ring[..k] == ring;
  }

  /** A time query returns exactly the retained entries of the range, oldest first. */
  method IterByTime(db: Tsdb, from: int, to: int) returns (out: seq<Entry>)
    requires db.Valid() && from <= to
    ensures out == Select(Retained(db.flash, db.oldest), from, to)
  {
    ghost var ring := Ring(db.flash, db.oldest);
    forall k | 0 <= k < |db.flash| ensures QueryAt(db.flash, ring, db.oldest, db.cur, k) {
      StoreAnswers(db.flash, db.oldest, db.cur, db.lastTime, db.secSize, k);
    }
    out := QueryWalk(db.flash, db.oldest, db.cur, db.secSize, from, to, ring);
  }

  lemma StoreAnswers(fl: Flash, oldest: nat, cur: SecInfo, lastTime: int, secSize: nat, k: nat)
    requires StoreOk(fl, oldest, cur, lastTime, secSize) && k < |fl| && secSize >= SECTOR_HDR
    ensures QueryAt(fl, Ring(fl, oldest), oldest, cur, k)
  {
    var pos := RingPos(oldest, |fl|, cur.addr);
    KnownSector(fl, oldest, cur, lastTime, secSize, k, cur);
    RingIndex(fl, oldest, pos);
    EmptiesHoldNothing(fl, oldest, pos, secSize);
  }
}
