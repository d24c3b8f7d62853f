// The running key-value store: allocation, set, delete, lookup and garbage collection
// (fdb_kvdb.c), working in place on the flash of KvFlash.

module KvStore {
  import opened Options
  import opened SectorRing
  import opened KvFlash

  datatype Err = NoErr | NameErr | SavedFull

  predicate Candidate(sec: Sector, st: StoreStatus, size: nat, gcRequest: bool, secSize: nat) {
    sec.store == st && Fits(sec, size, gcRequest, secSize)
  }

  /** `s` is the first sector of the walk the callback accepts. */
  ghost predicate FirstFit(fl: Flash, oldest: nat, st: StoreStatus, size: nat, gcRequest: bool, secSize: nat, s: nat)
    requires oldest < |fl|
  {
    && s < |fl|
    && Candidate(fl[s], st, size, gcRequest, secSize)
    && forall k :: 0 <= k < RingPos(oldest, |fl|, s) ==>
         !Candidate(fl[RingAt(oldest, |fl|, k)], st, size, gcRequest, secSize)
  }

  ghost predicate NoFit(fl: Flash, st: StoreStatus, size: nat, gcRequest: bool, secSize: nat) {
    forall s :: 0 <= s < |fl| ==> !Candidate(fl[s], st, size, gcRequest, secSize)
  }

  /** What `alloc_kv` may answer: the first sector in use that has room; failing that the first
      empty one, but the last empty sector only during a collection. */
  ghost predicate Allocates(fl: Flash, oldest: nat, size: nat, gcRequest: bool, secSize: nat, found: Option<nat>)
    requires oldest < |fl|
  {
    match found
    case Some(d) =>
      || FirstFit(fl, oldest, StoreUsing, size, gcRequest, secSize, d)
      || (NoFit(fl, StoreUsing, size, gcRequest, secSize)
          && (EmptyCount(fl) > 1 || gcRequest)
          && FirstFit(fl, oldest, StoreEmpty, size, gcRequest, secSize, d))
    case None =>
      && NoFit(fl, StoreUsing, size, gcRequest, secSize)
      && (EmptyCount(fl) > 1 || gcRequest ==> NoFit(fl, StoreEmpty, size, gcRequest, secSize))
  }

  /** Counting round the ring counts every sector. */
  lemma RingCount(fl: Flash, oldest: nat, st: StoreStatus)
    requires oldest < |fl|
    ensures StoreCount(fl[oldest..] + fl[..oldest], st) == StoreCount(fl, st)
  {
    StoreCountConcat(fl[oldest..], fl[..oldest], st);
    StoreCountConcat(fl[..oldest], fl[oldest..], st);
    assert fl[..oldest] + fl[oldest..] == fl;
  }

  lemma NoneFits(fl: Flash, oldest: nat, st: StoreStatus, size: nat, gcRequest: bool, secSize: nat)
    requires oldest < |fl|
    requires forall j :: 0 <= j < |fl| ==> !Candidate(fl[RingAt(oldest, |fl|, j)], st, size, gcRequest, secSize)
    ensures NoFit(fl, st, size, gcRequest, secSize)
  {
    forall s | 0 <= s < |fl| ensures !Candidate(fl[s], st, size, gcRequest, secSize) {
      var j := RingPos(oldest, |fl|, s);
      assert !Candidate(fl[RingAt(oldest, |fl|, j)], st, size, gcRequest, secSize);
    }
  }

  lemma NoneOfStatus(fl: Flash, st: StoreStatus, size: nat, gcRequest: bool, secSize: nat)
    requires StoreCount(fl, st) == 0
    ensures NoFit(fl, st, size, gcRequest, secSize)
  {
    forall s | 0 <= s < |fl| ensures fl[s].store != st {
      if fl[s].store == st { StoreIsCounted(fl, s); }
    }
  }

  /** The record `find_kv_cb` accepts. */
  predicate Matches(rec: Rec, key: Name) {
    rec.crcOk && rec.status == Write && Visible(key) && rec.name == key
  }

  ghost predicate NoMatch(fl: Flash, key: Name) {
    forall s, r :: 0 <= s < |fl| && 0 <= r < |fl[s].recs| ==> !Matches(fl[s].recs[r], key)
  }

  /** The first `k` sectors of a walk hold no such record. */
  ghost predicate NoMatchBefore(fl: Flash, oldest: nat, k: nat, key: Name)
    requires oldest < |fl| && k <= |fl|
  {
    forall j, i :: 0 <= j < k && 0 <= i < |fl[RingAt(oldest, |fl|, j)].recs| ==> !Matches(fl[RingAt(oldest, |fl|, j)].recs[i], key)
  }

  lemma AllSearched(fl: Flash, oldest: nat, key: Name)
    requires oldest < |fl| && NoMatchBefore(fl, oldest, |fl|, key)
    ensures NoMatch(fl, key)
  {
    forall t, i | 0 <= t < |fl| && 0 <= i < |fl[t].recs| ensures !Matches(fl[t].recs[i], key) {
      var j := RingPos(oldest, |fl|, t);
      assert !Matches(fl[RingAt(oldest, |fl|, j)].recs[i], key);
    }
  }

  ghost predicate RestRecs(fl: Flash) {
    forall s, r :: 0 <= s < |fl| && 0 <= r < |fl[s].recs| ==> fl[s].recs[r].status in {Write, Deleted, ErrHdr, Stray}
  }

  /** `fl2` holds the same live records as `fl1`. */
  ghost predicate SameLive(fl1: Flash, fl2: Flash) {
    forall p :: Copies(fl1, p) == Copies(fl2, p)
  }

  /** A map that describes the flash answers every lookup. */
  lemma LookupAgrees(m: map<Name, Value>, fl: Flash, key: Name, s: nat, r: nat)
    requires Abstracts(m, fl)
    requires s < |fl| && r < |fl[s].recs| && Matches(fl[s].recs[r], key)
    ensures key in m && m[key] == fl[s].recs[r].value
  {
    LiveIsCounted(fl, s, r);
    assert Copies(fl, (key, fl[s].recs[r].value)) > 0;
  }

  lemma SectorIsOk(fl: Flash, s: nat, secSize: nat)
    requires FlashOk(fl, secSize) && s < |fl|
    ensures SectorOk(fl[s], secSize)
  {
  }

  lemma LookupMisses(m: map<Name, Value>, fl: Flash, key: Name, secSize: nat)
    requires Abstracts(m, fl) && FlashOk(fl, secSize) && NoMatch(fl, key)
    ensures key !in m
  {
    if key in m {
      assert Copies(fl, (key, m[key])) == 1;
      var s, r := CountedIsLive(fl, (key, m[key]));
      SectorIsOk(fl, s, secSize);
      assert false;
    }
  }

  lemma OkIsWalkable(fl: Flash, secSize: nat)
    requires FlashSound(fl, secSize)
    ensures Walkable(fl)
  {
    forall s | 0 <= s < |fl| ensures fl[s].store in {StoreUsing, StoreFull} || fl[s].recs == [] {
      assert SectorSound(fl[s], secSize);
    }
  }

  /** No two live records carry the same (visible) name. */
  lemma OneRecordPerName(m: map<Name, Value>, fl: Flash, s1: nat, r1: nat, s2: nat, r2: nat)
    requires Abstracts(m, fl)
    requires s1 < |fl| && r1 < |fl[s1].recs| && fl[s1].recs[r1].Live()
    requires s2 < |fl| && r2 < |fl[s2].recs| && fl[s2].recs[r2].Live()
    requires Visible(fl[s1].recs[r1].name) && fl[s1].recs[r1].name == fl[s2].recs[r2].name
    ensures s1 == s2 && r1 == r2
  {
    var a, b := fl[s1].recs[r1], fl[s2].recs[r2];
    LiveIsCounted(fl, s1, r1);
    LiveIsCounted(fl, s2, r2);
    assert Copies(fl, (a.name, a.value)) == 1 && Copies(fl, (b.name, b.value)) == 1;
    if s1 != s2 || r1 != r2 {
      SetStatusCopies(fl, s1, r1, Deleted, a.Pair());
      LiveIsCounted(SetStatus(fl, s1, r1, Deleted), s2, r2);
      assert false;
    }
  }

  lemma StoreCountSnoc(fl: Flash, k: nat, st: StoreStatus)
    requires k < |fl|
    ensures StoreCount(fl[..k+1], st) == StoreCount(fl[..k], st) + (if fl[k].store == st then 1 else 0)
  {
    assert fl[..k+1][..k] == fl[..k];
  }

  lemma DeleteSettled(fl: Flash, s: nat, r: nat)
    requires Settled(fl) && s < |fl| && r < |fl[s].recs|
    ensures Settled(DelWrites(fl, s, r, Deleted))
  {
  }

  /** Completing the deletion of a live record removes its name from the map. */
  lemma DeleteAbstracts(m: map<Name, Value>, fl: Flash, s: nat, r: nat)
    requires Abstracts(m, fl)
    requires s < |fl| && r < |fl[s].recs| && Matches(fl[s].recs[r], fl[s].recs[r].name)
    ensures Abstracts(m - {fl[s].recs[r].name}, DelWrites(fl, s, r, Deleted))
  {
    var rec := fl[s].recs[r];
    LookupAgrees(m, fl, rec.name, s, r);
    forall n, v | Visible(n)
      ensures Copies(DelWrites(fl, s, r, Deleted), (n, v))
           == (if n in m - {rec.name} && m[n] == v then 1 else 0)
    {
      DelWritesCopies(fl, s, r, Deleted, (n, v));
    }
  }

  // ---------- moving a record ----------

  /** The flash once the source record is marked, before the copy is made. */
  function Marked(fl: Flash, s: nat, r: nat): Flash
    requires s < |fl| && r < |fl[s].recs|
  {
    if fl[s].recs[r].status == Write then DelWrites(fl, s, r, PreDelete) else fl
  }

  ghost predicate MoveOutcome(fl: Flash, oldest: nat, gcRequest: bool, inRecovery: bool, secSize: nat,
                              s: nat, r: nat, err: Err, dest: Option<nat>, fl': Flash)
    requires oldest < |fl| && s < |fl| && r < |fl[s].recs|
  {
    var rec := fl[s].recs[r];
    var marked := Marked(fl, s, r);
    if err == NoErr then
      if dest.Some? then
        && Allocates(marked, oldest, rec.Len(), gcRequest, secSize, dest)
        && (inRecovery && rec.status == PreDelete ==> NoMatch(marked, rec.name))
        && dest.value < |fl| && fl' == MoveWrites(fl, s, r, dest.value, secSize)
      else
        // recovery found the new record already in place
        && inRecovery && rec.status == PreDelete && !NoMatch(marked, rec.name)
        && (exists d :: Allocates(marked, oldest, rec.Len(), gcRequest, secSize, Some(d)))
        && fl' == DelWrites(marked, s, r, Deleted)
    else
      && err == SavedFull && dest.None?
      && Allocates(marked, oldest, rec.Len(), gcRequest, secSize, None)
      && fl' == marked
  }

  // ---------- collecting a sector ----------

  /** A sector that held no record before sector `x` was collected and holds at most the first
      `r` records of `x` now. */
  ghost predicate Spare(fl1: Flash, fl: Flash, x: nat, r: nat, spare: Option<nat>)
    requires x < |fl1| && r <= |fl1[x].recs|
  {
    match spare
    case None => EmptyCount(fl) == EmptyCount(fl1)
    case Some(e) =>
      && e < |fl| && fl[e].store == StoreUsing && fl[e].dirty == DirtyFalse
      && Used(fl[e].recs) <= Used(fl1[x].recs[..r])
      && EmptyCount(fl) >= EmptyCount(fl1) - 1
  }

  /** The loop invariant of `do_gc`: `fl1` is the flash when sector `x` was marked, `fl` the
      flash with the first `r` records of `x` dealt with. */
  ghost predicate Collecting(fl1: Flash, fl: Flash, x: nat, r: nat, spare: Option<nat>, secSize: nat)
  {
    && |fl| == |fl1| && x < |fl| && FlashOk(fl, secSize) && FlashOk(fl1, secSize) && RestRecs(fl)
    && fl[x].dirty == DirtyGc && fl[x].store == fl1[x].store && fl[x].store != StoreEmpty
    && |fl[x].recs| == |fl1[x].recs| && r <= |fl[x].recs|
    && (forall i :: 0 <= i < r ==> !fl[x].recs[i].Live())
    && (forall i :: r <= i < |fl[x].recs| ==> fl[x].recs[i] == fl1[x].recs[i])
    && (forall s :: 0 <= s < |fl| && s != x ==> fl[s].dirty == fl1[s].dirty && fl1[s].recs <= fl[s].recs)
    && SameLive(fl1, fl)
    && Spare(fl1, fl, x, r, spare)
    && EmptyCount(fl1) >= 1
  }

  /** During a collection every record of the sector finds a new home. */
  lemma FindsHome(fl1: Flash, fl: Flash, oldest: nat, x: nat, r: nat, spare: Option<nat>, secSize: nat)
    requires Collecting(fl1, fl, x, r, spare, secSize) && oldest < |fl| && r < |fl[x].recs|
    requires fl[x].recs[r].status == Write
    ensures !Allocates(Marked(fl, x, r), oldest, fl[x].recs[r].Len(), true, secSize, None)
  {
    var rec := fl[x].recs[r];
    var marked := Marked(fl, x, r);
    assert SectorOk(fl1[x], secSize);
    assert Used(fl1[x].recs[..r]) + rec.Len() + REMAIN_THRESHOLD < secSize - SECTOR_HDR;
    match spare
    case None =>
      var e := StoreCountHas(fl, StoreEmpty);
      assert SectorOk(fl[e], secSize);
      assert Candidate(marked[e], StoreEmpty, rec.Len(), true, secSize);
    case Some(e) =>
      assert marked[e] == fl[e];
      assert Candidate(marked[e], StoreUsing, rec.Len(), true, secSize);
  }

  lemma UsedStep(recs: seq<Rec>, r: nat)
    requires r < |recs|
    ensures Used(recs[..r+1]) == Used(recs[..r]) + recs[r].Len()
  {
    assert recs[..r+1][..r] == recs[..r];
  }

  lemma SkipsGarbage(fl1: Flash, fl: Flash, x: nat, r: nat, spare: Option<nat>, secSize: nat)
    requires Collecting(fl1, fl, x, r, spare, secSize) && r < |fl[x].recs|
    requires !(fl[x].recs[r].Intact() && fl[x].recs[r].status in {Write, PreDelete})
    ensures Collecting(fl1, fl, x, r + 1, spare, secSize)
  {
    UsedStep(fl1[x].recs, r);
    assert SectorOk(fl[x], secSize);
  }

  function MoveWrites(fl: Flash, x: nat, r: nat, d: nat, secSize: nat): Flash
    requires x < |fl| && r < |fl[x].recs| && d < |fl|
  {
    DelWrites(Program(Marked(fl, x, r), d, fl[x].recs[r].(status := Write), secSize), x, r, Deleted)
  }

  lemma MoveShape(fl: Flash, x: nat, r: nat, d: nat, secSize: nat)
    requires x < |fl| && r < |fl[x].recs| && d < |fl| && d != x
    requires fl[x].recs[r].status == Write
    ensures var rec := fl[x].recs[r];
      MoveWrites(fl, x, r, d, secSize) ==
        fl[x := Sector(fl[x].store, if fl[x].dirty == DirtyFalse then DirtyTrue else fl[x].dirty,
                       fl[x].recs[r := rec.(status := Deleted)])]
          [d := Sector(StatusAfter(fl[d], rec.Len(), secSize), fl[d].dirty, fl[d].recs + [rec])]
  {
    var rec := fl[x].recs[r];
    assert rec.(status := Write) == rec;
    assert fl[x].recs[r := rec.(status := PreDelete)][r := rec.(status := Deleted)] == fl[x].recs[r := rec.(status := Deleted)];
  }

  /** Moving one record to a sector with room keeps the flash consistent. */
  lemma MoveOk(fl: Flash, x: nat, r: nat, d: nat, gcRequest: bool, secSize: nat)
    requires FlashOk(fl, secSize) && x < |fl| && r < |fl[x].recs| && d < |fl|
    requires fl[x].recs[r].status in {Write, PreDelete}
    requires Marked(fl, x, r)[d].store in {StoreEmpty, StoreUsing}
    requires Fits(Marked(fl, x, r)[d], fl[x].recs[r].Len(), gcRequest, secSize)
    ensures FlashOk(MoveWrites(fl, x, r, d, secSize), secSize)
  {
    var rec := fl[x].recs[r];
    var marked := Marked(fl, x, r);
    assert SectorOk(fl[x], secSize);
    if rec.status == Write { DelWritesOk(fl, x, r, PreDelete, secSize); }
    ProgramOk(marked, d, rec.(status := Write), gcRequest, secSize);
    DelWritesOk(Program(marked, d, rec.(status := Write), secSize), x, r, Deleted, secSize);
  }

  /** Moving a live record changes no count; moving a half-deleted one brings it back. */
  lemma MoveCopies(fl: Flash, x: nat, r: nat, d: nat, secSize: nat, p: Pair)
    requires x < |fl| && r < |fl[x].recs| && d < |fl|
    requires fl[x].recs[r].status in {Write, PreDelete}
    ensures var rec := fl[x].recs[r];
      Copies(MoveWrites(fl, x, r, d, secSize), p) == Copies(fl, p) - Hit(rec, p) + Hit(rec.(status := Write), p)
  {
    var rec := fl[x].recs[r];
    if rec.status == Write { DelWritesCopies(fl, x, r, PreDelete, p); }
    var marked := Marked(fl, x, r);
    ProgramCopies(marked, d, rec.(status := Write), secSize, p);
    DelWritesCopies(Program(marked, d, rec.(status := Write), secSize), x, r, Deleted, p);
  }

  /** One more record of the sector is dealt with. */
  lemma AfterMove(fl1: Flash, fl: Flash, fl': Flash, oldest: nat, secSize: nat,
                  x: nat, r: nat, spare: Option<nat>, err: Err, dest: Option<nat>)
    returns (spare': Option<nat>)
    requires Collecting(fl1, fl, x, r, spare, secSize) && oldest < |fl| && r < |fl[x].recs|
    requires fl[x].recs[r].status == Write
    requires MoveOutcome(fl, oldest, true, false, secSize, x, r, err, dest, fl')
    ensures err == NoErr
    ensures Collecting(fl1, fl', x, r + 1, spare', secSize)
  {
    FindsHome(fl1, fl, oldest, x, r, spare, secSize);
    var d := dest.value;
    var rec := fl[x].recs[r];
    assert Marked(fl, x, r)[x].dirty == DirtyGc && d != x;
    MoveShape(fl, x, r, d, secSize);
    MoveOk(fl, x, r, d, true, secSize);
    forall p ensures Copies(fl', p) == Copies(fl, p) {
      MoveCopies(fl, x, r, d, secSize, p);
    }
    spare' := AfterMoveSpare(fl1, fl, fl', oldest, secSize, x, r, d, spare);
    assert RestRecs(fl') by { MoveAtRest(fl, fl', x, r, d); }
  }

  lemma MoveAtRest(fl: Flash, fl': Flash, x: nat, r: nat, d: nat)
    requires RestRecs(fl) && x < |fl| && r < |fl[x].recs| && d < |fl| && d != x && |fl'| == |fl|
    requires fl[x].recs[r].status == Write
    requires fl'[x].recs == fl[x].recs[r := fl[x].recs[r].(status := Deleted)]
    requires fl'[d].recs == fl[d].recs + [fl[x].recs[r]]
    requires forall s :: 0 <= s < |fl| && s != x && s != d ==> fl'[s] == fl[s]
    ensures RestRecs(fl')
  {
  }

  lemma MoveEmptyCount(fl: Flash, fl': Flash, x: nat, d: nat)
    requires x < |fl| && d < |fl| && x != d && |fl'| == |fl|
    requires fl' == fl[x := fl'[x]][d := fl'[d]]
    requires fl'[x].store == fl[x].store && fl'[d].store != StoreEmpty
    ensures EmptyCount(fl') == EmptyCount(fl) - (if fl[d].store == StoreEmpty then 1 else 0)
  {
    StoreCountUpdate(fl, x, fl'[x], StoreEmpty);
    StoreCountUpdate(fl[x := fl'[x]], d, fl'[d], StoreEmpty);
  }

  lemma AfterMoveSpare(fl1: Flash, fl: Flash, fl': Flash, oldest: nat, secSize: nat,
                       x: nat, r: nat, d: nat, spare: Option<nat>)
    returns (spare': Option<nat>)
    requires Collecting(fl1, fl, x, r, spare, secSize) && oldest < |fl| && r < |fl[x].recs|
    requires fl[x].recs[r].status == Write && d < |fl| && d != x
    requires Allocates(Marked(fl, x, r), oldest, fl[x].recs[r].Len(), true, secSize, Some(d))
    requires fl' == MoveWrites(fl, x, r, d, secSize)
    ensures Spare(fl1, fl', x, r + 1, spare')
  {
    var rec := fl[x].recs[r];
    MoveShape(fl, x, r, d, secSize);
    UsedStep(fl1[x].recs, r);
    UsedAppend(fl[d].recs, rec);
    MoveEmptyCount(fl, fl', x, d);
    assert SectorOk(fl[d], secSize);
    match spare
    case None =>
      spare' := if fl[d].store == StoreEmpty then Some(d) else None;
    case Some(e) =>
      spare' := spare;
      SpareIsPreferred(fl1, fl, oldest, x, r, e, d, secSize);
  }

  /** While the spare sector has room no further empty sector is taken. */
  lemma SpareIsPreferred(fl1: Flash, fl: Flash, oldest: nat, x: nat, r: nat, e: nat, d: nat, secSize: nat)
    requires Collecting(fl1, fl, x, r, Some(e), secSize) && oldest < |fl| && r < |fl[x].recs|
    requires fl[x].recs[r].status == Write && d < |fl| && d != x
    requires Allocates(Marked(fl, x, r), oldest, fl[x].recs[r].Len(), true, secSize, Some(d))
    ensures fl[d].store == StoreUsing
  {
    var marked := Marked(fl, x, r);
    var rec := fl[x].recs[r];
    assert SectorOk(fl1[x], secSize);
    assert Used(fl1[x].recs[..r]) + rec.Len() + REMAIN_THRESHOLD < secSize - SECTOR_HDR;
    assert marked[e] == fl[e];
    assert Candidate(marked[e], StoreUsing, rec.Len(), true, secSize);
  }

  lemma NothingLive(recs: seq<Rec>)
    requires forall i :: 0 <= i < |recs| ==> !recs[i].Live()
    ensures forall p :: CopiesIn(recs, p) == 0
  {
    forall p ensures CopiesIn(recs, p) == 0 {
      if CopiesIn(recs, p) > 0 {
        var r := CopiesInHas(recs, p);
        assert false;
      }
    }
  }

  lemma StartCollecting(fl: Flash, x: nat, secSize: nat)
    requires FlashOk(fl, secSize) && RestRecs(fl) && x < |fl| && EmptyCount(fl) >= 1
    requires fl[x].dirty in {DirtyTrue, DirtyGc}
    ensures Collecting(SetDirty(fl, x, DirtyGc), SetDirty(fl, x, DirtyGc), x, 0, None, secSize)
    ensures SameLive(fl, SetDirty(fl, x, DirtyGc))
    ensures EmptyCount(SetDirty(fl, x, DirtyGc)) == EmptyCount(fl)
  {
    var fl1 := SetDirty(fl, x, DirtyGc);
    assert SectorOk(fl[x], secSize);
    assert SectorOk(fl1[x], secSize);
    StoreCountUpdate(fl, x, fl1[x], StoreEmpty);
    forall p ensures Copies(fl, p) == Copies(fl1, p) {
      CopiesUpdate(fl, x, fl1[x], p);
    }
  }

  /** Erasing the sector now destroys nothing. */
  lemma FinishCollecting(fl1: Flash, fl: Flash, x: nat, spare: Option<nat>, secSize: nat)
    requires x < |fl1| && Collecting(fl1, fl, x, |fl1[x].recs|, spare, secSize)
    ensures FlashOk(Format(fl, x), secSize) && RestRecs(Format(fl, x))
    ensures SameLive(fl1, Format(fl, x))
    ensures EmptyCount(Format(fl, x)) >= EmptyCount(fl1)
  {
    NothingLive(fl[x].recs);
    forall p ensures Copies(Format(fl, x), p) == Copies(fl, p) {
      CopiesUpdate(fl, x, FormattedSector(), p);
    }
    StoreCountUpdate(fl, x, FormattedSector(), StoreEmpty);
  }

  /** No sector is dirty. */
  predicate AllClean(fl: Flash) {
    forall s :: 0 <= s < |fl| ==> fl[s].dirty == DirtyFalse
  }

  /** No sector is marked for collection and no deleted record takes space. */
  ghost predicate NoGarbage(fl: Flash) {
    && (forall s :: 0 <= s < |fl| ==> fl[s].dirty == DirtyFalse)
    && (forall s, r :: 0 <= s < |fl| && 0 <= r < |fl[s].recs| ==> fl[s].recs[r].status in {Write, ErrHdr, Stray})
  }

  lemma AllVisited(fl: Flash, start: nat, secSize: nat)
    requires FlashOk(fl, secSize) && RestRecs(fl) && start < |fl|
    requires forall j :: 0 <= j < |fl| ==> fl[RingAt(start, |fl|, j)].dirty == DirtyFalse
    ensures NoGarbage(fl)
  {
    forall s | 0 <= s < |fl| ensures fl[s].dirty == DirtyFalse {
      assert fl[RingAt(start, |fl|, RingPos(start, |fl|, s))].dirty == DirtyFalse;
    }
    forall s, r | 0 <= s < |fl| && 0 <= r < |fl[s].recs| ensures fl[s].recs[r].status in {Write, ErrHdr, Stray} {
      assert SectorOk(fl[s], secSize);
    }
  }

  /** `fl` is `fl0` with the first `k` sectors of the walk from `start` looked after. */
  ghost predicate GcPass(fl0: Flash, fl: Flash, start: nat, k: nat, secSize: nat)
    requires start < |fl| && k <= |fl|
  {
    && FlashOk(fl, secSize) && RestRecs(fl) && SameLive(fl0, fl)
    && EmptyCount(fl) >= EmptyCount(fl0) >= 1
    && (forall s :: 0 <= s < |fl| ==> fl[s].dirty != DirtyGc)
    && (forall j :: 0 <= j < k ==> fl[RingAt(start, |fl|, j)].dirty == DirtyFalse)
  }

  // ---------- setting a value ----------

  /** No sector in use has room, and taking an empty one would take the last or would not help. */
  ghost predicate NoRoom(fl: Flash, size: nat, secSize: nat) {
    && NoFit(fl, StoreUsing, size, false, secSize)
    && (EmptyCount(fl) <= GC_EMPTY_SEC_THRESHOLD || size + REMAIN_THRESHOLD >= secSize - SECTOR_HDR)
  }

  /** A clean sector has more than `freeSize` bytes left, and it is not the last empty one. */
  ghost predicate Enough(fl: Flash, freeSize: nat, secSize: nat) {
    exists s :: 0 <= s < |fl| && Remain(fl[s], secSize) > freeSize && fl[s].dirty == DirtyFalse
                && (fl[s].store == StoreEmpty ==> EmptyCount(fl) > 1)
  }

  /** A sector that a collection takes for room enough but the allocator does not. */
  ghost predicate InSlack(fl: Flash, size: nat, secSize: nat) {
    exists s :: 0 <= s < |fl| && size < Remain(fl[s], secSize) <= size + REMAIN_THRESHOLD
  }

  /** Collecting more cannot help: no sector could ever hold the record, or no garbage is left. */
  ghost predicate Unavoidable(fl: Flash, size: nat, secSize: nat) {
    size + REMAIN_THRESHOLD >= secSize - SECTOR_HDR || NoGarbage(fl)
  }

  lemma TwoEmpty(fl: Flash, a: nat, b: nat)
    requires a < |fl| && b < |fl| && a != b && fl[a].store == StoreEmpty && fl[b].store == StoreEmpty
    ensures EmptyCount(fl) > 1
  {
    StoreCountUpdate(fl, a, fl[a].(store := StoreUsing), StoreEmpty);
    StoreIsCounted(fl[a := fl[a].(store := StoreUsing)], b);
  }

  /** Some sector in use has 88 bytes more than the record takes. */
  ghost predicate HasRoomFor(fl: Flash, nameLen: nat, valueLen: nat, secSize: nat) {
    exists s :: 0 <= s < |fl| && fl[s].store == StoreUsing && fl[s].dirty in {DirtyFalse, DirtyTrue}
                && 16 + Used(fl[s].recs) + (24 + nameLen + valueLen) + 88 < secSize
  }

  lemma RoomIsFound(fl: Flash, nameLen: nat, valueLen: nat, secSize: nat)
    requires HasRoomFor(fl, nameLen, valueLen, secSize)
    ensures !NoRoom(fl, KvLen(nameLen, valueLen), secSize)
  {
    var s :| 0 <= s < |fl| && fl[s].store == StoreUsing && fl[s].dirty in {DirtyFalse, DirtyTrue}
             && 16 + Used(fl[s].recs) + (24 + nameLen + valueLen) + 88 < secSize;
    assert Candidate(fl[s], StoreUsing, KvLen(nameLen, valueLen), false, secSize);
  }

  lemma EnoughOrSlack(fl: Flash, size: nat, secSize: nat)
    requires Enough(fl, size, secSize) && NoRoom(fl, size, secSize) && FlashOk(fl, secSize)
    ensures InSlack(fl, size, secSize)
  {
    var s :| 0 <= s < |fl| && Remain(fl[s], secSize) > size && fl[s].dirty == DirtyFalse
             && (fl[s].store == StoreEmpty ==> EmptyCount(fl) > 1);
    assert !Candidate(fl[s], StoreUsing, size, false, secSize);
  }

  lemma SameLiveAbstracts(m: map<Name, Value>, fl: Flash, fl': Flash)
    requires Abstracts(m, fl) && SameLive(fl, fl')
    ensures Abstracts(m, fl')
  {
    forall n, v | Visible(n) ensures Copies(fl', (n, v)) == (if n in m && m[n] == v then 1 else 0) {
      assert Copies(fl, (n, v)) == Copies(fl', (n, v));
    }
  }

  /** All the writes of `set_kv`; `at` is where the old record is. */
  function ReplaceWrites(fl: Flash, d: nat, key: Name, value: Value, at: Option<(nat, nat)>, secSize: nat): Flash
    requires d < |fl|
    requires at.Some? ==> at.value.0 < |fl| && at.value.1 < |fl[at.value.0].recs|
  {
    var rec := Rec(Write, key, value, true, true);
    match at
    case None => Program(fl, d, rec, secSize)
    case Some((s, r)) => DelWrites(Program(DelWrites(fl, s, r, PreDelete), d, rec, secSize), s, r, Deleted)
  }

  ghost predicate OldRecord(fl: Flash, key: Name, at: Option<(nat, nat)>) {
    match at
    case None => NoMatch(fl, key)
    case Some((s, r)) => s < |fl| && r < |fl[s].recs| && Matches(fl[s].recs[r], key)
  }

  lemma RemainBound(sec: Sector, secSize: nat)
    ensures Remain(sec, secSize) > 0 ==> Remain(sec, secSize) <= secSize - SECTOR_HDR
  {
  }

  /** Where `set_kv` writes: the sector allocated keeps its room while the old record is marked. */
  ghost predicate Target(fl: Flash, d: nat, key: Name, value: Value, secSize: nat) {
    && d < |fl| && fl[d].store in {StoreEmpty, StoreUsing}
    && Fits(fl[d], KvLen(|key|, |value|), false, secSize)
    && (fl[d].store == StoreEmpty ==> EmptyCount(fl) > 1)
  }

  lemma ReplaceOk(fl: Flash, d: nat, key: Name, value: Value, at: Option<(nat, nat)>, secSize: nat)
    requires FlashOk(fl, secSize) && Settled(fl) && EmptyCount(fl) >= 1 && OldRecord(fl, key, at)
    requires Target(fl, d, key, value, secSize)
    ensures FlashOk(ReplaceWrites(fl, d, key, value, at, secSize), secSize)
    ensures Settled(ReplaceWrites(fl, d, key, value, at, secSize))
    ensures EmptyCount(ReplaceWrites(fl, d, key, value, at, secSize)) >= 1
  {
    var rec := Rec(Write, key, value, true, true);
    match at
    case None =>
      ProgramOk(fl, d, rec, false, secSize);
    case Some((s, r)) =>
      var marked := DelWrites(fl, s, r, PreDelete);
      MarkedTarget(fl, d, key, value, s, r, secSize);
      ProgramOk(marked, d, rec, false, secSize);
      var written := Program(marked, d, rec, secSize);
      assert SectorOk(marked[s], secSize);
      DelWritesOk(written, s, r, Deleted, secSize);
      DelWritesCopies(written, s, r, Deleted, rec.Pair());
      ReplaceSettled(fl, d, rec, s, r, secSize);
  }

  lemma MarkedTarget(fl: Flash, d: nat, key: Name, value: Value, s: nat, r: nat, secSize: nat)
    requires FlashOk(fl, secSize) && s < |fl| && r < |fl[s].recs| && Matches(fl[s].recs[r], key)
    requires Target(fl, d, key, value, secSize)
    ensures FlashOk(DelWrites(fl, s, r, PreDelete), secSize)
    ensures Target(DelWrites(fl, s, r, PreDelete), d, key, value, secSize)
    ensures EmptyCount(DelWrites(fl, s, r, PreDelete)) == EmptyCount(fl)
  {
    assert SectorOk(fl[s], secSize);
    DelWritesOk(fl, s, r, PreDelete, secSize);
    DelWritesCopies(fl, s, r, PreDelete, (key, value));
    UsedSameLengths(fl[s].recs, DelWrites(fl, s, r, PreDelete)[s].recs);
  }

  lemma ReplaceSettled(fl: Flash, d: nat, rec: Rec, s: nat, r: nat, secSize: nat)
    requires Settled(fl) && d < |fl| && s < |fl| && r < |fl[s].recs| && rec.status == Write
    ensures Settled(DelWrites(Program(DelWrites(fl, s, r, PreDelete), d, rec, secSize), s, r, Deleted))
  {
    var marked := DelWrites(fl, s, r, PreDelete);
    var written := Program(marked, d, rec, secSize);
    var fl' := DelWrites(written, s, r, Deleted);
    forall t, i | 0 <= t < |fl'| && 0 <= i < |fl'[t].recs| ensures fl'[t].recs[i].status in {Write, Deleted, ErrHdr, Stray} {
      if t == s && i == r {
      } else if i < |fl[t].recs| {
        assert fl'[t].recs[i].status == fl[t].recs[i].status;
      }
    }
  }

  lemma ReplaceCopies(fl: Flash, d: nat, key: Name, value: Value, at: Option<(nat, nat)>,
                      secSize: nat, p: Pair)
    requires d < |fl| && OldRecord(fl, key, at)
    ensures Copies(ReplaceWrites(fl, d, key, value, at, secSize), p)
         == Copies(fl, p) + (if p == (key, value) then 1 else 0)
            - (if at.Some? && p == (key, fl[at.value.0].recs[at.value.1].value) then 1 else 0)
  {
    var rec := Rec(Write, key, value, true, true);
    match at
    case None =>
      ProgramCopies(fl, d, rec, secSize, p);
    case Some((s, r)) =>
      var marked := DelWrites(fl, s, r, PreDelete);
      DelWritesCopies(fl, s, r, PreDelete, p);
      ProgramCopies(marked, d, rec, secSize, p);
      DelWritesCopies(Program(marked, d, rec, secSize), s, r, Deleted, p);
  }

  lemma ReplaceAbstracts(m: map<Name, Value>, fl: Flash, d: nat, key: Name, value: Value,
                         at: Option<(nat, nat)>, secSize: nat)
    requires Abstracts(m, fl) && FlashOk(fl, secSize) && d < |fl| && OldRecord(fl, key, at)
    ensures Abstracts(if Visible(key) then m[key := value] else m, ReplaceWrites(fl, d, key, value, at, secSize))
  {
    var fl' := ReplaceWrites(fl, d, key, value, at, secSize);
    var m' := if Visible(key) then m[key := value] else m;
    if at.Some? { LookupAgrees(m, fl, key, at.value.0, at.value.1); } else { LookupMisses(m, fl, key, secSize); }
    forall n, v | Visible(n) ensures Copies(fl', (n, v)) == (if n in m' && m'[n] == v then 1 else 0) {
      ReplaceCopies(fl, d, key, value, at, secSize, (n, v));
    }
  }

  // ---------- the writes of set_kv, one at a time ----------

  type Pos = (nat, nat)

  predicate At(fl: Flash, p: Pos) { p.0 < |fl| && p.1 < |fl[p.0].recs| }

  /** The new record after the given number of its writes: nothing, status byte, header, name,
      value, final status. Until the value is written the checksum matches only by luck. A lone
      status byte behind other records is a stray one. */
  function Partial(key: Name, value: Value, written: nat, lucky: bool, behind: bool): Rec
    requires 1 <= written <= 5
  {
    if written == 1 then Rec(if behind then Stray else PreWrite, "", [], false, false)
    else Rec(if written == 5 then Write else PreWrite, key, value, true, written >= 4 || lucky)
  }

  function CreateStep(fl: Flash, d: nat, key: Name, value: Value, written: nat, lucky: bool, secSize: nat): Flash
    requires d < |fl| && written <= 5
  {
    var fl1 := SetStore(fl, d, StatusAfter(fl[d], KvLen(|key|, |value|), secSize));
    if written == 0 then fl1 else Append(fl1, d, Partial(key, value, written, lucky, fl[d].recs != []))
  }

  /** The flash `set_kv` leaves when power goes after its first `step` writes: (1) old record
      PRE_DELETE, (2) its sector dirty, (3) store status, (4) to (8) the new record,
      (9) old record DELETED. */
  function Crash(fl: Flash, d: nat, key: Name, value: Value, at: Option<Pos>, step: nat, lucky: bool, secSize: nat): Flash
    requires d < |fl| && step <= 9 && (at.Some? ==> At(fl, at.value))
  {
    var marked :=
      if at.None? || step == 0 then fl
      else if step == 1 then SetStatus(fl, at.value.0, at.value.1, PreDelete)
      else DelWrites(fl, at.value.0, at.value.1, PreDelete);
    if step < 3 then marked
    else if step < 9 then CreateStep(marked, d, key, value, step - 3, lucky, secSize)
    else
      var created := CreateStep(marked, d, key, value, 5, lucky, secSize);
      if at.None? then created else DelWrites(created, at.value.0, at.value.1, Deleted)
  }

  /** After the last step the flash is what an uninterrupted `set_kv` writes. */
  lemma CrashCoversSet(fl: Flash, d: nat, key: Name, value: Value, at: Option<Pos>, lucky: bool, secSize: nat)
    requires d < |fl| && (at.Some? ==> At(fl, at.value))
    ensures Crash(fl, d, key, value, at, 0, lucky, secSize) == fl
    ensures Crash(fl, d, key, value, at, 9, lucky, secSize) == ReplaceWrites(fl, d, key, value, at, secSize)
  {
  }

  /** The last record of a sector is written further. */
  function SetLast(fl: Flash, d: nat, rec: Rec): Flash
    requires d < |fl| && fl[d].recs != []
  {
    fl[d := fl[d].(recs := fl[d].recs[..|fl[d].recs| - 1] + [rec])]
  }

  lemma SetLastOfAppend(fl: Flash, d: nat, rec: Rec, rec': Rec)
    requires d < |fl|
    ensures SetLast(Append(fl, d, rec), d, rec') == Append(fl, d, rec')
  {
    assert (fl[d].recs + [rec])[..|fl[d].recs|] == fl[d].recs;
  }

  /** The states a creation passes through, whatever the checksum says on the way. */
  ghost predicate CreateTrace(fl: Flash, d: nat, key: Name, value: Value, secSize: nat, trace: seq<Flash>)
    requires d < |fl|
  {
    |trace| == 6 && forall i :: 0 <= i <= 5 ==>
      trace[i] in {CreateStep(fl, d, key, value, i, false, secSize), CreateStep(fl, d, key, value, i, true, secSize)}
  }

  /** The states a replacement passes through. */
  ghost predicate ReplaceTrace(fl: Flash, d: nat, key: Name, value: Value, at: Option<Pos>, secSize: nat, trace: seq<Flash>)
    requires d < |fl| && (at.Some? ==> At(fl, at.value))
  {
    |trace| == 10 && forall i :: 0 <= i <= 9 ==>
      trace[i] in {Crash(fl, d, key, value, at, i, false, secSize), Crash(fl, d, key, value, at, i, true, secSize)}
  }

  function Blank(n: nat): Flash { seq(n, _ => FormattedSector()) }

  lemma BlankHoldsNothing(n: nat, p: Pair)
    ensures Copies(Blank(n), p) == 0
  {
    if Copies(Blank(n), p) > 0 {
      var s, r := CountedIsLive(Blank(n), p);
      assert false;
    }
  }

  class Kvdb {
    const secSize: nat
    const secNum: nat
    var flash: Flash
    var oldest: nat
    var gcRequest: bool
    var inRecovery: bool
    ghost var contents: map<Name, Value>

    ghost predicate Shape()
      reads this
    {
      |flash| == secNum && oldest < secNum
    }

    ghost predicate Sane()
      reads this
    {
      Shape() && FlashOk(flash, secSize)
    }

    /** No operation is under way on the flash, and `contents` is what it holds. */
    ghost predicate Usable()
      reads this
    {
      && Sane() && Settled(flash)
      && EmptyCount(flash) >= 1
      && !inRecovery
      && Abstracts(contents, flash)
    }

    /** Holds between public calls. */
    ghost predicate Valid()
      reads this
    {
      Usable() && !gcRequest
    }

    /** A store on freshly formatted flash (`fdb_kvdb_init` on blank storage without defaults).
        FDB_GC_EMPTY_SEC_THRESHOLD must be below the number of sectors. */
    constructor (secSize: nat, secNum: nat)
      requires GC_EMPTY_SEC_THRESHOLD < secNum
      ensures Valid() && contents == map[] && this.secSize == secSize && this.secNum == secNum
      ensures flash == Blank(secNum)
    {
      this.secSize, this.secNum := secSize, secNum;
      flash := Blank(secNum);
      oldest, gcRequest, inRecovery := 0, false, false;
      contents := map[];
      new;
      forall p ensures Copies(flash, p) == 0 {
        BlankHoldsNothing(secNum, p);
      }
      StoreIsCounted(flash, 0);
    }

    // ---------- allocation ----------

    method CountStatus(st: StoreStatus) returns (count: nat)
      requires Shape()
      ensures count == StoreCount(flash, st)
    {
      ghost var ring := flash[oldest..] + flash[..oldest];
      count := 0;
      var k := 0;
      while k < secNum
        invariant 0 <= k <= secNum
        invariant count == StoreCount(ring[..k], st)
      {
        StoreCountSnoc(ring, k, st);
        if flash[RingAt(oldest, secNum, k)].store == st {
          count := count + 1;
        }
        k := k + 1;
      }
      assert ring[..k] == ring;
      RingCount(flash, oldest, st);
    }

    /** `sector_iterator` with `alloc_kv_cb`: stops at the first sector that fits. */
    method ScanFit(st: StoreStatus, size: nat) returns (found: Option<nat>)
      requires Shape()
      ensures found.Some? ==> FirstFit(flash, oldest, st, size, gcRequest, secSize, found.value)
      ensures found.None? ==> NoFit(flash, st, size, gcRequest, secSize)
    {
      var k := 0;
      while k < secNum
        invariant 0 <= k <= secNum
        invariant forall j :: 0 <= j < k ==> !Candidate(flash[RingAt(oldest, secNum, j)], st, size, gcRequest, secSize)
      {
        var s := RingAt(oldest, secNum, k);
        if Candidate(flash[s], st, size, gcRequest, secSize) {
          assert RingPos(oldest, secNum, s) == k;
          return Some(s);
        }
        k := k + 1;
      }
      NoneFits(flash, oldest, st, size, gcRequest, secSize);
      found := None;
    }

    method AllocKv(size: nat) returns (found: Option<nat>)
      requires Shape()
      modifies this`gcRequest
      ensures Allocates(flash, oldest, size, old(gcRequest), secSize, found)
      ensures gcRequest == (old(gcRequest) || (found.None? && EmptyCount(flash) == 1))
    {
      var emptySectors := CountStatus(StoreEmpty);
      var usingSectors := CountStatus(StoreUsing);
      found := None;
      if usingSectors > 0 {
        found := ScanFit(StoreUsing, size);
      } else {
        NoneOfStatus(flash, StoreUsing, size, gcRequest, secSize);
      }
      if emptySectors > 0 && found.None? {
        if emptySectors > GC_EMPTY_SEC_THRESHOLD || gcRequest {
          found := ScanFit(StoreEmpty, size);
        } else {
          gcRequest := true;
        }
      } else if found.None? {
        NoneOfStatus(flash, StoreEmpty, size, gcRequest, secSize);
      }
    }

    // ---------- lookup ----------

    /** The record loop of `kv_iterator` with `find_kv_cb` in one sector. */
    method FindInSector(s: nat, key: Name) returns (found: bool, r: nat)
      requires s < |flash|
      ensures found ==> r < |flash[s].recs| && Matches(flash[s].recs[r], key)
      ensures !found ==> forall i :: 0 <= i < |flash[s].recs| ==> !Matches(flash[s].recs[i], key)
    {
      found, r := false, 0;
      while r < |flash[s].recs|
        invariant 0 <= r <= |flash[s].recs|
        invariant forall i :: 0 <= i < r ==> !Matches(flash[s].recs[i], key)
      {
        if Matches(flash[s].recs[r], key) {
          found := true;
          return;
        }
        r := r + 1;
      }
    }

    /** `find_kv_no_cache`: walks the records of every sector until one matches. */
    method FindKv(key: Name) returns (found: bool, s: nat, r: nat)
      requires Shape() && Walkable(flash)
      ensures found ==> s < |flash| && r < |flash[s].recs| && Matches(flash[s].recs[r], key)
      ensures !found ==> NoMatch(flash, key)
    {
      found, s, r := false, 0, 0;
      var k := 0;
      while k < secNum
        invariant 0 <= k <= secNum
        invariant NoMatchBefore(flash, oldest, k, key)
      {
        s := RingAt(oldest, secNum, k);
        if flash[s].store == StoreUsing || flash[s].store == StoreFull {
          found, r := FindInSector(s, key);
          if found {
            return;
          }
        }
        k := k + 1;
      }
      found := false;
      AllSearched(flash, oldest, key);
    }

    /** `fdb_kv_get_blob`: at most `bufLen` bytes of the value, and its full length. */
    method Get(key: Name, bufLen: nat) returns (data: Value, valueLen: nat)
      requires Valid()
      ensures key in contents ==>
                (valueLen == |contents[key]|
                 && data == contents[key][..if bufLen > valueLen then valueLen else bufLen])
      ensures key !in contents ==> valueLen == 0 && data == []
    {
      OkIsWalkable(flash, secSize);
      var found, s, r := FindKv(key);
      if found {
        LookupAgrees(contents, flash, key, s, r);
        var value := flash[s].recs[r].value;
        valueLen := |value|;
        data := value[..if bufLen > valueLen then valueLen else bufLen];
      } else {
        LookupMisses(contents, flash, key, secSize);
        data, valueLen := [], 0;
      }
    }

    // ---------- delete ----------

    /** `del_kv` on a record: its status, then the dirty mark; `between` is the flash after the first
        of these writes. */
    method DelKv(s: nat, r: nat, complete: bool) returns (ghost between: Flash)
      requires s < |flash| && r < |flash[s].recs|
      modifies this`flash
      ensures between == SetStatus(old(flash), s, r, if complete then Deleted else PreDelete)
      ensures flash == DelWrites(old(flash), s, r, if complete then Deleted else PreDelete)
    {
      flash := SetStatus(flash, s, r, if complete then Deleted else PreDelete);
      between := flash;
      if flash[s].dirty == DirtyFalse {
        flash := SetDirty(flash, s, DirtyTrue);
      }
    }

    /** `fdb_kv_del` */
    method Del(key: Name) returns (err: Err)
      requires Valid()
      modifies this
      ensures Valid() && oldest == old(oldest)
      ensures err == if key in old(contents) then NoErr else NameErr
      ensures contents == old(contents) - {key}
    {
      OkIsWalkable(flash, secSize);
      var found, s, r := FindKv(key);
      if found {
        LookupAgrees(contents, flash, key, s, r);
        assert SectorOk(flash[s], secSize);
        DelWritesOk(flash, s, r, Deleted, secSize);
        DelWritesCopies(flash, s, r, Deleted, (key, []));
        DeleteAbstracts(contents, flash, s, r);
        DeleteSettled(flash, s, r);
        ghost var _ := DelKv(s, r, true);
        contents := contents - {key};
        err := NoErr;
      } else {
        LookupMisses(contents, flash, key, secSize);
        assert contents == contents - {key};
        err := NameErr;
      }
    }

    // ---------- garbage collection ----------

    /** `update_sec_status` followed by the record itself, PRE_WRITE first and WRITE last. */
    method WriteRecord(d: nat, rec: Rec) returns (isFull: bool)
      requires d < |flash| && rec.status == Write
      modifies this`flash
      ensures flash == Program(old(flash), d, rec, secSize)
      ensures isFull == (old(flash)[d].store == StoreUsing && flash[d].store == StoreFull)
    {
      isFull := flash[d].store == StoreUsing && StatusAfter(flash[d], rec.Len(), secSize) == StoreFull;
      flash := SetStore(flash, d, StatusAfter(flash[d], rec.Len(), secSize));
      var r := |flash[d].recs|;
      flash := Append(flash, d, rec.(status := PreWrite));
      flash := SetStatus(flash, d, r, Write);
      assert flash[d].recs == old(flash)[d].recs + [rec];
    }

    /** `move_kv`: copies a live (or half-deleted) record to a sector with room, then deletes it
        where it was. `dest` is where the copy went. */
    method MoveKv(s: nat, r: nat) returns (err: Err, dest: Option<nat>)
      requires Shape() && Walkable(flash) && s < |flash| && r < |flash[s].recs|
      requires flash[s].recs[r].status in {Write, PreDelete} && flash[s].recs[r].Intact()
      modifies this`flash, this`gcRequest
      ensures MoveOutcome(old(flash), oldest, old(gcRequest), inRecovery, secSize, s, r, err, dest, flash)
      ensures gcRequest == (old(gcRequest) || (err != NoErr && EmptyCount(flash) == 1))
    {
      var rec := flash[s].recs[r];
      if rec.status == Write {
        ghost var _ := DelKv(s, r, false);
      }
      dest := AllocKv(rec.Len());
      if dest.None? {
        return SavedFull, None;
      }
      if inRecovery && rec.status == PreDelete {
        var created, _, _ := FindKv(rec.name);
        if created {
          ghost var _ := DelKv(s, r, true);
          return NoErr, None;
        }
      }
      var _ := WriteRecord(dest.value, rec.(status := Write));
      ghost var _ := DelKv(s, r, true);
      err := NoErr;
    }

    /** One turn of the record loop of `do_gc`. */
    method GcRecord(x: nat, r: nat, ghost fl1: Flash, ghost spare: Option<nat>) returns (ghost spare': Option<nat>)
      requires Sane() && gcRequest && !inRecovery
      requires x < |flash| && r < |flash[x].recs| && Collecting(fl1, flash, x, r, spare, secSize)
      modifies this`flash, this`gcRequest
      ensures gcRequest && |flash| == secNum
      ensures Collecting(fl1, flash, x, r + 1, spare', secSize)
    {
      var rec := flash[x].recs[r];
      if rec.Intact() && (rec.status == Write || rec.status == PreDelete) {
        OkIsWalkable(flash, secSize);
        var err, dest := MoveKv(x, r);
        spare' := AfterMove(fl1, old(flash), flash, oldest, secSize, x, r, spare, err, dest);
      } else {
        SkipsGarbage(fl1, flash, x, r, spare, secSize);
        spare' := spare;
      }
    }

    /** `do_gc` on a sector it collects. */
    method DoGc(x: nat)
      requires Sane() && RestRecs(flash) && x < |flash| && flash[x].dirty in {DirtyTrue, DirtyGc}
      requires gcRequest && !inRecovery && EmptyCount(flash) >= 1
      modifies this`flash, this`oldest, this`gcRequest
      ensures Sane() && RestRecs(flash) && SameLive(old(flash), flash)
      ensures flash[x] == FormattedSector() && oldest == NextSector(x, secNum) && gcRequest
      ensures forall s :: 0 <= s < secNum && s != x ==> flash[s].dirty == old(flash)[s].dirty && old(flash)[s].recs <= flash[s].recs
      ensures EmptyCount(flash) >= old(EmptyCount(flash))
    {
      StartCollecting(flash, x, secSize);
      flash := SetDirty(flash, x, DirtyGc);
      ghost var fl1 := flash;
      ghost var spare: Option<nat> := None;
      var r := 0;
      while r < |flash[x].recs|
        invariant Collecting(fl1, flash, x, r, spare, secSize)
        invariant |flash| == secNum && gcRequest && oldest == old(oldest)
      {
        spare := GcRecord(x, r, fl1, spare);
        r := r + 1;
      }
      FinishCollecting(fl1, flash, x, spare, secSize);
      flash := Format(flash, x);
      oldest := NextSector(x, secNum);
    }

    /** `gc_check_cb` over the empty sectors: how many there are and the last one met. */
    method GcCheck() returns (emptyNum: nat, emptyAddr: nat)
      requires Shape()
      ensures emptyNum == EmptyCount(flash)
      ensures emptyAddr < secNum && (emptyNum > 0 ==> flash[emptyAddr].store == StoreEmpty)
    {
      emptyNum := CountStatus(StoreEmpty);
      emptyAddr := 0;
      ghost var met := false;
      var k := 0;
      while k < secNum
        invariant 0 <= k <= secNum && emptyAddr < secNum
        invariant met ==> flash[emptyAddr].store == StoreEmpty
        invariant !met ==> forall j :: 0 <= j < k ==> flash[RingAt(oldest, secNum, j)].store != StoreEmpty
      {
        if flash[RingAt(oldest, secNum, k)].store == StoreEmpty {
          emptyAddr := RingAt(oldest, secNum, k);
          met := true;
        }
        k := k + 1;
      }
      if emptyNum > 0 && !met {
        var s := StoreCountHas(flash, StoreEmpty);
        var j := RingPos(oldest, secNum, s);
        assert false;
      }
    }

    /** `do_gc` as the callback of the sector walk: collects the sector if it is dirty, and stops
        the walk when the sector collected before it (or the empty one) has room enough. */
    method GcSector(ghost fl0: Flash, start: nat, k: nat, lastGc: nat, freeSize: nat) returns (lastGc': nat, stop: bool)
      requires Sane() && gcRequest && !inRecovery && start < secNum && k < secNum && lastGc < secNum
      requires GcPass(fl0, flash, start, k, secSize) && flash[lastGc].dirty == DirtyFalse
      modifies this`flash, this`oldest, this`gcRequest
      ensures |flash| == secNum && GcPass(fl0, flash, start, k + 1, secSize) && oldest < secNum && gcRequest
      ensures AllClean(old(flash)) ==> flash == old(flash) && oldest == old(oldest)
      ensures lastGc' < secNum && flash[lastGc'].dirty == DirtyFalse
      ensures stop ==> freeSize < secSize && Enough(flash, freeSize, secSize)
    {
      var s := RingAt(start, secNum, k);
      lastGc', stop := lastGc, false;
      if flash[s].dirty == DirtyTrue || flash[s].dirty == DirtyGc {
        DoGc(s);
        lastGc' := s;
        stop := Remain(flash[lastGc], secSize) > freeSize;
        if flash[lastGc].store == StoreEmpty {
          TwoEmpty(flash, lastGc, s);
        }
      } else {
        assert SectorOk(flash[s], secSize);
      }
    }

    /** `gc_collect_by_free_size`: collects dirty sectors round the ring until one collected
        before has more than `freeSize` bytes left. */
    method GcCollect(freeSize: nat)
      requires Sane() && Settled(flash) && EmptyCount(flash) >= 1 && gcRequest && !inRecovery
      modifies this`flash, this`oldest, this`gcRequest
      ensures Sane() && Settled(flash) && !gcRequest
      ensures SameLive(old(flash), flash) && EmptyCount(flash) >= old(EmptyCount(flash))
      ensures old(EmptyCount(flash)) > 1 ==> flash == old(flash) && oldest == old(oldest)
      ensures old(AllClean(flash)) ==> flash == old(flash) && oldest == old(oldest)
      ensures old(EmptyCount(flash)) == 1 && freeSize >= secSize ==> NoGarbage(flash)
      ensures old(EmptyCount(flash)) == 1 ==> NoGarbage(flash) || Enough(flash, freeSize, secSize)
    {
      var emptyNum, lastGc := GcCheck();
      if emptyNum <= GC_EMPTY_SEC_THRESHOLD {
        assert SectorOk(flash[lastGc], secSize);
        var start := oldest;
        var k := 0;
        var stop := false;
        while k < secNum && !stop
          invariant 0 <= k <= secNum && 0 <= start < secNum && 0 <= lastGc < secNum && oldest < secNum
          invariant |flash| == secNum && gcRequest && GcPass(old(flash), flash, start, k, secSize)
          invariant flash[lastGc].dirty == DirtyFalse
          invariant stop ==> freeSize < secSize && Enough(flash, freeSize, secSize)
          invariant old(AllClean(flash)) ==> flash == old(flash) && oldest == old(oldest)
        {
          lastGc, stop := GcSector(old(flash), start, k, lastGc, freeSize);
          k := k + 1;
        }
        if !stop {
          AllVisited(flash, start, secSize);
        }
      }
      gcRequest := false;
    }

    // ---------- set ----------

    /** `new_kv`: allocates, after one collection if that is what it takes. */
    method NewKv(size: nat) returns (found: Option<nat>)
      requires Sane() && Settled(flash) && EmptyCount(flash) >= 1 && !gcRequest && !inRecovery
      modifies this`flash, this`oldest, this`gcRequest
      ensures Sane() && Settled(flash) && EmptyCount(flash) >= 1 && !gcRequest
      ensures SameLive(old(flash), flash)
      ensures found.Some? ==> Allocates(flash, oldest, size, false, secSize, found)
      ensures found.None? <==> NoRoom(flash, size, secSize)
      // what had room or had nothing to collect is left alone
      ensures !NoRoom(old(flash), size, secSize) || old(AllClean(flash)) ==> flash == old(flash)
      ensures found.None? ==> Unavoidable(flash, size, secSize) || InSlack(flash, size, secSize)
    {
      found := AllocKv(size);
      if found.None? && gcRequest {
        GcCollect(size);
        found := AllocKv(size);
        if found.None? {
          gcRequest := false;
        }
      }
      if found.None? && EmptyCount(flash) > 1 {
        var e := StoreCountHas(flash, StoreEmpty);
        assert SectorOk(flash[e], secSize) && !Candidate(flash[e], StoreEmpty, size, false, secSize);
      }
      if found.None? && Enough(flash, size, secSize) {
        EnoughOrSlack(flash, size, secSize);
      }
    }

    /** `create_kv_blob` at an address already allocated: store status, status byte, header, name,
        value and final status. `trace` is the flash after each of these writes. */
    method CreateKv(d: nat, key: Name, value: Value) returns (err: Err, ghost trace: seq<Flash>)
      requires d < |flash|
      modifies this`flash, this`gcRequest
      ensures err == if |key| > NAME_MAX then NameErr
                     else if KvLen(|key|, |value|) > secSize - SECTOR_HDR then SavedFull
                     else NoErr
      ensures err != NoErr ==> flash == old(flash) && gcRequest == old(gcRequest)
      ensures err == NoErr ==>
                (flash == Program(old(flash), d, Rec(Write, key, value, true, true), secSize)
                 && CreateTrace(old(flash), d, key, value, secSize, trace)
                 && gcRequest == (old(gcRequest)
                                  || (old(flash)[d].store == StoreUsing && flash[d].store == StoreFull)))
    {
      trace := [];
      if |key| > NAME_MAX {
        return NameErr, trace;
      }
      if KvLen(|key|, |value|) > secSize - SECTOR_HDR {
        return SavedFull, trace;
      }
      var store := StatusAfter(flash[d], KvLen(|key|, |value|), secSize);
      var isFull := flash[d].store == StoreUsing && store == StoreFull;
      var behind := flash[d].recs != [];
      flash := SetStore(flash, d, store);
      trace := [flash];
      ghost var fl1 := flash;
      ghost var last := Partial(key, value, 1, false, behind);
      flash := Append(flash, d, Partial(key, value, 1, false, behind));
      trace := trace + [flash];
      var written := 2;
      while written <= 5
        invariant 2 <= written <= 6 && |trace| == written && |flash| == |fl1| && gcRequest == old(gcRequest)
        invariant last in {Partial(key, value, written - 1, false, behind), Partial(key, value, written - 1, true, behind)}
        invariant flash == Append(fl1, d, last)
        invariant trace[0] == fl1
        invariant forall i :: 1 <= i < written ==>
          trace[i] in {Append(fl1, d, Partial(key, value, i, false, behind)), Append(fl1, d, Partial(key, value, i, true, behind))}
      {
        var lucky: bool := *;
        SetLastOfAppend(fl1, d, last, Partial(key, value, written, lucky, behind));
        flash := SetLast(flash, d, Partial(key, value, written, lucky, behind));
        last := Partial(key, value, written, lucky, behind);
        trace := trace + [flash];
        written := written + 1;
      }
      if isFull {
        gcRequest := true;
      }
      err := NoErr;
    }

    /** The writes of `set_kv`: mark the old record, create the new one, delete the old one. The flash
        passes through the states of `Crash`, one after the other, and no others. */
    method WriteReplacement(d: nat, key: Name, value: Value, at: Option<Pos>) returns (err: Err, ghost trace: seq<Flash>)
      requires d < |flash| && OldRecord(flash, key, at)
      requires KvLen(|key|, |value|) <= secSize - SECTOR_HDR
      modifies this`flash, this`gcRequest
      ensures err == if |key| > NAME_MAX then NameErr else NoErr
      ensures flash == if err == NoErr then ReplaceWrites(old(flash), d, key, value, at, secSize) else old(flash)
      ensures err == NoErr ==> ReplaceTrace(old(flash), d, key, value, at, secSize, trace)
    {
      trace := [flash];
      if at.Some? {
        ghost var between := DelKv(at.value.0, at.value.1, false);
        trace := trace + [between, flash];
      } else {
        trace := trace + [flash, flash];
      }
      ghost var creation;
      err, creation := CreateKv(d, key, value);
      trace := trace + creation;
      if at.Some? && err == NoErr {
        ghost var _ := DelKv(at.value.0, at.value.1, true);
      }
      trace := trace + [flash];
    }

    /** The part of `set_kv` between the allocation and the final collection. */
    method Replace(d: nat, key: Name, value: Value) returns (err: Err)
      requires Valid() && Target(flash, d, key, value, secSize)
      modifies this`flash, this`gcRequest, this`contents
      ensures Usable()
      ensures err == if |key| > NAME_MAX then NameErr else NoErr
      ensures contents == if err == NoErr && Visible(key) then old(contents)[key := value] else old(contents)
    {
      OkIsWalkable(flash, secSize);
      var found, s, r := FindKv(key);
      var at := if found then Some((s, r)) else None;
      ReplaceOk(flash, d, key, value, at, secSize);
      ReplaceAbstracts(contents, flash, d, key, value, at, secSize);
      RemainBound(flash[d], secSize);
      ghost var trace;
      err, trace := WriteReplacement(d, key, value, at);
      if err == NoErr && Visible(key) {
        contents := contents[key := value];
      }
    }

    /** `set_kv` with a value. */
    method Set(key: Name, value: Value) returns (err: Err)
      requires Valid()
      modifies this
      ensures Valid()
      // a lookup sees names of less than 64 characters
      ensures contents == if err == NoErr && |key| < 64 then old(contents)[key := value] else old(contents)
      ensures err == SavedFull ==> NoRoom(flash, KvLen(|key|, |value|), secSize)
      ensures !NoRoom(old(flash), KvLen(|key|, |value|), secSize) ==> err != SavedFull
      ensures HasRoomFor(old(flash), |key|, |value|, secSize) ==> err != SavedFull
      ensures old(AllClean(flash)) && NoRoom(old(flash), KvLen(|key|, |value|), secSize) ==> err == SavedFull
      // collecting more would have helped only if some sector's free space falls into the slack
      ensures err == SavedFull ==>
                Unavoidable(flash, KvLen(|key|, |value|), secSize) || InSlack(flash, KvLen(|key|, |value|), secSize)
      ensures err == NameErr ==> |key| > NAME_MAX
      ensures err == NoErr ==> |key| <= NAME_MAX
    {
      var size := KvLen(|key|, |value|);
      var d := NewKv(size);
      SameLiveAbstracts(contents, old(flash), flash);
      if d.None? {
        if HasRoomFor(old(flash), |key|, |value|, secSize) {
          RoomIsFound(old(flash), |key|, |value|, secSize);
        }
        return SavedFull;
      }
      err := Replace(d.value, key, value);
      if gcRequest {
        ghost var fl2 := flash;
        GcCollect(size);
        SameLiveAbstracts(contents, fl2, flash);
      }
    }
  }
}
