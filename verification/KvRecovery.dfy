// Power loss between the flash writes of `set_kv`, and the recovery scan of `_fdb_kv_load`
// (fdb_kvdb.c).

module KvRecovery {
  import opened Options
  import opened SectorRing
  import opened KvFlash
  import opened KvStore

  /** The order in which a scan from `oldest` meets two positions. */
  predicate Before(oldest: nat, n: nat, p: Pos, q: Pos)
    requires oldest < n && p.0 < n && q.0 < n
  {
    RingPos(oldest, n, p.0) < RingPos(oldest, n, q.0) || (p.0 == q.0 && p.1 < q.1)
  }

  // ---------- recovery ----------

  /** Reading leaves the record alone. */
  predicate ReadsAsIs(rec: Rec) { rec.lenOk || rec.status in {ErrHdr, Stray} }

  /** Reading repairs: a header without a length is marked ERR_HDR, and so is the free space
      behind the header of a sector in use that holds no record. */
  function Reread(sec: Sector): Sector {
    if sec.store in {StoreUsing, StoreFull} && sec.recs == [] then
      sec.(recs := [Rec(ErrHdr, "", [], false, false)])
    else
      sec.(recs := seq(|sec.recs|, i requires 0 <= i < |sec.recs| =>
                         if ReadsAsIs(sec.recs[i]) then sec.recs[i] else sec.recs[i].(status := ErrHdr)))
  }

  function RereadAll(fl: Flash): Flash {
    seq(|fl|, i requires 0 <= i < |fl| => Reread(fl[i]))
  }

  /** The first walk over the records reads each of them. */
  method RereadFlash(db: Kvdb)
    modifies db`flash
    ensures db.flash == RereadAll(old(db.flash))
  {
    var s := 0;
    while s < |db.flash|
      invariant 0 <= s <= |db.flash| == |old(db.flash)|
      invariant forall i :: 0 <= i < s ==> db.flash[i] == Reread(old(db.flash)[i])
      invariant forall i :: s <= i < |db.flash| ==> db.flash[i] == old(db.flash)[i]
    {
      db.flash := db.flash[s := Reread(db.flash[s])];
      s := s + 1;
    }
  }

  datatype ScanEnd = Finished | AtPreWrite(pos: Pos) | MoveFailed

  ghost predicate Visited(oldest: nat, n: nat, k: nat, r: nat, p: Pos)
    requires oldest < n && p.0 < n
  {
    RingPos(oldest, n, p.0) < k || (RingPos(oldest, n, p.0) == k && p.1 < r)
  }

  ghost predicate OnlyPreDelete(fl: Flash, pd: Option<Pos>) {
    && (pd.Some? ==> At(fl, pd.value) && fl[pd.value.0].recs[pd.value.1].status == PreDelete)
    && forall p: Pos :: At(fl, p) && fl[p.0].recs[p.1].status == PreDelete ==> pd == Some(p)
  }

  /** Everything the scan has met is settled. */
  ghost predicate SettledUpTo(fl: Flash, oldest: nat, k: nat, r: nat)
    requires oldest < |fl|
  {
    forall p: Pos :: At(fl, p) && Visited(oldest, |fl|, k, r, p) ==> fl[p.0].recs[p.1].status !in {PreDelete, PreWrite}
  }

  /** `mid` is `fl0` with the half-deleted record moved, or `fl0` itself. */
  ghost predicate MovedOrNot(fl0: Flash, mid: Flash, oldest: nat, gcRequest: bool, secSize: nat,
                             pd: Option<Pos>, moved: bool, dest: Option<nat>)
    requires oldest < |fl0|
  {
    if moved then
      pd.Some? && At(fl0, pd.value)
      && MoveOutcome(fl0, oldest, gcRequest, true, secSize, pd.value.0, pd.value.1, NoErr, dest, mid)
    else mid == fl0
  }

  /** A move changes the record moved and appends one; all other records stay as they were. */
  lemma MovedRecords(fl0: Flash, mid: Flash, oldest: nat, gcRequest: bool, secSize: nat,
                     s: nat, r: nat, dest: Option<nat>, p: Pos)
    requires oldest < |fl0| && At(fl0, (s, r)) && fl0[s].recs[r].status == PreDelete
    requires MoveOutcome(fl0, oldest, gcRequest, true, secSize, s, r, NoErr, dest, mid)
    ensures |mid| == |fl0|
    ensures At(mid, p) ==>
              if p == (s, r) then mid[p.0].recs[p.1].status == Deleted
              else if At(fl0, p) then mid[p.0].recs[p.1] == fl0[p.0].recs[p.1]
              else mid[p.0].recs[p.1].status == Write
    ensures At(fl0, p) ==> At(mid, p)
  {
  }

  lemma MovedSound(fl0: Flash, mid: Flash, oldest: nat, gcRequest: bool, secSize: nat,
                   s: nat, r: nat, dest: Option<nat>)
    requires oldest < |fl0| && At(fl0, (s, r)) && fl0[s].recs[r].status == PreDelete
    requires MoveOutcome(fl0, oldest, gcRequest, true, secSize, s, r, NoErr, dest, mid)
    requires FlashSound(fl0, secSize)
    ensures FlashSound(mid, secSize)
  {
    var rec := fl0[s].recs[r];
    assert SectorSound(fl0[s], secSize);
    if dest.Some? {
      ProgramSound(fl0, dest.value, rec.(status := Write), gcRequest, secSize);
      DelWritesSound(Program(fl0, dest.value, rec.(status := Write), secSize), s, r, Deleted, secSize);
    } else {
      DelWritesSound(fl0, s, r, Deleted, secSize);
    }
  }

  lemma AfterRecoveryMove(fl0: Flash, mid: Flash, oldest: nat, gcRequest: bool, secSize: nat,
                          k: nat, s: nat, r: nat, pd: Option<Pos>, dest: Option<nat>)
    requires oldest < |fl0| && k < |fl0| && s == RingAt(oldest, |fl0|, k) && At(fl0, (s, r))
    requires FlashSound(fl0, secSize) && OnlyPreDelete(fl0, pd) && SettledUpTo(fl0, oldest, k, r)
    requires fl0[s].recs[r].status == PreDelete
    requires MoveOutcome(fl0, oldest, gcRequest, true, secSize, s, r, NoErr, dest, mid)
    ensures |mid| == |fl0| && FlashSound(mid, secSize) && SettledUpTo(mid, oldest, k, r + 1)
    ensures r < |mid[s].recs| && pd == Some((s, r))
  {
    MovedSound(fl0, mid, oldest, gcRequest, secSize, s, r, dest);
    MovedRecords(fl0, mid, oldest, gcRequest, secSize, s, r, dest, (s, r));
    forall p: Pos | At(mid, p) && Visited(oldest, |mid|, k, r + 1, p)
      ensures mid[p.0].recs[p.1].status !in {PreDelete, PreWrite}
    {
      MovedRecords(fl0, mid, oldest, gcRequest, secSize, s, r, dest, p);
    }
  }

  /** The scan is at record `r` of the k-th sector of the walk. */
  ghost predicate Scan(fl0: Flash, mid: Flash, oldest: nat, gcRequest: bool, secSize: nat, k: nat, r: nat,
                       pd: Option<Pos>, moved: bool, dest: Option<nat>)
    requires oldest < |fl0| == |mid|
  {
    && OnlyPreDelete(fl0, pd)
    && FlashSound(mid, secSize) && SettledUpTo(mid, oldest, k, r)
    && MovedOrNot(fl0, mid, oldest, gcRequest, secSize, pd, moved, dest)
    && (moved ==> Visited(oldest, |mid|, k, r, pd.value))
  }

  ghost predicate ScanEnds(fl0: Flash, mid: Flash, fl: Flash, oldest: nat, gcRequest: bool, secSize: nat,
                           pd: Option<Pos>, moved: bool, dest: Option<nat>, p: Pos)
    requires oldest < |fl0| == |mid|
  {
    && MovedOrNot(fl0, mid, oldest, gcRequest, secSize, pd, moved, dest)
    && At(mid, p) && mid[p.0].recs[p.1].status == PreWrite
    && fl == SetStatus(mid, p.0, p.1, ErrHdr)
    && (pd.Some? ==> pd.value.0 < |mid|)
    && moved == (pd.Some? && Before(oldest, |mid|, pd.value, p))
  }

  /** The scan met the half-deleted record at `pd`, no unfinished one before it, and no sector has
      room for it; nothing was written. */
  ghost predicate ScanFails(fl0: Flash, fl: Flash, oldest: nat, secSize: nat, pd: Option<Pos>)
    requires oldest < |fl0|
  {
    && fl == fl0 && pd.Some? && At(fl0, pd.value)
    && Allocates(fl0, oldest, fl0[pd.value.0].recs[pd.value.1].Len(), false, secSize, None)
    && forall p: Pos :: At(fl0, p) && Before(oldest, |fl0|, p, pd.value) ==> fl0[p.0].recs[p.1].status != PreWrite
  }

  lemma FailsHere(fl0: Flash, mid: Flash, oldest: nat, secSize: nat, k: nat, r: nat,
                  pd: Option<Pos>, moved: bool, dest: Option<nat>)
    requires oldest < |fl0| == |mid| && k < |mid|
    requires Scan(fl0, mid, oldest, false, secSize, k, r, pd, moved, dest)
    requires At(mid, (RingAt(oldest, |mid|, k), r)) && mid[RingAt(oldest, |mid|, k)].recs[r].status == PreDelete
    requires Allocates(mid, oldest, mid[RingAt(oldest, |mid|, k)].recs[r].Len(), false, secSize, None)
    ensures ScanFails(fl0, mid, oldest, secSize, pd)
  {
    var here := (RingAt(oldest, |mid|, k), r);
    MeetsPreDelete(fl0, mid, oldest, false, secSize, pd, moved, dest, here);
    forall p: Pos | At(fl0, p) && Before(oldest, |fl0|, p, pd.value)
      ensures fl0[p.0].recs[p.1].status != PreWrite
    {
      assert Visited(oldest, |mid|, k, r, p);
    }
  }

  lemma StopsHere(fl0: Flash, mid: Flash, oldest: nat, gcRequest: bool, secSize: nat, k: nat, r: nat,
                  pd: Option<Pos>, moved: bool, dest: Option<nat>)
    requires oldest < |fl0| == |mid| && k < |mid|
    requires Scan(fl0, mid, oldest, gcRequest, secSize, k, r, pd, moved, dest)
    requires At(mid, (RingAt(oldest, |mid|, k), r)) && mid[RingAt(oldest, |mid|, k)].recs[r].status == PreWrite
    ensures var p := (RingAt(oldest, |mid|, k), r);
      ScanEnds(fl0, mid, SetStatus(mid, p.0, p.1, ErrHdr), oldest, gcRequest, secSize, pd, moved, dest, p)
  {
    var p := (RingAt(oldest, |mid|, k), r);
    if pd.Some? && !moved {
      assert mid == fl0 && fl0[pd.value.0].recs[pd.value.1].status == PreDelete;
      assert !Visited(oldest, |mid|, k, r, pd.value);
    }
  }

  /** Any other record is passed over. */
  lemma PassesOver(fl0: Flash, fl: Flash, oldest: nat, gcRequest: bool, secSize: nat, k: nat, r: nat,
                   pd: Option<Pos>, moved: bool, dest: Option<nat>)
    requires oldest < |fl0| == |fl| && k < |fl| && r < |fl[RingAt(oldest, |fl|, k)].recs|
    requires Scan(fl0, fl, oldest, gcRequest, secSize, k, r, pd, moved, dest)
    requires var rec := fl[RingAt(oldest, |fl|, k)].recs[r]; !(rec.crcOk && rec.status == PreDelete) && rec.status != PreWrite
    ensures Scan(fl0, fl, oldest, gcRequest, secSize, k, r + 1, pd, moved, dest)
  {
    var s := RingAt(oldest, |fl|, k);
    assert SectorSound(fl[s], secSize);
    forall p: Pos | At(fl, p) && Visited(oldest, |fl|, k, r + 1, p)
      ensures fl[p.0].recs[p.1].status !in {PreDelete, PreWrite}
    {
      assert Visited(oldest, |fl|, k, r, p) || p == (s, r);
    }
  }

  /** `check_and_recovery_kv_cb` on one record. */
  method RecoverRecord(db: Kvdb, k: nat, r: nat, ghost fl0: Flash, ghost req0: bool, ghost pd: Option<Pos>,
                       ghost moved0: bool, ghost dest0: Option<nat>)
    returns (end: ScanEnd, ghost moved: bool, ghost dest: Option<nat>)
    requires db.Shape() && db.inRecovery && k < db.secNum == |fl0| && db.gcRequest == req0
    requires r < |db.flash[RingAt(db.oldest, db.secNum, k)].recs|
    requires Scan(fl0, db.flash, db.oldest, req0, db.secSize, k, r, pd, moved0, dest0)
    modifies db`flash, db`gcRequest
    ensures db.Shape() && (moved0 ==> moved) && (!end.MoveFailed? ==> db.gcRequest == req0)
    ensures end.Finished? ==>
              (Scan(fl0, db.flash, db.oldest, req0, db.secSize, k, r + 1, pd, moved, dest)
               && r < |db.flash[RingAt(db.oldest, db.secNum, k)].recs|
               && (moved == moved0 ==> db.flash == old(db.flash)))
    ensures end.AtPreWrite? ==> ScanEnds(fl0, old(db.flash), db.flash, db.oldest, req0, db.secSize, pd, moved, dest, end.pos)
    ensures end.MoveFailed? && !req0 ==>
              ScanFails(fl0, db.flash, db.oldest, db.secSize, pd) && db.gcRequest == (EmptyCount(db.flash) == 1)
  {
    moved, dest := moved0, dest0;
    var s := RingAt(db.oldest, db.secNum, k);
    var rec := db.flash[s].recs[r];
    end := Finished;
    if rec.crcOk && rec.status == PreDelete {
      assert SectorSound(db.flash[s], db.secSize);
      OkIsWalkable(db.flash, db.secSize);
      MeetsPreDelete(fl0, db.flash, db.oldest, req0, db.secSize, pd, moved, dest, (s, r));
      var err, d := db.MoveKv(s, r);
      if err != NoErr {
        if !req0 {
          FailsHere(fl0, db.flash, db.oldest, db.secSize, k, r, pd, moved, dest);
        }
        return MoveFailed, moved, dest;
      }
      AfterRecoveryMove(fl0, db.flash, db.oldest, req0, db.secSize, k, s, r, pd, d);
      moved, dest := true, d;
    } else if rec.status == PreWrite {
      StopsHere(fl0, db.flash, db.oldest, req0, db.secSize, k, r, pd, moved, dest);
      db.flash := SetStatus(db.flash, s, r, ErrHdr);
      end := AtPreWrite((s, r));
    } else {
      PassesOver(fl0, db.flash, db.oldest, req0, db.secSize, k, r, pd, moved, dest);
    }
  }

  /** The record loop of `kv_iterator` in the k-th sector. */
  method RecoverSector(db: Kvdb, k: nat, ghost fl0: Flash, ghost req0: bool, ghost pd: Option<Pos>,
                       ghost moved0: bool, ghost dest0: Option<nat>)
    returns (end: ScanEnd, ghost mid: Flash, ghost moved: bool, ghost dest: Option<nat>)
    requires db.Shape() && db.inRecovery && k < db.secNum == |fl0| && db.gcRequest == req0
    requires Scan(fl0, db.flash, db.oldest, req0, db.secSize, k, 0, pd, moved0, dest0)
    modifies db`flash, db`gcRequest
    ensures db.Shape() && |mid| == db.secNum && (!end.MoveFailed? ==> db.gcRequest == req0)
    ensures end.Finished? ==> db.flash == mid && Scan(fl0, mid, db.oldest, req0, db.secSize, k + 1, 0, pd, moved, dest)
    ensures end.AtPreWrite? ==> ScanEnds(fl0, mid, db.flash, db.oldest, req0, db.secSize, pd, moved, dest, end.pos)
    ensures end.MoveFailed? && !req0 ==>
              ScanFails(fl0, db.flash, db.oldest, db.secSize, pd) && db.gcRequest == (EmptyCount(db.flash) == 1)
  {
    mid, moved, dest, end := db.flash, moved0, dest0, Finished;
    var r := 0;
    while r < |db.flash[RingAt(db.oldest, db.secNum, k)].recs|
      invariant db.Shape() && db.flash == mid && end.Finished?
      invariant 0 <= r <= |mid[RingAt(db.oldest, db.secNum, k)].recs|
      invariant Scan(fl0, mid, db.oldest, req0, db.secSize, k, r, pd, moved, dest)
      invariant db.gcRequest == req0
      decreases !moved, |db.flash[RingAt(db.oldest, db.secNum, k)].recs| - r
    {
      end, moved, dest := RecoverRecord(db, k, r, fl0, req0, pd, moved, dest);
      if !end.Finished? {
        return;
      }
      mid := db.flash;
      r := r + 1;
    }
    NextSectorScan(fl0, mid, db.oldest, req0, db.secSize, k, pd, moved, dest);
  }

  /** A sector that is scanned to its end leads to the next one. */
  lemma NextSectorScan(fl0: Flash, mid: Flash, oldest: nat, gcRequest: bool, secSize: nat, k: nat,
                       pd: Option<Pos>, moved: bool, dest: Option<nat>)
    requires oldest < |fl0| == |mid| && k < |mid|
    requires Scan(fl0, mid, oldest, gcRequest, secSize, k, |mid[RingAt(oldest, |mid|, k)].recs|, pd, moved, dest)
    ensures Scan(fl0, mid, oldest, gcRequest, secSize, k + 1, 0, pd, moved, dest)
  {
    var end := |mid[RingAt(oldest, |mid|, k)].recs|;
    forall p: Pos | At(mid, p) && Visited(oldest, |mid|, k + 1, 0, p)
      ensures mid[p.0].recs[p.1].status !in {PreDelete, PreWrite}
    {
      assert RingAt(oldest, |mid|, RingPos(oldest, |mid|, p.0)) == p.0;
      assert Visited(oldest, |mid|, k, end, p);
    }
  }

  lemma MeetsPreDelete(fl0: Flash, mid: Flash, oldest: nat, gcRequest: bool, secSize: nat,
                       pd: Option<Pos>, moved: bool, dest: Option<nat>, p: Pos)
    requires oldest < |fl0| == |mid| && OnlyPreDelete(fl0, pd)
    requires MovedOrNot(fl0, mid, oldest, gcRequest, secSize, pd, moved, dest)
    requires At(mid, p) && mid[p.0].recs[p.1].status == PreDelete
    ensures !moved && pd == Some(p)
  {
    if moved {
      MovedRecords(fl0, mid, oldest, gcRequest, secSize, pd.value.0, pd.value.1, dest, p);
      assert false;
    }
  }

  /** `kv_iterator` with `check_and_recovery_kv_cb`, on a flash with at most one half-deleted
      record `pd`. `mid` is the flash before a PRE_WRITE record, if met, is marked. */
  method RecoverKvs(db: Kvdb, ghost pd: Option<Pos>)
    returns (end: ScanEnd, ghost mid: Flash, ghost moved: bool, ghost dest: Option<nat>)
    requires db.Shape() && FlashSound(db.flash, db.secSize) && OnlyPreDelete(db.flash, pd)
    requires db.inRecovery && !db.gcRequest
    modifies db`flash, db`gcRequest
    ensures db.Shape() && |mid| == db.secNum && (!end.MoveFailed? ==> !db.gcRequest)
    ensures ScanResult(old(db.flash), mid, db.flash, db.oldest, db.secSize, pd, end, moved, dest)
    ensures end.MoveFailed? ==> db.gcRequest == (EmptyCount(db.flash) == 1)
  {
    mid, moved, dest := db.flash, false, None;
    end := Finished;
    var k := 0;
    while k < db.secNum
      invariant 0 <= k <= db.secNum && db.Shape() && db.flash == mid && end.Finished?
      invariant Scan(old(db.flash), mid, db.oldest, false, db.secSize, k, 0, pd, moved, dest)
      invariant !db.gcRequest
    {
      end, mid, moved, dest := RecoverSector(db, k, old(db.flash), false, pd, moved, dest);
      if !end.Finished? {
        return;
      }
      k := k + 1;
    }
    if pd.Some? && !moved {
      assert false;
    }
  }

  // ---------- what a crash leaves, once read again ----------

  function OldMarked(fl: Flash, at: Option<Pos>, step: nat): Flash
    requires at.Some? ==> At(fl, at.value)
  {
    if at.None? || step == 0 then fl
    else if step == 1 then SetStatus(fl, at.value.0, at.value.1, PreDelete)
    else DelWrites(fl, at.value.0, at.value.1, PreDelete)
  }

  function AddTail(fl: Flash, d: nat, rec: Rec): Flash
    requires d < |fl|
  {
    fl[d := Sector(StoreUsing, fl[d].dirty, fl[d].recs + [rec])]
  }

  /** The unfinished record after `step` writes: what reading makes of it, or a stray byte that is
      not read. */
  function Tail(key: Name, value: Value, step: nat, lucky: bool, behind: bool): Rec
    requires 3 <= step <= 8
  {
    if step <= 4 then Rec(if behind then Stray else ErrHdr, "", [], false, false)
    else Partial(key, value, step - 3, lucky, behind)
  }

  function Interrupted(fl: Flash, d: nat, key: Name, value: Value, at: Option<Pos>, step: nat, lucky: bool): Flash
    requires d < |fl| && step <= 8 && (at.Some? ==> At(fl, at.value))
  {
    var marked := OldMarked(fl, at, step);
    if step < 3 || (step == 3 && marked[d].recs != []) then marked
    else AddTail(marked, d, Tail(key, value, step, lucky, fl[d].recs != []))
  }

  lemma RereadSame(sec: Sector)
    requires sec.store in {StoreUsing, StoreFull} ==> sec.recs != []
    requires forall r :: 0 <= r < |sec.recs| ==> ReadsAsIs(sec.recs[r])
    ensures Reread(sec) == sec
  {
    assert Reread(sec).recs == sec.recs;
  }

  lemma RereadTail(sec: Sector, rec: Rec)
    requires forall r :: 0 <= r < |sec.recs| ==> ReadsAsIs(sec.recs[r])
    ensures Reread(sec.(recs := sec.recs + [rec]))
         == sec.(recs := sec.recs + [if ReadsAsIs(rec) then rec else rec.(status := ErrHdr)])
  {
    assert Reread(sec.(recs := sec.recs + [rec])).recs
        == sec.recs + [if ReadsAsIs(rec) then rec else rec.(status := ErrHdr)];
  }

  lemma MarkedReadable(fl: Flash, at: Option<Pos>, step: nat, secSize: nat, s: nat)
    requires FlashOk(fl, secSize) && Settled(fl) && s < |fl|
    requires at.Some? ==> At(fl, at.value) && fl[at.value.0].recs[at.value.1].Live()
    ensures var sec := OldMarked(fl, at, step)[s];
      && (sec.store in {StoreUsing, StoreFull} ==> sec.recs != [])
      && (sec.store == StoreEmpty ==> sec.recs == [])
      && (forall r :: 0 <= r < |sec.recs| ==> ReadsAsIs(sec.recs[r]))
  {
    assert SectorOk(fl[s], secSize);
  }

  lemma StepSector(marked: Flash, d: nat, key: Name, value: Value, written: nat, lucky: bool, secSize: nat)
    requires d < |marked| && written <= 5 && Target(marked, d, key, value, secSize)
    requires (marked[d].store == StoreUsing) == (marked[d].recs != [])
    requires forall r :: 0 <= r < |marked[d].recs| ==> ReadsAsIs(marked[d].recs[r])
    ensures Reread(CreateStep(marked, d, key, value, written, lucky, secSize)[d]) ==
              if written == 0 && marked[d].recs != [] then marked[d]
              else Sector(StoreUsing, marked[d].dirty, marked[d].recs + [Tail(key, value, written + 3, lucky, marked[d].recs != [])])
  {
    if written > 0 {
      RereadTail(marked[d].(store := StoreUsing), Partial(key, value, written, lucky, marked[d].recs != []));
    } else {
      RereadSame(marked[d]);
      if marked[d].recs == [] {
        assert marked[d].recs + [Tail(key, value, 3, lucky, false)] == [Tail(key, value, 3, lucky, false)];
      }
    }
  }

  lemma MarkedTargets(fl: Flash, d: nat, key: Name, value: Value, at: Option<Pos>, step: nat, secSize: nat)
    requires FlashOk(fl, secSize) && OldRecord(fl, key, at) && Target(fl, d, key, value, secSize) && step != 1
    ensures Target(OldMarked(fl, at, step), d, key, value, secSize)
    ensures EmptyCount(OldMarked(fl, at, step)) == EmptyCount(fl)
  {
    if at.Some? && step >= 2 { MarkedTarget(fl, d, key, value, at.value.0, at.value.1, secSize); }
  }

  lemma RereadCrashSector(fl: Flash, d: nat, key: Name, value: Value, at: Option<Pos>, step: nat, lucky: bool, secSize: nat)
    requires FlashOk(fl, secSize) && Settled(fl) && OldRecord(fl, key, at) && Target(fl, d, key, value, secSize)
    requires 3 <= step <= 8
    ensures Reread(CreateStep(OldMarked(fl, at, step), d, key, value, step - 3, lucky, secSize)[d])
         == Interrupted(fl, d, key, value, at, step, lucky)[d]
  {
    MarkedReadable(fl, at, step, secSize, d);
    MarkedTargets(fl, d, key, value, at, step, secSize);
    StepSector(OldMarked(fl, at, step), d, key, value, step - 3, lucky, secSize);
    assert |OldMarked(fl, at, step)[d].recs| == |fl[d].recs|;
  }

  /** Reading the flash after a crash gives the state the scan works on. */
  lemma RereadCrash(fl: Flash, d: nat, key: Name, value: Value, at: Option<Pos>, step: nat, lucky: bool, secSize: nat)
    requires FlashOk(fl, secSize) && Settled(fl) && OldRecord(fl, key, at) && Target(fl, d, key, value, secSize)
    requires step <= 8
    ensures RereadAll(Crash(fl, d, key, value, at, step, lucky, secSize)) == Interrupted(fl, d, key, value, at, step, lucky)
  {
    var crash := Crash(fl, d, key, value, at, step, lucky, secSize);
    var marked := OldMarked(fl, at, step);
    var want := Interrupted(fl, d, key, value, at, step, lucky);
    if step >= 3 {
      RereadCrashSector(fl, d, key, value, at, step, lucky, secSize);
    }
    forall s | 0 <= s < |fl| ensures Reread(crash[s]) == want[s] {
      if s != d || step < 3 {
        MarkedReadable(fl, at, step, secSize, s);
        RereadSame(marked[s]);
        assert crash[s] == marked[s];
      }
    }
    assert RereadAll(crash) == want;
  }

  /** Where the unfinished record is. */
  function NewPos(fl: Flash, d: nat): Pos
    requires d < |fl|
  {
    (d, |fl[d].recs|)
  }

  /** The half-deleted record, if the crash left one. */
  function HalfDeleted(at: Option<Pos>, step: nat): Option<Pos> {
    if step == 0 then None else at
  }

  function InSector(p: Option<Pos>, s: nat): Option<nat> {
    if p.Some? && p.value.0 == s then Some(p.value.1) else None
  }

  predicate RecRepairable(rec: Rec, r: nat, pd: Option<nat>, unf: Option<nat>) {
    || rec.status in {Write, Deleted, ErrHdr, Stray}
    || (rec.status == PreDelete && pd == Some(r))
    || (rec.status == PreWrite && unf == Some(r))
  }

  /** A sector the scan has to repair: half-deleted at most at `pd`, unfinished at most at `unf`. */
  ghost predicate SectorRepairable(sec: Sector, secSize: nat, pd: Option<nat>, unf: Option<nat>) {
    && SectorSound(sec, secSize) && sec.dirty != DirtyGc
    && (pd.None? ==> SectorOk(sec, secSize))
    && (pd.Some? ==> pd.value < |sec.recs| && sec.recs[pd.value].status == PreDelete)
    && (forall r :: 0 <= r < |sec.recs| ==> RecRepairable(sec.recs[r], r, pd, unf))
  }

  ghost predicate Repairable(fl: Flash, secSize: nat, pd: Option<Pos>, unf: Option<Pos>) {
    && (pd.Some? ==> pd.value.0 < |fl|)
    && forall s {:trigger SectorRepairable(fl[s], secSize, InSector(pd, s), InSector(unf, s))} :: 0 <= s < |fl| ==>
         SectorRepairable(fl[s], secSize, InSector(pd, s), InSector(unf, s))
  }

  lemma RepairableScans(fl: Flash, secSize: nat, pd: Option<Pos>, unf: Option<Pos>)
    requires Repairable(fl, secSize, pd, unf)
    ensures FlashSound(fl, secSize) && OnlyPreDelete(fl, pd)
  {
    if pd.Some? { assert SectorRepairable(fl[pd.value.0], secSize, InSector(pd, pd.value.0), InSector(unf, pd.value.0)); }
    forall p: Pos | At(fl, p) && fl[p.0].recs[p.1].status == PreDelete ensures pd == Some(p) {
      assert SectorRepairable(fl[p.0], secSize, InSector(pd, p.0), InSector(unf, p.0));
    }
    forall s | 0 <= s < |fl| ensures SectorSound(fl[s], secSize) {
      assert SectorRepairable(fl[s], secSize, InSector(pd, s), InSector(unf, s));
    }
  }

  lemma SettledRepairable(fl: Flash, secSize: nat)
    requires FlashOk(fl, secSize) && Settled(fl)
    ensures Repairable(fl, secSize, None, None)
  {
    forall s | 0 <= s < |fl| ensures SectorRepairable(fl[s], secSize, None, None) {
      assert SectorOk(fl[s], secSize);
    }
  }

  lemma RepairedSettles(fl: Flash, secSize: nat)
    requires Repairable(fl, secSize, None, None)
    ensures FlashOk(fl, secSize) && Settled(fl)
  {
    forall s | 0 <= s < |fl| ensures SectorOk(fl[s], secSize) && fl[s].dirty != DirtyGc
        && (forall r :: 0 <= r < |fl[s].recs| ==> fl[s].recs[r].status in {Write, Deleted, ErrHdr, Stray}) {
      assert SectorRepairable(fl[s], secSize, InSector(None, s), InSector(None, s));
    }
  }

  /** Marking a live record PRE_DELETE makes its sector repairable. */
  lemma SectorMarked(sec: Sector, r: nat, dirty: DirtyStatus, secSize: nat)
    requires SectorRepairable(sec, secSize, None, None) && r < |sec.recs| && sec.recs[r].Live()
    requires dirty in {sec.dirty, DirtyTrue}
    ensures SectorRepairable(Sector(sec.store, dirty, sec.recs[r := sec.recs[r].(status := PreDelete)]), secSize, Some(r), None)
  {
    var sec' := Sector(sec.store, dirty, sec.recs[r := sec.recs[r].(status := PreDelete)]);
    PlacedSameLengths(sec.recs, sec'.recs, secSize);
    assert SectorSound(sec', secSize);
  }

  /** Completing the deletion settles the sector. */
  lemma SectorCleared(sec: Sector, r: nat, secSize: nat, unf: Option<nat>)
    requires SectorRepairable(sec, secSize, Some(r), unf)
    ensures SectorRepairable(Sector(sec.store, if sec.dirty == DirtyFalse then DirtyTrue else sec.dirty,
                                    sec.recs[r := sec.recs[r].(status := Deleted)]), secSize, None, unf)
  {
    var sec' := Sector(sec.store, if sec.dirty == DirtyFalse then DirtyTrue else sec.dirty,
                       sec.recs[r := sec.recs[r].(status := Deleted)]);
    PlacedSameLengths(sec.recs, sec'.recs, secSize);
    assert SectorSound(sec', secSize);
  }

  predicate TailOk(rec: Rec, behind: bool) {
    && rec.status in {Write, ErrHdr, PreWrite, Stray}
    && (rec.status == Write ==> rec.Intact())
    && (!rec.lenOk ==> rec.status == if behind then Stray else ErrHdr)
    && (rec.status == Stray ==> !rec.lenOk)
  }

  lemma SoundGrows(sec: Sector, rec: Rec, secSize: nat)
    requires SectorSound(sec, secSize) && TailOk(rec, sec.recs != [])
    requires Used(sec.recs) + rec.Len() + REMAIN_THRESHOLD < secSize - SECTOR_HDR
    ensures SectorSound(Sector(StoreUsing, sec.dirty, sec.recs + [rec]), secSize)
  {
    PlacedAppend(sec.recs, rec, secSize);
  }

  /** A record more, whole or unfinished, leaves the sector repairable. */
  lemma SectorGrows(sec: Sector, rec: Rec, secSize: nat, pd: Option<nat>, unf: Option<nat>)
    requires SectorRepairable(sec, secSize, pd, unf) && TailOk(rec, sec.recs != []) && (rec.status == PreWrite ==> unf == None)
    requires Used(sec.recs) + rec.Len() + REMAIN_THRESHOLD < secSize - SECTOR_HDR
    ensures SectorRepairable(Sector(StoreUsing, sec.dirty, sec.recs + [rec]), secSize, pd,
                             if rec.status == PreWrite then Some(|sec.recs|) else unf)
  {
    SoundGrows(sec, rec, secSize);
    var recs := sec.recs + [rec];
    var unf' := if rec.status == PreWrite then Some(|sec.recs|) else unf;
    forall r | 0 <= r < |recs|
      ensures RecRepairable(recs[r], r, pd, unf')
      ensures pd.None? ==> recs[r].status in {PreDelete, Deleted} ==> sec.dirty != DirtyFalse
    {
      if r < |sec.recs| {
        assert recs[r] == sec.recs[r] && RecRepairable(sec.recs[r], r, pd, unf);
      }
    }
  }

  lemma SectorProgrammed(sec: Sector, rec: Rec, gcRequest: bool, secSize: nat, pd: Option<nat>, unf: Option<nat>)
    requires SectorRepairable(sec, secSize, pd, unf) && rec.status == Write && rec.Intact()
    requires sec.store in {StoreEmpty, StoreUsing} && Fits(sec, rec.Len(), gcRequest, secSize)
    ensures SectorRepairable(Sector(StatusAfter(sec, rec.Len(), secSize), sec.dirty, sec.recs + [rec]), secSize, pd, unf)
  {
    RoomIsSpace(sec, rec.Len(), gcRequest, secSize);
    SectorGrows(sec, rec, secSize, pd, unf);
  }

  lemma RoomIsSpace(sec: Sector, len: nat, gcRequest: bool, secSize: nat)
    requires SectorSound(sec, secSize) && sec.store in {StoreEmpty, StoreUsing} && Fits(sec, len, gcRequest, secSize)
    ensures Used(sec.recs) + len + REMAIN_THRESHOLD < secSize - SECTOR_HDR && StatusAfter(sec, len, secSize) == StoreUsing
  {
  }

  lemma MarkedRepairable(fl: Flash, key: Name, at: Option<Pos>, step: nat, secSize: nat)
    requires FlashOk(fl, secSize) && Settled(fl) && OldRecord(fl, key, at)
    ensures Repairable(OldMarked(fl, at, step), secSize, HalfDeleted(at, step), None)
  {
    SettledRepairable(fl, secSize);
    var marked := OldMarked(fl, at, step);
    var pd := HalfDeleted(at, step);
    if pd.Some? {
      var (s, r) := at.value;
      assert SectorRepairable(fl[s], secSize, InSector(None, s), InSector(None, s));
      SectorMarked(fl[s], r, marked[s].dirty, secSize);
      forall t | 0 <= t < |fl| && t != s ensures SectorRepairable(marked[t], secSize, InSector(pd, t), InSector(None, t)) {
        assert SectorRepairable(fl[t], secSize, InSector(None, t), InSector(None, t));
      }
    }
  }

  lemma MarkedCounts(fl: Flash, at: Option<Pos>, step: nat, p: Pair)
    requires at.Some? ==> At(fl, at.value)
    ensures Copies(OldMarked(fl, at, step), p)
         == Copies(fl, p) - (if HalfDeleted(at, step).Some? then Hit(fl[at.value.0].recs[at.value.1], p) else 0)
    ensures EmptyCount(OldMarked(fl, at, step)) == EmptyCount(fl)
  {
    if HalfDeleted(at, step).Some? {
      var (s, r) := at.value;
      DelWritesCopies(fl, s, r, PreDelete, p);
      SetStatusCopies(fl, s, r, PreDelete, p);
      StoreCountUpdate(fl, s, SetStatus(fl, s, r, PreDelete)[s], StoreEmpty);
    }
  }

  lemma TailRepairable(fl: Flash, d: nat, rec: Rec, key: Name, value: Value, pd: Option<Pos>, secSize: nat)
    requires Repairable(fl, secSize, pd, None) && Target(fl, d, key, value, secSize)
    requires rec.Len() <= KvLen(|key|, |value|) && TailOk(rec, fl[d].recs != [])
    ensures Repairable(AddTail(fl, d, rec), secSize, pd, if rec.status == PreWrite then Some(NewPos(fl, d)) else None)
  {
    var fl' := AddTail(fl, d, rec);
    var unf := if rec.status == PreWrite then Some(NewPos(fl, d)) else None;
    assert SectorRepairable(fl[d], secSize, InSector(pd, d), InSector(None, d));
    RoomIsSpace(fl[d], KvLen(|key|, |value|), false, secSize);
    SectorGrows(fl[d], rec, secSize, InSector(pd, d), None);
    forall s | 0 <= s < |fl| && s != d ensures SectorRepairable(fl'[s], secSize, InSector(pd, s), InSector(unf, s)) {
      assert SectorRepairable(fl[s], secSize, InSector(pd, s), InSector(None, s));
    }
  }

  lemma TailCounts(fl: Flash, d: nat, rec: Rec, p: Pair)
    requires d < |fl|
    ensures Copies(AddTail(fl, d, rec), p) == Copies(fl, p) + Hit(rec, p)
    ensures EmptyCount(AddTail(fl, d, rec)) == EmptyCount(fl) - (if fl[d].store == StoreEmpty then 1 else 0)
  {
    CopiesUpdate(fl, d, AddTail(fl, d, rec)[d], p);
    CopiesInAppend(fl[d].recs, rec, p);
    StoreCountUpdate(fl, d, AddTail(fl, d, rec)[d], StoreEmpty);
  }

  /** The scan brings the half-deleted record back and leaves its sector marked. */
  lemma MoveRepairs(fl: Flash, mid: Flash, oldest: nat, secSize: nat, pd: Pos, unf: Option<Pos>, dest: Option<nat>)
    requires Repairable(fl, secSize, Some(pd), unf) && oldest < |fl| && At(fl, pd)
    requires MoveOutcome(fl, oldest, false, true, secSize, pd.0, pd.1, NoErr, dest, mid)
    ensures Repairable(mid, secSize, None, unf)
  {
    var rec := fl[pd.0].recs[pd.1];
    RepairableScans(fl, secSize, Some(pd), unf);
    assert SectorSound(fl[pd.0], secSize);
    var copied := if dest.Some? then Program(fl, dest.value, rec.(status := Write), secSize) else fl;
    forall s | 0 <= s < |fl| ensures SectorRepairable(copied[s], secSize, InSector(Some(pd), s), InSector(unf, s)) {
      assert SectorRepairable(fl[s], secSize, InSector(Some(pd), s), InSector(unf, s));
      if dest == Some(s) {
        SectorProgrammed(fl[s], rec.(status := Write), false, secSize, InSector(Some(pd), s), InSector(unf, s));
      }
    }
    ClearRepairs(copied, secSize, pd, unf);
  }

  lemma ClearRepairs(fl: Flash, secSize: nat, pd: Pos, unf: Option<Pos>)
    requires Repairable(fl, secSize, Some(pd), unf) && At(fl, pd)
    ensures Repairable(DelWrites(fl, pd.0, pd.1, Deleted), secSize, None, unf)
  {
    var mid := DelWrites(fl, pd.0, pd.1, Deleted);
    forall s | 0 <= s < |mid| ensures SectorRepairable(mid[s], secSize, InSector(None, s), InSector(unf, s)) {
      assert SectorRepairable(fl[s], secSize, InSector(Some(pd), s), InSector(unf, s));
      if s == pd.0 {
        SectorCleared(fl[s], pd.1, secSize, InSector(unf, s));
      }
    }
  }

  lemma MoveCounts(fl: Flash, mid: Flash, oldest: nat, secSize: nat, pd: Pos, dest: Option<nat>, p: Pair)
    requires oldest < |fl| && At(fl, pd) && fl[pd.0].recs[pd.1].status == PreDelete
    requires MoveOutcome(fl, oldest, false, true, secSize, pd.0, pd.1, NoErr, dest, mid)
    ensures Copies(mid, p) == Copies(fl, p) + (if dest.Some? then Hit(fl[pd.0].recs[pd.1].(status := Write), p) else 0)
    ensures EmptyCount(fl) >= 1 ==> EmptyCount(mid) >= 1
  {
    var rec := fl[pd.0].recs[pd.1];
    if dest.Some? {
      var d := dest.value;
      MoveCopies(fl, pd.0, pd.1, d, secSize, p);
      var copied := Program(fl, d, rec.(status := Write), secSize);
      StoreCountUpdate(fl, d, copied[d], StoreEmpty);
      assert copied == fl[d := copied[d]];
      DelWritesCopies(copied, pd.0, pd.1, Deleted, p);
    } else {
      DelWritesCopies(fl, pd.0, pd.1, Deleted, p);
    }
  }

  lemma InterruptedCounts(fl: Flash, d: nat, key: Name, value: Value, at: Option<Pos>, step: nat, lucky: bool, p: Pair)
    requires d < |fl| && step <= 8 && (at.Some? ==> At(fl, at.value))
    ensures Copies(Interrupted(fl, d, key, value, at, step, lucky), p)
         == Copies(fl, p) - (if HalfDeleted(at, step).Some? then Hit(fl[at.value.0].recs[at.value.1], p) else 0)
            + (if step == 8 && p == (key, value) then 1 else 0)
  {
    MarkedCounts(fl, at, step, p);
    if step >= 3 {
      TailCounts(OldMarked(fl, at, step), d, Tail(key, value, step, lucky, fl[d].recs != []), p);
    }
  }

  lemma UnfinishedRepairable(fl: Flash, marked: Flash, d: nat, key: Name, value: Value, at: Option<Pos>, step: nat,
                             lucky: bool, secSize: nat)
    requires FlashOk(fl, secSize) && Settled(fl) && EmptyCount(fl) >= 1 && 3 <= step <= 8
    requires OldRecord(fl, key, at) && Target(fl, d, key, value, secSize)
    requires marked == OldMarked(fl, at, step)
    ensures Repairable(AddTail(marked, d, Tail(key, value, step, lucky, fl[d].recs != [])), secSize, HalfDeleted(at, step),
                       if 5 <= step <= 7 then Some(NewPos(fl, d)) else None)
    ensures EmptyCount(AddTail(marked, d, Tail(key, value, step, lucky, fl[d].recs != []))) >= 1
  {
    MarkedRepairable(fl, key, at, step, secSize);
    MarkedCounts(fl, at, step, (key, value));
    MarkedTargets(fl, d, key, value, at, step, secSize);
    TailRepairable(marked, d, Tail(key, value, step, lucky, fl[d].recs != []), key, value, HalfDeleted(at, step), secSize);
    TailCounts(marked, d, Tail(key, value, step, lucky, fl[d].recs != []), (key, value));
  }

  lemma InterruptedRepairable(fl: Flash, d: nat, key: Name, value: Value, at: Option<Pos>, step: nat, lucky: bool, secSize: nat)
    requires FlashOk(fl, secSize) && Settled(fl) && EmptyCount(fl) >= 1 && step <= 8
    requires OldRecord(fl, key, at) && Target(fl, d, key, value, secSize)
    ensures Repairable(Interrupted(fl, d, key, value, at, step, lucky), secSize, HalfDeleted(at, step),
                       if 5 <= step <= 7 then Some(NewPos(fl, d)) else None)
    ensures EmptyCount(Interrupted(fl, d, key, value, at, step, lucky)) >= 1
  {
    var marked := OldMarked(fl, at, step);
    if step < 3 || (step == 3 && marked[d].recs != []) {
      MarkedRepairable(fl, key, at, step, secSize);
      MarkedCounts(fl, at, step, (key, value));
    } else {
      UnfinishedRepairable(fl, marked, d, key, value, at, step, lucky, secSize);
    }
  }

  /** The map a completed recovery restores: the old one until the new record has status WRITE. */
  function Restored(m: map<Name, Value>, key: Name, value: Value, step: nat): map<Name, Value> {
    if step >= 8 && Visible(key) then m[key := value] else m
  }

  /** While the new record is unfinished and the old one half deleted, a lookup finds neither. */
  lemma NeitherIsLive(m: map<Name, Value>, fl: Flash, d: nat, key: Name, value: Value, at: Option<Pos>,
                      step: nat, lucky: bool)
    requires Abstracts(m, fl) && d < |fl| && OldRecord(fl, key, at) && at.Some? && 1 <= step <= 7
    ensures NoMatch(Interrupted(fl, d, key, value, at, step, lucky), key)
  {
    var inter := Interrupted(fl, d, key, value, at, step, lucky);
    LookupAgrees(m, fl, key, at.value.0, at.value.1);
    forall s, r | 0 <= s < |inter| && 0 <= r < |inter[s].recs| ensures !Matches(inter[s].recs[r], key) {
      if Matches(inter[s].recs[r], key) {
        var p := (key, inter[s].recs[r].value);
        LiveIsCounted(inter, s, r);
        InterruptedCounts(fl, d, key, value, at, step, lucky, p);
        assert false;
      }
    }
  }

  lemma NewIsLive(fl: Flash, d: nat, key: Name, value: Value, at: Option<Pos>, lucky: bool)
    requires d < |fl| && (at.Some? ==> At(fl, at.value)) && Visible(key)
    ensures !NoMatch(Interrupted(fl, d, key, value, at, 8, lucky), key)
  {
    var inter := Interrupted(fl, d, key, value, at, 8, lucky);
    var r := |OldMarked(fl, at, 8)[d].recs|;
    assert Matches(inter[d].recs[r], key);
  }

  /** The half-deleted record is copied exactly if the new one is not complete. */
  lemma CopiedBack(m: map<Name, Value>, fl: Flash, d: nat, key: Name, value: Value, at: Option<Pos>,
                   step: nat, lucky: bool, mid: Flash, oldest: nat, secSize: nat, dest: Option<nat>)
    requires Abstracts(m, fl) && d < |fl| && oldest < |fl| && OldRecord(fl, key, at) && step <= 8 && HalfDeleted(at, step).Some?
    requires MovedOrNot(Interrupted(fl, d, key, value, at, step, lucky), mid, oldest, false, secSize, HalfDeleted(at, step), true, dest)
    ensures var inter := Interrupted(fl, d, key, value, at, step, lucky);
      && At(inter, at.value) && inter[at.value.0].recs[at.value.1] == fl[at.value.0].recs[at.value.1].(status := PreDelete)
    ensures dest.Some? <==> step < 8
  {
    LookupAgrees(m, fl, key, at.value.0, at.value.1);
    if step == 8 { NewIsLive(fl, d, key, value, at, lucky); } else { NeitherIsLive(m, fl, d, key, value, at, step, lucky); }
    InterruptedKeepsOld(fl, d, key, value, at, step, lucky);
  }

  /** What a scan that dealt with the half-deleted record did to the count of a pair. */
  lemma RestoredCount(m: map<Name, Value>, fl: Flash, d: nat, key: Name, value: Value, at: Option<Pos>,
                      step: nat, lucky: bool, mid: Flash, oldest: nat, secSize: nat, dest: Option<nat>, p: Pair)
    requires Abstracts(m, fl) && d < |fl| && oldest < |fl| && OldRecord(fl, key, at) && step <= 8
    requires MovedOrNot(Interrupted(fl, d, key, value, at, step, lucky), mid, oldest, false, secSize,
                        HalfDeleted(at, step), HalfDeleted(at, step).Some?, dest)
    ensures Copies(mid, p) == Copies(fl, p) + (if step == 8 && p == (key, value) then 1 else 0)
                              - (if step == 8 && at.Some? then Hit(fl[at.value.0].recs[at.value.1], p) else 0)
  {
    InterruptedCounts(fl, d, key, value, at, step, lucky, p);
    if HalfDeleted(at, step).Some? {
      CopiedBack(m, fl, d, key, value, at, step, lucky, mid, oldest, secSize, dest);
      var old_ := fl[at.value.0].recs[at.value.1];
      assert old_.(status := PreDelete).(status := Write) == old_;
      MoveCounts(Interrupted(fl, d, key, value, at, step, lucky), mid, oldest, secSize, at.value, dest, p);
    }
  }

  /** Once the half-deleted record (if any) is dealt with, the flash holds the old map or the new one. */
  lemma RestoresMap(m: map<Name, Value>, fl: Flash, d: nat, key: Name, value: Value, at: Option<Pos>,
                    step: nat, lucky: bool, mid: Flash, oldest: nat, secSize: nat, dest: Option<nat>)
    requires Abstracts(m, fl) && d < |fl| && oldest < |fl| && OldRecord(fl, key, at) && step <= 8
    requires FlashOk(fl, secSize)
    requires MovedOrNot(Interrupted(fl, d, key, value, at, step, lucky), mid, oldest, false, secSize,
                        HalfDeleted(at, step), HalfDeleted(at, step).Some?, dest)
    ensures Abstracts(Restored(m, key, value, step), mid)
  {
    KnownBefore(m, fl, key, at, secSize);
    var m' := Restored(m, key, value, step);
    forall n, v | Visible(n) ensures Copies(mid, (n, v)) == (if n in m' && m'[n] == v then 1 else 0) {
      RestoredCount(m, fl, d, key, value, at, step, lucky, mid, oldest, secSize, dest, (n, v));
      assert Copies(fl, (n, v)) == (if n in m && m[n] == v then 1 else 0);
    }
  }

  lemma KnownBefore(m: map<Name, Value>, fl: Flash, key: Name, at: Option<Pos>, secSize: nat)
    requires Abstracts(m, fl) && FlashOk(fl, secSize) && OldRecord(fl, key, at)
    ensures at.Some? ==> Visible(key) && key in m && fl[at.value.0].recs[at.value.1].Live()
                         && fl[at.value.0].recs[at.value.1].Pair() == (key, m[key])
    ensures at.None? ==> key !in m
  {
    if at.Some? {
      LookupAgrees(m, fl, key, at.value.0, at.value.1);
    } else {
      LookupMisses(m, fl, key, secSize);
    }
  }

  lemma InterruptedKeepsOld(fl: Flash, d: nat, key: Name, value: Value, at: Option<Pos>, step: nat, lucky: bool)
    requires d < |fl| && at.Some? && At(fl, at.value) && 1 <= step <= 8
    ensures var inter := Interrupted(fl, d, key, value, at, step, lucky);
      At(inter, at.value) && inter[at.value.0].recs[at.value.1] == fl[at.value.0].recs[at.value.1].(status := PreDelete)
  {
  }

  /** The scan is meant to restore the store unless it meets the unfinished record first. */
  predicate StopsEarly(fl: Flash, d: nat, at: Option<Pos>, step: nat, oldest: nat)
    requires oldest < |fl| && d < |fl| && (at.Some? ==> At(fl, at.value))
  {
    5 <= step <= 7 && at.Some? && !Before(oldest, |fl|, at.value, NewPos(fl, d))
  }

  ghost predicate ScanResult(fl0: Flash, mid: Flash, fl: Flash, oldest: nat, secSize: nat, pd: Option<Pos>,
                             end: ScanEnd, moved: bool, dest: Option<nat>)
    requires oldest < |fl0| == |mid|
  {
    match end
    case Finished =>
      fl == mid && moved == pd.Some? && SettledUpTo(mid, oldest, |mid|, 0)
      && MovedOrNot(fl0, mid, oldest, false, secSize, pd, moved, dest)
    case AtPreWrite(p) => ScanEnds(fl0, mid, fl, oldest, false, secSize, pd, moved, dest, p)
    case MoveFailed => ScanFails(fl0, fl, oldest, secSize, pd)
  }

  /** Marking the unfinished record ERR_HDR settles its sector and changes no live record. */
  lemma MarkErr(fl: Flash, secSize: nat, p: Pos)
    requires Repairable(fl, secSize, None, Some(p)) && At(fl, p) && fl[p.0].recs[p.1].status == PreWrite
    ensures Repairable(SetStatus(fl, p.0, p.1, ErrHdr), secSize, None, None)
  {
    var fl' := SetStatus(fl, p.0, p.1, ErrHdr);
    forall s | 0 <= s < |fl'| ensures SectorRepairable(fl'[s], secSize, InSector(None, s), InSector(None, s)) {
      assert SectorRepairable(fl[s], secSize, InSector(None, s), InSector(Some(p), s));
      if s == p.0 {
        SectorMarkedErr(fl[s], p.1, secSize);
      }
    }
  }

  lemma SectorMarkedErr(sec: Sector, r: nat, secSize: nat)
    requires SectorRepairable(sec, secSize, None, Some(r)) && r < |sec.recs| && sec.recs[r].status == PreWrite
    ensures SectorRepairable(sec.(recs := sec.recs[r := sec.recs[r].(status := ErrHdr)]), secSize, None, None)
  {
    var recs := sec.recs[r := sec.recs[r].(status := ErrHdr)];
    PlacedSameLengths(sec.recs, recs, secSize);
    forall i | 0 <= i < |recs|
      ensures RecSound(recs[i], i == 0) && RecRepairable(recs[i], i, None, None)
      ensures recs[i].status in {PreDelete, Deleted} ==> sec.dirty != DirtyFalse
    {
      assert RecSound(sec.recs[i], i == 0) && RecRepairable(sec.recs[i], i, None, Some(r));
    }
  }

  lemma MarkErrCounts(m: map<Name, Value>, fl: Flash, p: Pos)
    requires Abstracts(m, fl) && At(fl, p) && fl[p.0].recs[p.1].status == PreWrite
    ensures Abstracts(m, SetStatus(fl, p.0, p.1, ErrHdr))
    ensures EmptyCount(SetStatus(fl, p.0, p.1, ErrHdr)) == EmptyCount(fl)
  {
    var fl' := SetStatus(fl, p.0, p.1, ErrHdr);
    forall n, v | Visible(n) ensures Copies(fl', (n, v)) == (if n in m && m[n] == v then 1 else 0) {
      SetStatusCopies(fl, p.0, p.1, ErrHdr, (n, v));
    }
    StoreCountUpdate(fl, p.0, fl'[p.0], StoreEmpty);
  }

  /** A scan to the end met no unfinished record. */
  lemma NothingUnfinished(mid: Flash, oldest: nat, secSize: nat, unf: Option<Pos>)
    requires oldest < |mid| && Repairable(mid, secSize, None, unf) && SettledUpTo(mid, oldest, |mid|, 0)
    ensures Repairable(mid, secSize, None, None)
  {
    forall s | 0 <= s < |mid| ensures SectorRepairable(mid[s], secSize, InSector(None, s), InSector(None, s)) {
      assert SectorRepairable(mid[s], secSize, InSector(None, s), InSector(unf, s));
      forall r | 0 <= r < |mid[s].recs| ensures mid[s].recs[r].status != PreWrite {
        assert Visited(oldest, |mid|, |mid|, 0, (s, r));
      }
    }
  }

  /** The unfinished record is still there when the scan gets to it, and it is the only one. */
  lemma UnfinishedStays(fl: Flash, d: nat, key: Name, value: Value, at: Option<Pos>, step: nat, lucky: bool,
                        mid: Flash, oldest: nat, secSize: nat, moved: bool, dest: Option<nat>)
    requires oldest < |fl| && d < |fl| && 5 <= step <= 7 && (at.Some? ==> At(fl, at.value))
    requires OnlyPreDelete(Interrupted(fl, d, key, value, at, step, lucky), at)
    requires MovedOrNot(Interrupted(fl, d, key, value, at, step, lucky), mid, oldest, false, secSize, at, moved, dest)
    ensures At(mid, NewPos(fl, d)) && mid[d].recs[NewPos(fl, d).1].status == PreWrite
  {
    if moved {
      MovedRecords(Interrupted(fl, d, key, value, at, step, lucky), mid, oldest, false, secSize,
                   at.value.0, at.value.1, dest, NewPos(fl, d));
    }
  }

  /** The half-deleted record was dealt with. */
  lemma AfterFullScan(m: map<Name, Value>, fl: Flash, d: nat, key: Name, value: Value, at: Option<Pos>,
                      step: nat, lucky: bool, mid: Flash, oldest: nat, secSize: nat, dest: Option<nat>)
    requires oldest < |fl| == |mid|
    requires FlashOk(fl, secSize) && Settled(fl) && EmptyCount(fl) >= 1 && Abstracts(m, fl)
    requires OldRecord(fl, key, at) && Target(fl, d, key, value, secSize) && step <= 8
    requires MovedOrNot(Interrupted(fl, d, key, value, at, step, lucky), mid, oldest, false, secSize,
                        HalfDeleted(at, step), HalfDeleted(at, step).Some?, dest)
    ensures Repairable(mid, secSize, None, if 5 <= step <= 7 then Some(NewPos(fl, d)) else None)
    ensures EmptyCount(mid) >= 1 && Abstracts(Restored(m, key, value, step), mid)
  {
    var inter := Interrupted(fl, d, key, value, at, step, lucky);
    var pd := HalfDeleted(at, step);
    var unf := if 5 <= step <= 7 then Some(NewPos(fl, d)) else None;
    InterruptedRepairable(fl, d, key, value, at, step, lucky, secSize);
    RepairableScans(inter, secSize, pd, unf);
    RestoresMap(m, fl, d, key, value, at, step, lucky, mid, oldest, secSize, dest);
    if pd.Some? {
      MoveRepairs(inter, mid, oldest, secSize, pd.value, unf, dest);
      MoveCounts(inter, mid, oldest, secSize, pd.value, dest, (key, value));
    }
  }

  /** The scan stopped before it met the half-deleted record. */
  lemma AfterEarlyStop(m: map<Name, Value>, fl: Flash, d: nat, key: Name, value: Value, at: Option<Pos>,
                       step: nat, lucky: bool, p: Pos)
    requires d < |fl| && Abstracts(m, fl) && OldRecord(fl, key, at) && at.Some? && 1 <= step <= 8 && step < 8
    requires var inter := Interrupted(fl, d, key, value, at, step, lucky);
      At(inter, p) && inter[p.0].recs[p.1].status == PreWrite
    ensures var end' := SetStatus(Interrupted(fl, d, key, value, at, step, lucky), p.0, p.1, ErrHdr);
      && key in m && NoMatch(end', key)
      && At(end', at.value) && end'[at.value.0].recs[at.value.1].status == PreDelete
      && end'[at.value.0].recs[at.value.1].Pair() == (key, m[key])
  {
    LookupAgrees(m, fl, key, at.value.0, at.value.1);
    NeitherIsLive(m, fl, d, key, value, at, step, lucky);
    InterruptedKeepsOld(fl, d, key, value, at, step, lucky);
    var inter := Interrupted(fl, d, key, value, at, step, lucky);
    var end' := SetStatus(inter, p.0, p.1, ErrHdr);
    forall s, r | 0 <= s < |end'| && 0 <= r < |end'[s].recs| ensures !Matches(end'[s].recs[r], key) {
      assert !Matches(inter[s].recs[r], key);
    }
  }

  /** A settled store that holds the map `m`. */
  ghost predicate Holds(m: map<Name, Value>, fl: Flash, secSize: nat) {
    FlashOk(fl, secSize) && Settled(fl) && EmptyCount(fl) >= 1 && Abstracts(m, fl)
  }

  /** The key is lost from view although its old record is still on flash, half deleted. */
  ghost predicate Hidden(m: map<Name, Value>, key: Name, at: Option<Pos>, fl: Flash) {
    && key in m && NoMatch(fl, key)
    && at.Some? && At(fl, at.value)
    && fl[at.value.0].recs[at.value.1].status == PreDelete
    && fl[at.value.0].recs[at.value.1].Pair() == (key, m[key])
  }

  ghost predicate CrashedSet(m: map<Name, Value>, fl: Flash, d: nat, key: Name, value: Value, at: Option<Pos>, step: nat, secSize: nat) {
    && Holds(m, fl, secSize) && OldRecord(fl, key, at) && Target(fl, d, key, value, secSize) && step <= 8
  }

  lemma AfterFinished(m: map<Name, Value>, fl: Flash, d: nat, key: Name, value: Value, at: Option<Pos>,
                      step: nat, lucky: bool, mid: Flash, oldest: nat, secSize: nat, dest: Option<nat>)
    requires oldest < |fl| == |mid| && CrashedSet(m, fl, d, key, value, at, step, secSize)
    requires MovedOrNot(Interrupted(fl, d, key, value, at, step, lucky), mid, oldest, false, secSize,
                        HalfDeleted(at, step), HalfDeleted(at, step).Some?, dest)
    requires SettledUpTo(mid, oldest, |mid|, 0)
    ensures Holds(Restored(m, key, value, step), mid, secSize) && !(5 <= step <= 7)
  {
    var unf := if 5 <= step <= 7 then Some(NewPos(fl, d)) else None;
    AfterFullScan(m, fl, d, key, value, at, step, lucky, mid, oldest, secSize, dest);
    NothingUnfinished(mid, oldest, secSize, unf);
    RepairedSettles(mid, secSize);
    if 5 <= step <= 7 {
      InterruptedRepairable(fl, d, key, value, at, step, lucky, secSize);
      RepairableScans(Interrupted(fl, d, key, value, at, step, lucky), secSize, at, unf);
      UnfinishedStays(fl, d, key, value, at, step, lucky, mid, oldest, secSize, at.Some?, dest);
      assert false;
    }
  }

  lemma OnlyUnfinished(mid: Flash, secSize: nat, unf: Option<Pos>, p: Pos)
    requires Repairable(mid, secSize, None, unf) && At(mid, p) && mid[p.0].recs[p.1].status == PreWrite
    ensures unf == Some(p)
  {
    assert SectorRepairable(mid[p.0], secSize, InSector(None, p.0), InSector(unf, p.0));
    assert RecRepairable(mid[p.0].recs[p.1], p.1, InSector(None, p.0), InSector(unf, p.0));
  }

  lemma AfterStop(m: map<Name, Value>, fl: Flash, d: nat, key: Name, value: Value, at: Option<Pos>,
                  step: nat, lucky: bool, mid: Flash, oldest: nat, secSize: nat, dest: Option<nat>, p: Pos)
    requires oldest < |fl| == |mid| && CrashedSet(m, fl, d, key, value, at, step, secSize)
    requires MovedOrNot(Interrupted(fl, d, key, value, at, step, lucky), mid, oldest, false, secSize,
                        HalfDeleted(at, step), HalfDeleted(at, step).Some?, dest)
    requires At(mid, p) && mid[p.0].recs[p.1].status == PreWrite
    ensures Holds(Restored(m, key, value, step), SetStatus(mid, p.0, p.1, ErrHdr), secSize)
    ensures 5 <= step <= 7 && p == NewPos(fl, d)
  {
    var unf := if 5 <= step <= 7 then Some(NewPos(fl, d)) else None;
    AfterFullScan(m, fl, d, key, value, at, step, lucky, mid, oldest, secSize, dest);
    OnlyUnfinished(mid, secSize, unf, p);
    MarkErr(mid, secSize, p);
    MarkErrCounts(Restored(m, key, value, step), mid, p);
    RepairedSettles(SetStatus(mid, p.0, p.1, ErrHdr), secSize);
  }

  /** No sector has room for the old record, which the scan tries to move before it meets the
      unfinished one. */
  ghost predicate NoWayBack(fl: Flash, d: nat, key: Name, value: Value, at: Option<Pos>, step: nat, lucky: bool,
                            oldest: nat, secSize: nat)
    requires oldest < |fl| && d < |fl| && step <= 8 && (at.Some? ==> At(fl, at.value))
  {
    && HalfDeleted(at, step).Some? && !StopsEarly(fl, d, at, step, oldest)
    && Allocates(Interrupted(fl, d, key, value, at, step, lucky), oldest, fl[at.value.0].recs[at.value.1].Len(), false, secSize, None)
  }

  /** The allocator finds a sector or it does not. */
  lemma AllocatesOrNot(fl: Flash, oldest: nat, size: nat, gcRequest: bool, secSize: nat, d: nat)
    requires oldest < |fl| && Allocates(fl, oldest, size, gcRequest, secSize, Some(d))
    ensures !Allocates(fl, oldest, size, gcRequest, secSize, None)
  {
  }

  lemma ScanFailsIff(fl: Flash, d: nat, key: Name, value: Value, at: Option<Pos>, step: nat, lucky: bool,
                     mid: Flash, end': Flash, oldest: nat, secSize: nat, end: ScanEnd, moved: bool, dest: Option<nat>)
    requires oldest < |fl| == |mid| && d < |fl| && step <= 8 && OldRecord(fl, key, at)
    requires ScanResult(Interrupted(fl, d, key, value, at, step, lucky), mid, end', oldest, secSize,
                        HalfDeleted(at, step), end, moved, dest)
    requires end.AtPreWrite? ==> moved || HalfDeleted(at, step).None? || StopsEarly(fl, d, at, step, oldest)
    ensures end.MoveFailed? <==> NoWayBack(fl, d, key, value, at, step, lucky, oldest, secSize)
  {
    if HalfDeleted(at, step).Some? {
      InterruptedKeepsOld(fl, d, key, value, at, step, lucky);
    }
    if end.MoveFailed? {
      FailedBeforeUnfinished(fl, d, key, value, at, step, lucky, oldest, secSize);
    } else if moved {
      MoveHadRoom(Interrupted(fl, d, key, value, at, step, lucky), mid, oldest, secSize, at.value, dest);
    }
  }

  lemma FailedBeforeUnfinished(fl: Flash, d: nat, key: Name, value: Value, at: Option<Pos>, step: nat, lucky: bool,
                               oldest: nat, secSize: nat)
    requires oldest < |fl| && d < |fl| && step <= 8 && (at.Some? ==> At(fl, at.value))
    requires var inter := Interrupted(fl, d, key, value, at, step, lucky);
      ScanFails(inter, inter, oldest, secSize, HalfDeleted(at, step))
    ensures !StopsEarly(fl, d, at, step, oldest)
  {
    if 5 <= step <= 7 {
      var inter := Interrupted(fl, d, key, value, at, step, lucky);
      assert inter[d].recs[|fl[d].recs|].status == PreWrite;
      PositionsDiffer(inter, oldest, at.value, NewPos(fl, d));
    }
  }

  lemma MoveHadRoom(fl: Flash, mid: Flash, oldest: nat, secSize: nat, p: Pos, dest: Option<nat>)
    requires oldest < |fl| && At(fl, p) && fl[p.0].recs[p.1].status == PreDelete
    requires MoveOutcome(fl, oldest, false, true, secSize, p.0, p.1, NoErr, dest, mid)
    ensures !Allocates(fl, oldest, fl[p.0].recs[p.1].Len(), false, secSize, None)
  {
    var len := fl[p.0].recs[p.1].Len();
    var to :| Allocates(fl, oldest, len, false, secSize, Some(to));
    AllocatesOrNot(fl, oldest, len, false, secSize, to);
  }

  lemma PositionsDiffer(fl: Flash, oldest: nat, p: Pos, q: Pos)
    requires oldest < |fl| && At(fl, p) && At(fl, q) && p != q
    ensures Before(oldest, |fl|, p, q) || Before(oldest, |fl|, q, p)
  {
  }

  lemma AfterScan(m: map<Name, Value>, fl: Flash, d: nat, key: Name, value: Value, at: Option<Pos>,
                  step: nat, lucky: bool, mid: Flash, end': Flash, oldest: nat, secSize: nat,
                  end: ScanEnd, moved: bool, dest: Option<nat>)
    requires oldest < |fl| == |mid| && CrashedSet(m, fl, d, key, value, at, step, secSize)
    requires ScanResult(Interrupted(fl, d, key, value, at, step, lucky), mid, end', oldest, secSize,
                        HalfDeleted(at, step), end, moved, dest)
    ensures end.MoveFailed? <==> NoWayBack(fl, d, key, value, at, step, lucky, oldest, secSize)
    ensures !end.MoveFailed? && !StopsEarly(fl, d, at, step, oldest) ==> Holds(Restored(m, key, value, step), end', secSize)
    ensures StopsEarly(fl, d, at, step, oldest) ==> Hidden(m, key, at, end')
  {
    ScanFailsIff(fl, d, key, value, at, step, lucky, mid, end', oldest, secSize, end, moved, dest);
    if end.MoveFailed? {
    } else if end.Finished? {
      AfterFinished(m, fl, d, key, value, at, step, lucky, mid, oldest, secSize, dest);
    } else if moved == HalfDeleted(at, step).Some? {
      AfterStop(m, fl, d, key, value, at, step, lucky, mid, oldest, secSize, dest, end.pos);
    } else {
      AfterStopBefore(m, fl, d, key, value, at, step, lucky, mid, end', oldest, secSize, dest, end.pos);
    }
  }

  lemma AfterStopBefore(m: map<Name, Value>, fl: Flash, d: nat, key: Name, value: Value, at: Option<Pos>,
                        step: nat, lucky: bool, mid: Flash, end': Flash, oldest: nat, secSize: nat, dest: Option<nat>, p: Pos)
    requires oldest < |fl| == |mid| && CrashedSet(m, fl, d, key, value, at, step, secSize) && HalfDeleted(at, step).Some?
    requires ScanEnds(Interrupted(fl, d, key, value, at, step, lucky), mid, end', oldest, false, secSize,
                      HalfDeleted(at, step), false, dest, p)
    ensures StopsEarly(fl, d, at, step, oldest) && Hidden(m, key, at, end')
  {
    InterruptedRepairable(fl, d, key, value, at, step, lucky, secSize);
    assert SectorRepairable(mid[p.0], secSize, InSector(HalfDeleted(at, step), p.0),
                            InSector(if 5 <= step <= 7 then Some(NewPos(fl, d)) else None, p.0));
    AfterEarlyStop(m, fl, d, key, value, at, step, lucky, p);
  }

  /** `_fdb_kv_load` after power was lost between two flash writes of `set_kv`, up to the end of its
      first scan. If the unfinished record comes before the half-deleted one, the scan stops there and
      the key is hidden. If there is no room for the old record the flash is as the crash left it and a
      collection is requested. In every other case, and only then, the store is back with the old value or the new one. */
  method LoadAfterCrash(db: Kvdb, ghost m: map<Name, Value>, ghost fl: Flash, ghost d: nat, ghost key: Name,
                        ghost value: Value, ghost at: Option<Pos>, ghost step: nat, ghost lucky: bool)
    returns (end: ScanEnd)
    requires |fl| == db.secNum && db.oldest < db.secNum && !db.gcRequest
    requires CrashedSet(m, fl, d, key, value, at, step, db.secSize)
    requires db.flash == Crash(fl, d, key, value, at, step, lucky, db.secSize)
    modifies db
    ensures db.oldest == old(db.oldest)
    ensures end.MoveFailed? <==> NoWayBack(fl, d, key, value, at, step, lucky, db.oldest, db.secSize)
    ensures end.MoveFailed? ==> db.flash == Interrupted(fl, d, key, value, at, step, lucky) && db.gcRequest
    ensures StopsEarly(fl, d, at, step, db.oldest) ==> Hidden(m, key, at, db.flash)
    ensures !end.MoveFailed? && !StopsEarly(fl, d, at, step, db.oldest) ==>
              db.contents == Restored(m, key, value, step)
    ensures db.Valid() <==> !end.MoveFailed? && !StopsEarly(fl, d, at, step, db.oldest)
  {
    ghost var pd := HalfDeleted(at, step);
    RereadCrash(fl, d, key, value, at, step, lucky, db.secSize);
    ScanReady(m, fl, d, key, value, at, step, lucky, db.secSize);
    db.inRecovery := true;
    RereadFlash(db);
    ghost var mid, moved, dest;
    end, mid, moved, dest := RecoverKvs(db, pd);
    db.inRecovery := false;
    LoadEnds(m, fl, d, key, value, at, step, lucky, mid, db.flash, db.oldest, db.secSize, end, moved, dest);
    db.contents := Restored(m, key, value, step);
  }

  /** Unless the store is restored its old record is still half deleted. */
  lemma LoadFailed(m: map<Name, Value>, fl: Flash, d: nat, key: Name, value: Value, at: Option<Pos>, step: nat, lucky: bool,
                   end': Flash, oldest: nat, secSize: nat, end: ScanEnd)
    requires oldest < |fl| && CrashedSet(m, fl, d, key, value, at, step, secSize)
    requires end.MoveFailed? ==> NoWayBack(fl, d, key, value, at, step, lucky, oldest, secSize)
                                 && end' == Interrupted(fl, d, key, value, at, step, lucky)
    requires StopsEarly(fl, d, at, step, oldest) ==> Hidden(m, key, at, end')
    ensures end.MoveFailed? ==> EmptyCount(end') == 1
    ensures end.MoveFailed? || StopsEarly(fl, d, at, step, oldest) ==> !Settled(end')
  {
    if end.MoveFailed? {
      InterruptedKeepsOld(fl, d, key, value, at, step, lucky);
      FailsWithOneEmpty(m, fl, d, key, value, at, step, lucky, oldest, secSize);
      assert end'[at.value.0].recs[at.value.1].status == PreDelete;
    }
  }

  lemma LoadEnds(m: map<Name, Value>, fl: Flash, d: nat, key: Name, value: Value, at: Option<Pos>, step: nat, lucky: bool,
                 mid: Flash, end': Flash, oldest: nat, secSize: nat, end: ScanEnd, moved: bool, dest: Option<nat>)
    requires oldest < |fl| == |mid| && CrashedSet(m, fl, d, key, value, at, step, secSize)
    requires ScanResult(Interrupted(fl, d, key, value, at, step, lucky), mid, end', oldest, secSize,
                        HalfDeleted(at, step), end, moved, dest)
    ensures end.MoveFailed? <==> NoWayBack(fl, d, key, value, at, step, lucky, oldest, secSize)
    ensures end.MoveFailed? ==> end' == Interrupted(fl, d, key, value, at, step, lucky) && EmptyCount(end') == 1
    ensures StopsEarly(fl, d, at, step, oldest) ==> Hidden(m, key, at, end')
    ensures end.MoveFailed? || StopsEarly(fl, d, at, step, oldest) ==> !Settled(end')
    ensures !end.MoveFailed? && !StopsEarly(fl, d, at, step, oldest) ==> Holds(Restored(m, key, value, step), end', secSize)
  {
    AfterScan(m, fl, d, key, value, at, step, lucky, mid, end', oldest, secSize, end, moved, dest);
    LoadFailed(m, fl, d, key, value, at, step, lucky, end', oldest, secSize, end);
  }

  /** Any empty sector but the last would have had room for the old record. */
  lemma FailsWithOneEmpty(m: map<Name, Value>, fl: Flash, d: nat, key: Name, value: Value, at: Option<Pos>, step: nat,
                          lucky: bool, oldest: nat, secSize: nat)
    requires oldest < |fl| && CrashedSet(m, fl, d, key, value, at, step, secSize)
    requires NoWayBack(fl, d, key, value, at, step, lucky, oldest, secSize)
    ensures EmptyCount(Interrupted(fl, d, key, value, at, step, lucky)) == 1
  {
    var inter := Interrupted(fl, d, key, value, at, step, lucky);
    InterruptedRepairable(fl, d, key, value, at, step, lucky, secSize);
    if EmptyCount(inter) > 1 {
      var e := StoreCountHas(inter, StoreEmpty);
      ScanReady(m, fl, d, key, value, at, step, lucky, secSize);
      EmptyHasRoom(fl, inter, at.value, e, secSize);
    }
  }

  lemma EmptyHasRoom(fl: Flash, inter: Flash, p: Pos, e: nat, secSize: nat)
    requires FlashOk(fl, secSize) && At(fl, p) && FlashSound(inter, secSize) && e < |inter| && inter[e].store == StoreEmpty
    ensures Candidate(inter[e], StoreEmpty, fl[p.0].recs[p.1].Len(), false, secSize)
  {
    assert SectorOk(fl[p.0], secSize) && SectorSound(inter[e], secSize);
    assert Used(fl[p.0].recs[..p.1]) + fl[p.0].recs[p.1].Len() + REMAIN_THRESHOLD < secSize - SECTOR_HDR;
  }

  lemma ScanReady(m: map<Name, Value>, fl: Flash, d: nat, key: Name, value: Value, at: Option<Pos>,
                  step: nat, lucky: bool, secSize: nat)
    requires CrashedSet(m, fl, d, key, value, at, step, secSize)
    ensures FlashSound(Interrupted(fl, d, key, value, at, step, lucky), secSize)
    ensures OnlyPreDelete(Interrupted(fl, d, key, value, at, step, lucky), HalfDeleted(at, step))
  {
    InterruptedRepairable(fl, d, key, value, at, step, lucky, secSize);
    RepairableScans(Interrupted(fl, d, key, value, at, step, lucky), secSize, HalfDeleted(at, step),
                    if 5 <= step <= 7 then Some(NewPos(fl, d)) else None);
  }

  // ---------- an input on which recovery fails ----------

  const EXAMPLE_SIZE: nat := 4096
  const BIG: Value := seq(3900, _ => 0)
  const SMALL: Value := seq(200, _ => 1)
  const OTHER := Rec(Write, "a", BIG, true, true)
  const OLD := Rec(Write, "k", SMALL, true, true)
  const BLANK: Flash := [FormattedSector(), FormattedSector(), FormattedSector()]
  const AFTER_OTHER: Flash := [Sector(StoreUsing, DirtyFalse, [OTHER]), FormattedSector(), FormattedSector()]
  const EXAMPLE: Flash := [Sector(StoreUsing, DirtyFalse, [OTHER]), Sector(StoreUsing, DirtyFalse, [OLD]), FormattedSector()]

  lemma UsedOne(rec: Rec)
    ensures Used([rec]) == rec.Len()
  {
    assert [rec][..0] == [];
  }

  /** Setting "a" and "k" on blank flash gives this store, and the next value of "k", being short, goes
      to the sector in front of the one that holds "k". */
  lemma ExampleIsWritten()
    ensures Allocates(BLANK, 0, OTHER.Len(), false, EXAMPLE_SIZE, Some(0)) && Program(BLANK, 0, OTHER, EXAMPLE_SIZE) == AFTER_OTHER
    ensures Allocates(AFTER_OTHER, 0, OLD.Len(), false, EXAMPLE_SIZE, Some(1)) && Program(AFTER_OTHER, 1, OLD, EXAMPLE_SIZE) == EXAMPLE
    ensures Allocates(EXAMPLE, 0, KvLen(1, 1), false, EXAMPLE_SIZE, Some(0)) && Target(EXAMPLE, 0, "k", [2], EXAMPLE_SIZE)
  {
    UsedOne(OTHER);
    UsedOne(OLD);
    TwoEmpty(BLANK, 1, 2);
    TwoEmpty(AFTER_OTHER, 1, 2);
    assert [] + [OTHER] == [OTHER] && [] + [OLD] == [OLD];
  }

  lemma ExampleHolds()
    ensures Holds(map["a" := BIG, "k" := SMALL], EXAMPLE, EXAMPLE_SIZE)
  {
    var m: map<Name, Value> := map["a" := BIG, "k" := SMALL];
    forall n, v | Visible(n) ensures Copies(EXAMPLE, (n, v)) == (if n in m && m[n] == v then 1 else 0) {
      ExampleCopies((n, v));
    }
    StoreIsCounted(EXAMPLE, 2);
    OneRecordOk(OTHER);
    OneRecordOk(OLD);
  }

  lemma ExampleCopies(p: Pair)
    ensures Copies(EXAMPLE, p) == Hit(OTHER, p) + Hit(OLD, p)
  {
    ExampleIsWritten();
    assert Blank(3) == BLANK;
    BlankHoldsNothing(3, p);
    ProgramCopies(BLANK, 0, OTHER, EXAMPLE_SIZE, p);
    ProgramCopies(AFTER_OTHER, 1, OLD, EXAMPLE_SIZE, p);
  }

  lemma OneRecordOk(rec: Rec)
    requires rec.status == Write && rec.Intact() && rec.Len() + REMAIN_THRESHOLD < EXAMPLE_SIZE - SECTOR_HDR
    ensures SectorOk(Sector(StoreUsing, DirtyFalse, [rec]), EXAMPLE_SIZE)
  {
    assert [rec][..0] == [];
  }

  /** Replacing the value of "k" in this store and losing power after the header, the name or the
      value was written: however the scan from sector 0 ends, "k" is hidden. */
  lemma RecoveryCanHideAKey(step: nat, lucky: bool, mid: Flash, fl': Flash, end: ScanEnd, moved: bool, dest: Option<nat>)
    requires 5 <= step <= 7 && |mid| == 3
    requires ScanResult(Interrupted(EXAMPLE, 0, "k", [2], Some((1, 0)), step, lucky), mid, fl', 0, EXAMPLE_SIZE,
                        Some((1, 0)), end, moved, dest)
    ensures CrashedSet(map["a" := BIG, "k" := SMALL], EXAMPLE, 0, "k", [2], Some((1, 0)), step, EXAMPLE_SIZE)
    ensures StopsEarly(EXAMPLE, 0, Some((1, 0)), step, 0)
    ensures Hidden(map["a" := BIG, "k" := SMALL], "k", Some((1, 0)), fl')
  {
    ExampleIsWritten();
    ExampleHolds();
    AfterScan(map["a" := BIG, "k" := SMALL], EXAMPLE, 0, "k", [2], Some((1, 0)), step, lucky, mid, fl', 0, EXAMPLE_SIZE,
              end, moved, dest);
  }

  // ---------- an input on which it finds no room ----------

  const LARGE := Rec(Write, "k", BIG, true, true)
  const TIGHT: Flash := [Sector(StoreUsing, DirtyFalse, [LARGE]), FormattedSector()]

  lemma TightHolds()
    ensures Holds(map["k" := BIG], TIGHT, EXAMPLE_SIZE) && EmptyCount(TIGHT) == 1
  {
    UsedOne(LARGE);
    OneRecordOk(LARGE);
    assert Blank(2) == [FormattedSector(), FormattedSector()];
    assert Program(Blank(2), 0, LARGE, EXAMPLE_SIZE) == TIGHT by {
      assert [] + [LARGE] == [LARGE];
    }
    forall n, v | Visible(n) ensures Copies(TIGHT, (n, v)) == (if n == "k" && v == BIG then 1 else 0) {
      BlankHoldsNothing(2, (n, v));
      ProgramCopies(Blank(2), 0, LARGE, EXAMPLE_SIZE, (n, v));
    }
    assert TIGHT[..1] == [TIGHT[0]] && [TIGHT[0]][..0] == [];
    assert StoreCount([], StoreEmpty) == 0 && StoreCount([TIGHT[0]], StoreEmpty) == 0;
  }

  lemma TightCrashes(step: nat)
    requires step <= 8
    ensures CrashedSet(map["k" := BIG], TIGHT, 0, "k", [2], Some((0, 0)), step, EXAMPLE_SIZE)
    ensures EmptyCount(TIGHT) == 1
  {
    TightHolds();
    UsedOne(LARGE);
  }

  /** Its large record still fills the first sector, and the second one is still the only empty one. */
  lemma TightLeft(step: nat, lucky: bool)
    requires 1 <= step <= 8
    ensures var inter := Interrupted(TIGHT, 0, "k", [2], Some((0, 0)), step, lucky);
      && |inter| == 2 && inter[0].store == StoreUsing && Used(inter[0].recs) >= LARGE.Len()
      && inter[1].store == StoreEmpty && EmptyCount(inter) == 1
      && (step == 1 ==> inter[0].dirty == inter[1].dirty == DirtyFalse)
  {
    TightHolds();
    UsedOne(LARGE);
    MarkedCounts(TIGHT, Some((0, 0)), step, ("k", BIG));
    var marked := OldMarked(TIGHT, Some((0, 0)), step);
    UsedSameLengths([LARGE], marked[0].recs);
    if step > 3 {
      var tail := Tail("k", [2], step, lucky, true);
      UsedAppend(marked[0].recs, tail);
      TailCounts(marked, 0, tail, ("k", BIG));
    }
  }

  /** A large value is replaced by a small one in a store with one spare sector: wherever power is lost
      in between, no sector has room for the old record. After the first write not even its own sector is
      marked, so that the collection that follows finds nothing to collect (`KvRetry.LoadingCanStick`). */
  lemma RecoveryCanStick(step: nat, lucky: bool)
    requires 1 <= step <= 8
    ensures CrashedSet(map["k" := BIG], TIGHT, 0, "k", [2], Some((0, 0)), step, EXAMPLE_SIZE)
    ensures NoWayBack(TIGHT, 0, "k", [2], Some((0, 0)), step, lucky, 0, EXAMPLE_SIZE)
    ensures step == 1 ==> forall s :: 0 <= s < |TIGHT| ==>
              Interrupted(TIGHT, 0, "k", [2], Some((0, 0)), step, lucky)[s].dirty == DirtyFalse
  {
    TightCrashes(step);
    TightLeft(step, lucky);
  }
}
