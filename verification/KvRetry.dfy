// What `_fdb_kv_load` makes of a recovery that found no room: it collects the dirty sectors while the
// old record is still half deleted, and scans again (fdb_kvdb.c: _fdb_kv_load, gc_collect, do_gc,
// move_kv).

module KvRetry {
  import opened Options
  import opened SectorRing
  import opened KvFlash
  import opened KvStore
  import opened KvRecovery

  // ---------- the healed flash ----------

  /** A half-deleted record counts as live if it is to be brought `back`, an unfinished one as an error. */
  function HealRec(rec: Rec, back: bool): Rec {
    match rec.status
    case PreDelete => rec.(status := if back then Write else Deleted)
    case PreWrite => rec.(status := ErrHdr)
    case _ => rec
  }

  function HealSector(sec: Sector, back: bool): Sector {
    sec.(recs := seq(|sec.recs|, i requires 0 <= i < |sec.recs| => HealRec(sec.recs[i], back)))
  }

  function Heal(fl: Flash, back: bool): Flash {
    seq(|fl|, s requires 0 <= s < |fl| => HealSector(fl[s], back))
  }

  lemma HealUpdate(fl: Flash, s: nat, sec: Sector, back: bool)
    requires s < |fl|
    ensures Heal(fl[s := sec], back) == Heal(fl, back)[s := HealSector(sec, back)]
  {
  }

  lemma HealAppend(sec: Sector, store: StoreStatus, rec: Rec, back: bool)
    requires rec.status == Write
    ensures HealSector(Sector(store, sec.dirty, sec.recs + [rec]), back)
         == Sector(store, sec.dirty, HealSector(sec, back).recs + [rec])
  {
  }

  lemma HealDeleted(sec: Sector, r: nat, back: bool)
    requires r < |sec.recs|
    ensures HealSector(sec.(recs := sec.recs[r := sec.recs[r].(status := Deleted)]), back)
         == HealSector(sec, back).(recs := HealSector(sec, back).recs[r := HealSector(sec, back).recs[r].(status := Deleted)])
  {
  }

  // ---------- the allocator sees lengths only ----------

  ghost predicate SameRoom(a: Flash, b: Flash) {
    |a| == |b| && forall s :: 0 <= s < |a| ==>
      a[s].store == b[s].store && a[s].dirty == b[s].dirty && Used(a[s].recs) == Used(b[s].recs)
  }

  lemma {:induction false} SameStoreCount(a: Flash, b: Flash, st: StoreStatus)
    requires |a| == |b| && forall s :: 0 <= s < |a| ==> a[s].store == b[s].store
    ensures StoreCount(a, st) == StoreCount(b, st)
  {
    if a != [] {
      SameStoreCount(a[..|a|-1], b[..|b|-1], st);
    }
  }

  lemma RoomAllocates(a: Flash, b: Flash, oldest: nat, size: nat, gcRequest: bool, secSize: nat, found: Option<nat>)
    requires SameRoom(a, b) && oldest < |a|
    ensures Allocates(a, oldest, size, gcRequest, secSize, found) == Allocates(b, oldest, size, gcRequest, secSize, found)
    ensures EmptyCount(a) == EmptyCount(b)
  {
    SameStoreCount(a, b, StoreEmpty);
    assert forall s, st :: 0 <= s < |a| ==>
      Candidate(a[s], st, size, gcRequest, secSize) == Candidate(b[s], st, size, gcRequest, secSize);
  }

  lemma HealRoom(fl: Flash, back: bool)
    ensures SameRoom(fl, Heal(fl, back))
  {
    forall s | 0 <= s < |fl|
      ensures Used(fl[s].recs) == Used(Heal(fl, back)[s].recs)
    {
      UsedSameLengths(fl[s].recs, Heal(fl, back)[s].recs);
    }
  }

  lemma MarkedRoom(fl: Flash, x: nat, r: nat)
    requires x < |fl| && r < |fl[x].recs| && fl[x].dirty == DirtyGc
    ensures SameRoom(fl, Marked(fl, x, r))
  {
    UsedSameLengths(fl[x].recs, Marked(fl, x, r)[x].recs);
  }

  lemma HealRecSound(rec: Rec, back: bool, first: bool)
    requires RecSound(HealRec(rec, back), first)
    ensures RecSound(rec, first)
  {
  }

  lemma SectorHealSound(sec: Sector, back: bool, secSize: nat)
    requires SectorSound(HealSector(sec, back), secSize)
    ensures SectorSound(sec, secSize)
  {
    var recs := HealSector(sec, back).recs;
    PlacedSameLengths(recs, sec.recs, secSize);
    forall r | 0 <= r < |sec.recs|
      ensures RecSound(sec.recs[r], r == 0)
    {
      assert recs[r] == HealRec(sec.recs[r], back);
      HealRecSound(sec.recs[r], back, r == 0);
    }
  }

  lemma HealSound(fl: Flash, back: bool, secSize: nat)
    requires FlashSound(Heal(fl, back), secSize)
    ensures FlashSound(fl, secSize)
  {
    forall s | 0 <= s < |fl|
      ensures SectorSound(fl[s], secSize)
    {
      assert SectorSound(Heal(fl, back)[s], secSize);
      SectorHealSound(fl[s], back, secSize);
    }
  }

  // ---------- the records under repair ----------

  /** What there is to repair: a record of `key` may be half deleted, and a record may be unfinished. */
  datatype Repair = Repair(key: Name, unfinished: bool)

  /** At most one record is half deleted, at `pd`, and it has to come `back` unless a complete one took its
      place; at most one is unfinished. */
  ghost predicate Half(fl: Flash, pd: Option<Pos>, job: Repair, back: bool) {
    && OnlyPreDelete(fl, pd)
    && (pd.Some? ==> var rec := fl[pd.value.0].recs[pd.value.1];
                     rec.Intact() && rec.name == job.key && (NoMatch(fl, job.key) <==> back))
    && OneUnfinished(fl) && (job.unfinished || NoneUnfinished(fl))
  }

  predicate Unfinished(fl: Flash, p: Pos) { At(fl, p) && fl[p.0].recs[p.1].status == PreWrite }

  ghost predicate OneUnfinished(fl: Flash) {
    forall p: Pos, q: Pos :: Unfinished(fl, p) && Unfinished(fl, q) ==> p == q
  }

  ghost predicate NoneUnfinished(fl: Flash) {
    forall p: Pos :: !Unfinished(fl, p)
  }

  /** A move during a collection, in one step. */
  lemma MoveInGc(fl: Flash, x: nat, r: nat, d: nat, secSize: nat)
    requires x < |fl| && r < |fl[x].recs| && d < |fl| && d != x
    requires fl[x].dirty == DirtyGc && fl[x].recs[r].status in {Write, PreDelete}
    ensures var rec := fl[x].recs[r];
      MoveWrites(fl, x, r, d, secSize)
        == fl[x := fl[x].(recs := fl[x].recs[r := rec.(status := Deleted)])]
             [d := Sector(StatusAfter(fl[d], rec.Len(), secSize), fl[d].dirty, fl[d].recs + [rec.(status := Write)])]
  {
    var rec := fl[x].recs[r];
    assert fl[x].recs[r := rec.(status := PreDelete)][r := rec.(status := Deleted)] == fl[x].recs[r := rec.(status := Deleted)];
  }

  lemma HealTwo(fl: Flash, x: nat, a: Sector, d: nat, b: Sector, back: bool)
    requires x < |fl| && d < |fl|
    ensures Heal(fl[x := a][d := b], back) == Heal(fl, back)[x := HealSector(a, back)][d := HealSector(b, back)]
  {
    HealUpdate(fl, x, a, back);
    HealUpdate(fl[x := a], d, b, back);
  }

  lemma HealMove(fl: Flash, x: nat, r: nat, d: nat, back: bool, secSize: nat)
    requires x < |fl| && r < |fl[x].recs| && d < |fl| && d != x
    requires fl[x].dirty == DirtyGc && fl[x].recs[r].status in {Write, PreDelete}
    requires fl[x].recs[r].status == PreDelete ==> back
    ensures Heal(MoveWrites(fl, x, r, d, secSize), back) == MoveWrites(Heal(fl, back), x, r, d, secSize)
  {
    var rec, v := fl[x].recs[r], Heal(fl, back);
    var store := StatusAfter(fl[d], rec.Len(), secSize);
    assert StatusAfter(v[d], rec.Len(), secSize) == store by {
      HealRoom(fl, back);
    }
    MoveInGc(fl, x, r, d, secSize);
    MoveInGc(v, x, r, d, secSize);
    HealTwo(fl, x, fl[x].(recs := fl[x].recs[r := rec.(status := Deleted)]),
            d, Sector(store, fl[d].dirty, fl[d].recs + [rec.(status := Write)]), back);
    HealDeleted(fl[x], r, back);
    HealAppend(fl[d], store, rec.(status := Write), back);
  }

  function MovedTo(fl: Flash, x: nat, r: nat, d: nat, p: Pos): Rec
    requires At(fl, (x, r)) && d < |fl| && (At(fl, p) || p == NewPos(fl, d))
  {
    if p == (x, r) then fl[x].recs[r].(status := Deleted)
    else if p == NewPos(fl, d) then fl[x].recs[r].(status := Write)
    else fl[p.0].recs[p.1]
  }

  /** What a record is after a move. */
  lemma MovedRec(fl: Flash, x: nat, r: nat, d: nat, secSize: nat, p: Pos)
    requires x < |fl| && r < |fl[x].recs| && d < |fl| && d != x
    requires fl[x].dirty == DirtyGc && fl[x].recs[r].status in {Write, PreDelete}
    ensures var fl' := MoveWrites(fl, x, r, d, secSize);
      && (At(fl, p) || p == NewPos(fl, d) <==> At(fl', p))
      && (At(fl', p) ==> fl'[p.0].recs[p.1] == MovedTo(fl, x, r, d, p))
  {
    MoveInGc(fl, x, r, d, secSize);
  }

  /** What is half deleted or unfinished was so before. */
  ghost predicate NoneBegun(fl: Flash, fl': Flash, p: Pos) {
    && (Unfinished(fl', p) ==> Unfinished(fl, p))
    && (At(fl', p) && fl'[p.0].recs[p.1].status == PreDelete ==> At(fl, p) && fl[p.0].recs[p.1].status == PreDelete)
  }

  lemma StillOne(fl: Flash, fl': Flash)
    requires OneUnfinished(fl) && forall q: Pos :: NoneBegun(fl, fl', q)
    ensures OneUnfinished(fl') && (NoneUnfinished(fl) ==> NoneUnfinished(fl'))
  {
    forall p: Pos | NoneUnfinished(fl)
      ensures !Unfinished(fl', p)
    {
      assert NoneBegun(fl, fl', p);
    }
    forall p: Pos, q: Pos | Unfinished(fl', p) && Unfinished(fl', q)
      ensures p == q
    {
      assert NoneBegun(fl, fl', p) && NoneBegun(fl, fl', q);
    }
  }

  /** The half-deleted record is where it was ... */
  lemma StillHalf(fl: Flash, fl': Flash, pd: Option<Pos>, job: Repair, back: bool)
    requires Half(fl, pd, job, back) && forall q: Pos :: NoneBegun(fl, fl', q)
    requires pd.Some? ==> At(fl', pd.value) && fl'[pd.value.0].recs[pd.value.1] == fl[pd.value.0].recs[pd.value.1]
    requires pd.Some? ==> (NoMatch(fl, job.key) <==> NoMatch(fl', job.key))
    ensures Half(fl', pd, job, back)
  {
    StillOne(fl, fl');
    forall q: Pos | At(fl', q) && fl'[q.0].recs[q.1].status == PreDelete
      ensures pd == Some(q)
    {
      assert NoneBegun(fl, fl', q);
    }
  }

  /** ... or it is dealt with, and there is none any more. */
  lemma NothingHalf(fl: Flash, fl': Flash, p: Pos, job: Repair, back: bool)
    requires Half(fl, Some(p), job, back) && forall q: Pos :: NoneBegun(fl, fl', q)
    requires At(fl', p) ==> fl'[p.0].recs[p.1].status == Deleted
    ensures Half(fl', None, job, back)
  {
    StillOne(fl, fl');
    forall q: Pos | At(fl', q)
      ensures fl'[q.0].recs[q.1].status != PreDelete
    {
      assert NoneBegun(fl, fl', q);
    }
  }

  lemma HalfMoved(fl: Flash, x: nat, r: nat, d: nat, pd: Option<Pos>, job: Repair, back: bool, secSize: nat)
    requires x < |fl| && r < |fl[x].recs| && d < |fl| && d != x && Half(fl, pd, job, back)
    requires fl[x].dirty == DirtyGc && fl[x].recs[r].Intact() && fl[x].recs[r].status in {Write, PreDelete}
    ensures Half(MoveWrites(fl, x, r, d, secSize), if fl[x].recs[r].status == PreDelete then None else pd, job, back)
  {
    var fl' := MoveWrites(fl, x, r, d, secSize);
    forall p: Pos
      ensures NoneBegun(fl, fl', p)
    {
      MovedRec(fl, x, r, d, secSize, p);
    }
    MovedRec(fl, x, r, d, secSize, (x, r));
    assert At(fl, (x, r));
    if fl[x].recs[r].status == Write {
      SameMatches(fl, x, r, d, job.key, secSize);
      if pd.Some? {
        MovedRec(fl, x, r, d, secSize, pd.value);
      }
      StillHalf(fl, fl', pd, job, back);
    } else {
      NothingHalf(fl, fl', (x, r), job, back);
    }
  }

  /** The copy matches what its source matched. */
  lemma SameMatches(fl: Flash, x: nat, r: nat, d: nat, key: Name, secSize: nat)
    requires x < |fl| && r < |fl[x].recs| && d < |fl| && d != x
    requires fl[x].dirty == DirtyGc && fl[x].recs[r].status == Write
    ensures NoMatch(fl, key) <==> NoMatch(MoveWrites(fl, x, r, d, secSize), key)
  {
    var fl' := MoveWrites(fl, x, r, d, secSize);
    MovedRec(fl, x, r, d, secSize, NewPos(fl, d));
    if NoMatch(fl, key) {
      forall s, i | 0 <= s < |fl'| && 0 <= i < |fl'[s].recs|
        ensures !Matches(fl'[s].recs[i], key)
      {
        MovedRec(fl, x, r, d, secSize, (s, i));
        assert !Matches(fl[x].recs[r], key);
      }
    } else {
      var s, i :| 0 <= s < |fl| && 0 <= i < |fl[s].recs| && Matches(fl[s].recs[i], key);
      MovedRec(fl, x, r, d, secSize, (s, i));
      assert !NoMatch(fl', key) by {
        if (s, i) == (x, r) {
          assert Matches(fl'[d].recs[|fl[d].recs|], key);
        } else {
          assert Matches(fl'[s].recs[i], key);
        }
      }
    }
  }

  // ---------- collecting in this state ----------

  lemma HealMarkedRoom(fl: Flash, x: nat, r: nat, back: bool)
    requires x < |fl| && r < |fl[x].recs| && fl[x].dirty == DirtyGc
    ensures SameRoom(Marked(fl, x, r), Marked(Heal(fl, back), x, r))
  {
    HealRoom(fl, back);
    MarkedRoom(fl, x, r);
    MarkedRoom(Heal(fl, back), x, r);
  }

  /** The allocator finds the same home on both. */
  lemma HomeFound(v1: Flash, fl: Flash, x: nat, r: nat, spare: Option<nat>, back: bool, oldest: nat, secSize: nat, dest: Option<nat>)
    requires oldest < |fl| && Collecting(v1, Heal(fl, back), x, r, spare, secSize)
    requires r < |fl[x].recs| && HealRec(fl[x].recs[r], back).status == Write
    requires Allocates(Marked(fl, x, r), oldest, fl[x].recs[r].Len(), true, secSize, dest)
    ensures dest.Some? && dest.value < |fl| && dest.value != x
    ensures Allocates(Marked(Heal(fl, back), x, r), oldest, fl[x].recs[r].Len(), true, secSize, dest)
  {
    HealMarkedRoom(fl, x, r, back);
    RoomAllocates(Marked(fl, x, r), Marked(Heal(fl, back), x, r), oldest, fl[x].recs[r].Len(), true, secSize, dest);
    FindsHome(v1, Heal(fl, back), oldest, x, r, spare, secSize);
    assert Marked(fl, x, r)[x].dirty == DirtyGc;
  }

  /** A record that is live on the healed flash is moved there as in any collection. */
  lemma MoveHeals(v1: Flash, fl: Flash, fl': Flash, x: nat, r: nat, spare: Option<nat>, back: bool,
                  oldest: nat, secSize: nat, err: Err, dest: Option<nat>)
    requires oldest < |fl| && Collecting(v1, Heal(fl, back), x, r, spare, secSize)
    requires r < |fl[x].recs| && HealRec(fl[x].recs[r], back).status == Write
    requires fl[x].recs[r].status == PreDelete ==> NoMatch(fl, fl[x].recs[r].name)
    requires MoveOutcome(fl, oldest, true, true, secSize, x, r, err, dest, fl')
    ensures err == NoErr && dest.Some? && dest.value < |fl| && dest.value != x
    ensures fl' == MoveWrites(fl, x, r, dest.value, secSize)
    ensures MoveOutcome(Heal(fl, back), oldest, true, false, secSize, x, r, err, dest, Heal(fl', back))
  {
    HomeFound(v1, fl, x, r, spare, back, oldest, secSize, dest);
    HealMove(fl, x, r, dest.value, back, secSize);
  }

  /** A half-deleted record that need not come back leaves the healed flash as it is. */
  lemma DropHeals(fl: Flash, x: nat, r: nat)
    requires x < |fl| && r < |fl[x].recs| && fl[x].dirty == DirtyGc && fl[x].recs[r].status == PreDelete
    ensures Heal(DelWrites(fl, x, r, Deleted), false) == Heal(fl, false)
  {
    var sec := fl[x].(recs := fl[x].recs[r := fl[x].recs[r].(status := Deleted)]);
    assert DelWrites(fl, x, r, Deleted) == fl[x := sec];
    HealUpdate(fl, x, sec, false);
    assert HealSector(sec, false) == HealSector(fl[x], false);
    assert Heal(fl, false)[x := HealSector(fl[x], false)] == Heal(fl, false);
  }

  lemma HalfDropped(fl: Flash, x: nat, r: nat, job: Repair)
    requires x < |fl| && r < |fl[x].recs| && fl[x].dirty == DirtyGc && Half(fl, Some((x, r)), job, false)
    ensures Half(DelWrites(fl, x, r, Deleted), None, job, false)
  {
    var fl' := DelWrites(fl, x, r, Deleted);
    forall q: Pos
      ensures NoneBegun(fl, fl', q)
    {
    }
    NothingHalf(fl, fl', (x, r), job, false);
  }

  lemma HealWalkable(fl: Flash, back: bool, secSize: nat)
    requires FlashOk(Heal(fl, back), secSize)
    ensures FlashSound(fl, secSize) && Walkable(fl)
  {
    HealSound(fl, back, secSize);
    OkIsWalkable(fl, secSize);
  }

  lemma AfterDrop(fl: Flash, fl': Flash, x: nat, r: nat, pd: Option<Pos>, job: Repair, oldest: nat, secSize: nat,
                  err: Err, dest: Option<nat>)
    returns (pd': Option<Pos>)
    requires oldest < |fl| && x < |fl| && r < |fl[x].recs| && fl[x].dirty == DirtyGc && fl[x].recs[r].status == PreDelete
    requires Half(fl, pd, job, false) && MoveOutcome(fl, oldest, true, true, secSize, x, r, err, dest, fl')
    ensures Heal(fl', false) == Heal(fl, false) && Half(fl', pd', job, false)
    ensures pd == Some((x, r)) && (pd' == pd || pd'.None?)
  {
    assert At(fl, (x, r));
    pd' := pd;
    if err == NoErr {
      DropHeals(fl, x, r);
      HalfDropped(fl, x, r, job);
      pd' := None;
    }
  }

  lemma KeepHalf(fl: Flash, x: nat, r: nat, d: nat, pd: Option<Pos>, job: Repair, back: bool, secSize: nat) returns (pd': Option<Pos>)
    requires x < |fl| && r < |fl[x].recs| && d < |fl| && d != x && Half(fl, pd, job, back)
    requires fl[x].dirty == DirtyGc && fl[x].recs[r].Intact() && fl[x].recs[r].status in {Write, PreDelete}
    ensures Half(MoveWrites(fl, x, r, d, secSize), pd', job, back)
    ensures pd' == pd || (pd.Some? && pd.value.0 == x && pd'.None?)
  {
    assert At(fl, (x, r));
    HalfMoved(fl, x, r, d, pd, job, back, secSize);
    pd' := if fl[x].recs[r].status == PreDelete then None else pd;
  }

  lemma AfterKeep(v1: Flash, fl: Flash, fl': Flash, x: nat, r: nat, spare: Option<nat>, pd: Option<Pos>, job: Repair, back: bool,
                  oldest: nat, secSize: nat, err: Err, dest: Option<nat>)
    returns (spare': Option<nat>, pd': Option<Pos>)
    requires oldest < |fl| && Collecting(v1, Heal(fl, back), x, r, spare, secSize) && Half(fl, pd, job, back)
    requires r < |fl[x].recs| && fl[x].recs[r].Intact() && HealRec(fl[x].recs[r], back).status == Write
    requires MoveOutcome(fl, oldest, true, true, secSize, x, r, err, dest, fl')
    ensures |fl'| == |fl| && Collecting(v1, Heal(fl', back), x, r + 1, spare', secSize) && Half(fl', pd', job, back)
    ensures pd' == pd || (pd.Some? && pd.value.0 == x && pd'.None?)
  {
    assert At(fl, (x, r));
    MoveHeals(v1, fl, fl', x, r, spare, back, oldest, secSize, err, dest);
    pd' := KeepHalf(fl, x, r, dest.value, pd, job, back, secSize);
    spare' := AfterMove(v1, Heal(fl, back), Heal(fl', back), oldest, secSize, x, r, spare, err, dest);
  }

  /** A record that `do_gc` moves; the healed flash sees one move more, or one record of garbage more. */
  lemma AfterRetryMove(v1: Flash, fl: Flash, fl': Flash, x: nat, r: nat, spare: Option<nat>, pd: Option<Pos>, job: Repair, back: bool,
                       oldest: nat, secSize: nat, err: Err, dest: Option<nat>)
    returns (spare': Option<nat>, pd': Option<Pos>)
    requires oldest < |fl| && Collecting(v1, Heal(fl, back), x, r, spare, secSize) && Half(fl, pd, job, back)
    requires r < |fl[x].recs| && fl[x].recs[r].Intact() && fl[x].recs[r].status in {Write, PreDelete}
    requires MoveOutcome(fl, oldest, true, true, secSize, x, r, err, dest, fl')
    ensures |fl'| == |fl| && Collecting(v1, Heal(fl', back), x, r + 1, spare', secSize) && Half(fl', pd', job, back)
    ensures pd' == pd || (pd.Some? && pd.value.0 == x && pd'.None?)
  {
    if fl[x].recs[r].status == Write || back {
      spare', pd' := AfterKeep(v1, fl, fl', x, r, spare, pd, job, back, oldest, secSize, err, dest);
    } else {
      pd' := AfterDrop(fl, fl', x, r, pd, job, oldest, secSize, err, dest);
      SkipsGarbage(v1, Heal(fl, back), x, r, spare, secSize);
      spare' := spare;
    }
  }

  /** One turn of the record loop of `do_gc`. */
  method RetryRecord(db: Kvdb, x: nat, r: nat, ghost v1: Flash, ghost spare: Option<nat>,
                     ghost pd: Option<Pos>, ghost job: Repair, ghost back: bool)
    returns (ghost spare': Option<nat>, ghost pd': Option<Pos>)
    requires db.Shape() && db.gcRequest && db.inRecovery && x < |db.flash| && r < |db.flash[x].recs|
    requires Collecting(v1, Heal(db.flash, back), x, r, spare, db.secSize) && Half(db.flash, pd, job, back)
    modifies db`flash, db`gcRequest
    ensures db.Shape() && db.gcRequest && |db.flash[x].recs| == |old(db.flash)[x].recs|
    ensures Collecting(v1, Heal(db.flash, back), x, r + 1, spare', db.secSize) && Half(db.flash, pd', job, back)
    ensures pd' == pd || (pd.Some? && pd.value.0 == x && pd'.None?)
  {
    var rec := db.flash[x].recs[r];
    if rec.Intact() && (rec.status == Write || rec.status == PreDelete) {
      HealWalkable(db.flash, back, db.secSize);
      ghost var err, dest;
      err, dest := db.MoveKv(x, r);
      spare', pd' := AfterRetryMove(v1, old(db.flash), db.flash, x, r, spare, pd, job, back, db.oldest, db.secSize, err, dest);
    } else {
      assert At(db.flash, (x, r));
      SkipsGarbage(v1, Heal(db.flash, back), x, r, spare, db.secSize);
      spare', pd' := spare, pd;
    }
  }

  lemma HalfDirty(fl: Flash, x: nat, dirty: DirtyStatus, pd: Option<Pos>, job: Repair, back: bool)
    requires x < |fl| && Half(fl, pd, job, back)
    ensures Half(SetDirty(fl, x, dirty), pd, job, back) && Heal(SetDirty(fl, x, dirty), back) == SetDirty(Heal(fl, back), x, dirty)
  {
    var fl' := SetDirty(fl, x, dirty);
    forall p: Pos
      ensures NoneBegun(fl, fl', p)
    {
    }
    assert forall s :: 0 <= s < |fl| ==> fl'[s].recs == fl[s].recs;
    SameRecsMatch(fl, fl', job.key);
    StillHalf(fl, fl', pd, job, back);
    HealUpdate(fl, x, fl[x].(dirty := dirty), back);
  }

  lemma SameRecsMatch(fl: Flash, fl': Flash, key: Name)
    requires |fl| == |fl'| && forall s :: 0 <= s < |fl| ==> fl'[s].recs == fl[s].recs
    ensures NoMatch(fl, key) <==> NoMatch(fl', key)
  {
  }

  /** Erasing a sector in which nothing is live. */
  lemma HalfFormat(fl: Flash, x: nat, pd: Option<Pos>, job: Repair, back: bool)
    requires x < |fl| && Half(fl, pd, job, back) && forall i :: 0 <= i < |fl[x].recs| ==> fl[x].recs[i].status != Write
    ensures Half(Format(fl, x), if pd.Some? && pd.value.0 == x then None else pd, job, back)
    ensures Heal(Format(fl, x), back) == Format(Heal(fl, back), x)
  {
    var fl' := Format(fl, x);
    forall p: Pos
      ensures NoneBegun(fl, fl', p)
    {
    }
    HealUpdate(fl, x, FormattedSector(), back);
    assert HealSector(FormattedSector(), back) == FormattedSector();
    if pd.Some? && pd.value.0 == x {
      NothingHalf(fl, fl', pd.value, job, back);
    } else {
      FormatMatches(fl, x, job.key);
      StillHalf(fl, fl', pd, job, back);
    }
  }

  lemma FormatMatches(fl: Flash, x: nat, key: Name)
    requires x < |fl| && forall i :: 0 <= i < |fl[x].recs| ==> fl[x].recs[i].status != Write
    ensures NoMatch(fl, key) <==> NoMatch(Format(fl, x), key)
  {
    var fl' := Format(fl, x);
    if !NoMatch(fl, key) {
      var s, i :| 0 <= s < |fl| && 0 <= i < |fl[s].recs| && Matches(fl[s].recs[i], key);
      assert Matches(fl'[s].recs[i], key);
    }
  }

  lemma HealCounts(fl: Flash, back: bool)
    ensures EmptyCount(fl) == EmptyCount(Heal(fl, back))
  {
    SameStoreCount(fl, Heal(fl, back), StoreEmpty);
  }

  /** The healed flash without the garbage of sector `x`. */
  ghost predicate Collected(v: Flash, v': Flash, x: nat, secSize: nat) {
    && |v'| == |v| && x < |v|
    && FlashOk(v', secSize) && RestRecs(v') && SameLive(v, v') && EmptyCount(v') >= EmptyCount(v)
    && v'[x] == FormattedSector()
    && forall s :: 0 <= s < |v| && s != x ==> v'[s].dirty == v[s].dirty && v[s].recs <= v'[s].recs
  }

  lemma NothingWritten(fl: Flash, x: nat, back: bool)
    requires x < |fl| && forall i :: 0 <= i < |fl[x].recs| ==> !Heal(fl, back)[x].recs[i].Live()
    ensures forall i :: 0 <= i < |fl[x].recs| ==> fl[x].recs[i].status != Write
  {
    forall i | 0 <= i < |fl[x].recs|
      ensures fl[x].recs[i].status != Write
    {
      assert !Heal(fl, back)[x].recs[i].Live();
    }
  }

  /** The sector may be erased. */
  lemma FinishRetry(v: Flash, fl: Flash, x: nat, spare: Option<nat>, pd: Option<Pos>, job: Repair, back: bool, secSize: nat)
    requires x < |v| == |fl| && Collecting(SetDirty(v, x, DirtyGc), Heal(fl, back), x, |v[x].recs|, spare, secSize)
    requires SameLive(v, SetDirty(v, x, DirtyGc)) && EmptyCount(SetDirty(v, x, DirtyGc)) == EmptyCount(v)
    requires Half(fl, pd, job, back)
    ensures Half(Format(fl, x), if pd.Some? && pd.value.0 == x then None else pd, job, back)
    ensures Collected(v, Heal(Format(fl, x), back), x, secSize)
  {
    FinishCollecting(SetDirty(v, x, DirtyGc), Heal(fl, back), x, spare, secSize);
    NothingWritten(fl, x, back);
    HalfFormat(fl, x, pd, job, back);
  }

  /** The record loop of `do_gc`. */
  method RetryRecords(db: Kvdb, x: nat, ghost pd: Option<Pos>, ghost job: Repair, ghost back: bool)
    returns (ghost spare: Option<nat>, ghost pd': Option<Pos>)
    requires db.Shape() && db.gcRequest && db.inRecovery && x < |db.flash| && Half(db.flash, pd, job, back)
    requires Collecting(Heal(db.flash, back), Heal(db.flash, back), x, 0, None, db.secSize)
    modifies db`flash, db`gcRequest
    ensures db.Shape() && db.gcRequest && Half(db.flash, pd', job, back)
    ensures pd' == pd || (pd.Some? && pd.value.0 == x && pd'.None?)
    ensures Collecting(Heal(old(db.flash), back), Heal(db.flash, back), x, |old(db.flash)[x].recs|, spare, db.secSize)
  {
    ghost var v1 := Heal(db.flash, back);
    spare, pd' := None, pd;
    var r, n := 0, |db.flash[x].recs|;
    while r < n
      invariant 0 <= r <= n && db.Shape() && db.gcRequest && |db.flash[x].recs| == n && Half(db.flash, pd', job, back)
      invariant Collecting(v1, Heal(db.flash, back), x, r, spare, db.secSize)
      invariant pd' == pd || (pd.Some? && pd.value.0 == x && pd'.None?)
    {
      spare, pd' := RetryRecord(db, x, r, v1, spare, pd', job, back);
      r := r + 1;
    }
  }

  /** `do_gc` on a sector it collects. */
  method RetryCollect(db: Kvdb, x: nat, ghost pd: Option<Pos>, ghost job: Repair, ghost back: bool) returns (ghost pd': Option<Pos>)
    requires db.Shape() && db.gcRequest && db.inRecovery && x < |db.flash| && db.flash[x].dirty in {DirtyTrue, DirtyGc}
    requires FlashOk(Heal(db.flash, back), db.secSize) && RestRecs(Heal(db.flash, back)) && EmptyCount(Heal(db.flash, back)) >= 1
    requires Half(db.flash, pd, job, back)
    modifies db`flash, db`oldest, db`gcRequest
    ensures db.Shape() && db.gcRequest && Collected(Heal(old(db.flash), back), Heal(db.flash, back), x, db.secSize)
    ensures Half(db.flash, pd', job, back) && pd' == if pd.Some? && pd.value.0 == x then None else pd
  {
    ghost var v := Heal(db.flash, back);
    StartCollecting(v, x, db.secSize);
    HalfDirty(db.flash, x, DirtyGc, pd, job, back);
    db.flash := SetDirty(db.flash, x, DirtyGc);
    ghost var spare;
    spare, pd' := RetryRecords(db, x, pd, job, back);
    FinishRetry(v, db.flash, x, spare, pd', job, back, db.secSize);
    pd' := if pd'.Some? && pd'.value.0 == x then None else pd';
    db.flash := Format(db.flash, x);
    db.oldest := NextSector(x, db.secNum);
  }

  /** `fl` is `fl0` with the first `k` sectors of the walk from `start` looked after; the half-deleted
      record is where it was, or its sector was dirty and is collected. */
  ghost predicate RetryPass(fl0: Flash, fl: Flash, start: nat, k: nat, pd0: Option<Pos>, pd: Option<Pos>, job: Repair, back: bool,
                            secSize: nat)
    requires start < |fl| && k <= |fl|
  {
    && |fl0| == |fl| && (pd0.Some? ==> pd0.value.0 < |fl0|)
    && GcPass(Heal(fl0, back), Heal(fl, back), start, k, secSize) && Half(fl, pd, job, back)
    && (if pd.Some? then pd == pd0 && fl[pd.value.0].dirty == fl0[pd.value.0].dirty
        else pd0.Some? ==> fl0[pd0.value.0].dirty != DirtyFalse)
  }

  lemma PassNext(fl0: Flash, fl: Flash, fl': Flash, start: nat, k: nat, pd0: Option<Pos>, pd: Option<Pos>, job: Repair, back: bool,
                 secSize: nat)
    requires start < |fl| && k < |fl| && RetryPass(fl0, fl, start, k, pd0, pd, job, back, secSize)
    requires var x := RingAt(start, |fl|, k);
      && fl[x].dirty != DirtyFalse && Collected(Heal(fl, back), Heal(fl', back), x, secSize)
      && Half(fl', if pd.Some? && pd.value.0 == x then None else pd, job, back)
    ensures |fl'| == |fl|
    ensures RetryPass(fl0, fl', start, k + 1, pd0, if pd.Some? && pd.value.0 == RingAt(start, |fl|, k) then None else pd, job, back, secSize)
  {
    var x := RingAt(start, |fl|, k);
    assert |Heal(fl', back)| == |fl'|;
    forall s | 0 <= s < |fl|
      ensures fl'[s].dirty == if s == x then DirtyFalse else fl[s].dirty
    {
      assert Heal(fl', back)[s].dirty == fl'[s].dirty && Heal(fl, back)[s].dirty == fl[s].dirty;
    }
  }

  /** `do_gc` as the callback of the sector walk. */
  method RetrySector(db: Kvdb, start: nat, k: nat, lastGc: nat, freeSize: nat, ghost fl0: Flash,
                     ghost pd0: Option<Pos>, ghost pd: Option<Pos>, ghost job: Repair, ghost back: bool)
    returns (lastGc': nat, stop: bool, ghost pd': Option<Pos>)
    requires db.Shape() && db.gcRequest && db.inRecovery && start < db.secNum && k < db.secNum && lastGc < db.secNum
    requires RetryPass(fl0, db.flash, start, k, pd0, pd, job, back, db.secSize) && freeSize >= db.secSize
    modifies db`flash, db`oldest, db`gcRequest
    ensures db.Shape() && db.gcRequest && lastGc' < db.secNum && !stop
    ensures RetryPass(fl0, db.flash, start, k + 1, pd0, pd', job, back, db.secSize)
    ensures old(db.flash)[RingAt(start, db.secNum, k)].dirty == DirtyFalse ==>
              db.flash == old(db.flash) && db.oldest == old(db.oldest)
  {
    var s := RingAt(start, db.secNum, k);
    lastGc', stop, pd' := lastGc, false, pd;
    if db.flash[s].dirty == DirtyTrue || db.flash[s].dirty == DirtyGc {
      ghost var fl := db.flash;
      pd' := RetryCollect(db, s, pd, job, back);
      PassNext(fl0, fl, db.flash, start, k, pd0, pd, job, back, db.secSize);
      lastGc' := s;
      stop := Remain(db.flash[lastGc], db.secSize) > freeSize;
    } else {
      assert SectorOk(Heal(db.flash, back)[s], db.secSize);
    }
  }

  lemma PassStarts(fl: Flash, start: nat, pd: Option<Pos>, job: Repair, back: bool, secSize: nat)
    requires start < |fl| && Half(fl, pd, job, back) && EmptyCount(Heal(fl, back)) >= 1
    requires FlashOk(Heal(fl, back), secSize) && Settled(Heal(fl, back))
    ensures RetryPass(fl, fl, start, 0, pd, pd, job, back, secSize)
  {
  }

  lemma PassEnds(fl0: Flash, fl: Flash, start: nat, pd0: Option<Pos>, pd: Option<Pos>, job: Repair, back: bool, secSize: nat)
    requires start < |fl| && RetryPass(fl0, fl, start, |fl|, pd0, pd, job, back, secSize)
    ensures Settled(Heal(fl, back)) && NoGarbage(Heal(fl, back)) && AllClean(fl)
    ensures if pd.Some? then pd == pd0 && fl0[pd.value.0].dirty == DirtyFalse
            else pd0.Some? ==> fl0[pd0.value.0].dirty != DirtyFalse
  {
    AllVisited(Heal(fl, back), start, secSize);
    assert forall s :: 0 <= s < |fl| ==> Heal(fl, back)[s].dirty == fl[s].dirty;
  }

  /** `gc_collect` while a record may be half deleted: with a limit no sector reaches every dirty sector is
      collected. */
  method RetryGc(db: Kvdb, freeSize: nat, ghost pd: Option<Pos>, ghost job: Repair, ghost back: bool) returns (ghost pd': Option<Pos>)
    requires db.Shape() && db.gcRequest && db.inRecovery && freeSize >= db.secSize
    requires FlashOk(Heal(db.flash, back), db.secSize) && Settled(Heal(db.flash, back)) && EmptyCount(db.flash) == 1
    requires Half(db.flash, pd, job, back)
    modifies db`flash, db`oldest, db`gcRequest
    ensures db.Shape() && !db.gcRequest && Half(db.flash, pd', job, back) && AllClean(db.flash)
    ensures var v, v' := Heal(old(db.flash), back), Heal(db.flash, back);
      FlashOk(v', db.secSize) && Settled(v') && SameLive(v, v') && EmptyCount(v') >= 1
    ensures if pd'.Some? then pd' == pd && old(db.flash)[pd.value.0].dirty == DirtyFalse
            else pd.Some? ==> old(db.flash)[pd.value.0].dirty != DirtyFalse
    ensures old(AllClean(db.flash)) ==> db.flash == old(db.flash) && db.oldest == old(db.oldest)
  {
    ghost var fl0 := db.flash;
    var emptyNum: nat, lastGc: nat := db.GcCheck();
    HealCounts(db.flash, back);
    var start: nat, k: nat, stop := db.oldest, 0, false;
    pd' := pd;
    PassStarts(fl0, start, pd, job, back, db.secSize);
    if emptyNum <= GC_EMPTY_SEC_THRESHOLD {
      while k < db.secNum && !stop
        invariant 0 <= k <= db.secNum && start < db.secNum && lastGc < db.secNum && !stop
        invariant db.Shape() && db.gcRequest && RetryPass(fl0, db.flash, start, k, pd, pd', job, back, db.secSize)
        invariant AllClean(fl0) ==> db.flash == fl0 && db.oldest == start
      {
        lastGc, stop, pd' := RetrySector(db, start, k, lastGc, freeSize, fl0, pd, pd', job, back);
        k := k + 1;
      }
    }
    PassEnds(fl0, db.flash, start, pd, pd', job, back, db.secSize);
    db.gcRequest := false;
  }

  // ---------- the second scan ----------

  /** Without a half-deleted record the scan marks what is unfinished, and that is all there is to heal. */
  lemma ScanHeals(fl: Flash, mid: Flash, fl': Flash, oldest: nat, secSize: nat, job: Repair, back: bool,
                  end: ScanEnd, moved: bool, dest: Option<nat>)
    requires oldest < |fl| == |mid| && Half(fl, None, job, back)
    requires ScanResult(fl, mid, fl', oldest, secSize, None, end, moved, dest)
    ensures !end.MoveFailed? && fl' == Heal(fl, back)
  {
    match end
    case Finished =>
      forall s, r | 0 <= s < |fl| && 0 <= r < |fl[s].recs|
        ensures HealRec(fl[s].recs[r], back) == fl[s].recs[r]
      {
        assert Visited(oldest, |mid|, |mid|, 0, (s, r));
      }
      SameHealed(fl, fl, back);
    case AtPreWrite(p) =>
      assert Unfinished(fl, p);
      forall s, r | 0 <= s < |fl| && 0 <= r < |fl[s].recs|
        ensures HealRec(fl[s].recs[r], back) == fl'[s].recs[r]
      {
        assert Unfinished(fl, (s, r)) ==> (s, r) == p;
        assert At(fl, (s, r));
      }
      SameHealed(fl, fl', back);
    case MoveFailed =>
  }

  lemma SameHealed(fl: Flash, fl': Flash, back: bool)
    requires |fl| == |fl'| && forall s :: 0 <= s < |fl| ==>
      fl[s].store == fl'[s].store && fl[s].dirty == fl'[s].dirty && |fl[s].recs| == |fl'[s].recs|
    requires forall s, r :: 0 <= s < |fl| && 0 <= r < |fl[s].recs| ==> HealRec(fl[s].recs[r], back) == fl'[s].recs[r]
    ensures fl' == Heal(fl, back)
  {
    forall s | 0 <= s < |fl|
      ensures fl'[s] == HealSector(fl[s], back)
    {
      assert fl'[s].recs == HealSector(fl[s], back).recs;
    }
  }

  /** With nothing unfinished the flash is the healed one with the record marked half deleted. */
  lemma OnlyMarked(fl: Flash, p: Pos, job: Repair)
    requires Half(fl, Some(p), job, true) && NoneUnfinished(fl)
    ensures At(Heal(fl, true), p) && fl == SetStatus(Heal(fl, true), p.0, p.1, PreDelete)
  {
    var v := Heal(fl, true);
    forall s, r | 0 <= s < |fl| && 0 <= r < |fl[s].recs| && (s, r) != p
      ensures v[s].recs[r] == fl[s].recs[r]
    {
      assert !Unfinished(fl, (s, r)) && At(fl, (s, r));
    }
    var fl' := SetStatus(v, p.0, p.1, PreDelete);
    forall s | 0 <= s < |fl|
      ensures fl'[s] == fl[s]
    {
      assert fl'[s].recs == fl[s].recs;
    }
  }

  /** The scan brings the record back if some sector has room for it, and changes nothing otherwise. */
  lemma ScanBringsBack(m: map<Name, Value>, fl: Flash, p: Pos, job: Repair, mid: Flash, fl': Flash, oldest: nat, secSize: nat,
                       end: ScanEnd, moved: bool, dest: Option<nat>)
    requires oldest < |fl| == |mid| && Half(fl, Some(p), job, true) && NoneUnfinished(fl) && Visible(job.key)
    requires Holds(m, Heal(fl, true), secSize)
    requires ScanResult(fl, mid, fl', oldest, secSize, Some(p), end, moved, dest)
    ensures end.MoveFailed? <==> Allocates(fl, oldest, fl[p.0].recs[p.1].Len(), false, secSize, None)
    ensures if end.MoveFailed? then fl' == fl else Holds(m, fl', secSize)
  {
    match end
    case MoveFailed =>
    case Finished =>
      MoveHadRoom(fl, mid, oldest, secSize, p, dest);
      BroughtBack(m, fl, p, job, mid, oldest, secSize, dest);
    case AtPreWrite(q) =>
      NotUnfinished(fl, mid, oldest, secSize, p, moved, dest, q);
      assert false;
  }

  lemma NotUnfinished(fl: Flash, mid: Flash, oldest: nat, secSize: nat, p: Pos, moved: bool, dest: Option<nat>, q: Pos)
    requires oldest < |fl| && At(fl, p) && fl[p.0].recs[p.1].status == PreDelete && NoneUnfinished(fl)
    requires MovedOrNot(fl, mid, oldest, false, secSize, Some(p), moved, dest)
    ensures !Unfinished(mid, q)
  {
    assert !Unfinished(fl, q);
    if moved {
      MovedRecords(fl, mid, oldest, false, secSize, p.0, p.1, dest, q);
    }
  }

  lemma BroughtBack(m: map<Name, Value>, fl: Flash, p: Pos, job: Repair, mid: Flash, oldest: nat, secSize: nat, dest: Option<nat>)
    requires oldest < |fl| && Half(fl, Some(p), job, true) && NoneUnfinished(fl) && Visible(job.key)
    requires Holds(m, Heal(fl, true), secSize)
    requires MoveOutcome(fl, oldest, false, true, secSize, p.0, p.1, NoErr, dest, mid)
    ensures Holds(m, mid, secSize)
  {
    var v := Heal(fl, true);
    OnlyMarked(fl, p, job);
    MarkedRepairable(v, job.key, Some(p), 1, secSize);
    MoveRepairs(fl, mid, oldest, secSize, p, None, dest);
    RepairedSettles(mid, secSize);
    HealCounts(fl, true);
    MoveCounts(fl, mid, oldest, secSize, p, dest, (job.key, []));
    forall q: Pair
      ensures Copies(v, q) == Copies(mid, q)
    {
      SetStatusCopies(v, p.0, p.1, PreDelete, q);
      MoveCounts(fl, mid, oldest, secSize, p, dest, q);
    }
    SameLiveAbstracts(m, v, mid);
  }

  /** A scan that ends without the record having been brought back, for want of room. */
  ghost predicate Stuck(m: map<Name, Value>, fl: Flash, oldest: nat, pd: Option<Pos>, job: Repair, back: bool, secSize: nat) {
    && oldest < |fl| && pd.Some? && Half(fl, pd, job, back) && AllClean(fl)
    && Holds(m, Heal(fl, back), secSize) && EmptyCount(fl) == 1
    && Allocates(fl, oldest, fl[pd.value.0].recs[pd.value.1].Len(), false, secSize, None)
  }

  lemma SecondScan(m: map<Name, Value>, fl: Flash, mid: Flash, fl': Flash, oldest: nat, pd: Option<Pos>, job: Repair, back: bool,
                   secSize: nat, end: ScanEnd, moved: bool, dest: Option<nat>)
    requires oldest < |fl| == |mid| && Half(fl, pd, job, back) && Visible(job.key) && AllClean(fl)
    requires Holds(m, Heal(fl, back), secSize) && (pd.Some? ==> back && !job.unfinished)
    requires ScanResult(fl, mid, fl', oldest, secSize, pd, end, moved, dest)
    ensures !end.MoveFailed? ==> Holds(m, fl', secSize)
    ensures end.MoveFailed? ==> fl' == fl && Stuck(m, fl, oldest, pd, job, back, secSize)
    ensures Stuck(m, fl, oldest, pd, job, back, secSize) ==> end.MoveFailed?
  {
    if pd.None? {
      ScanHeals(fl, mid, fl', oldest, secSize, job, back, end, moved, dest);
    } else {
      ScanBringsBack(m, fl, pd.value, job, mid, fl', oldest, secSize, end, moved, dest);
      if end.MoveFailed? {
        OneLeft(m, fl, oldest, pd.value, job, secSize);
      }
    }
  }

  /** An empty sector more would have had room. */
  lemma OneLeft(m: map<Name, Value>, fl: Flash, oldest: nat, p: Pos, job: Repair, secSize: nat)
    requires oldest < |fl| && Half(fl, Some(p), job, true) && Holds(m, Heal(fl, true), secSize)
    requires Allocates(fl, oldest, fl[p.0].recs[p.1].Len(), false, secSize, None)
    ensures EmptyCount(fl) == 1
  {
    HealCounts(fl, true);
    if EmptyCount(fl) > 1 {
      var e := StoreCountHas(fl, StoreEmpty);
      HealSound(fl, true, secSize);
      EmptyHasRoom(Heal(fl, true), fl, p, e, secSize);
    }
  }

  /** `db_max_size` */
  function MaxSize(secSize: nat, secNum: nat): (size: nat)
    requires secNum > 0
    ensures size >= secSize
  {
    secNum * secSize
  }

  /** Collecting and scanning again, as often as the scan finds no room. The store is restored unless the
      half-deleted record lies in a sector that is not dirty and still has no room; once that is so, doing
      it again changes nothing, and loading does not end. */
  method Retry(db: Kvdb, ghost m: map<Name, Value>, ghost pd: Option<Pos>, ghost job: Repair, ghost back: bool)
    returns (end: ScanEnd)
    requires db.Shape() && db.gcRequest && Holds(m, Heal(db.flash, back), db.secSize) && EmptyCount(db.flash) == 1
    requires Half(db.flash, pd, job, back) && Visible(job.key)
    requires pd.Some? && db.flash[pd.value.0].dirty == DirtyFalse ==> back && !job.unfinished
    modifies db
    ensures db.Shape()
    ensures !end.MoveFailed? ==> db.Valid() && db.contents == m
    ensures end.MoveFailed? ==> db.gcRequest && Stuck(m, db.flash, db.oldest, pd, job, back, db.secSize)
    ensures end.MoveFailed? ==> old(db.flash)[pd.value.0].dirty == DirtyFalse
    ensures old(Stuck(m, db.flash, db.oldest, pd, job, back, db.secSize)) ==>
              end.MoveFailed? && db.flash == old(db.flash) && db.oldest == old(db.oldest)
  {
    db.inRecovery := true;
    ghost var pd1 := RetryGc(db, MaxSize(db.secSize, db.secNum), pd, job, back);
    ghost var fl := db.flash;
    SameLiveAbstracts(m, Heal(old(db.flash), back), Heal(fl, back));
    HealSound(fl, back, db.secSize);
    ghost var mid, moved, dest;
    end, mid, moved, dest := RecoverKvs(db, pd1);
    db.inRecovery := false;
    SecondScan(m, fl, mid, db.flash, db.oldest, pd1, job, back, db.secSize, end, moved, dest);
    db.contents := m;
  }

  // ---------- a crash in `set_kv` ----------

  /** A clean sector holds nothing deleted. */
  predicate CleanHolds(sec: Sector) {
    sec.dirty == DirtyFalse ==> forall r :: 0 <= r < |sec.recs| ==> sec.recs[r].status != Deleted
  }

  lemma HealedRec(sec: Sector, r: nat, back: bool, secSize: nat, pd: Option<nat>, unf: Option<nat>)
    requires SectorRepairable(sec, secSize, pd, unf) && CleanHolds(sec) && r < |sec.recs|
    requires pd.Some? ==> back || sec.dirty != DirtyFalse
    ensures var rec := HealRec(sec.recs[r], back);
      && RecSound(rec, r == 0) && RecRepairable(rec, r, None, None)
      && (sec.dirty == DirtyFalse ==> rec.status !in {PreDelete, Deleted})
  {
    assert RecSound(sec.recs[r], r == 0) && RecRepairable(sec.recs[r], r, pd, unf);
  }

  /** Healing settles a sector, unless a dropped record would have to lie in a clean one. */
  lemma SectorHealed(sec: Sector, back: bool, secSize: nat, pd: Option<nat>, unf: Option<nat>)
    requires SectorRepairable(sec, secSize, pd, unf) && CleanHolds(sec)
    requires pd.Some? ==> back || sec.dirty != DirtyFalse
    ensures SectorRepairable(HealSector(sec, back), secSize, None, None)
  {
    var recs := HealSector(sec, back).recs;
    PlacedSameLengths(sec.recs, recs, secSize);
    forall r | 0 <= r < |recs|
      ensures RecSound(recs[r], r == 0) && RecRepairable(recs[r], r, None, None)
      ensures sec.dirty == DirtyFalse ==> recs[r].status !in {PreDelete, Deleted}
    {
      HealedRec(sec, r, back, secSize, pd, unf);
    }
  }

  lemma {:induction false} SameHitsIn(a: seq<Rec>, b: seq<Rec>, p: Pair)
    requires |a| == |b| && forall i :: 0 <= i < |a| ==> Hit(a[i], p) == Hit(b[i], p)
    ensures CopiesIn(a, p) == CopiesIn(b, p)
  {
    if a != [] {
      SameHitsIn(a[..|a|-1], b[..|b|-1], p);
    }
  }

  lemma {:induction false} SameHits(a: Flash, b: Flash, p: Pair)
    requires |a| == |b| && forall s :: 0 <= s < |a| ==> CopiesIn(a[s].recs, p) == CopiesIn(b[s].recs, p)
    ensures Copies(a, p) == Copies(b, p)
  {
    if a != [] {
      SameHits(a[..|a|-1], b[..|b|-1], p);
    }
  }

  /** Healing counts the half-deleted record again if it is to come back. */
  lemma HealedCount(fl: Flash, pd: Pos, job: Repair, back: bool, p: Pair)
    requires Half(fl, Some(pd), job, back)
    ensures Copies(Heal(fl, back), p) == Copies(fl, p) + (if back then Hit(fl[pd.0].recs[pd.1].(status := Write), p) else 0)
  {
    var st := if back then Write else Deleted;
    var fl' := SetStatus(fl, pd.0, pd.1, st);
    SetStatusCopies(fl, pd.0, pd.1, st, p);
    forall s | 0 <= s < |fl|
      ensures CopiesIn(fl'[s].recs, p) == CopiesIn(Heal(fl, back)[s].recs, p)
    {
      forall r | 0 <= r < |fl[s].recs|
        ensures Hit(fl'[s].recs[r], p) == Hit(Heal(fl, back)[s].recs[r], p)
      {
        assert At(fl, (s, r));
      }
      SameHitsIn(fl'[s].recs, Heal(fl, back)[s].recs, p);
    }
    SameHits(fl', Heal(fl, back), p);
  }

  /** The crash left a record half deleted, which has to come back until the new one is complete. */
  lemma CrashIsHalf(m: map<Name, Value>, fl: Flash, d: nat, key: Name, value: Value, at: Pos, step: nat, lucky: bool, secSize: nat)
    requires CrashedSet(m, fl, d, key, value, Some(at), step, secSize) && 1 <= step
    ensures Half(Interrupted(fl, d, key, value, Some(at), step, lucky), Some(at), Repair(key, 5 <= step <= 7), step < 8)
    ensures Visible(key)
  {
    var inter := Interrupted(fl, d, key, value, Some(at), step, lucky);
    var unf := if 5 <= step <= 7 then Some(NewPos(fl, d)) else None;
    InterruptedRepairable(fl, d, key, value, Some(at), step, lucky, secSize);
    RepairableScans(inter, secSize, Some(at), unf);
    InterruptedKeepsOld(fl, d, key, value, Some(at), step, lucky);
    assert SectorOk(fl[at.0], secSize);
    if step < 8 {
      NeitherIsLive(m, fl, d, key, value, Some(at), step, lucky);
    } else {
      NewIsLive(fl, d, key, value, Some(at), lucky);
    }
    forall p: Pos | Unfinished(inter, p)
      ensures unf == Some(p)
    {
      RepairableHas(inter, secSize, Some(at), unf, p);
    }
  }

  lemma RepairableHas(fl: Flash, secSize: nat, pd: Option<Pos>, unf: Option<Pos>, p: Pos)
    requires Repairable(fl, secSize, pd, unf) && Unfinished(fl, p)
    ensures unf == Some(p)
  {
    assert SectorRepairable(fl[p.0], secSize, InSector(pd, p.0), InSector(unf, p.0));
    assert RecRepairable(fl[p.0].recs[p.1], p.1, InSector(pd, p.0), InSector(unf, p.0));
  }

  /** Only after the first write can the sector of the old record be clean. */
  lemma CleanAfterFirst(fl: Flash, d: nat, key: Name, value: Value, at: Pos, step: nat, lucky: bool)
    requires d < |fl| && At(fl, at) && 1 <= step <= 8
    ensures Interrupted(fl, d, key, value, Some(at), step, lucky)[at.0].dirty == DirtyFalse ==>
              step == 1 && fl[at.0].dirty == DirtyFalse
  {
  }

  lemma CrashCleanHolds(fl: Flash, d: nat, key: Name, value: Value, at: Pos, step: nat, lucky: bool, secSize: nat, s: nat)
    requires FlashOk(fl, secSize) && d < |fl| && At(fl, at) && 1 <= step <= 8 && s < |fl|
    ensures CleanHolds(Interrupted(fl, d, key, value, Some(at), step, lucky)[s])
  {
    assert SectorOk(fl[s], secSize);
    var marked := OldMarked(fl, Some(at), step);
    assert CleanHolds(marked[s]);
  }

  lemma CrashHeals(m: map<Name, Value>, fl: Flash, d: nat, key: Name, value: Value, at: Pos, step: nat, lucky: bool, secSize: nat)
    requires CrashedSet(m, fl, d, key, value, Some(at), step, secSize) && 1 <= step
    ensures var v := Heal(Interrupted(fl, d, key, value, Some(at), step, lucky), step < 8);
            FlashOk(v, secSize) && Settled(v) && EmptyCount(v) >= 1
  {
    var inter := Interrupted(fl, d, key, value, Some(at), step, lucky);
    var unf := if 5 <= step <= 7 then Some(NewPos(fl, d)) else None;
    InterruptedRepairable(fl, d, key, value, Some(at), step, lucky, secSize);
    CleanAfterFirst(fl, d, key, value, at, step, lucky);
    forall s | 0 <= s < |fl|
      ensures SectorRepairable(Heal(inter, step < 8)[s], secSize, InSector(None, s), InSector(None, s))
    {
      assert SectorRepairable(inter[s], secSize, InSector(Some(at), s), InSector(unf, s));
      CrashCleanHolds(fl, d, key, value, at, step, lucky, secSize, s);
      SectorHealed(inter[s], step < 8, secSize, InSector(Some(at), s), InSector(unf, s));
    }
    RepairedSettles(Heal(inter, step < 8), secSize);
    HealCounts(inter, step < 8);
  }

  /** Healed, the flash holds the old map, or the new one once the new record was complete. */
  lemma CrashHolds(m: map<Name, Value>, fl: Flash, d: nat, key: Name, value: Value, at: Pos, step: nat, lucky: bool, secSize: nat)
    requires CrashedSet(m, fl, d, key, value, Some(at), step, secSize) && 1 <= step
    ensures Holds(Restored(m, key, value, step), Heal(Interrupted(fl, d, key, value, Some(at), step, lucky), step < 8), secSize)
  {
    var inter := Interrupted(fl, d, key, value, Some(at), step, lucky);
    var m' := Restored(m, key, value, step);
    CrashHeals(m, fl, d, key, value, at, step, lucky, secSize);
    CrashIsHalf(m, fl, d, key, value, at, step, lucky, secSize);
    KnownBefore(m, fl, key, Some(at), secSize);
    InterruptedKeepsOld(fl, d, key, value, Some(at), step, lucky);
    forall n, v | Visible(n)
      ensures Copies(Heal(inter, step < 8), (n, v)) == (if n in m' && m'[n] == v then 1 else 0)
    {
      HealedCount(inter, at, Repair(key, 5 <= step <= 7), step < 8, (n, v));
      InterruptedCounts(fl, d, key, value, Some(at), step, lucky, (n, v));
      assert Copies(fl, (n, v)) == (if n in m && m[n] == v then 1 else 0);
    }
  }

  /** `_fdb_kv_load` after power was lost between two flash writes of `set_kv`, with its first retry. The
      store is back with the old value or the new one, except that the key stays hidden if the unfinished
      record comes before the half-deleted one, and that loading does not end (see `Retry`) if power was
      lost right after the first write, the sector of the old record was clean, and collecting made no
      room for it. */
  method Load(db: Kvdb, ghost m: map<Name, Value>, ghost fl: Flash, ghost d: nat, ghost key: Name,
              ghost value: Value, ghost at: Option<Pos>, ghost step: nat, ghost lucky: bool)
    returns (end: ScanEnd)
    requires |fl| == db.secNum && db.oldest < db.secNum && !db.gcRequest
    requires CrashedSet(m, fl, d, key, value, at, step, db.secSize)
    requires db.flash == Crash(fl, d, key, value, at, step, lucky, db.secSize)
    modifies db
    ensures db.Valid() <==> !end.MoveFailed? && !StopsEarly(fl, d, at, step, old(db.oldest))
    ensures db.Valid() ==> db.contents == Restored(m, key, value, step)
    ensures StopsEarly(fl, d, at, step, old(db.oldest)) ==> Hidden(m, key, at, db.flash)
    ensures end.MoveFailed? ==> at.Some? && step == 1 && fl[at.value.0].dirty == DirtyFalse
                                && Stuck(m, db.flash, db.oldest, at, Repair(key, false), true, db.secSize)
  {
    end := LoadAfterCrash(db, m, fl, d, key, value, at, step, lucky);
    if end.MoveFailed? {
      CrashIsHalf(m, fl, d, key, value, at.value, step, lucky, db.secSize);
      CrashHolds(m, fl, d, key, value, at.value, step, lucky, db.secSize);
      CleanAfterFirst(fl, d, key, value, at.value, step, lucky);
      FailsWithOneEmpty(m, fl, d, key, value, at, step, lucky, db.oldest, db.secSize);
      end := Retry(db, Restored(m, key, value, step), at, Repair(key, 5 <= step <= 7), step < 8);
    }
  }

  /** Loading does not end for the store of `RecoveryCanStick` if power was lost after the first write. */
  lemma LoadingCanStick(lucky: bool)
    ensures CrashedSet(map["k" := BIG], TIGHT, 0, "k", [2], Some((0, 0)), 1, EXAMPLE_SIZE)
    ensures Stuck(map["k" := BIG], Interrupted(TIGHT, 0, "k", [2], Some((0, 0)), 1, lucky), 0, Some((0, 0)),
                  Repair("k", false), true, EXAMPLE_SIZE)
  {
    RecoveryCanStick(1, lucky);
    CrashIsHalf(map["k" := BIG], TIGHT, 0, "k", [2], (0, 0), 1, lucky, EXAMPLE_SIZE);
    CrashHolds(map["k" := BIG], TIGHT, 0, "k", [2], (0, 0), 1, lucky, EXAMPLE_SIZE);
    FailsWithOneEmpty(map["k" := BIG], TIGHT, 0, "k", [2], Some((0, 0)), 1, lucky, 0, EXAMPLE_SIZE);
  }
}
