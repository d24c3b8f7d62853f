// The two things power loss can leave that mislead the walk of a sector after the next restart: a stray
// byte behind other records, and a magic word in the name of a record without a value (fdb_kvdb.c:
// find_next_kv_addr, get_next_kv_addr, read_sector_info).

module KvGap {
  import opened Options
  import opened KvFlash
  import opened KvStore
  import opened KvRecovery
  import opened Crc32
  import opened RecordBytes
  import opened KvSectorCache
  import StatusTable

  lemma MarkedStrays(fl: Flash, at: Option<Pos>, step: nat, s: nat)
    requires s < |fl| && (at.Some? ==> At(fl, at.value) && fl[at.value.0].recs[at.value.1].Live())
    ensures |OldMarked(fl, at, step)[s].recs| == |fl[s].recs|
    ensures Strays(OldMarked(fl, at, step)[s].recs) == Strays(fl[s].recs)
  {
    StraysSame(fl[s].recs, OldMarked(fl, at, step)[s].recs);
  }

  lemma TailIsStray(key: Name, value: Value, step: nat, lucky: bool, behind: bool)
    requires 3 <= step <= 8 && (step == 3 ==> !behind)
    ensures Tail(key, value, step, lucky, behind).status == Stray <==> step == 4 && behind
  {
  }

  /** Of all places where `set_kv` can lose power exactly one leaves a stray byte: behind the status byte
      of the new record, in a sector that holds records already. */
  lemma StrayIff(fl: Flash, d: nat, key: Name, value: Value, at: Option<Pos>, step: nat, lucky: bool, s: nat)
    requires d < |fl| && s < |fl| && step <= 8 && OldRecord(fl, key, at)
    ensures Strays(Interrupted(fl, d, key, value, at, step, lucky)[s].recs)
         == Strays(fl[s].recs) + (if s == d && step == 4 && fl[d].recs != [] then 1 else 0)
  {
    var marked := OldMarked(fl, at, step);
    MarkedStrays(fl, at, step, s);
    if step >= 3 && s == d {
      MarkedStrays(fl, at, step, d);
      assert marked[d].recs == [] <==> fl[d].recs == [];
      if step > 3 || fl[d].recs == [] {
        var tail := Tail(key, value, step, lucky, fl[d].recs != []);
        TailIsStray(key, value, step, lucky, fl[d].recs != []);
        StraysAppend(marked[d].recs, tail);
      }
    }
  }

  lemma SoundAfterCrash(m: map<Name, Value>, fl: Flash, d: nat, key: Name, value: Value, at: Option<Pos>, lucky: bool, secSize: nat)
    requires CrashedSet(m, fl, d, key, value, at, 4, secSize)
    ensures FlashSound(Interrupted(fl, d, key, value, at, 4, lucky), secSize)
    ensures Interrupted(fl, d, key, value, at, 4, lucky)[d].store == StoreUsing
  {
    InterruptedRepairable(fl, d, key, value, at, 4, lucky, secSize);
    RepairableScans(Interrupted(fl, d, key, value, at, 4, lucky), secSize, HalfDeleted(at, 4), None);
  }

  /** A sound sector in use with so many stray bytes, and its last record. */
  ghost predicate EndsIn(sec: Sector, strays: nat, last: Rec, secSize: nat) {
    && SectorSound(sec, secSize) && sec.store == StoreUsing
    && Strays(sec.recs) == strays && sec.recs != [] && sec.recs[|sec.recs|-1] == last
  }

  lemma NextInSector(fl: Flash, d: nat, next: Rec, secSize: nat)
    requires FlashSound(fl, secSize) && d < |fl| && fl[d].store == StoreUsing
    requires next.status == Write && next.Intact() && Fits(fl[d], next.Len(), false, secSize)
    ensures EndsIn(Program(fl, d, next, secSize)[d], Strays(fl[d].recs), next, secSize)
  {
    ProgramSound(fl, d, next, false, secSize);
    assert SectorSound(Program(fl, d, next, secSize)[d], secSize);
    StraysAppend(fl[d].recs, next);
  }

  /** The next record of the sector is laid out behind the stray byte. */
  lemma NextIsBehind(m: map<Name, Value>, fl: Flash, d: nat, key: Name, value: Value, at: Option<Pos>, lucky: bool, secSize: nat,
                     next: Rec)
    requires CrashedSet(m, fl, d, key, value, at, 4, secSize) && fl[d].recs != [] && Strays(fl[d].recs) == 0
    requires next.status == Write && next.Intact()
    requires Fits(Interrupted(fl, d, key, value, at, 4, lucky)[d], next.Len(), false, secSize)
    ensures EndsIn(Program(Interrupted(fl, d, key, value, at, 4, lucky), d, next, secSize)[d], 1, next, secSize)
  {
    SoundAfterCrash(m, fl, d, key, value, at, lucky, secSize);
    StrayIff(fl, d, key, value, at, 4, lucky, d);
    NextInSector(Interrupted(fl, d, key, value, at, 4, lucky), d, next, secSize);
  }

  /** If its body (its value, see `BodyEnds`) ends in 0xFF, the walk after the next restart takes that
      byte for erased, and the status byte of whatever is written next destroys the record. */
  lemma LostByte(sec: Sector, bytes: seq<bv8>, secSize: nat, empty: nat, remain: int, lengths: seq<bv8>, from: nat)
    requires SectorSound(sec, secSize) && sec.store == StoreUsing && Strays(sec.recs) == 1 && TailErased(bytes, sec, secSize)
    requires from < EmptyOffset(sec) && bytes[EmptyOffset(sec) - 1] == ERASED && AllPhantoms(sec.recs, bytes) == 0
    requires WalkResult(sec, bytes, secSize, empty, remain)
    ensures empty == EmptyOffset(sec) - 1
    ensures var damaged := bytes[empty := bytes[empty] & StatusTable.Mask(1)];
            Crc(0, lengths + damaged[from..EmptyOffset(sec)]) != Crc(0, lengths + bytes[from..EmptyOffset(sec)])
  {
    WalkExactIff(sec, bytes, secSize, empty, remain);
    PreWriteByte(bytes[empty]);
    LastByteTells(lengths, bytes, from, EmptyOffset(sec), bytes[empty] & StatusTable.Mask(1));
  }

  lemma PreWriteByte(byte: bv8)
    requires byte == ERASED
    ensures byte & StatusTable.Mask(1) != ERASED
  {
    StatusTable.OnesAnd(StatusTable.Mask(1));
  }

  const STRAY := Rec(Stray, "", [], false, false)

  lemma GapCrash(lucky: bool)
    ensures CrashedSet(map["a" := BIG, "k" := SMALL], EXAMPLE, 0, "b", [2], None, 4, EXAMPLE_SIZE)
    ensures var inter := Interrupted(EXAMPLE, 0, "b", [2], None, 4, lucky);
      && inter[0] == Sector(StoreUsing, DirtyFalse, [OTHER, STRAY]) && |inter| == 3
      && Allocates(inter, 0, KvLen(1, 1), false, EXAMPLE_SIZE, Some(0))
  {
    ExampleIsWritten();
    ExampleHolds();
    assert [OTHER, STRAY] == [OTHER] + [STRAY];
    UsedOne(OTHER);
    UsedAppend([OTHER], STRAY);
  }

  /** A store and a crash for which this happens. */
  lemma GapExample(lucky: bool)
    ensures CrashedSet(map["a" := BIG, "k" := SMALL], EXAMPLE, 0, "b", [2], None, 4, EXAMPLE_SIZE)
    ensures var inter, next := Interrupted(EXAMPLE, 0, "b", [2], None, 4, lucky), Rec(Write, "b", [ERASED], true, true);
      && Allocates(inter, 0, next.Len(), false, EXAMPLE_SIZE, Some(0))
      && Strays(Program(inter, 0, next, EXAMPLE_SIZE)[0].recs) == 1
  {
    GapCrash(lucky);
    assert [OTHER][..0] == [];
    StraysAppend([OTHER], STRAY);
    StraysAppend([OTHER] + [STRAY], Rec(Write, "b", [ERASED], true, true));
    assert [OTHER] + [STRAY] == [OTHER, STRAY];
  }

  // ---------- a magic word inside a record ----------

  lemma EndsTooFar(sec: Sector, rec: Rec, secSize: nat, p: nat, bytes: seq<bv8>, empty: nat, remain: int)
    requires EndsIn(sec, 0, rec, secSize) && !rec.crcOk && rec.status != Stray
    requires EmptyOffset(sec) - rec.Len() < p < EmptyOffset(sec) && MagicAt(bytes, p + MAGIC_OFFSET)
    requires TailErased(bytes, sec, secSize) && WalkResult(sec, bytes, secSize, empty, remain)
    ensures EmptyOffset(sec) < secSize && (empty >= EmptyOffset(sec) + KV_HDR || empty == secSize)
  {
    PhantomCounted(bytes, EmptyOffset(sec) - rec.Len() + 1, EmptyOffset(sec), p);
    assert AllPhantoms(sec.recs, bytes) >= 1;
    WalkExactIff(sec, bytes, secSize, empty, remain);
  }

  /** A new record cut off behind its name ends its sector. */
  lemma CutOff(m: map<Name, Value>, fl: Flash, d: nat, key: Name, value: Value, at: Option<Pos>, secSize: nat)
    requires CrashedSet(m, fl, d, key, value, at, 6, secSize)
    ensures EndsIn(Interrupted(fl, d, key, value, at, 6, false)[d], Strays(fl[d].recs), Rec(PreWrite, key, value, true, false), secSize)
  {
    InterruptedRepairable(fl, d, key, value, at, 6, false, secSize);
    RepairableScans(Interrupted(fl, d, key, value, at, 6, false), secSize, HalfDeleted(at, 6), Some(NewPos(fl, d)));
    StrayIff(fl, d, key, value, at, 6, false, d);
  }

  /** A header at `p` would have its magic word in the name of the last record. */
  predicate InName(sec: Sector, p: nat, key: Name, value: Value) {
    EmptyOffset(sec) <= p + MAGIC_OFFSET + |key| + |value| && p + MAGIC_OFFSET + 4 + |value| <= EmptyOffset(sec)
  }

  /** A record cut off between its name and its value, in which the name holds the magic word: the walk
      takes the word for the header of a record more and ends at least 24 bytes behind the free address,
      or at the end of the sector. */
  lemma MagicNameMisleads(m: map<Name, Value>, fl: Flash, d: nat, key: Name, value: Value, at: Option<Pos>, secSize: nat,
                          sec: Sector, p: nat, bytes: seq<bv8>, empty: nat, remain: int)
    requires CrashedSet(m, fl, d, key, value, at, 6, secSize) && Strays(fl[d].recs) == 0
    requires sec == Interrupted(fl, d, key, value, at, 6, false)[d]
    requires InName(sec, p, key, value) && MagicAt(bytes, p + MAGIC_OFFSET)
    requires TailErased(bytes, sec, secSize) && WalkResult(sec, bytes, secSize, empty, remain)
    ensures EmptyOffset(sec) < secSize && (empty >= EmptyOffset(sec) + KV_HDR || empty == secSize)
  {
    CutOff(m, fl, d, key, value, at, secSize);
    EndsTooFar(sec, Rec(PreWrite, key, value, true, false), secSize, p, bytes, empty, remain);
  }
}
