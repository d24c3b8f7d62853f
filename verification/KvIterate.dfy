// Enumerating the store (fdb_kv_iterator_init and fdb_kv_iterate of fdb_kvdb.c).

module KvIterate {
  import opened Options
  import opened SectorRing
  import opened KvFlash
  import opened KvStore

  predicate Listed(rec: Rec) { rec.status == Write && rec.crcOk }

  /** The live records of a sector from index `i` on. */
  function LiveFrom(recs: seq<Rec>, i: nat): seq<Pair>
    decreases |recs| - i
  {
    if i >= |recs| then []
    else if Listed(recs[i]) then [recs[i].Pair()] + LiveFrom(recs, i + 1)
    else LiveFrom(recs, i + 1)
  }

  /** The live records from the k-th sector of the walk on. */
  function Listing(fl: Flash, oldest: nat, k: nat): seq<Pair>
    requires oldest < |fl|
    decreases |fl| - k
  {
    if k >= |fl| then []
    else LiveFrom(fl[RingAt(oldest, |fl|, k)].recs, 0) + Listing(fl, oldest, k + 1)
  }

  /** What an iterator at record `cur` of the k-th sector has still to return; no record stands
      for the start address 0. */
  ghost function RestOf(fl: Flash, oldest: nat, k: nat, cur: Option<nat>): seq<Pair>
    requires oldest < |fl| && k < |fl|
  {
    if cur.None? then Listing(fl, oldest, k)
    else LiveFrom(fl[RingAt(oldest, |fl|, k)].recs, cur.value + 1) + Listing(fl, oldest, k + 1)
  }

  lemma SectorDone(fl: Flash, oldest: nat, k: nat, cur: Option<nat>)
    requires oldest < |fl| && k < |fl|
    requires LiveFrom(fl[RingAt(oldest, |fl|, k)].recs, if cur.None? then 0 else cur.value + 1) == []
    ensures RestOf(fl, oldest, k, cur) == Listing(fl, oldest, k + 1)
  {
  }

  class KvIterator {
    const db: Kvdb
    var sector: nat
    var traversed: nat
    var cur: Option<nat>

    ghost predicate Valid()
      reads this, db
    {
      && |db.flash| == db.secNum && db.oldest < db.secNum && Walkable(db.flash)
      && traversed < db.secNum && sector == RingAt(db.oldest, db.secNum, traversed)
      && (cur.Some? ==> cur.value < |db.flash[sector].recs|)
    }

    ghost function Rest(): seq<Pair>
      requires Valid()
      reads this, db
    {
      RestOf(db.flash, db.oldest, traversed, cur)
    }

    /** `fdb_kv_iterator_init` */
    constructor (db: Kvdb)
      requires db.Valid()
      ensures Valid() && this.db == db && Rest() == Listing(db.flash, db.oldest, 0)
    {
      this.db := db;
      sector, traversed, cur := db.oldest, 0, None;
      new;
      OkIsWalkable(db.flash, db.secSize);
    }

    /** `fdb_kv_iterate`: steps to the next live record; false once there is none. */
    method Next() returns (more: bool)
      requires Valid()
      modifies this
      ensures more ==> Valid() && cur.Some? && old(Rest()) == [db.flash[sector].recs[cur.value].Pair()] + Rest()
      ensures !more ==> old(Rest()) == []
    {
      var fl, oldest := db.flash, db.oldest;
      var s, k, c := sector, traversed, cur;
      while true
        invariant 0 <= k < |fl| && s == RingAt(oldest, |fl|, k)
        invariant RestOf(fl, oldest, k, c) == old(Rest())
        decreases |fl| - k
      {
        var next := None;
        if fl[s].store == StoreUsing || fl[s].store == StoreFull {
          next := NextListed(fl[s].recs, if c.None? then 0 else c.value + 1);
        }
        if next.Some? {
          sector, traversed, cur := s, k, next;
          return true;
        }
        SectorDone(fl, oldest, k, c);
        c, k := None, k + 1;
        if k >= |fl| {
          sector, traversed, cur := s, k, c;
          return false;
        }
        s := NextSector(s, |fl|);
      }
    }
  }

  /** The inner record loop: the first live record from `i` on. */
  method NextListed(recs: seq<Rec>, i: nat) returns (found: Option<nat>)
    ensures found.Some? ==>
              (i <= found.value < |recs|
               && LiveFrom(recs, i) == [recs[found.value].Pair()] + LiveFrom(recs, found.value + 1))
    ensures found.None? ==> LiveFrom(recs, i) == []
  {
    var r := i;
    while r < |recs|
      invariant i <= r && LiveFrom(recs, r) == LiveFrom(recs, i)
      decreases |recs| - r
    {
      if Listed(recs[r]) {
        return Some(r);
      }
      r := r + 1;
    }
    found := None;
  }

  /** Every pair the iterator returns, in order. */
  method ListAll(db: Kvdb) returns (list: seq<Pair>)
    requires db.Valid()
    ensures list == Listing(db.flash, db.oldest, 0)
  {
    var itr := new KvIterator(db);
    list := [];
    ghost var total := itr.Rest();
    ghost var rest := total;
    while true
      invariant itr.Valid() && itr.db == db && fresh(itr) && rest == itr.Rest()
      invariant total == list + rest
      decreases |rest|
    {
      var more := itr.Next();
      if !more {
        return;
      }
      var next := db.flash[itr.sector].recs[itr.cur.value].Pair();
      assert total == list + ([next] + itr.Rest()) == (list + [next]) + itr.Rest();
      list := list + [next];
      rest := itr.Rest();
    }
  }

  // ---------- the listing is the map ----------

  lemma TimesCons(x: Pair, list: seq<Pair>, p: Pair)
    ensures multiset([x] + list)[p] == multiset(list)[p] + (if x == p then 1 else 0)
  {
    assert multiset([x] + list) == multiset([x]) + multiset(list);
  }

  lemma {:induction false} LiveFromCounts(recs: seq<Rec>, i: nat, p: Pair)
    requires i <= |recs|
    requires forall r :: 0 <= r < |recs| && recs[r].Live() ==> recs[r].crcOk
    ensures CopiesIn(recs, p) == CopiesIn(recs[..i], p) + multiset(LiveFrom(recs, i))[p]
    decreases |recs| - i
  {
    if i < |recs| {
      LiveFromCounts(recs, i + 1, p);
      assert recs[..i+1][..i] == recs[..i];
      TimesCons(recs[i].Pair(), LiveFrom(recs, i + 1), p);
    } else {
      assert recs[..i] == recs;
    }
  }

  lemma {:induction false} CopiesConcat(a: Flash, b: Flash, p: Pair)
    ensures Copies(a + b, p) == Copies(a, p) + Copies(b, p)
    decreases |b|
  {
    if b == [] {
      assert a + b == a;
    } else {
      CopiesConcat(a, b[..|b|-1], p);
      assert (a + b)[..|a+b|-1] == a + b[..|b|-1];
    }
  }

  lemma CopiesSnoc(fl: Flash, k: nat, p: Pair)
    requires k < |fl|
    ensures Copies(fl[..k+1], p) == Copies(fl[..k], p) + CopiesIn(fl[k].recs, p)
  {
    assert fl[..k+1][..k] == fl[..k];
  }

  lemma TimesConcat(a: seq<Pair>, b: seq<Pair>, p: Pair)
    ensures multiset(a + b)[p] == multiset(a)[p] + multiset(b)[p]
  {
    assert multiset(a + b) == multiset(a) + multiset(b);
  }

  lemma SectorCounts(sec: Sector, secSize: nat, p: Pair)
    requires SectorOk(sec, secSize)
    ensures CopiesIn(sec.recs, p) == multiset(LiveFrom(sec.recs, 0))[p]
  {
    LiveFromCounts(sec.recs, 0, p);
  }

  lemma {:induction false} ListingCounts(fl: Flash, ring: Flash, oldest: nat, k: nat, secSize: nat, p: Pair)
    requires oldest < |fl| && k <= |fl| && FlashOk(fl, secSize)
    requires |ring| == |fl| && forall j :: 0 <= j < |fl| ==> ring[j] == fl[RingAt(oldest, |fl|, j)]
    ensures Copies(ring, p) == Copies(ring[..k], p) + multiset(Listing(fl, oldest, k))[p]
    decreases |fl| - k
  {
    if k < |fl| {
      ListingCounts(fl, ring, oldest, k + 1, secSize, p);
      CopiesSnoc(ring, k, p);
      SectorCounts(ring[k], secSize, p);
      TimesConcat(LiveFrom(ring[k].recs, 0), Listing(fl, oldest, k + 1), p);
    } else {
      assert ring[..k] == ring;
    }
  }

  lemma RingCopies(fl: Flash, oldest: nat, p: Pair)
    requires oldest < |fl|
    ensures Copies(fl[oldest..] + fl[..oldest], p) == Copies(fl, p)
  {
    CopiesConcat(fl[oldest..], fl[..oldest], p);
    CopiesConcat(fl[..oldest], fl[oldest..], p);
    assert fl[..oldest] + fl[oldest..] == fl;
  }

  /** The iterator returns each live record exactly as often as it is on flash. */
  lemma ListingIsExact(fl: Flash, oldest: nat, secSize: nat, p: Pair)
    requires oldest < |fl| && FlashOk(fl, secSize)
    ensures multiset(Listing(fl, oldest, 0))[p] == Copies(fl, p)
  {
    ListingCounts(fl, fl[oldest..] + fl[..oldest], oldest, 0, secSize, p);
    RingCopies(fl, oldest, p);
  }

  /** So for every name a lookup can see, the iterator returns the pair of the map once and no other. */
  lemma ListingIsTheMap(m: map<Name, Value>, fl: Flash, oldest: nat, secSize: nat, name: Name, value: Value)
    requires oldest < |fl| && FlashOk(fl, secSize) && Abstracts(m, fl) && Visible(name)
    ensures multiset(Listing(fl, oldest, 0))[(name, value)] == (if name in m && m[name] == value then 1 else 0)
  {
    ListingIsExact(fl, oldest, secSize, (name, value));
  }
}
