// The name cache of the key-value store (fdb_kvdb.c: update_kv_cache, get_kv_from_cache, find_kv,
// and the cache side of set, delete and move). It never changes what a lookup finds.

module KvCache {
  import opened Options
  import opened KvFlash
  import opened KvStore

  /** A record's flash address: sector and position. */
  type Addr = (nat, nat)

  // FDB_KV_CACHE_TABLE_SIZE, and the largest uint16_t
  const CACHE_SIZE: nat := 64
  const ACTIVE_MAX: nat := 0xFFFF

  /** `addr` is None for FDB_DATA_UNUSED; such an entry keeps its old checksum. */
  datatype Entry = Entry(addr: Option<Addr>, crc: nat, active: nat)

  /** A used entry is the first that carries its checksum. */
  ghost predicate FirstOfItsCrc(t: seq<Entry>) {
    forall i, j :: 0 <= j < i < |t| && t[i].addr.Some? ==> t[j].crc != t[i].crc
  }

  /** Only activities differ. */
  ghost predicate SameButActivity(t: seq<Entry>, u: seq<Entry>) {
    |t| == |u| && forall i :: 0 <= i < |t| ==> t[i].addr == u[i].addr && t[i].crc == u[i].crc
  }

  /** `u` is `t` after `addr` was entered for checksum `c`; at most one other entry is given up. */
  ghost predicate Entered(t: seq<Entry>, u: seq<Entry>, c: nat, addr: Option<Addr>) {
    && |u| == |t| && FirstOfItsCrc(u)
    && (forall i :: 0 <= i < |u| && u[i].addr.Some? && u[i].crc == c ==> u[i].addr == addr)
    && (forall i :: 0 <= i < |u| && u[i].addr.Some? && u[i].crc != c ==> u[i].addr == t[i].addr && u[i].crc == t[i].crc)
    && (addr.Some? ==> exists i :: 0 <= i < |u| && u[i].addr == addr && u[i].crc == c)
  }

  /** All entries but one keep their address and checksum. */
  ghost predicate OneReplaced(t: seq<Entry>, u: seq<Entry>) {
    |u| == |t| && exists at :: 0 <= at < |u| && SameButAt(t, u, at)
  }

  ghost predicate SameButAt(t: seq<Entry>, u: seq<Entry>, at: nat)
    requires |u| == |t|
  {
    forall i :: 0 <= i < |u| && i != at ==> u[i].addr == t[i].addr && u[i].crc == t[i].crc
  }

  lemma EnteredAt(t: seq<Entry>, was: seq<Entry>, i: nat, c: nat, e: Entry)
    requires FirstOfItsCrc(was) && SameButActivity(was, t) && i < |t|
    requires e.crc == c && forall j :: 0 <= j < |t| && j != i && t[j].addr.Some? ==> t[j].crc != c
    requires forall j :: 0 <= j < |t| && j < i ==> t[j].crc != c
    requires t[i].crc == c || forall j :: 0 <= j < |t| ==> t[j].crc != c
    ensures Entered(was, t[i := e], c, e.addr) && OneReplaced(was, t[i := e])
  {
    var u := t[i := e];
    forall x, y | 0 <= y < x < |u| && u[x].addr.Some?
      ensures u[y].crc != u[x].crc
    {
      assert x != i ==> was[x].addr.Some?;
    }
    assert u[i] == e && SameButAt(was, u, i);
  }

  class NameCache {
    const crc: string -> nat
    const table: array<Entry>
    var lastIsCompleteDel: bool

    ghost predicate Valid()
      reads this, table
    {
      table.Length == CACHE_SIZE && FirstOfItsCrc(table[..])
      && forall i :: 0 <= i < table.Length ==> table[i].active <= ACTIVE_MAX
    }

    constructor (crc: string -> nat)
      ensures Valid() && this.crc == crc && !lastIsCompleteDel && fresh(table)
      ensures forall i :: 0 <= i < table.Length ==> table[i].addr.None?
    {
      this.crc := crc;
      table := new Entry[CACHE_SIZE](_ => Entry(None, 0, 0));
      lastIsCompleteDel := false;
    }

    /** The part of `update_kv_cache` that enters an address. */
    method Enter(name: string, addr: Addr)
      requires Valid()
      modifies table
      ensures Valid() && Entered(old(table[..]), table[..], crc(name), Some(addr))
      ensures OneReplaced(old(table[..]), table[..])
    {
      var c := crc(name);
      var emptyIndex, minIndex, minActivity := table.Length, table.Length, ACTIVE_MAX;
      ghost var was := table[..];
      var i := 0;
      while i < table.Length
        invariant 0 <= i <= table.Length
        invariant SameButActivity(was, table[..])
        invariant forall j :: 0 <= j < i ==> was[j].crc != c
        invariant emptyIndex == table.Length || (0 <= emptyIndex < i)
        invariant if minIndex == table.Length then minActivity == ACTIVE_MAX else 0 <= minIndex < i
        invariant forall j :: 0 <= j < table.Length ==> table[j].active <= ACTIVE_MAX
        invariant i > 0 ==> emptyIndex < table.Length || minIndex < table.Length
      {
        if table[i].crc == c {
          EnteredAt(table[..], was, i, c, table[i].(addr := Some(addr)));
          table[i] := table[i].(addr := Some(addr));
          return;
        } else if table[i].addr.None? && emptyIndex == table.Length {
          emptyIndex := i;
        } else if table[i].addr.Some? {
          if table[i].active > 0 {
            table[i] := table[i].(active := table[i].active - 1);
          }
          if table[i].active < minActivity {
            minIndex, minActivity := i, table[i].active;
          }
        }
        i := i + 1;
      }
      var at := if emptyIndex < table.Length then emptyIndex else minIndex;
      EnteredAt(table[..], was, at, c, Entry(Some(addr), c, CACHE_SIZE));
      table[at] := Entry(Some(addr), c, CACHE_SIZE);
    }

    /** The part that gives a deleted name's entry up. */
    method Forget(name: string)
      requires Valid()
      modifies table
      ensures Valid() && Entered(old(table[..]), table[..], crc(name), None)
      ensures OneReplaced(old(table[..]), table[..])
    {
      var c := crc(name);
      assert SameButAt(table[..], table[..], 0);
      for i := 0 to table.Length
        invariant table[..] == old(table[..])
        invariant forall j :: 0 <= j < i ==> table[j].crc != c
      {
        if table[i].crc == c {
          EnteredAt(table[..], table[..], i, c, table[i].(addr := None, active := 0));
          table[i] := table[i].(addr := None, active := 0);
          return;
        }
      }
    }

    /** `update_kv_cache` */
    method Update(name: string, addr: Option<Addr>)
      requires Valid()
      modifies table
      ensures Valid() && Entered(old(table[..]), table[..], crc(name), addr)
      ensures OneReplaced(old(table[..]), table[..])
    {
      match addr
      case Some(a) => Enter(name, a);
      case None => Forget(name);
    }

    /** `get_kv_from_cache`; `saved` gives the bytes on flash from a record's name on. */
    method Lookup(name: string, saved: Addr -> string) returns (addr: Option<Addr>)
      requires Valid()
      modifies table
      ensures Valid() && SameButActivity(old(table[..]), table[..])
      ensures addr == Cached(old(table[..]), crc(name), name, saved)
    {
      ghost var t := table[..];
      for i := 0 to table.Length
        invariant table[..] == t
        invariant Cached(t, crc(name), name, saved) == Cached(t[i..], crc(name), name, saved)
      {
        if table[i].addr.Some? && table[i].crc == crc(name) && name <= saved(table[i].addr.value) {
          addr := table[i].addr;
          var active := if table[i].active >= ACTIVE_MAX - CACHE_SIZE then ACTIVE_MAX else table[i].active + CACHE_SIZE;
          table[i] := table[i].(active := active);
          return;
        }
        assert t[i..][1..] == t[i+1..];
      }
      addr := None;
    }

    // ---------- the cache side of the writes ----------

    /** The cache part of `del_kv`: a deletion that completes a replacement leaves the entry of the
        new record alone. */
    method DelKv(name: string, complete: bool)
      requires Valid()
      modifies this, table
      ensures Valid() && lastIsCompleteDel == !complete
      ensures complete && !old(lastIsCompleteDel) ==> Entered(old(table[..]), table[..], crc(name), None)
      ensures !complete || old(lastIsCompleteDel) ==> table[..] == old(table[..])
    {
      if !complete {
        lastIsCompleteDel := true;
      } else {
        if !lastIsCompleteDel {
          Update(name, None);
        }
        lastIsCompleteDel := false;
      }
    }

    /** What `fdb_kv_del` does to the cache. */
    method AfterDelete(ghost fl: Flash, name: Name, ghost s: nat, ghost r: nat)
      requires Valid() && !lastIsCompleteDel && NamesCoherent(table[..], fl, crc)
      requires s < |fl| && r < |fl[s].recs| && fl[s].recs[r].name == name
      modifies this, table
      ensures Valid() && !lastIsCompleteDel && NamesCoherent(table[..], DelWrites(fl, s, r, Deleted), crc)
    {
      ghost var t := table[..];
      DelKv(name, true);
      CoherentAfter(t, table[..], fl, DelWrites(fl, s, r, Deleted), crc, crc(name), None);
    }

    /** What `set_kv` does to the cache: the new record is entered when it is created, between the
        two halves of the deletion of the old one. */
    method AfterSet(ghost fl: Flash, ghost d: nat, name: Name, ghost value: Value, old_: Option<Addr>, new_: Addr, ghost secSize: nat)
      requires Valid() && !lastIsCompleteDel && NamesCoherent(table[..], fl, crc)
      requires d < |fl| && OldRecord(fl, name, old_) && new_ == (d, |fl[d].recs|)
      modifies this, table
      ensures Valid() && !lastIsCompleteDel
      ensures NamesCoherent(table[..], ReplaceWrites(fl, d, name, value, old_, secSize), crc)
    {
      ghost var t := table[..];
      if old_.Some? {
        DelKv(name, false);
      }
      Update(name, Some(new_));
      if old_.Some? {
        DelKv(name, true);
      }
      CoherentAfter(t, table[..], fl, ReplaceWrites(fl, d, name, value, old_, secSize), crc, crc(name), Some(new_));
    }

    /** What `move_kv` does to the cache when it moves a live record. */
    method AfterMove(ghost fl: Flash, ghost x: nat, ghost r: nat, ghost d: nat, name: Name, new_: Addr, ghost secSize: nat)
      requires Valid() && !lastIsCompleteDel && NamesCoherent(table[..], fl, crc)
      requires x < |fl| && r < |fl[x].recs| && fl[x].recs[r].status == Write && fl[x].recs[r].name == name
      requires d < |fl| && d != x && new_ == (d, |fl[d].recs|)
      modifies this, table
      ensures Valid() && !lastIsCompleteDel && NamesCoherent(table[..], MoveWrites(fl, x, r, d, secSize), crc)
    {
      ghost var t := table[..];
      DelKv(name, false);
      Update(name, Some(new_));
      DelKv(name, true);
      MoveShape(fl, x, r, d, secSize);
      CoherentAfter(t, table[..], fl, MoveWrites(fl, x, r, d, secSize), crc, crc(name), Some(new_));
    }
  }

  /** What the table answers: the first used entry with the checksum whose saved bytes start with
      the name. */
  function Cached(t: seq<Entry>, c: nat, name: string, saved: Addr -> string): Option<Addr> {
    if t == [] then None
    else if t[0].addr.Some? && t[0].crc == c && name <= saved(t[0].addr.value) then t[0].addr
    else Cached(t[1..], c, name, saved)
  }

  lemma {:induction false} CachedIsUsed(t: seq<Entry>, c: nat, name: string, saved: Addr -> string) returns (i: nat)
    requires Cached(t, c, name, saved).Some?
    ensures i < |t| && t[i].addr == Cached(t, c, name, saved) && t[i].crc == c && name <= saved(t[i].addr.value)
  {
    if t[0].addr.Some? && t[0].crc == c && name <= saved(t[0].addr.value) {
      i := 0;
    } else {
      i := CachedIsUsed(t[1..], c, name, saved);
      i := i + 1;
    }
  }

  // ---------- coherence with the flash ----------

  predicate LiveAt(fl: Flash, a: Addr) {
    a.0 < |fl| && a.1 < |fl[a.0].recs| && fl[a.0].recs[a.1].Live()
  }

  function NameAt(fl: Flash, a: Addr): Name
    requires LiveAt(fl, a)
  {
    fl[a.0].recs[a.1].name
  }

  /** Every used entry is the address of a live record whose name has the entry's checksum. */
  ghost predicate NamesCoherent(t: seq<Entry>, fl: Flash, crc: string -> nat) {
    forall i :: 0 <= i < |t| && t[i].addr.Some? ==> LiveAt(fl, t[i].addr.value) && crc(NameAt(fl, t[i].addr.value)) == t[i].crc
  }

  /** Another live name shares the key's checksum. */
  ghost predicate Collides(fl: Flash, crc: string -> nat, key: Name) {
    exists a :: LiveAt(fl, a) && NameAt(fl, a) != key && crc(NameAt(fl, a)) == crc(key)
  }

  lemma CoherentSame(t: seq<Entry>, u: seq<Entry>, fl: Flash, crc: string -> nat)
    requires NamesCoherent(t, fl, crc) && SameButActivity(t, u)
    ensures NamesCoherent(u, fl, crc)
  {
  }

  /** An entry is refreshed whenever a record with its checksum comes or goes. */
  lemma CoherentAfter(t: seq<Entry>, u: seq<Entry>, fl: Flash, fl': Flash, crc: string -> nat, c: nat, addr: Option<Addr>)
    requires NamesCoherent(t, fl, crc) && Entered(t, u, c, addr)
    requires forall a: Addr :: LiveAt(fl, a) && crc(NameAt(fl, a)) != c ==> LiveAt(fl', a) && NameAt(fl', a) == NameAt(fl, a)
    requires addr.Some? ==> LiveAt(fl', addr.value) && crc(NameAt(fl', addr.value)) == c
    ensures NamesCoherent(u, fl', crc)
  {
  }

  /** Erasing a sector without live records does not touch the cache's records. */
  lemma FormatKeepsCoherent(t: seq<Entry>, fl: Flash, s: nat, crc: string -> nat)
    requires NamesCoherent(t, fl, crc) && s < |fl|
    requires forall r :: 0 <= r < |fl[s].recs| ==> !fl[s].recs[r].Live()
    ensures NamesCoherent(t, Format(fl, s), crc)
  {
  }

  lemma HitIsRight(t: seq<Entry>, fl: Flash, crc: string -> nat, key: Name, saved: Addr -> string, secSize: nat)
    requires NamesCoherent(t, fl, crc) && !Collides(fl, crc, key) && FlashSound(fl, secSize) && Visible(key)
    requires Cached(t, crc(key), key, saved).Some?
    ensures var a := Cached(t, crc(key), key, saved).value;
      a.0 < |fl| && a.1 < |fl[a.0].recs| && Matches(fl[a.0].recs[a.1], key)
  {
    var i := CachedIsUsed(t, crc(key), key, saved);
    var a := t[i].addr.value;
    assert LiveAt(fl, a);
    assert SectorSound(fl[a.0], secSize);
  }

  /** A 64-byte name is found through the cache and by no scan. */
  lemma {:induction false} LongNameOnlyCached(t: seq<Entry>, fl: Flash, crc: string -> nat, key: Name, saved: Addr -> string, i: nat)
    requires |key| == NAME_MAX && FirstOfItsCrc(t) && NamesCoherent(t, fl, crc)
    requires i < |t| && t[i].addr.Some? && t[i].crc == crc(key) && key <= saved(t[i].addr.value)
    ensures Cached(t, crc(key), key, saved) == t[i].addr
    ensures NoMatch(fl, key)
  {
    if i > 0 {
      assert t[0].crc != t[i].crc;
      LongNameOnlyCached(t[1..], fl, crc, key, saved, i - 1);
    }
  }
}
