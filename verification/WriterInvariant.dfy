// What every committed command keeps, and why redelivery is harmless
// (crates/ixmati-writer: write_engine.rs, dedup.rs, cache_sync.rs).

module WriterInvariant {
  import opened Options
  import opened WriterTables

  // ---------- the outbox as a log ----------

  predicate EndsWith(s: string, suffix: string) {
    |s| >= |suffix| && s[|s| - |suffix|..] == suffix
  }

  datatype CacheCommand = CacheCommand(op: string, store: string, entity: string, key: string, version: nat, payload: Payload)
  {
    function Target(): Entity { (entity, key) }
  }

  /** `event_to_cache_command` */
  function EventToCacheCommand(event: Event): CacheCommand {
    CacheCommand(if EndsWith(event.eventType, ".eliminado") then "delete" else "upsert",
                 event.store, event.entity, event.key, event.version, event.payload)
  }

  /** `sync_batch` on one command, with the cache as a map. */
  function ApplyToCache(cache: map<Entity, Payload>, cmd: CacheCommand): map<Entity, Payload> {
    if cmd.op == "delete" then cache - {cmd.Target()} else cache[cmd.Target() := cmd.payload]
  }

  /** The cache after every event of the outbox, in id order. */
  function Replay(outbox: seq<OutboxRow>): map<Entity, Payload> {
    if outbox == [] then map[]
    else ApplyToCache(Replay(outbox[..|outbox|-1]), EventToCacheCommand(outbox[|outbox|-1].event))
  }

  lemma DiffersFromEnd(s: string, suffix: string, i: nat)
    requires i < |suffix| <= |s| && s[|s| - |suffix| + i] != suffix[i]
    ensures !EndsWith(s, suffix)
  {
    assert s[|s| - |suffix|..][i] == s[|s| - |suffix| + i];
  }

  /** The event type tells deletions from the rest, whatever the entity is called. */
  lemma SuffixTells(entity: string, op: string)
    requires KnownOp(op)
    ensures EndsWith(entity + "." + EventSuffix(op), ".eliminado") <==> op == "delete"
  {
    var s := entity + "." + EventSuffix(op);
    if op == "delete" {
      assert s[|s| - |".eliminado"|..] == ".eliminado";
    } else if |s| >= |".eliminado"| {
      DiffersFromEnd(s, ".eliminado", 4);
    }
  }

  // ---------- the invariant ----------

  /** Every key that was ever written has either a payload row or a tombstone, whose version is the
      maximum over its idempotency rows. */
  ghost predicate StateMatchesHistory(db: Db) {
    && db.payload.Keys !! db.tombs.Keys
    && (forall t: Entity {:trigger MaxVersion(db.idem, t)} ::
          MaxVersion(db.idem, t) ==
            if t in db.payload then Some(db.payload[t].version)
            else if t in db.tombs then Some(db.tombs[t].version)
            else None)
  }

  /** Ids rise and are below the next one, and the store is the database's; versions of one key rise and
      are known to its rows. */
  ghost predicate OutboxOrdered(db: Db, store: string) {
    && (forall i :: 0 <= i < |db.outbox| ==>
          db.outbox[i].id < db.nextId && db.outbox[i].store == store)
    && (forall i, j :: 0 <= i < j < |db.outbox| ==> db.outbox[i].id < db.outbox[j].id)
    && (forall i, j :: 0 <= i < j < |db.outbox| && db.outbox[i].event.Target() == db.outbox[j].event.Target() ==>
          db.outbox[i].event.version < db.outbox[j].event.version)
    && (forall i :: 0 <= i < |db.outbox| ==>
          var current := MaxVersion(db.idem, db.outbox[i].event.Target());
          current.Some? && db.outbox[i].event.version <= current.value)
  }

  /** Replaying the outbox gives the payload table. */
  ghost predicate StateIsLog(db: Db) {
    && Replay(db.outbox).Keys == db.payload.Keys
    && forall t :: t in db.payload ==> Replay(db.outbox)[t] == db.payload[t].payload
  }

  /** The event of the latest version of every key is in the outbox. */
  ghost predicate LatestIsLogged(db: Db) {
    forall t: Entity {:trigger MaxVersion(db.idem, t)} ::
      MaxVersion(db.idem, t).Some? ==> HasEvent(db.outbox, t, MaxVersion(db.idem, t).value)
  }

  predicate HasEvent(outbox: seq<OutboxRow>, t: Entity, version: nat) {
    exists i :: 0 <= i < |outbox| && outbox[i].event.Target() == t && outbox[i].event.version == version
  }

  /** Tables and log tell the same. */
  ghost predicate LogInv(db: Db, store: string) {
    StateMatchesHistory(db) && OutboxOrdered(db, store) && StateIsLog(db) && LatestIsLogged(db)
  }

  /** An envelope carries the id and the store of its row. */
  ghost predicate EnvelopesTell(db: Db) {
    forall i :: 0 <= i < |db.outbox| ==> EnvelopeTells(db.outbox[i])
  }

  predicate EnvelopeTells(row: OutboxRow) {
    row.event.outboxSeq == row.id && row.event.store == row.store
  }

  ghost predicate Inv(db: Db, store: string) {
    LogInv(db, store) && EnvelopesTell(db) && |db.outbox| == |db.idem|
  }

  lemma EmptyInv(store: string)
    ensures Inv(EMPTY_DB, store)
  {
  }

  /** Recording a command raises the maximum of its own key and no other. */
  lemma MaxAfterRecord(idem: map<string, IdemRow>, k: string, row: IdemRow, t: Entity)
    requires k !in idem
    ensures MaxVersion(idem[k := row], t) ==
              if row.Target() != t then MaxVersion(idem, t)
              else if MaxVersion(idem, t).Some? && MaxVersion(idem, t).value >= row.version then MaxVersion(idem, t)
              else Some(row.version)
  {
    var v := MaxWith(idem[k := row], idem, k, t, MaxVersion(idem, t));
    MaxVersionUnique(idem[k := row], t, v, MaxVersion(idem[k := row], t));
  }

  ghost predicate Applicable(db: Db, store: string, cmd: Command) {
    !Seen(db, store, cmd) && !Stale(db, store, cmd) && KnownOp(cmd.op) && cmd.store == store
  }

  lemma ApplyState(db: Db, store: string, cmd: Command, stamp: Stamp)
    requires StateMatchesHistory(db) && Applicable(db, store, cmd)
    ensures StateMatchesHistory(Apply(db, cmd, stamp))
  {
    var db' := Apply(db, cmd, stamp);
    var u := cmd.Target();
    forall t: Entity
      ensures MaxVersion(db'.idem, t) ==
                if t in db'.payload then Some(db'.payload[t].version)
                else if t in db'.tombs then Some(db'.tombs[t].version)
                else None
    {
      MaxAfterRecord(db.idem, cmd.idempotencyKey, RowOf(cmd), t);
      assert RowOf(cmd).Target() == u;
    }
  }

  lemma ApplyOutbox(db: Db, store: string, cmd: Command, stamp: Stamp)
    requires OutboxOrdered(db, store) && Applicable(db, store, cmd)
    ensures OutboxOrdered(Apply(db, cmd, stamp), store)
  {
    var db' := Apply(db, cmd, stamp);
    var n := |db.outbox|;
    forall i | 0 <= i < |db'.outbox|
      ensures var current := MaxVersion(db'.idem, db'.outbox[i].event.Target());
        current.Some? && db'.outbox[i].event.version <= current.value
    {
      MaxAfterRecord(db.idem, cmd.idempotencyKey, RowOf(cmd), db'.outbox[i].event.Target());
      assert RowOf(cmd).Target() == cmd.Target() == db'.outbox[n].event.Target();
    }
    forall i, j | 0 <= i < j < |db'.outbox| && db'.outbox[i].event.Target() == db'.outbox[j].event.Target()
      ensures db'.outbox[i].event.version < db'.outbox[j].event.version
    {
      if j == n {
        var current := MaxVersion(db.idem, db.outbox[i].event.Target());
        assert current.Some? && db.outbox[i].event.version <= current.value;
      }
    }
  }

  lemma ApplyLog(db: Db, store: string, cmd: Command, stamp: Stamp)
    requires StateIsLog(db) && Applicable(db, store, cmd)
    ensures StateIsLog(Apply(db, cmd, stamp))
  {
    var db' := Apply(db, cmd, stamp);
    SuffixTells(cmd.entity, cmd.op);
    assert db'.outbox[..|db'.outbox|-1] == db.outbox;
  }

  lemma ApplyLatest(db: Db, store: string, cmd: Command, stamp: Stamp)
    requires LatestIsLogged(db) && Applicable(db, store, cmd)
    ensures LatestIsLogged(Apply(db, cmd, stamp))
  {
    var db' := Apply(db, cmd, stamp);
    var n := |db.outbox|;
    forall t: Entity | MaxVersion(db'.idem, t).Some?
      ensures HasEvent(db'.outbox, t, MaxVersion(db'.idem, t).value)
    {
      MaxAfterRecord(db.idem, cmd.idempotencyKey, RowOf(cmd), t);
      assert RowOf(cmd).Target() == cmd.Target();
      if t == cmd.Target() {
        assert db'.outbox[n].event.Target() == t;
      } else {
        var i :| 0 <= i < n && db.outbox[i].event.Target() == t && db.outbox[i].event.version == MaxVersion(db.idem, t).value;
        assert db'.outbox[i] == db.outbox[i];
      }
    }
  }

  /** One command after the other keeps "payload row or tombstone, at the maximum version", also on
      tables that did not come from a writer. */
  lemma StepState(db: Db, store: string, cmd: Command, stamp: nat -> Stamp)
    requires StateMatchesHistory(db)
    ensures StateMatchesHistory(Step(db, store, cmd, stamp))
  {
    if Decide(db, store, cmd, stamp(db.nextId)).Applied? {
      ApplyState(db, store, cmd, stamp(db.nextId));
    }
  }

  lemma {:induction false} ProcessState(db: Db, store: string, cmds: seq<Command>, stamp: nat -> Stamp)
    requires StateMatchesHistory(db)
    ensures StateMatchesHistory(Process(db, store, cmds, stamp))
  {
    if cmds != [] {
      ProcessState(db, store, cmds[..|cmds|-1], stamp);
      StepState(Process(db, store, cmds[..|cmds|-1], stamp), store, cmds[|cmds|-1], stamp);
    }
  }

  lemma StepLog(db: Db, store: string, cmd: Command, stamp: nat -> Stamp)
    requires LogInv(db, store)
    ensures LogInv(Step(db, store, cmd, stamp), store)
  {
    StepState(db, store, cmd, stamp);
    if Decide(db, store, cmd, stamp(db.nextId)).Applied? {
      ApplyOutbox(db, store, cmd, stamp(db.nextId));
      ApplyLog(db, store, cmd, stamp(db.nextId));
      ApplyLatest(db, store, cmd, stamp(db.nextId));
    }
  }

  lemma {:induction false} ProcessLog(db: Db, store: string, cmds: seq<Command>, stamp: nat -> Stamp)
    requires LogInv(db, store)
    ensures LogInv(Process(db, store, cmds, stamp), store)
  {
    if cmds != [] {
      ProcessLog(db, store, cmds[..|cmds|-1], stamp);
      StepLog(Process(db, store, cmds[..|cmds|-1], stamp), store, cmds[|cmds|-1], stamp);
    }
  }

  /** The invariant holds after every command, whatever is decided about it. */
  lemma StepInv(db: Db, store: string, cmd: Command, stamp: nat -> Stamp)
    requires Inv(db, store)
    ensures Inv(Step(db, store, cmd, stamp), store)
  {
    StepLog(db, store, cmd, stamp);
  }

  lemma {:induction false} ProcessInv(db: Db, store: string, cmds: seq<Command>, stamp: nat -> Stamp)
    requires Inv(db, store)
    ensures Inv(Process(db, store, cmds, stamp), store)
  {
    if cmds != [] {
      ProcessInv(db, store, cmds[..|cmds|-1], stamp);
      StepInv(Process(db, store, cmds[..|cmds|-1], stamp), store, cmds[|cmds|-1], stamp);
    }
  }

  // ---------- effectively once ----------

  /** The tables already settle what becomes of the command. */
  ghost predicate Decided(db: Db, store: string, cmd: Command) {
    Seen(db, store, cmd) || Stale(db, store, cmd) || !KnownOp(cmd.op)
  }

  /** A command that is settled changes nothing when it comes again. */
  lemma RedeliveryChangesNothing(db: Db, store: string, cmd: Command, stamp: nat -> Stamp)
    requires Decided(db, store, cmd)
    ensures Step(db, store, cmd, stamp) == db
  {
  }

  /** Processing settles a command of this store. */
  lemma StepDecides(db: Db, store: string, cmd: Command, stamp: nat -> Stamp)
    requires cmd.store == store
    ensures Decided(Step(db, store, cmd, stamp), store, cmd)
  {
  }

  /** What is settled stays settled. */
  lemma DecidedStays(db: Db, store: string, cmd: Command, other: Command, stamp: nat -> Stamp)
    requires Decided(db, store, cmd)
    ensures Decided(Step(db, store, other, stamp), store, cmd)
  {
    if Stale(db, store, cmd) && Decide(db, store, other, stamp(db.nextId)).Applied? {
      MaxAfterRecord(db.idem, other.idempotencyKey, RowOf(other), cmd.Target());
    }
  }

  lemma {:induction false} ProcessDecidedStays(db: Db, store: string, cmd: Command, cmds: seq<Command>, stamp: nat -> Stamp)
    requires Decided(db, store, cmd)
    ensures Decided(Process(db, store, cmds, stamp), store, cmd)
  {
    if cmds != [] {
      ProcessDecidedStays(db, store, cmd, cmds[..|cmds|-1], stamp);
      DecidedStays(Process(db, store, cmds[..|cmds|-1], stamp), store, cmd, cmds[|cmds|-1], stamp);
    }
  }

  lemma {:induction false} ProcessDecides(db: Db, store: string, cmds: seq<Command>, cmd: Command, stamp: nat -> Stamp)
    requires cmd in cmds && cmd.store == store
    ensures Decided(Process(db, store, cmds, stamp), store, cmd)
  {
    var init, last := cmds[..|cmds|-1], cmds[|cmds|-1];
    if cmd == last {
      StepDecides(Process(db, store, init, stamp), store, cmd, stamp);
    } else {
      ProcessDecides(db, store, init, cmd, stamp);
      DecidedStays(Process(db, store, init, stamp), store, cmd, last, stamp);
    }
  }

  /** How commands are cut into batches does not matter to the tables. */
  lemma {:induction false} ProcessConcat(db: Db, store: string, xs: seq<Command>, ys: seq<Command>, stamp: nat -> Stamp)
    ensures Process(db, store, xs + ys, stamp) == Process(Process(db, store, xs, stamp), store, ys, stamp)
    decreases |ys|
  {
    if ys == [] {
      assert xs + ys == xs;
    } else {
      ProcessConcat(db, store, xs, ys[..|ys|-1], stamp);
      assert (xs + ys)[..|xs + ys|-1] == xs + ys[..|ys|-1];
    }
  }

  datatype Counts = Counts(committed: nat, duplicates: nat, conflicts: nat)
  {
    function Plus(other: Counts): Counts {
      Counts(committed + other.committed, duplicates + other.duplicates, conflicts + other.conflicts)
    }
  }

  function CountOf(v: Verdict): Counts {
    match v
    case Applied(_) => Counts(1, 0, 0)
    case Duplicate => Counts(0, 1, 0)
    case Conflict => Counts(0, 0, 1)
    case _ => Counts(0, 0, 0)
  }

  /** What one command adds to the counters. */
  ghost function StepCount(db: Db, store: string, cmd: Command, stamp: nat -> Stamp): Counts {
    CountOf(Decide(db, store, cmd, stamp(db.nextId)))
  }

  /** The counters of a batch. */
  ghost function Count(db: Db, store: string, cmds: seq<Command>, stamp: nat -> Stamp): Counts {
    if cmds == [] then Counts(0, 0, 0)
    else
      var init, last := cmds[..|cmds|-1], cmds[|cmds|-1];
      Count(db, store, init, stamp).Plus(StepCount(Process(db, store, init, stamp), store, last, stamp))
  }

  lemma CountSnoc(db: Db, store: string, init: seq<Command>, last: Command, stamp: nat -> Stamp)
    ensures Count(db, store, init + [last], stamp)
         == Count(db, store, init, stamp).Plus(StepCount(Process(db, store, init, stamp), store, last, stamp))
  {
    assert (init + [last])[..|init + [last]|-1] == init;
  }

  lemma SplitLast<T>(xs: seq<T>, ys: seq<T>)
    requires ys != []
    ensures xs + ys == (xs + ys[..|ys|-1]) + [ys[|ys|-1]]
    ensures ys == ys[..|ys|-1] + [ys[|ys|-1]]
  {
  }

  lemma PlusAssociates(a: Counts, b: Counts, c: Counts)
    ensures a.Plus(b).Plus(c) == a.Plus(b.Plus(c))
  {
  }

  /** ... nor, summed up, to the counters. */
  lemma {:induction false} CountConcat(db: Db, store: string, xs: seq<Command>, ys: seq<Command>, stamp: nat -> Stamp)
    ensures Count(db, store, xs + ys, stamp)
         == Count(db, store, xs, stamp).Plus(Count(Process(db, store, xs, stamp), store, ys, stamp))
    decreases |ys|
  {
    var mid := Process(db, store, xs, stamp);
    if ys == [] {
      assert xs + ys == xs;
    } else {
      var init, last := ys[..|ys|-1], ys[|ys|-1];
      var added := StepCount(Process(mid, store, init, stamp), store, last, stamp);
      calc {
        Count(db, store, xs + ys, stamp);
        { SplitLast(xs, ys); }
        Count(db, store, (xs + init) + [last], stamp);
        { CountSnoc(db, store, xs + init, last, stamp); ProcessConcat(db, store, xs, init, stamp); }
        Count(db, store, xs + init, stamp).Plus(added);
        { CountConcat(db, store, xs, init, stamp); }
        Count(db, store, xs, stamp).Plus(Count(mid, store, init, stamp)).Plus(added);
        { PlusAssociates(Count(db, store, xs, stamp), Count(mid, store, init, stamp), added); }
        Count(db, store, xs, stamp).Plus(Count(mid, store, init, stamp).Plus(added));
        { SplitLast([], ys); CountSnoc(mid, store, init, last, stamp); }
        Count(db, store, xs, stamp).Plus(Count(mid, store, ys, stamp));
      }
    }
  }

  /** The commands of a delivery without the repetitions. */
  function Firsts(cmds: seq<Command>): seq<Command> {
    if cmds == [] then []
    else
      var init, last := cmds[..|cmds|-1], cmds[|cmds|-1];
      if last in init then Firsts(init) else Firsts(init) + [last]
  }

  lemma RepeatChangesNothing(db: Db, store: string, cmds: seq<Command>, cmd: Command, stamp: nat -> Stamp)
    requires cmd in cmds
    ensures var after := Process(db, store, cmds, stamp); Step(after, store, cmd, stamp) == after
  {
    if cmd.store == store {
      ProcessDecides(db, store, cmds, cmd, stamp);
      RedeliveryChangesNothing(Process(db, store, cmds, stamp), store, cmd, stamp);
    }
  }

  /** Any at-least-once delivery leaves the tables that delivering each command once would. */
  lemma {:induction false} EffectivelyOnce(db: Db, store: string, cmds: seq<Command>, stamp: nat -> Stamp)
    ensures Process(db, store, cmds, stamp) == Process(db, store, Firsts(cmds), stamp)
  {
    if cmds != [] {
      var init, last := cmds[..|cmds|-1], cmds[|cmds|-1];
      EffectivelyOnce(db, store, init, stamp);
      if last in init {
        RepeatChangesNothing(db, store, init, last, stamp);
      } else {
        assert Firsts(cmds)[..|Firsts(cmds)|-1] == Firsts(init);
      }
    }
  }

  /** Deliveries that first show the same commands in the same order end in the same tables. */
  lemma SameFirstsSameTables(db: Db, store: string, xs: seq<Command>, ys: seq<Command>, stamp: nat -> Stamp)
    requires Firsts(xs) == Firsts(ys)
    ensures Process(db, store, xs, stamp) == Process(db, store, ys, stamp)
  {
    EffectivelyOnce(db, store, xs, stamp);
    EffectivelyOnce(db, store, ys, stamp);
  }

  /** `Firsts` keeps every command and repeats none. */
  lemma {:induction false} FirstsExact(cmds: seq<Command>)
    ensures forall c :: c in Firsts(cmds) <==> c in cmds
    ensures forall i, j :: 0 <= i < j < |Firsts(cmds)| ==> Firsts(cmds)[i] != Firsts(cmds)[j]
  {
    if cmds != [] {
      var init, last := cmds[..|cmds|-1], cmds[|cmds|-1];
      FirstsExact(init);
      assert cmds == init + [last];
    }
  }
}
