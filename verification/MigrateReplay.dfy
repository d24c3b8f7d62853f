// What becomes of the log when a store is migrated: its events come back in the order of their event
// ids, which are random, and in the envelopes they were written in. Replaying the migrated outbox gives
// the migrated payload table exactly if, key by key, later versions have greater event ids; the envelopes
// carry the id and the store of their new rows exactly if they did already.

module MigrateReplay {
  import opened Options
  import opened WriterTables
  import opened WriterInvariant
  import opened MigratePlan
  import opened MigrateMerge
  import opened MigrateOutbox
  import opened MigrateSplit

  /** In the order of the event ids the versions of each key rise. */
  ghost predicate VersionsFollowIds(rows: seq<EventRow>) {
    forall i, j :: 0 <= i < j < |rows| && rows[i].Target() == rows[j].Target() ==> rows[i].Version() < rows[j].Version()
  }

  /** Rows of one event id that do not contradict each other hold the same event. */
  lemma SameIdSameEvent(rows: seq<EventRow>, i: nat, j: nat)
    requires !SomeContradict(rows) && i < |rows| && j < |rows| && rows[i].Id() == rows[j].Id()
    ensures rows[i].event == rows[j].event
  {
    if i < j {
      assert !Contradicts(rows[i], rows[j]);
    } else if j < i {
      assert !Contradicts(rows[j], rows[i]);
    }
  }

  ghost predicate AllLogged(dbs: seq<Db>, stores: seq<string>) {
    |stores| == |dbs| && forall i :: 0 <= i < |dbs| ==> LogInv(dbs[i], stores[i])
  }

  // ---------- replaying a log ----------

  /** The last event of a key. */
  ghost predicate LastOf(outbox: seq<OutboxRow>, t: Entity, i: nat) {
    && i < |outbox| && outbox[i].event.Target() == t
    && forall j :: i < j < |outbox| ==> outbox[j].event.Target() != t
  }

  predicate Deletes(event: Event) { EndsWith(event.eventType, ".eliminado") }

  lemma OtherKey(cache: map<Entity, Payload>, cmd: CacheCommand, t: Entity)
    requires cmd.Target() != t
    ensures t in ApplyToCache(cache, cmd) <==> t in cache
    ensures t in cache ==> ApplyToCache(cache, cmd)[t] == cache[t]
  {
  }

  /** The last event of a key decides what replaying leaves of it. */
  lemma {:induction false} ReplayLast(outbox: seq<OutboxRow>, t: Entity, i: nat)
    requires LastOf(outbox, t, i)
    ensures t in Replay(outbox) <==> !Deletes(outbox[i].event)
    ensures t in Replay(outbox) ==> Replay(outbox)[t] == outbox[i].event.payload
  {
    var n := |outbox| - 1;
    if i < n {
      var init, cmd := outbox[..n], EventToCacheCommand(outbox[n].event);
      assert outbox[n].event.Target() != t && cmd.Target() == outbox[n].event.Target();
      ReplayLast(init, t, i);
      OtherKey(Replay(init), cmd, t);
    }
  }

  lemma {:induction false} ReplayNone(outbox: seq<OutboxRow>, t: Entity)
    requires forall i :: 0 <= i < |outbox| ==> outbox[i].event.Target() != t
    ensures t !in Replay(outbox)
  {
    if outbox != [] {
      ReplayNone(outbox[..|outbox|-1], t);
    }
  }

  lemma {:induction false} LastExists(outbox: seq<OutboxRow>, t: Entity, k: nat) returns (i: nat)
    requires k < |outbox| && outbox[k].event.Target() == t
    ensures LastOf(outbox, t, i)
  {
    var n := |outbox| - 1;
    if outbox[n].event.Target() == t {
      i := n;
    } else {
      i := LastExists(outbox[..n], t, k);
    }
  }

  // ---------- where events come from and go to ----------

  lemma EventOfSource(sources: seq<Source>, dbs: seq<Db>, events: seq<EventRow>, e: EventRow) returns (x: nat, i: nat)
    requires ListAll(sources, dbs) && Sorted(FirstRows(EventRows(sources)), events) && e in events
    ensures x < |dbs| && i < |dbs[x].outbox| && EventRowOf(dbs[x].outbox[i]) == e
  {
    FirstRowsAre(EventRows(sources));
    EventSource(sources, e);
    x :| 0 <= x < |sources| && e in sources[x].events;
    assert Lists(sources[x], dbs[x]);
    i :| 0 <= i < |sources[x].events| && sources[x].events[i] == e;
  }

  lemma VersionKnown(db: Db, store: string, i: nat)
    requires LogInv(db, store) && i < |db.outbox|
    ensures var current := VersionOf(db, db.outbox[i].event.Target()); current.Some? && db.outbox[i].event.version <= current.value
  {
    assert MaxVersion(db.idem, db.outbox[i].event.Target()) == VersionOf(db, db.outbox[i].event.Target());
  }

  /** An event of a migrated outbox is one of a source, whose tables know its version. */
  lemma EventKnown(sources: seq<Source>, dbs: seq<Db>, stores: seq<string>, events: seq<EventRow>, e: EventRow)
    requires ListAll(sources, dbs) && AllLogged(dbs, stores) && Sorted(FirstRows(EventRows(sources)), events) && e in events
    ensures var states := MergeAll(Candidates(sources)); e.Target() in states && e.Version() <= states[e.Target()].version
  {
    var x, i := EventOfSource(sources, dbs, events, e);
    VersionKnown(dbs[x], stores[x], i);
    NoGreaterVersion(sources, dbs, e.Target(), x);
  }

  lemma FirstIsSame(rows: seq<EventRow>, row: EventRow)
    requires !SomeContradict(rows) && row in rows
    ensures row.Id() in FirstRows(rows) && FirstRows(rows)[row.Id()].event == row.event
  {
    FirstRowsAre(rows);
    var first := FirstRows(rows)[row.Id()];
    var a :| 0 <= a < |rows| && rows[a] == first;
    var b :| 0 <= b < |rows| && rows[b] == row;
    SameIdSameEvent(rows, a, b);
  }

  /** An event of a source is among the collected ones. */
  lemma EventKept(sources: seq<Source>, dbs: seq<Db>, events: seq<EventRow>, x: nat, i: nat) returns (e: EventRow)
    requires ListAll(sources, dbs) && !SomeContradict(EventRows(sources)) && Sorted(FirstRows(EventRows(sources)), events)
    requires x < |dbs| && i < |dbs[x].outbox|
    ensures e in events && e.event == dbs[x].outbox[i].event
  {
    assert Lists(sources[x], dbs[x]);
    var row := sources[x].events[i];
    assert row in sources[x].events;
    EventSource(sources, row);
    FirstIsSame(EventRows(sources), row);
    e := FirstRows(EventRows(sources))[row.Id()];
  }

  /** Which source the surviving row of a key is from. */
  lemma Survivor(sources: seq<Source>, dbs: seq<Db>, t: Entity) returns (x: nat)
    requires ListAll(sources, dbs) && AllMatchHistory(dbs) && t in MergeAll(Candidates(sources))
    ensures x < |dbs|
    ensures var w := MergeAll(Candidates(sources))[t];
      && MaxVersion(dbs[x].idem, t) == Some(w.version)
      && (w.payload.Some? <==> t in dbs[x].payload)
      && (w.payload.Some? ==> dbs[x].payload[t].payload == w.payload.value)
  {
    var rows := Candidates(sources);
    NoneMerged(rows, t);
    var r := SurvivorWins(rows, t);
    CandidateSource(sources, rows[r]);
    x :| 0 <= x < |sources| && MigrateMerge.RowOf(sources[x], rows[r]);
    RowVersion(sources[x], dbs[x], rows[r]);
    SurvivorTables(sources[x], dbs[x], rows[r]);
  }

  /** In a writer's database the event of the latest version of a key is its last and gives its row. */
  lemma LatestIsLast(db: Db, store: string, t: Entity, i: nat)
    requires LogInv(db, store) && i < |db.outbox| && db.outbox[i].event.Target() == t
    requires MaxVersion(db.idem, t) == Some(db.outbox[i].event.version)
    ensures t in db.payload <==> !Deletes(db.outbox[i].event)
    ensures t in db.payload ==> db.payload[t].payload == db.outbox[i].event.payload
  {
    forall j | i < j < |db.outbox|
      ensures db.outbox[j].event.Target() != t
    {
    }
    ReplayLast(db.outbox, t, i);
  }

  // ---------- the migrated log ----------

  /** The collected event that gave a surviving row its state. */
  lemma SurvivorEvent(sources: seq<Source>, dbs: seq<Db>, stores: seq<string>, events: seq<EventRow>, t: Entity)
    returns (e: EventRow)
    requires ListAll(sources, dbs) && AllLogged(dbs, stores) && AllMatchHistory(dbs)
    requires !SomeContradict(EventRows(sources)) && Sorted(FirstRows(EventRows(sources)), events)
    requires t in MergeAll(Candidates(sources))
    ensures e in events && e.Target() == t
    ensures var w := MergeAll(Candidates(sources))[t];
      && e.Version() == w.version
      && (w.payload.Some? <==> !Deletes(e.event))
      && (w.payload.Some? ==> e.event.payload == w.payload.value)
  {
    var x := Survivor(sources, dbs, t);
    assert LogInv(dbs[x], stores[x]);
    var w := MergeAll(Candidates(sources))[t];
    assert HasEvent(dbs[x].outbox, t, w.version);
    var i :| 0 <= i < |dbs[x].outbox| && dbs[x].outbox[i].event.Target() == t && dbs[x].outbox[i].event.version == w.version;
    LatestIsLast(dbs[x], stores[x], t, i);
    e := EventKept(sources, dbs, events, x, i);
  }

  /** Everything the theorem below assumes. */
  ghost predicate Migration(plan: Plan, sources: seq<Source>, dbs: seq<Db>, stores: seq<string>, idem: map<string, IdemRow>,
                            events: seq<EventRow>, b: nat)
  {
    && plan.Valid() && b < plan.n
    && ListAll(sources, dbs) && AllLogged(dbs, stores) && AllMatchHistory(dbs)
    && !SomeContradict(EventRows(sources)) && Sorted(FirstRows(EventRows(sources)), events) && Holds(idem, IdemRows(sources))
  }

  lemma LoggedMatchHistory(dbs: seq<Db>, stores: seq<string>)
    requires AllLogged(dbs, stores)
    ensures AllMatchHistory(dbs)
  {
    forall i | 0 <= i < |dbs|
      ensures StateMatchesHistory(dbs[i])
    {
      assert LogInv(dbs[i], stores[i]);
    }
  }

  /** The version a destination knows for a key is that of its surviving row. */
  lemma DestinationVersion(plan: Plan, name: string, sources: seq<Source>, dbs: seq<Db>, stores: seq<string>,
                           idem: map<string, IdemRow>, events: seq<EventRow>, b: nat, t: Entity)
    requires Migration(plan, sources, dbs, stores, idem, events, b)
    ensures var states := MergeAll(Candidates(sources));
      MaxVersion(RowsAt(plan, idem, b), t) == if t in states && plan.At(t.1) == b then Some(states[t].version) else None
  {
    var states := MergeAll(Candidates(sources));
    MergedMaxVersion(sources, dbs, idem, t);
    var v := if t in states then Some(states[t].version) else None;
    PartMaxVersion(plan, idem, b, t, v);
    MaxVersionUnique(RowsAt(plan, idem, b), t, MaxVersion(RowsAt(plan, idem, b), t), if plan.At(t.1) == b then v else None);
  }

  /** The versions in a migrated outbox are known to its idempotency rows. */
  lemma RoutedKnown(plan: Plan, name: string, sources: seq<Source>, dbs: seq<Db>, stores: seq<string>,
                    idem: map<string, IdemRow>, events: seq<EventRow>, b: nat, e: EventRow)
    requires Migration(plan, sources, dbs, stores, idem, events, b) && e in Routed(plan, events, b)
    ensures var current := MaxVersion(RowsAt(plan, idem, b), e.Target()); current.Some? && e.Version() <= current.value
  {
    RoutedMembers(plan, events, b);
    EventKnown(sources, dbs, stores, events, e);
    DestinationVersion(plan, name, sources, dbs, stores, idem, events, b, e.Target());
  }

  lemma NumberedTargets(routed: seq<EventRow>, name: string)
    ensures var outbox := Numbered(routed, name);
      && (forall i :: 0 <= i < |routed| ==> outbox[i].event.Target() == routed[i].Target() && outbox[i].event.version == routed[i].Version())
  {
  }

  lemma VersionsRiseIff(routed: seq<EventRow>, name: string)
    ensures var outbox := Numbered(routed, name);
      VersionsFollowIds(routed) <==>
        forall i, j :: 0 <= i < j < |outbox| && outbox[i].event.Target() == outbox[j].event.Target() ==>
          outbox[i].event.version < outbox[j].event.version
  {
    NumberedTargets(routed, name);
  }

  lemma OrderedFrom(d: Db, name: string, routed: seq<EventRow>)
    requires d.outbox == Numbered(routed, name) && d.nextId == |routed| + 1
    requires forall i :: 0 <= i < |routed| ==>
      var current := MaxVersion(d.idem, routed[i].Target()); current.Some? && routed[i].Version() <= current.value
    ensures OutboxOrdered(d, name) <==> VersionsFollowIds(routed)
  {
    NumberedTargets(routed, name);
    VersionsRiseIff(routed, name);
  }

  /** Ids and versions rise in the migrated outbox exactly if versions follow event ids. */
  lemma OrderedIff(plan: Plan, name: string, sources: seq<Source>, dbs: seq<Db>, stores: seq<string>,
                   idem: map<string, IdemRow>, events: seq<EventRow>, b: nat)
    requires Migration(plan, sources, dbs, stores, idem, events, b)
    ensures OutboxOrdered(Destination(plan, name, MergeAll(Candidates(sources)), idem, events, b), name)
       <==> VersionsFollowIds(Routed(plan, events, b))
  {
    var d := Destination(plan, name, MergeAll(Candidates(sources)), idem, events, b);
    var routed := Routed(plan, events, b);
    forall i | 0 <= i < |routed|
      ensures var current := MaxVersion(d.idem, routed[i].Target()); current.Some? && routed[i].Version() <= current.value
    {
      assert routed[i] in routed;
      RoutedKnown(plan, name, sources, dbs, stores, idem, events, b, routed[i]);
    }
    OrderedFrom(d, name, routed);
  }

  /** Where the event of a surviving row is in the migrated outbox. */
  lemma SurvivorAt(plan: Plan, name: string, sources: seq<Source>, dbs: seq<Db>, stores: seq<string>,
                   idem: map<string, IdemRow>, events: seq<EventRow>, b: nat, t: Entity) returns (i: nat)
    requires Migration(plan, sources, dbs, stores, idem, events, b)
    requires t in MergeAll(Candidates(sources)) && plan.At(t.1) == b
    ensures var outbox := Numbered(Routed(plan, events, b), name);
      && i < |outbox| && outbox[i].event.Target() == t
      && var w := MergeAll(Candidates(sources))[t];
      && outbox[i].event.version == w.version
      && (w.payload.Some? <==> !Deletes(outbox[i].event))
      && (w.payload.Some? ==> outbox[i].event.payload == w.payload.value)
  {
    var e := SurvivorEvent(sources, dbs, stores, events, t);
    RoutedMembers(plan, events, b);
    var routed := Routed(plan, events, b);
    assert e in routed;
    i :| 0 <= i < |routed| && routed[i] == e;
  }

  lemma NoEvent(plan: Plan, name: string, sources: seq<Source>, dbs: seq<Db>, stores: seq<string>,
                idem: map<string, IdemRow>, events: seq<EventRow>, b: nat, t: Entity)
    requires Migration(plan, sources, dbs, stores, idem, events, b)
    requires t !in MergeAll(Candidates(sources)) || plan.At(t.1) != b
    ensures t !in Replay(Numbered(Routed(plan, events, b), name))
  {
    var routed := Routed(plan, events, b);
    RoutedMembers(plan, events, b);
    forall i | 0 <= i < |routed|
      ensures routed[i].Target() != t
    {
      assert routed[i] in routed;
      EventKnown(sources, dbs, stores, events, routed[i]);
    }
    NumberedTargets(routed, name);
    ReplayNone(Numbered(routed, name), t);
  }

  /** With versions in the order of event ids, the event of the latest version comes last. */
  lemma LatestComesLast(plan: Plan, name: string, sources: seq<Source>, dbs: seq<Db>, stores: seq<string>,
                        idem: map<string, IdemRow>, events: seq<EventRow>, b: nat, t: Entity, i: nat)
    requires Migration(plan, sources, dbs, stores, idem, events, b) && VersionsFollowIds(Routed(plan, events, b))
    requires i < |Routed(plan, events, b)| && Routed(plan, events, b)[i].Target() == t
    requires t in MergeAll(Candidates(sources)) && Routed(plan, events, b)[i].Version() == MergeAll(Candidates(sources))[t].version
    ensures LastOf(Numbered(Routed(plan, events, b), name), t, i)
  {
    var routed := Routed(plan, events, b);
    NumberedTargets(routed, name);
    forall j | i < j < |routed|
      ensures routed[j].Target() != t
    {
      RoutedMembers(plan, events, b);
      assert routed[j] in routed;
      EventKnown(sources, dbs, stores, events, routed[j]);
    }
  }

  lemma ReplaysKey(plan: Plan, name: string, sources: seq<Source>, dbs: seq<Db>, stores: seq<string>,
                   idem: map<string, IdemRow>, events: seq<EventRow>, b: nat, t: Entity)
    requires Migration(plan, sources, dbs, stores, idem, events, b) && VersionsFollowIds(Routed(plan, events, b))
    ensures var live := LiveAt(plan, MergeAll(Candidates(sources)), b);
      var outbox := Numbered(Routed(plan, events, b), name);
      && (t in Replay(outbox) <==> t in live)
      && (t in Replay(outbox) ==> Replay(outbox)[t] == live[t].payload)
  {
    var outbox := Numbered(Routed(plan, events, b), name);
    if t in MergeAll(Candidates(sources)) && plan.At(t.1) == b {
      var i := SurvivorAt(plan, name, sources, dbs, stores, idem, events, b, t);
      NumberedTargets(Routed(plan, events, b), name);
      LatestComesLast(plan, name, sources, dbs, stores, idem, events, b, t, i);
      ReplayLast(outbox, t, i);
    } else {
      NoEvent(plan, name, sources, dbs, stores, idem, events, b, t);
    }
  }

  lemma MigratedIsLog(plan: Plan, name: string, sources: seq<Source>, dbs: seq<Db>, stores: seq<string>,
                      idem: map<string, IdemRow>, events: seq<EventRow>, b: nat)
    requires Migration(plan, sources, dbs, stores, idem, events, b) && VersionsFollowIds(Routed(plan, events, b))
    ensures StateIsLog(Destination(plan, name, MergeAll(Candidates(sources)), idem, events, b))
  {
    var d := Destination(plan, name, MergeAll(Candidates(sources)), idem, events, b);
    forall t: Entity
      ensures t in Replay(d.outbox) <==> t in d.payload
      ensures t in d.payload ==> Replay(d.outbox)[t] == d.payload[t].payload
    {
      ReplaysKey(plan, name, sources, dbs, stores, idem, events, b, t);
    }
  }

  lemma MigratedIsComplete(plan: Plan, name: string, sources: seq<Source>, dbs: seq<Db>, stores: seq<string>,
                           idem: map<string, IdemRow>, events: seq<EventRow>, b: nat)
    requires Migration(plan, sources, dbs, stores, idem, events, b)
    ensures LatestIsLogged(Destination(plan, name, MergeAll(Candidates(sources)), idem, events, b))
  {
    var d := Destination(plan, name, MergeAll(Candidates(sources)), idem, events, b);
    forall t: Entity | MaxVersion(d.idem, t).Some?
      ensures HasEvent(d.outbox, t, MaxVersion(d.idem, t).value)
    {
      DestinationVersion(plan, name, sources, dbs, stores, idem, events, b, t);
      var i := SurvivorAt(plan, name, sources, dbs, stores, idem, events, b, t);
    }
  }

  /** A migrated store has everything the writer's own stores have -- rows that match their history,
      and a log that is ordered, complete and replays to the payload table -- if and only if in it the
      versions of each key follow the order of the event ids. */
  lemma MigratedLogIff(plan: Plan, name: string, sources: seq<Source>, dbs: seq<Db>, stores: seq<string>,
                       idem: map<string, IdemRow>, events: seq<EventRow>, b: nat)
    requires Migration(plan, sources, dbs, stores, idem, events, b)
    ensures LogInv(Destination(plan, name, MergeAll(Candidates(sources)), idem, events, b), name)
       <==> VersionsFollowIds(Routed(plan, events, b))
  {
    OrderedIff(plan, name, sources, dbs, stores, idem, events, b);
    if VersionsFollowIds(Routed(plan, events, b)) {
      DestinationMatchesHistory(plan, name, sources, dbs, idem, events, b);
      MigratedIsLog(plan, name, sources, dbs, stores, idem, events, b);
      MigratedIsComplete(plan, name, sources, dbs, stores, idem, events, b);
    }
  }

  /** From then on it keeps all that over every run of commands. */
  lemma MigratedLogRuns(plan: Plan, name: string, sources: seq<Source>, dbs: seq<Db>, stores: seq<string>,
                        idem: map<string, IdemRow>, events: seq<EventRow>, b: nat, cmds: seq<Command>, stamp: nat -> Stamp)
    requires Migration(plan, sources, dbs, stores, idem, events, b) && VersionsFollowIds(Routed(plan, events, b))
    ensures LogInv(Process(Destination(plan, name, MergeAll(Candidates(sources)), idem, events, b), name, cmds, stamp), name)
  {
    MigratedLogIff(plan, name, sources, dbs, stores, idem, events, b);
    ProcessLog(Destination(plan, name, MergeAll(Candidates(sources)), idem, events, b), name, cmds, stamp);
  }

  // ---------- what the envelopes say ----------

  /** The envelopes carry this store and count from 1. */
  predicate EnvelopesFit(rows: seq<EventRow>, store: string) {
    forall i :: 0 <= i < |rows| ==> rows[i].event.store == store && rows[i].event.outboxSeq == i + 1
  }

  /** The envelopes are written as they were read, so those of a destination carry the id and the store
      of their rows if and only if they did already. */
  lemma EnvelopesIff(plan: Plan, name: string, states: States, idem: map<string, IdemRow>, events: seq<EventRow>, b: nat)
    requires plan.Valid() && b < plan.n
    ensures EnvelopesTell(Destination(plan, name, states, idem, events, b)) <==> EnvelopesFit(Routed(plan, events, b), name)
  {
    var routed := Routed(plan, events, b);
    var outbox := Numbered(routed, name);
    if EnvelopesTell(Destination(plan, name, states, idem, events, b)) {
      forall i | 0 <= i < |routed|
        ensures routed[i].event.store == name && routed[i].event.outboxSeq == i + 1
      {
        assert EnvelopeTells(outbox[i]);
      }
    }
  }

  /** All that holds in a writer's own store between commands, but for the number of events. */
  lemma MigratedAllIff(plan: Plan, name: string, sources: seq<Source>, dbs: seq<Db>, stores: seq<string>,
                       idem: map<string, IdemRow>, events: seq<EventRow>, b: nat)
    requires Migration(plan, sources, dbs, stores, idem, events, b)
    ensures var d := Destination(plan, name, MergeAll(Candidates(sources)), idem, events, b);
            var routed := Routed(plan, events, b);
            LogInv(d, name) && EnvelopesTell(d) <==>
            VersionsFollowIds(routed) && EnvelopesFit(routed, name)
  {
    MigratedLogIff(plan, name, sources, dbs, stores, idem, events, b);
    EnvelopesIff(plan, name, MergeAll(Candidates(sources)), idem, events, b);
  }

  /** Under a new name every envelope is wrong. */
  lemma NewNameOldEnvelopes(plan: Plan, name: string, sources: seq<Source>, dbs: seq<Db>, stores: seq<string>,
                            idem: map<string, IdemRow>, events: seq<EventRow>, b: nat, i: nat)
    requires Migration(plan, sources, dbs, stores, idem, events, b)
    requires forall x :: 0 <= x < |dbs| ==> EnvelopesTell(dbs[x]) && stores[x] != name
    requires i < |Routed(plan, events, b)|
    ensures !EnvelopeTells(Destination(plan, name, MergeAll(Candidates(sources)), idem, events, b).outbox[i])
  {
    var routed := Routed(plan, events, b);
    RoutedMembers(plan, events, b);
    assert routed[i] in routed;
    var x, j := EventOfSource(sources, dbs, events, routed[i]);
    StoreOfEnvelope(dbs[x], stores[x], j);
  }

  lemma StoreOfEnvelope(db: Db, store: string, j: nat)
    requires LogInv(db, store) && EnvelopesTell(db) && j < |db.outbox|
    ensures db.outbox[j].event.store == store
  {
    assert EnvelopeTells(db.outbox[j]);
  }

  /** Also under the old name: two events of two keys, the second with the smaller id. Versions follow
      ids, and yet the first row holds the sequence number 2. */
  lemma SequencesCanDiffer(plan: Plan, first: Event, second: Event)
    requires plan.Valid() && plan.At(first.key) == plan.At(second.key) && first.Target() != second.Target()
    requires first.outboxSeq == 1 && second.outboxSeq == 2 && first.eventId == "b" && second.eventId == "a"
    ensures var rows := [EventRow(first, true), EventRow(second, true)];
      var sorted := [rows[1], rows[0]];
      && Sorted(FirstRows(rows), sorted)
      && VersionsFollowIds(Routed(plan, sorted, plan.At(first.key)))
      && var outbox := Numbered(Routed(plan, sorted, plan.At(first.key)), first.store);
      && |outbox| == 2 && outbox[0].id == 1 && outbox[0].event.outboxSeq == 2
  {
    var a, b := EventRow(first, true), EventRow(second, true);
    TwoSorted(a, b);
    TwoRouted(plan, b, a);
  }

  /** One event that two sources hold under different ids or store names refuses the migration. */
  lemma CopiesContradict(rows: seq<EventRow>, i: nat, j: nat)
    requires i < j < |rows| && rows[i].Id() == rows[j].Id()
    requires rows[i].event.store != rows[j].event.store || rows[i].event.outboxSeq != rows[j].event.outboxSeq
    ensures SomeContradict(rows)
  {
    assert Contradicts(rows[i], rows[j]);
  }

  lemma TwoRouted(plan: Plan, a: EventRow, b: EventRow)
    requires plan.Valid() && plan.At(a.event.key) == plan.At(b.event.key)
    ensures Routed(plan, [a, b], plan.At(a.event.key)) == [a, b]
  {
    var x := plan.At(a.event.key);
    assert Routed(plan, [], x) == [];
    assert [a][..0] == [] && Routed(plan, [a], x) == [a];
    assert [a, b][..1] == [a];
  }

  // ---------- a log that goes back ----------

  const KEY: Entity := ("e", "k")

  function Upsert(version: nat, id: string, payload: Payload): Command {
    Command("upsert", "s", "e", "k", version, "", id, payload)
  }

  /** The second event happens to get the smaller id. */
  function Backwards(n: nat): Stamp { if n == 1 then Stamp("b", "") else Stamp("a", "") }

  lemma TwoUpserts(first: Payload, second: Payload)
    ensures var one, two := Upsert(1, "1", first), Upsert(2, "2", second);
      var db1 := Apply(EMPTY_DB, one, Backwards(1));
      && Step(EMPTY_DB, "s", one, Backwards) == db1
      && Step(db1, "s", two, Backwards) == Apply(db1, two, Backwards(2))
  {
    var one := Upsert(1, "1", first);
    MaxAfterRecord(map[], "1", WriterTables.RowOf(one), KEY);
    assert WriterTables.RowOf(one).Target() == KEY;
  }

  function TwoVersions(first: Payload, second: Payload): Db {
    Apply(Apply(EMPTY_DB, Upsert(1, "1", first), Backwards(1)), Upsert(2, "2", second), Backwards(2))
  }

  function Written(version: nat, id: string, payload: Payload): EventRow {
    EventRow(Event(id, "e." + "creado", "s", "e", "k", version, "", version, payload), true)
  }

  lemma WriterRuns(first: Payload, second: Payload)
    ensures LogInv(TwoVersions(first, second), "s")
    ensures KEY in TwoVersions(first, second).payload && TwoVersions(first, second).payload[KEY].payload == second
  {
    var one, two := Upsert(1, "1", first), Upsert(2, "2", second);
    var db1 := Apply(EMPTY_DB, one, Backwards(1));
    TwoUpserts(first, second);
    EmptyInv("s");
    StepLog(EMPTY_DB, "s", one, Backwards);
    StepLog(db1, "s", two, Backwards);
  }

  lemma WriterLogs(first: Payload, second: Payload)
    ensures var outbox := TwoVersions(first, second).outbox;
      && |outbox| == 2
      && EventRowOf(outbox[0]).(published := true) == Written(1, "b", first)
      && EventRowOf(outbox[1]).(published := true) == Written(2, "a", second)
  {
    assert "e" + "." + "creado" == "e." + "creado";
  }

  /** A writer updates a key; after the migration replaying the log brings the older value back. */
  lemma ReplayCanGoBack(plan: Plan, name: string, first: Payload, second: Payload)
    requires plan.Valid() && first != second
    ensures var db := TwoVersions(first, second);
      && LogInv(db, "s") && KEY in db.payload && db.payload[KEY].payload == second
      && |db.outbox| == 2
      && var rows := [EventRowOf(db.outbox[0]).(published := true), EventRowOf(db.outbox[1]).(published := true)];
         var sorted := [rows[1], rows[0]];
      && Sorted(FirstRows(rows), sorted)
      && var replayed := Replay(Numbered(Routed(plan, sorted, plan.At("k")), name));
      && KEY in replayed && replayed[KEY] == first
  {
    var one, two := Written(1, "b", first), Written(2, "a", second);
    WriterRuns(first, second);
    WriterLogs(first, second);
    TwoSorted(one, two);
    NotADeletion();
    BothRouted(plan, two, one, name);
  }

  lemma NotADeletion()
    ensures !EndsWith("e." + "creado", ".eliminado")
  {
  }

  lemma TwoSorted(a: EventRow, b: EventRow)
    requires a.Id() == "b" && b.Id() == "a"
    ensures Sorted(FirstRows([a, b]), [b, a])
  {
    assert [a, b][..1] == [a] && [a][..0] == [];
    assert FirstRows([a]) == map["b" := a];
    assert CompareText("a", "b") < 0;
  }

  lemma BothRouted(plan: Plan, a: EventRow, b: EventRow, name: string)
    requires plan.Valid() && a.event.key == b.event.key && b.Target() == a.Target() && !Deletes(b.event)
    ensures var outbox := Numbered(Routed(plan, [a, b], plan.At(a.event.key)), name);
      b.Target() in Replay(outbox) && Replay(outbox)[b.Target()] == b.event.payload
  {
    TwoRouted(plan, a, b);
    ReplayLast(Numbered([a, b], name), b.Target(), 1);
  }
}
