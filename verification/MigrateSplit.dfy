// The migrator's destinations (crates/ixmati-store-migrate/src/lib.rs): they keep the invariant the
// writer works with, and the parts of a split store decide like the whole.

module MigrateSplit {
  import opened Options
  import opened WriterTables
  import opened WriterInvariant
  import opened MigratePlan
  import opened MigrateMerge
  import opened MigrateOutbox

  // ---------- writing the destinations ----------

  function RowsAt(plan: Plan, idem: map<string, IdemRow>, b: nat): map<string, IdemRow>
    requires plan.Valid()
  {
    map k | k in idem && plan.At(idem[k].key) == b :: idem[k]
  }

  function LiveAt(plan: Plan, states: States, b: nat): map<Entity, PayloadRow>
    requires plan.Valid()
  {
    map t | t in states && states[t].payload.Some? && plan.At(t.1) == b :: PayloadRow(states[t].version, states[t].payload.value)
  }

  function DeadAt(plan: Plan, states: States, b: nat): map<Entity, TombRow>
    requires plan.Valid()
  {
    map t | t in states && states[t].payload.None? && plan.At(t.1) == b :: TombRow(states[t].version, states[t].eventId)
  }

  /** What destination `b`, a store called `name`, holds. */
  function Destination(plan: Plan, name: string, states: States, idem: map<string, IdemRow>, events: seq<EventRow>, b: nat): Db
    requires plan.Valid()
  {
    var outbox := Numbered(Routed(plan, events, b), name);
    Db(RowsAt(plan, idem, b), LiveAt(plan, states, b), DeadAt(plan, states, b), outbox, |outbox| + 1)
  }

  predicate Keyed(states: States) {
    forall t :: t in states ==> states[t].Target() == t
  }

  lemma {:induction false} MergeKeyed(rows: seq<StateRow>)
    ensures Keyed(MergeAll(rows))
  {
    if rows != [] {
      MergeKeyed(rows[..|rows|-1]);
    }
  }

  ghost predicate LiveWritten(plan: Plan, states: States, live: seq<map<Entity, PayloadRow>>)
    requires plan.Valid()
  {
    |live| == plan.n && forall b :: 0 <= b < plan.n ==> live[b] == LiveAt(plan, states, b)
  }

  ghost predicate DeadWritten(plan: Plan, states: States, dead: seq<map<Entity, TombRow>>)
    requires plan.Valid()
  {
    |dead| == plan.n && forall b :: 0 <= b < plan.n ==> dead[b] == DeadAt(plan, states, b)
  }

  ghost predicate RowsWritten(plan: Plan, idem: map<string, IdemRow>, rows: seq<map<string, IdemRow>>)
    requires plan.Valid()
  {
    |rows| == plan.n && forall b :: 0 <= b < plan.n ==> rows[b] == RowsAt(plan, idem, b)
  }

  lemma LiveNext(plan: Plan, states: States, t: Entity, row: StateRow, live: seq<map<Entity, PayloadRow>>)
    requires plan.Valid() && t !in states && LiveWritten(plan, states, live)
    ensures var b := plan.At(t.1);
      LiveWritten(plan, states[t := row],
                  if row.payload.Some? then live[b := live[b][t := PayloadRow(row.version, row.payload.value)]] else live)
  {
    var b, more := plan.At(t.1), states[t := row];
    forall x | 0 <= x < plan.n
      ensures LiveAt(plan, more, x) == if row.payload.Some? && x == b
                                       then LiveAt(plan, states, x)[t := PayloadRow(row.version, row.payload.value)]
                                       else LiveAt(plan, states, x)
    {
    }
  }

  lemma DeadNext(plan: Plan, states: States, t: Entity, row: StateRow, dead: seq<map<Entity, TombRow>>)
    requires plan.Valid() && t !in states && DeadWritten(plan, states, dead)
    ensures var b := plan.At(t.1);
      DeadWritten(plan, states[t := row],
                  if row.payload.None? then dead[b := dead[b][t := TombRow(row.version, row.eventId)]] else dead)
  {
    var b, more := plan.At(t.1), states[t := row];
    forall x | 0 <= x < plan.n
      ensures DeadAt(plan, more, x) == if row.payload.None? && x == b
                                       then DeadAt(plan, states, x)[t := TombRow(row.version, row.eventId)]
                                       else DeadAt(plan, states, x)
    {
    }
  }

  lemma RowsNext(plan: Plan, idem: map<string, IdemRow>, k: string, row: IdemRow, rows: seq<map<string, IdemRow>>)
    requires plan.Valid() && k !in idem && RowsWritten(plan, idem, rows)
    ensures var b := plan.At(row.key); RowsWritten(plan, idem[k := row], rows[b := rows[b][k := row]])
  {
    var b, more := plan.At(row.key), idem[k := row];
    forall x | 0 <= x < plan.n
      ensures RowsAt(plan, more, x) == if x == b then RowsAt(plan, idem, x)[k := row] else RowsAt(plan, idem, x)
    {
    }
  }

  /** Some rows of a map are done and some are to do. */
  ghost predicate SplitsInto<K, V>(all: map<K, V>, done: map<K, V>, todo: map<K, V>) {
    && done.Keys !! todo.Keys
    && all == done + todo
  }

  lemma SplitsNext<K, V>(all: map<K, V>, done: map<K, V>, todo: map<K, V>, k: K)
    requires SplitsInto(all, done, todo) && k in todo
    ensures k in all && k !in done && all[k] == todo[k]
    ensures SplitsInto(all, done[k := all[k]], todo - {k})
  {
  }

  /** `write_destinations` for the state rows. */
  method WriteStates(plan: Plan, states: States) returns (live: seq<map<Entity, PayloadRow>>, dead: seq<map<Entity, TombRow>>)
    requires plan.Valid() && Keyed(states)
    ensures LiveWritten(plan, states, live) && DeadWritten(plan, states, dead)
  {
    live, dead := seq(plan.n, _ => map[]), seq(plan.n, _ => map[]);
    var todo := states;
    ghost var done: States := map[];
    while todo != map[]
      invariant SplitsInto(states, done, todo)
      invariant LiveWritten(plan, done, live) && DeadWritten(plan, done, dead)
      decreases |todo|
    {
      var t :| t in todo;
      SplitsNext(states, done, todo, t);
      var row := states[t];
      LiveNext(plan, done, t, row, live);
      DeadNext(plan, done, t, row, dead);
      var b := plan.At(row.key);
      if row.payload.Some? {
        live := live[b := live[b][t := PayloadRow(row.version, row.payload.value)]];
      } else {
        dead := dead[b := dead[b][t := TombRow(row.version, row.eventId)]];
      }
      done := done[t := row];
      todo := todo - {t};
    }
    assert done == states;
  }

  /** `write_destinations` for the idempotency rows. */
  method WriteIdempotency(plan: Plan, idem: map<string, IdemRow>) returns (rows: seq<map<string, IdemRow>>)
    requires plan.Valid()
    ensures RowsWritten(plan, idem, rows)
  {
    rows := seq(plan.n, _ => map[]);
    var todo := idem;
    ghost var done: map<string, IdemRow> := map[];
    while todo != map[]
      invariant SplitsInto(idem, done, todo)
      invariant RowsWritten(plan, done, rows)
      decreases |todo|
    {
      var k :| k in todo;
      SplitsNext(idem, done, todo, k);
      RowsNext(plan, done, k, idem[k], rows);
      var b := plan.At(idem[k].key);
      rows := rows[b := rows[b][k := idem[k]]];
      done := done[k := idem[k]];
      todo := todo - {k};
    }
    assert done == idem;
  }

  // ---------- the writer's invariant survives ----------

  /** The queries of a source list the tables of a writer's database. */
  ghost predicate Lists(source: Source, db: Db) {
    && FromSource(source)
    && (forall r :: r in source.live ==> r.Target() in db.payload && db.payload[r.Target()] == PayloadRow(r.version, r.payload.value))
    && (forall t :: t in db.payload ==> exists r :: r in source.live && r.Target() == t)
    && (forall r :: r in source.dead ==> r.Target() in db.tombs && db.tombs[r.Target()] == TombRow(r.version, r.eventId))
    && (forall t :: t in db.tombs ==> exists r :: r in source.dead && r.Target() == t)
    && (forall r :: r in source.idem ==> r.idempotencyKey in db.idem && db.idem[r.idempotencyKey] == r.row)
    && (forall k :: k in db.idem ==> HasKey(source.idem, k))
    && |source.events| == |db.outbox|
    && (forall i :: 0 <= i < |db.outbox| ==> source.events[i] == EventRowOf(db.outbox[i]))
  }

  function EventRowOf(row: OutboxRow): EventRow {
    EventRow(row.event, row.published)
  }

  ghost predicate ListAll(sources: seq<Source>, dbs: seq<Db>) {
    |sources| == |dbs| && forall i :: 0 <= i < |sources| ==> Lists(sources[i], dbs[i])
  }

  ghost predicate AllMatchHistory(dbs: seq<Db>) {
    forall i :: 0 <= i < |dbs| ==> StateMatchesHistory(dbs[i])
  }

  lemma {:induction false} IdemSource(sources: seq<Source>, r: IdempotencyRow)
    ensures r in IdemRows(sources) <==> exists i :: 0 <= i < |sources| && r in sources[i].idem
  {
    if sources != [] {
      var n := |sources| - 1;
      IdemSource(sources[..n], r);
      assert r in IdemRows(sources) <==> r in IdemRows(sources[..n]) || r in sources[n].idem;
      if i :| 0 <= i < |sources| && r in sources[i].idem {
        assert i < n ==> r in sources[..n][i].idem;
      }
    }
  }

  /** A row of the merged idempotency table comes from some source ... */
  lemma HeldFromSource(sources: seq<Source>, dbs: seq<Db>, idem: map<string, IdemRow>, k: string) returns (i: nat)
    requires ListAll(sources, dbs) && Holds(idem, IdemRows(sources)) && k in idem
    ensures i < |dbs| && k in dbs[i].idem && dbs[i].idem[k] == idem[k]
  {
    assert HasKey(IdemRows(sources), k);
    var j :| 0 <= j < |IdemRows(sources)| && IdemRows(sources)[j].idempotencyKey == k;
    var r := IdemRows(sources)[j];
    IdemSource(sources, r);
    i :| 0 <= i < |sources| && r in sources[i].idem;
    assert Lists(sources[i], dbs[i]);
  }

  /** ... and every row of a source is in it. */
  lemma SourceIsHeld(sources: seq<Source>, dbs: seq<Db>, idem: map<string, IdemRow>, i: nat, k: string)
    requires ListAll(sources, dbs) && Holds(idem, IdemRows(sources)) && i < |dbs| && k in dbs[i].idem
    ensures k in idem && idem[k] == dbs[i].idem[k]
  {
    assert Lists(sources[i], dbs[i]);
    assert HasKey(sources[i].idem, k);
    var x :| 0 <= x < |sources[i].idem| && sources[i].idem[x].idempotencyKey == k;
    var r := sources[i].idem[x];
    assert r in sources[i].idem;
    IdemSource(sources, r);
    var j :| 0 <= j < |IdemRows(sources)| && IdemRows(sources)[j] == r;
  }

  function VersionOf(db: Db, t: Entity): Option<nat> {
    if t in db.payload then Some(db.payload[t].version)
    else if t in db.tombs then Some(db.tombs[t].version)
    else None
  }

  lemma NoGreaterVersion(sources: seq<Source>, dbs: seq<Db>, t: Entity, i: nat)
    requires ListAll(sources, dbs) && i < |dbs| && VersionOf(dbs[i], t).Some?
    ensures t in MergeAll(Candidates(sources)) && VersionOf(dbs[i], t).value <= MergeAll(Candidates(sources))[t].version
  {
    var rows := Candidates(sources);
    var r := RowFor(sources, dbs, i, t);
    var x := SurvivorWins(rows, t);
    var j :| 0 <= j < |rows| && rows[j] == r;
    assert CompareState(rows[x], rows[j]) >= 0;
  }

  lemma RowVersion(source: Source, db: Db, r: StateRow)
    requires Lists(source, db) && StateMatchesHistory(db) && MigrateMerge.RowOf(source, r)
    ensures VersionOf(db, r.Target()) == Some(r.version)
  {
  }

  lemma SurvivorSource(sources: seq<Source>, dbs: seq<Db>, t: Entity) returns (i: nat)
    requires ListAll(sources, dbs) && AllMatchHistory(dbs) && t in MergeAll(Candidates(sources))
    ensures i < |dbs| && VersionOf(dbs[i], t) == Some(MergeAll(Candidates(sources))[t].version)
  {
    var rows := Candidates(sources);
    NoneMerged(rows, t);
    var x := SurvivorWins(rows, t);
    CandidateSource(sources, rows[x]);
    i :| 0 <= i < |sources| && MigrateMerge.RowOf(sources[i], rows[x]);
    RowVersion(sources[i], dbs[i], rows[x]);
  }

  lemma RowFor(sources: seq<Source>, dbs: seq<Db>, i: nat, t: Entity) returns (r: StateRow)
    requires ListAll(sources, dbs) && i < |dbs| && VersionOf(dbs[i], t).Some?
    ensures r in Candidates(sources) && r.Target() == t && r.version == VersionOf(dbs[i], t).value
  {
    assert Lists(sources[i], dbs[i]);
    if t in dbs[i].payload {
      r :| r in sources[i].live && r.Target() == t;
    } else {
      r :| r in sources[i].dead && r.Target() == t;
    }
    CandidateSource(sources, r);
    assert MigrateMerge.RowOf(sources[i], r);
  }

  /** Over the merged idempotency rows, the maximum version of a key is its surviving row's. */
  lemma MergedMaxVersion(sources: seq<Source>, dbs: seq<Db>, idem: map<string, IdemRow>, t: Entity)
    requires ListAll(sources, dbs) && AllMatchHistory(dbs) && Holds(idem, IdemRows(sources))
    ensures var states := MergeAll(Candidates(sources));
      IsMaxVersion(idem, t, if t in states then Some(states[t].version) else None)
  {
    var states := MergeAll(Candidates(sources));
    forall k | k in idem && idem[k].Target() == t
      ensures t in states && idem[k].version <= states[t].version
    {
      var i := HeldFromSource(sources, dbs, idem, k);
      assert StateMatchesHistory(dbs[i]);
      assert MaxVersion(dbs[i].idem, t) == VersionOf(dbs[i], t);
      NoGreaterVersion(sources, dbs, t, i);
    }
    if t in states {
      var i := SurvivorSource(sources, dbs, t);
      assert StateMatchesHistory(dbs[i]);
      assert MaxVersion(dbs[i].idem, t) == VersionOf(dbs[i], t);
      var k :| k in dbs[i].idem && dbs[i].idem[k].Target() == t && dbs[i].idem[k].version == states[t].version;
      SourceIsHeld(sources, dbs, idem, i, k);
    }
  }

  /** Rename, merge and split keep "payload or tombstone, at the maximum version" in every
      destination. */
  lemma DestinationMatchesHistory(plan: Plan, name: string, sources: seq<Source>, dbs: seq<Db>, idem: map<string, IdemRow>,
                                  events: seq<EventRow>, b: nat)
    requires plan.Valid() && b < plan.n
    requires ListAll(sources, dbs) && AllMatchHistory(dbs) && Holds(idem, IdemRows(sources))
    ensures StateMatchesHistory(Destination(plan, name, MergeAll(Candidates(sources)), idem, events, b))
  {
    var states := MergeAll(Candidates(sources));
    var d := Destination(plan, name, states, idem, events, b);
    forall t: Entity
      ensures MaxVersion(d.idem, t) == VersionOf(d, t)
    {
      MergedMaxVersion(sources, dbs, idem, t);
      PartMaxVersion(plan, idem, b, t, if t in states then Some(states[t].version) else None);
      MaxVersionUnique(d.idem, t, MaxVersion(d.idem, t), VersionOf(d, t));
    }
  }

  /** A part has all the rows of its keys and none of the others. */
  lemma PartMaxVersion(plan: Plan, idem: map<string, IdemRow>, b: nat, t: Entity, v: Option<nat>)
    requires plan.Valid() && IsMaxVersion(idem, t, v)
    ensures IsMaxVersion(RowsAt(plan, idem, b), t, if plan.At(t.1) == b then v else None)
  {
    var part := RowsAt(plan, idem, b);
    if plan.At(t.1) == b && v.Some? {
      var k :| k in idem && idem[k].Target() == t && idem[k].version == v.value;
      assert k in part && part[k] == idem[k];
    }
  }

  /** ... which is what the writer needs to go on keeping it. */
  lemma MigratedStoreRuns(plan: Plan, name: string, sources: seq<Source>, dbs: seq<Db>, idem: map<string, IdemRow>,
                          events: seq<EventRow>, b: nat, cmds: seq<Command>, stamp: nat -> Stamp)
    requires plan.Valid() && b < plan.n
    requires ListAll(sources, dbs) && AllMatchHistory(dbs) && Holds(idem, IdemRows(sources))
    ensures StateMatchesHistory(Process(Destination(plan, name, MergeAll(Candidates(sources)), idem, events, b), name, cmds, stamp))
  {
    DestinationMatchesHistory(plan, name, sources, dbs, idem, events, b);
    ProcessState(Destination(plan, name, MergeAll(Candidates(sources)), idem, events, b), name, cmds, stamp);
  }

  /** All destinations as specified. */
  ghost predicate Migrated(plan: Plan, names: seq<string>, sources: seq<Source>, idem: map<string, IdemRow>, events: seq<EventRow>,
                           dests: seq<Db>)
    requires plan.Valid() && |names| == plan.n
  {
    && Holds(idem, IdemRows(sources)) && Sorted(FirstRows(EventRows(sources)), events)
    && |dests| == plan.n
    && forall b :: 0 <= b < plan.n ==> dests[b] == Destination(plan, names[b], MergeAll(Candidates(sources)), idem, events, b)
  }

  /** The whole migration. It fails exactly when the sources disagree about an idempotency key or about
      an event. */
  method Migrate(plan: Plan, names: seq<string>, sources: seq<Source>, ghost dbs: seq<Db>) returns (result: Option<seq<Db>>)
    requires plan.Valid() && |names| == plan.n && ListAll(sources, dbs) && AllMatchHistory(dbs)
    ensures result.None? <==> SomeDiverge(IdemRows(sources)) || SomeContradict(EventRows(sources))
    ensures result.Some? ==> exists idem, events :: Migrated(plan, names, sources, idem, events, result.value)
    ensures result.Some? ==> forall b :: 0 <= b < |result.value| ==> StateMatchesHistory(result.value[b])
  {
    var states := CollectStates(sources);
    MergeKeyed(Candidates(sources));
    var idem, _ := CollectIdempotency(sources);
    if idem.None? {
      return None;
    }
    var events := CollectOutbox(sources);
    if events.None? {
      return None;
    }
    var live, dead := WriteStates(plan, states);
    var rows := WriteIdempotency(plan, idem.value);
    var outboxes := WriteOutbox(plan, names, events.value);
    var dests := seq(plan.n, b requires 0 <= b < plan.n && |rows| == |live| == |dead| == |outboxes| == plan.n =>
                       Db(rows[b], live[b], dead[b], outboxes[b], |outboxes[b]| + 1));
    forall b | 0 <= b < plan.n
      ensures dests[b] == Destination(plan, names[b], states, idem.value, events.value, b) && StateMatchesHistory(dests[b])
    {
      DestinationMatchesHistory(plan, names[b], sources, dbs, idem.value, events.value, b);
    }
    assert Migrated(plan, names, sources, idem.value, events.value, dests);
    result := Some(dests);
  }

  // ---------- a split store decides like the whole ----------

  function CoreOf(row: IdemRow): (string, string, nat) { (row.entity, row.key, row.version) }

  ghost predicate IdemPart(plan: Plan, whole: map<string, IdemRow>, part: map<string, IdemRow>, b: nat)
    requires plan.Valid()
  {
    && (forall k :: k in part <==> k in whole && plan.At(whole[k].key) == b)
    && (forall k :: k in part ==> CoreOf(part[k]) == CoreOf(whole[k]))
  }

  ghost predicate LivePart(plan: Plan, whole: map<Entity, PayloadRow>, part: map<Entity, PayloadRow>, b: nat)
    requires plan.Valid()
  {
    && (forall t :: t in part <==> t in whole && plan.At(t.1) == b)
    && (forall t :: t in part ==> part[t] == whole[t])
  }

  ghost predicate DeadPart(plan: Plan, whole: map<Entity, TombRow>, part: map<Entity, TombRow>, b: nat)
    requires plan.Valid()
  {
    && (forall t :: t in part <==> t in whole && plan.At(t.1) == b)
    && (forall t :: t in part ==> part[t].version == whole[t].version)
  }

  /** A part holds the rows of its keys; digests and event ids may differ. */
  ghost predicate PartOf(plan: Plan, db: Db, part: Db, b: nat)
    requires plan.Valid()
  {
    IdemPart(plan, db.idem, part.idem, b) && LivePart(plan, db.payload, part.payload, b) && DeadPart(plan, db.tombs, part.tombs, b)
  }

  ghost predicate PartsOf(plan: Plan, db: Db, parts: seq<Db>)
    requires plan.Valid()
  {
    |parts| == plan.n && forall b :: 0 <= b < plan.n ==> PartOf(plan, db, parts[b], b)
  }

  /** What the migrator writes for a split are the parts of its source. */
  lemma SplitGivesParts(plan: Plan, name: string, source: Source, db: Db, idem: map<string, IdemRow>, events: seq<EventRow>, b: nat)
    requires plan.Valid() && Lists(source, db) && StateMatchesHistory(db) && Holds(idem, IdemRows([source]))
    ensures PartOf(plan, db, Destination(plan, name, MergeAll(Candidates([source])), idem, events, b), b)
  {
    var sources, dbs := [source], [db];
    var states := MergeAll(Candidates(sources));
    var d := Destination(plan, name, states, idem, events, b);
    forall k: string
      ensures k in idem <==> k in db.idem
      ensures k in idem ==> idem[k] == db.idem[k]
    {
      if k in idem {
        var i := HeldFromSource(sources, dbs, idem, k);
      }
      if k in db.idem {
        SourceIsHeld(sources, dbs, idem, 0, k);
      }
    }
    forall t: Entity
      ensures t in states && states[t].payload.Some? <==> t in db.payload
      ensures t in db.payload && t in states && states[t].payload.Some? ==>
                db.payload[t] == PayloadRow(states[t].version, states[t].payload.value)
      ensures t in states && states[t].payload.None? <==> t in db.tombs
      ensures t in db.tombs && t in states ==> db.tombs[t].version == states[t].version
    {
      SingleSource(source, db, t);
    }
  }

  /** What a source's row says is what its tables hold. */
  lemma SurvivorTables(source: Source, db: Db, r: StateRow)
    requires Lists(source, db) && StateMatchesHistory(db) && MigrateMerge.RowOf(source, r)
    ensures MaxVersion(db.idem, r.Target()) == VersionOf(db, r.Target())
    ensures r.payload.Some? <==> r.Target() in db.payload
    ensures r.payload.None? <==> r.Target() in db.tombs
    ensures r.payload.Some? ==> db.payload[r.Target()] == PayloadRow(r.version, r.payload.value)
    ensures r.payload.None? ==> db.tombs[r.Target()].version == r.version
  {
  }

  lemma SurvivorOfOne(source: Source, t: Entity)
    ensures var states := MergeAll(Candidates([source]));
      t in states ==> states[t].Target() == t && MigrateMerge.RowOf(source, states[t])
  {
    var rows := Candidates([source]);
    NoneMerged(rows, t);
    if t in MergeAll(rows) {
      var x := SurvivorWins(rows, t);
      CandidateSource([source], rows[x]);
      var i :| 0 <= i < 1 && MigrateMerge.RowOf([source][i], rows[x]);
      assert [source][i] == source;
    }
  }

  lemma SingleSource(source: Source, db: Db, t: Entity)
    requires Lists(source, db) && StateMatchesHistory(db)
    ensures var states := MergeAll(Candidates([source]));
      && (t in states && states[t].payload.Some? <==> t in db.payload)
      && (t in states && states[t].payload.None? <==> t in db.tombs)
      && (t in db.payload && t in states && states[t].payload.Some? ==>
            db.payload[t] == PayloadRow(states[t].version, states[t].payload.value))
      && (t in db.tombs && t in states ==> db.tombs[t].version == states[t].version)
  {
    var states := MergeAll(Candidates([source]));
    SurvivorOfOne(source, t);
    if t in states {
      SurvivorTables(source, db, states[t]);
    } else if t in db.payload || t in db.tombs {
      NoGreaterVersion([source], [db], t, 0);
    }
  }

  predicate SameVerdict(v: Verdict, w: Verdict) {
    match v
    case Applied(_) => w.Applied?
    case Duplicate => w.Duplicate?
    case Conflict => w.Conflict?
    case UnknownOp => w.UnknownOp?
    case Failed => w.Failed?
  }

  lemma PartVersion(plan: Plan, db: Db, part: Db, b: nat, t: Entity)
    requires plan.Valid() && PartOf(plan, db, part, b) && plan.At(t.1) == b
    ensures MaxVersion(part.idem, t) == MaxVersion(db.idem, t)
  {
    var v := MaxVersion(db.idem, t);
    if v.Some? {
      var k :| k in db.idem && db.idem[k].Target() == t && db.idem[k].version == v.value;
      assert k in part.idem && CoreOf(part.idem[k]) == CoreOf(db.idem[k]);
    }
    forall k | k in part.idem && part.idem[k].Target() == t
      ensures v.Some? && part.idem[k].version <= v.value
    {
      assert CoreOf(part.idem[k]) == CoreOf(db.idem[k]);
      assert db.idem[k].Target() == t;
    }
    MaxVersionUnique(part.idem, t, MaxVersion(part.idem, t), v);
  }

  /** The idempotency key of a command already stands for a key that another part holds. */
  predicate UsedElsewhere(plan: Plan, db: Db, cmd: Command)
    requires plan.Valid()
  {
    cmd.idempotencyKey in db.idem && plan.At(db.idem[cmd.idempotencyKey].key) != plan.At(cmd.key)
  }

  /** A part decides like the whole about its commands, except exactly about those whose idempotency
      key was used for a key of another part: the whole takes them for duplicates. */
  lemma SplitVerdict(plan: Plan, store: string, partName: string, db: Db, part: Db, cmd: Command,
                     stamp: Stamp, partStamp: Stamp)
    requires plan.Valid() && PartOf(plan, db, part, plan.At(cmd.key)) && cmd.store == store
    ensures SameVerdict(Decide(db, store, cmd, stamp), Decide(part, partName, cmd.(store := partName), partStamp))
       <==> !UsedElsewhere(plan, db, cmd)
  {
    PartVersion(plan, db, part, plan.At(cmd.key), cmd.Target());
    assert cmd.(store := partName).Target() == cmd.Target();
  }

  // ---------- ... and goes on doing so ----------

  /** The parts after commands that are routed by their key. */
  ghost function RouteAll(plan: Plan, names: seq<string>, parts: seq<Db>, cmds: seq<Command>, stamps: nat -> nat -> Stamp): (after: seq<Db>)
    requires plan.Valid() && |parts| == |names| == plan.n
    ensures |after| == plan.n
  {
    if cmds == [] then parts
    else
      var before, cmd := RouteAll(plan, names, parts, cmds[..|cmds|-1], stamps), cmds[|cmds|-1];
      var b := plan.At(cmd.key);
      before[b := Step(before[b], names[b], cmd.(store := names[b]), stamps(b))]
  }

  /** No idempotency key is used for keys of two parts; `home` tells whose it is. */
  ghost predicate OneHome(plan: Plan, idem: map<string, IdemRow>, cmds: seq<Command>, home: string -> nat)
    requires plan.Valid()
  {
    && (forall k :: k in idem ==> plan.At(idem[k].key) == home(k))
    && (forall i :: 0 <= i < |cmds| ==> plan.At(cmds[i].key) == home(cmds[i].idempotencyKey))
  }

  /** One command keeps the parts parts of the whole. */
  lemma RoutedStep(plan: Plan, store: string, name: string, db: Db, part: Db, cmd: Command, b: nat,
                   stamp: nat -> Stamp, partStamp: nat -> Stamp)
    requires plan.Valid() && cmd.store == store && PartOf(plan, db, part, b)
    requires plan.At(cmd.key) == b && !UsedElsewhere(plan, db, cmd)
    ensures PartOf(plan, Step(db, store, cmd, stamp), Step(part, name, cmd.(store := name), partStamp), b)
  {
    SplitVerdict(plan, store, name, db, part, cmd, stamp(db.nextId), partStamp(part.nextId));
    if Decide(db, store, cmd, stamp(db.nextId)).Applied? {
      AppliedToPart(plan, name, db, part, cmd, b, stamp(db.nextId), partStamp(part.nextId));
    }
  }

  lemma AppliedToPart(plan: Plan, name: string, db: Db, part: Db, cmd: Command, b: nat, stamp: Stamp, partStamp: Stamp)
    requires plan.Valid() && PartOf(plan, db, part, b) && plan.At(cmd.key) == b
    requires cmd.idempotencyKey !in db.idem
    ensures PartOf(plan, Apply(db, cmd, stamp), Apply(part, cmd.(store := name), partStamp), b)
  {
    var routed := cmd.(store := name);
    IdemHere(plan, db.idem, part.idem, cmd.idempotencyKey, WriterTables.RowOf(cmd), WriterTables.RowOf(routed), b);
    LiveHere(plan, db.payload, part.payload, cmd, routed, b);
    DeadHere(plan, db.tombs, part.tombs, cmd, routed, stamp.eventId, partStamp.eventId, b);
  }

  predicate SameButStore(cmd: Command, routed: Command) {
    routed == cmd.(store := routed.store)
  }

  lemma IdemHere(plan: Plan, whole: map<string, IdemRow>, part: map<string, IdemRow>, k: string,
                 row: IdemRow, routed: IdemRow, b: nat)
    requires plan.Valid() && IdemPart(plan, whole, part, b) && k !in whole && plan.At(row.key) == b && CoreOf(row) == CoreOf(routed)
    ensures IdemPart(plan, whole[k := row], part[k := routed], b)
  {
  }

  lemma LiveHere(plan: Plan, whole: map<Entity, PayloadRow>, part: map<Entity, PayloadRow>, cmd: Command, routed: Command, b: nat)
    requires plan.Valid() && LivePart(plan, whole, part, b) && plan.At(cmd.key) == b && SameButStore(cmd, routed)
    ensures LivePart(plan, PayloadAfter(whole, cmd), PayloadAfter(part, routed), b)
  {
    assert routed.Target() == cmd.Target();
  }

  lemma DeadHere(plan: Plan, whole: map<Entity, TombRow>, part: map<Entity, TombRow>, cmd: Command, routed: Command,
                 wholeId: string, partId: string, b: nat)
    requires plan.Valid() && DeadPart(plan, whole, part, b) && plan.At(cmd.key) == b && SameButStore(cmd, routed)
    ensures DeadPart(plan, TombsAfter(whole, cmd, wholeId), TombsAfter(part, routed, partId), b)
  {
    assert routed.Target() == cmd.Target();
  }

  /** ... and does not touch the others. */
  lemma OtherPart(plan: Plan, store: string, db: Db, part: Db, cmd: Command, b: nat, stamp: nat -> Stamp)
    requires plan.Valid() && PartOf(plan, db, part, b) && plan.At(cmd.key) != b
    ensures PartOf(plan, Step(db, store, cmd, stamp), part, b)
  {
    if Decide(db, store, cmd, stamp(db.nextId)).Applied? {
      AppliedElsewhere(plan, db, part, cmd, b, stamp(db.nextId));
    }
  }

  lemma AppliedElsewhere(plan: Plan, db: Db, part: Db, cmd: Command, b: nat, stamp: Stamp)
    requires plan.Valid() && PartOf(plan, db, part, b) && plan.At(cmd.key) != b && cmd.idempotencyKey !in db.idem
    ensures PartOf(plan, Apply(db, cmd, stamp), part, b)
  {
    IdemElsewhere(plan, db.idem, part.idem, cmd.idempotencyKey, WriterTables.RowOf(cmd), b);
    LiveElsewhere(plan, db.payload, part.payload, cmd, b);
    DeadElsewhere(plan, db.tombs, part.tombs, cmd, stamp.eventId, b);
  }

  lemma IdemElsewhere(plan: Plan, whole: map<string, IdemRow>, part: map<string, IdemRow>, k: string, row: IdemRow, b: nat)
    requires plan.Valid() && IdemPart(plan, whole, part, b) && k !in whole && plan.At(row.key) != b
    ensures IdemPart(plan, whole[k := row], part, b)
  {
  }

  lemma LiveElsewhere(plan: Plan, whole: map<Entity, PayloadRow>, part: map<Entity, PayloadRow>, cmd: Command, b: nat)
    requires plan.Valid() && LivePart(plan, whole, part, b) && plan.At(cmd.key) != b
    ensures LivePart(plan, PayloadAfter(whole, cmd), part, b)
  {
  }

  lemma DeadElsewhere(plan: Plan, whole: map<Entity, TombRow>, part: map<Entity, TombRow>, cmd: Command, id: string, b: nat)
    requires plan.Valid() && DeadPart(plan, whole, part, b) && plan.At(cmd.key) != b
    ensures DeadPart(plan, TombsAfter(whole, cmd, id), part, b)
  {
  }

  lemma StepHome(plan: Plan, store: string, db: Db, cmd: Command, home: string -> nat, stamp: nat -> Stamp)
    requires plan.Valid() && OneHome(plan, db.idem, [cmd], home)
    ensures OneHome(plan, Step(db, store, cmd, stamp).idem, [], home)
  {
    assert plan.At([cmd][0].key) == home([cmd][0].idempotencyKey);
  }

  /** From the migration on, the split store and the whole one stay in step, whatever commands come:
      same verdicts, same rows, same versions. */
  lemma {:induction false} SplitSimulates(plan: Plan, store: string, names: seq<string>, db: Db, parts: seq<Db>, cmds: seq<Command>,
                                          home: string -> nat, stamp: nat -> Stamp, stamps: nat -> nat -> Stamp)
    requires plan.Valid() && |names| == plan.n && PartsOf(plan, db, parts)
    requires OneHome(plan, db.idem, cmds, home) && forall c :: c in cmds ==> c.store == store
    ensures PartsOf(plan, Process(db, store, cmds, stamp), RouteAll(plan, names, parts, cmds, stamps))
    ensures OneHome(plan, Process(db, store, cmds, stamp).idem, [], home)
  {
    if cmds != [] {
      var init, cmd := cmds[..|cmds|-1], cmds[|cmds|-1];
      SplitSimulates(plan, store, names, db, parts, init, home, stamp, stamps);
      var whole, before := Process(db, store, init, stamp), RouteAll(plan, names, parts, init, stamps);
      assert plan.At(cmd.key) == home(cmd.idempotencyKey);
      StepHome(plan, store, whole, cmd, home, stamp);
      SplitStep(plan, store, names, whole, before, cmd, stamp, stamps);
    }
  }

  lemma SplitStep(plan: Plan, store: string, names: seq<string>, db: Db, parts: seq<Db>, cmd: Command,
                  stamp: nat -> Stamp, stamps: nat -> nat -> Stamp)
    requires plan.Valid() && |names| == plan.n && PartsOf(plan, db, parts)
    requires cmd.store == store && !UsedElsewhere(plan, db, cmd)
    ensures var b := plan.At(cmd.key);
      PartsOf(plan, Step(db, store, cmd, stamp), parts[b := Step(parts[b], names[b], cmd.(store := names[b]), stamps(b))])
  {
    var b := plan.At(cmd.key);
    RoutedStep(plan, store, names[b], db, parts[b], cmd, b, stamp, stamps(b));
    forall other | 0 <= other < plan.n && other != b
      ensures PartOf(plan, Step(db, store, cmd, stamp), parts[other], other)
    {
      OtherPart(plan, store, db, parts[other], cmd, other, stamp);
    }
  }

  /** Whatever the hash: two keys of different parts and one idempotency key are enough for a command
      that is a duplicate before the split and applied after it. */
  lemma SplitCanDisagree(plan: Plan, first: Command, cmd: Command)
    requires plan.Valid() && plan.At(first.key) != plan.At(cmd.key)
    requires first.idempotencyKey == cmd.idempotencyKey && first.store == cmd.store && KnownOp(first.op) && KnownOp(cmd.op)
    ensures var db := Apply(EMPTY_DB, first, Stamp("", ""));
      && Decide(EMPTY_DB, first.store, first, Stamp("", "")).Applied? && PartOf(plan, db, EMPTY_DB, plan.At(cmd.key))
      && Decide(db, cmd.store, cmd, Stamp("", "")).Duplicate?
      && Decide(EMPTY_DB, "part", cmd.(store := "part"), Stamp("", "")).Applied?
  {
    var db := Apply(EMPTY_DB, first, Stamp("", ""));
    AppliedElsewhere(plan, EMPTY_DB, EMPTY_DB, first, plan.At(cmd.key), Stamp("", ""));
  }
}
