// The writer's database object: the statements of crates/ixmati-writer (dedup.rs, tombstones.rs,
// outbox.rs) as methods that update its tables, and the batch transaction of write_engine.rs.

module WriteEngine {
  import opened Options
  import opened WriterTables
  import opened WriterInvariant

  datatype BatchResult = BatchResult(committed: nat, duplicates: nat, conflicts: nat, events: seq<Event>)
  {
    function Counted(): Counts { Counts(committed, duplicates, conflicts) }
  }

  /** Some command of the batch makes the transaction fail. */
  ghost predicate Fails(db: Db, store: string, cmds: seq<Command>, stamp: nat -> Stamp) {
    exists i :: 0 <= i < |cmds| && FailsAt(db, store, cmds, stamp, i)
  }

  ghost predicate FailsAt(db: Db, store: string, cmds: seq<Command>, stamp: nat -> Stamp, i: nat)
    requires i < |cmds|
  {
    var before := Process(db, store, cmds[..i], stamp);
    Decide(before, store, cmds[i], stamp(before.nextId)).Failed?
  }

  ghost function StepEvents(db: Db, store: string, cmd: Command, stamp: nat -> Stamp): seq<Event> {
    var v := Decide(db, store, cmd, stamp(db.nextId));
    if v.Applied? then [v.event.(outboxSeq := 0)] else []
  }

  /** The events a batch reports; they do not carry their outbox id yet. */
  ghost function Events(db: Db, store: string, cmds: seq<Command>, stamp: nat -> Stamp): seq<Event> {
    if cmds == [] then []
    else
      var init, last := cmds[..|cmds|-1], cmds[|cmds|-1];
      Events(db, store, init, stamp) + StepEvents(Process(db, store, init, stamp), store, last, stamp)
  }

  predicate Foreign(store: string, cmd: Command) {
    (cmd.op == "upsert" || cmd.op == "patch" || cmd.op == "delete") && cmd.store != store
  }

  // ---------- what is applied, and what that writes ----------

  /** An upsert, a patch or a delete under a new idempotency key, newer than all that is known of its key. */
  predicate IsNews(db: Db, cmd: Command) {
    && (cmd.op == "upsert" || cmd.op == "patch" || cmd.op == "delete")
    && cmd.idempotencyKey !in db.idem
    && forall k :: k in db.idem && db.idem[k].entity == cmd.entity && db.idem[k].key == cmd.key ==>
         db.idem[k].version < cmd.version
  }

  /** Exactly these commands of the store are applied; of the others, a known idempotency key makes a
      duplicate and a known version a conflict. */
  lemma AppliedIff(db: Db, store: string, cmd: Command, stamp: Stamp)
    requires cmd.store == store
    ensures Decide(db, store, cmd, stamp).Applied? <==> IsNews(db, cmd)
    ensures Decide(db, store, cmd, stamp).Duplicate? <==> cmd.idempotencyKey in db.idem
    ensures Decide(db, store, cmd, stamp).Conflict? <==>
              cmd.idempotencyKey !in db.idem
              && exists k :: k in db.idem && db.idem[k].entity == cmd.entity && db.idem[k].key == cmd.key
                             && db.idem[k].version >= cmd.version
    ensures !Decide(db, store, cmd, stamp).Failed?
  {
    var current := MaxVersion(db.idem, cmd.Target());
    if current.Some? {
      var k :| k in db.idem && db.idem[k].Target() == cmd.Target() && db.idem[k].version == current.value;
      assert db.idem[k].entity == cmd.entity && db.idem[k].key == cmd.key;
    } else {
      assert forall k :: k in db.idem ==> db.idem[k].Target() != cmd.Target();
    }
  }

  /** What the tables settle is what they would not apply. */
  lemma SettledIff(db: Db, store: string, cmd: Command)
    requires cmd.store == store
    ensures Decided(db, store, cmd) <==> !IsNews(db, cmd)
  {
    AppliedIff(db, store, cmd, Stamp("", ""));
  }

  /** The type of the event that tells of a command. */
  predicate TypeTells(eventType: string, cmd: Command) {
    && (cmd.op == "upsert" ==> eventType == cmd.entity + ".creado")
    && (cmd.op == "patch" ==> eventType == cmd.entity + ".actualizado")
    && (cmd.op == "delete" ==> eventType == cmd.entity + ".eliminado")
  }

  /** The key's payload row is the command's, or is gone; a tombstone is laid down at its version or removed. */
  predicate StateWritten(db: Db, db': Db, cmd: Command, eventId: string) {
    var t := (cmd.entity, cmd.key);
    if cmd.op == "delete" then
      && db'.payload == db.payload - {t}
      && db'.tombs == db.tombs[t := if t in db.tombs && db.tombs[t].version > cmd.version then db.tombs[t]
                                    else TombRow(cmd.version, eventId)]
    else
      && db'.payload == db.payload[t := PayloadRow(cmd.version, cmd.payload)]
      && db'.tombs == if t in db.tombs && db.tombs[t].version > cmd.version then db.tombs else db.tombs - {t}
  }

  /** The row of the event, and the event in it. */
  predicate EventWritten(row: OutboxRow, id: nat, cmd: Command, stamp: Stamp) {
    && row.id == id && row.store == cmd.store && !row.published
    && row.event.eventId == stamp.eventId && row.event.occurredAt == stamp.occurredAt
    && row.event.outboxSeq == id && row.event.store == cmd.store
    && row.event.entity == cmd.entity && row.event.key == cmd.key && row.event.version == cmd.version
    && row.event.payload == cmd.payload && TypeTells(row.event.eventType, cmd)
  }

  /** One event and one idempotency row more. */
  predicate HistoryWritten(db: Db, db': Db, cmd: Command, stamp: Stamp) {
    && |db'.outbox| == |db.outbox| + 1 && db.outbox <= db'.outbox
    && EventWritten(db'.outbox[|db.outbox|], db.nextId, cmd, stamp)
    && db'.nextId == db.nextId + 1
    && db'.idem == db.idem[cmd.idempotencyKey := IdemRow(cmd.entity, cmd.key, cmd.version, cmd.op,
         Digest(cmd.op, cmd.store, cmd.entity, cmd.key, cmd.version, cmd.ts, cmd.payload))]
  }

  /** What an applied command leaves in the tables, and that no other command changes them. */
  lemma AppliedIsWritten(db: Db, store: string, cmd: Command, stamp: nat -> Stamp)
    ensures var db', draw := Step(db, store, cmd, stamp), stamp(db.nextId);
      if cmd.store == store && IsNews(db, cmd)
      then StateWritten(db, db', cmd, draw.eventId) && HistoryWritten(db, db', cmd, draw)
      else db' == db
  {
    if cmd.store == store {
      AppliedIff(db, store, cmd, stamp(db.nextId));
    }
  }

  /** In a database whose rows match their history the state is that of the command alone. */
  lemma AppliedReads(db: Db, store: string, cmd: Command, stamp: nat -> Stamp)
    requires StateMatchesHistory(db) && cmd.store == store && IsNews(db, cmd)
    ensures var db', t := Step(db, store, cmd, stamp), (cmd.entity, cmd.key);
      if cmd.op == "delete"
      then t !in db'.payload && t in db'.tombs && db'.tombs[t].version == cmd.version
      else t in db'.payload && db'.payload[t] == PayloadRow(cmd.version, cmd.payload) && t !in db'.tombs
  {
    AppliedIsWritten(db, store, cmd, stamp);
    var t := cmd.Target();
    if t in db.tombs {
      var k :| k in db.idem && db.idem[k].Target() == t && db.idem[k].version == MaxVersion(db.idem, t).value;
    }
  }

  function Reported(outbox: seq<OutboxRow>): (events: seq<Event>)
    ensures |events| == |outbox| && forall i :: 0 <= i < |outbox| ==> events[i] == outbox[i].event.(outboxSeq := 0)
  {
    seq(|outbox|, i requires 0 <= i < |outbox| => outbox[i].event.(outboxSeq := 0))
  }

  /** The counters and events of a batch tell of the rows it adds to the outbox. */
  lemma {:induction false} BatchReports(db: Db, store: string, cmds: seq<Command>, stamp: nat -> Stamp) returns (added: seq<OutboxRow>)
    ensures Process(db, store, cmds, stamp).outbox == db.outbox + added
    ensures Count(db, store, cmds, stamp).committed == |added|
    ensures Events(db, store, cmds, stamp) == Reported(added)
  {
    if cmds == [] {
      added := [];
      assert Reported(added) == [];
    } else {
      var init, last := cmds[..|cmds|-1], cmds[|cmds|-1];
      var before := BatchReports(db, store, init, stamp);
      var more := StepReports(Process(db, store, init, stamp), store, last, stamp);
      ReportsJoin(db.outbox, before, more);
      added := before + more;
    }
  }

  lemma ReportsJoin(outbox: seq<OutboxRow>, a: seq<OutboxRow>, b: seq<OutboxRow>)
    ensures outbox + a + b == outbox + (a + b) && Reported(a) + Reported(b) == Reported(a + b)
  {
  }

  lemma StepReports(db: Db, store: string, cmd: Command, stamp: nat -> Stamp) returns (more: seq<OutboxRow>)
    ensures Step(db, store, cmd, stamp).outbox == db.outbox + more
    ensures StepCount(db, store, cmd, stamp).committed == |more|
    ensures StepEvents(db, store, cmd, stamp) == Reported(more)
  {
    more := if Decide(db, store, cmd, stamp(db.nextId)).Applied?
            then [OutboxRow(db.nextId, cmd.store, EventOf(cmd, stamp(db.nextId), db.nextId), false)] else [];
  }

  /** One command for another store keeps a whole batch from committing, whatever the tables hold,
      and nothing else in the commands does. */
  lemma BatchFailsIff(db: Db, store: string, cmds: seq<Command>, stamp: nat -> Stamp)
    ensures Fails(db, store, cmds, stamp) <==> exists c :: c in cmds && Foreign(store, c)
  {
    if Fails(db, store, cmds, stamp) {
      var i :| 0 <= i < |cmds| && FailsAt(db, store, cmds, stamp, i);
      assert cmds[i] in cmds && Foreign(store, cmds[i]);
    }
    if c :| c in cmds && Foreign(store, c) {
      var i :| 0 <= i < |cmds| && cmds[i] == c;
      assert FailsAt(db, store, cmds, stamp, i);
    }
  }

  /** ... and such a command is never settled, so that it stays with the broker. */
  lemma ForeignNeverSettled(db: Db, store: string, cmd: Command)
    ensures Foreign(store, cmd) ==> !Decided(db, store, cmd)
  {
  }

  lemma DecisionTells(db: Db, store: string, cmd: Command, stamp: nat -> Stamp)
    ensures Decide(db, store, cmd, stamp(db.nextId)).Applied? <==> cmd.store == store && IsNews(db, cmd)
    ensures var db', draw := Step(db, store, cmd, stamp), stamp(db.nextId);
      if Decide(db, store, cmd, draw).Applied?
      then StateWritten(db, db', cmd, draw.eventId) && HistoryWritten(db, db', cmd, draw)
      else db' == db
  {
    AppliedIsWritten(db, store, cmd, stamp);
    if cmd.store == store {
      AppliedIff(db, store, cmd, stamp(db.nextId));
    }
  }

  /** A batch has got as far as its i-th command. */
  ghost predicate Reached(db: Db, store: string, cmds: seq<Command>, stamp: nat -> Stamp, i: nat,
                          mid: Db, counts: Counts, events: seq<Event>)
    requires i <= |cmds|
  {
    && mid == Process(db, store, cmds[..i], stamp)
    && counts == Count(db, store, cmds[..i], stamp)
    && events == Events(db, store, cmds[..i], stamp)
    && forall j :: 0 <= j < i ==> !FailsAt(db, store, cmds, stamp, j)
  }

  lemma ReachedNext(db: Db, store: string, cmds: seq<Command>, stamp: nat -> Stamp, i: nat,
                    mid: Db, counts: Counts, events: seq<Event>)
    requires i < |cmds| && Reached(db, store, cmds, stamp, i, mid, counts, events)
    ensures var v := Decide(mid, store, cmds[i], stamp(mid.nextId));
      if v.Failed? then Fails(db, store, cmds, stamp)
      else Reached(db, store, cmds, stamp, i + 1, Step(mid, store, cmds[i], stamp), counts.Plus(CountOf(v)),
                   events + (if v.Applied? then [v.event.(outboxSeq := 0)] else []))
  {
    assert cmds[..i+1][..i] == cmds[..i];
    if Decide(mid, store, cmds[i], stamp(mid.nextId)).Failed? {
      assert FailsAt(db, store, cmds, stamp, i);
    }
  }

  lemma ReachedEnd(db: Db, store: string, cmds: seq<Command>, stamp: nat -> Stamp,
                   mid: Db, counts: Counts, events: seq<Event>)
    requires Reached(db, store, cmds, stamp, |cmds|, mid, counts, events)
    ensures !Fails(db, store, cmds, stamp)
    ensures mid == Process(db, store, cmds, stamp)
    ensures counts == Count(db, store, cmds, stamp)
    ensures events == Events(db, store, cmds, stamp)
  {
    assert cmds[..|cmds|] == cmds;
  }

  class Database {
    const store: string
    var idem: map<string, IdemRow>
    var payload: map<Entity, PayloadRow>
    var tombs: map<Entity, TombRow>
    var outbox: seq<OutboxRow>
    var nextId: nat

    function Tables(): Db
      reads this
    {
      Db(idem, payload, tombs, outbox, nextId)
    }

    /** `ensure_schema` on a new file. */
    constructor (store: string)
      ensures this.store == store && Tables() == EMPTY_DB
    {
      this.store := store;
      idem, payload, tombs, outbox, nextId := map[], map[], map[], [], 1;
    }

    // ---------- idempotency ----------

    method Check(cmd: Command) returns (seen: bool)
      ensures seen == Seen(Tables(), store, cmd)
    {
      seen := cmd.store == store && cmd.idempotencyKey in idem;
    }

    /** `current_version`: the maximum over the rows of one key. */
    method ReadCurrentVersion(cmd: Command) returns (v: Option<nat>)
      ensures v == CurrentVersion(Tables(), store, cmd)
    {
      if cmd.store != store {
        return None;
      }
      v := None;
      var todo := idem.Keys;
      ghost var done: map<string, IdemRow> := map[];
      while todo != {}
        invariant todo <= idem.Keys
        invariant done == map k | k in idem && k !in todo :: idem[k]
        invariant IsMaxVersion(done, cmd.Target(), v)
        decreases |todo|
      {
        var k :| k in todo;
        ghost var more := done[k := idem[k]];
        ghost var w := MaxWith(more, done, k, cmd.Target(), v);
        if idem[k].entity == cmd.entity && idem[k].key == cmd.key {
          if v.None? || v.value < idem[k].version {
            v := Some(idem[k].version);
          }
        }
        todo := todo - {k};
        done := more;
      }
      assert done == idem;
      MaxVersionUnique(idem, cmd.Target(), v, MaxVersion(idem, cmd.Target()));
    }

    /** `INSERT OR IGNORE` */
    method Record(cmd: Command)
      modifies this`idem
      ensures idem == if cmd.idempotencyKey in old(idem) then old(idem) else old(idem)[cmd.idempotencyKey := RowOf(cmd)]
    {
      if cmd.idempotencyKey !in idem {
        idem := idem[cmd.idempotencyKey := RowOf(cmd)];
      }
    }

    // ---------- tombstones ----------

    method RecordTombstone(target: Entity, version: nat, eventId: string)
      modifies this`tombs
      ensures tombs == TombsWith(old(tombs), target, version, eventId)
      // the version of a tombstone never goes down
      ensures target in tombs && tombs[target].version >= version
      ensures target in old(tombs) ==> tombs[target].version >= old(tombs)[target].version
    {
      if target !in tombs || version >= tombs[target].version {
        tombs := tombs[target := TombRow(version, eventId)];
      }
    }

    method ClearTombstoneIfOlder(target: Entity, version: nat)
      modifies this`tombs
      ensures tombs == TombsCleared(old(tombs), target, version)
    {
      if target in tombs && tombs[target].version <= version {
        tombs := tombs - {target};
      }
    }

    // ---------- outbox ----------

    /** `Outbox::insert`: the row first, then its id into the stored event. */
    method InsertEvent(event: Event)
      modifies this`outbox, this`nextId
      ensures outbox == old(outbox) + [OutboxRow(old(nextId), event.store, event.(outboxSeq := old(nextId)), false)]
      ensures nextId == old(nextId) + 1
    {
      var id := nextId;
      var n := |outbox|;
      outbox := outbox + [OutboxRow(id, event.store, event, false)];
      nextId := nextId + 1;
      outbox := outbox[n := outbox[n].(event := event.(outboxSeq := id))];
    }

    /** `fetch_unpublished`: the first rows that wait, in id order. */
    method FetchUnpublished(limit: nat) returns (rows: seq<OutboxRow>)
      ensures rows == Waiting(outbox)[..if |Waiting(outbox)| < limit then |Waiting(outbox)| else limit]
      ensures forall r :: r in rows ==> r in outbox && !r.published
      ensures |rows| < limit ==> forall r :: r in outbox && !r.published ==> r in rows
    {
      rows := [];
      var i := 0;
      while i < |outbox| && |rows| < limit
        invariant 0 <= i <= |outbox| && |rows| <= limit
        invariant Waiting(outbox[..i]) == rows
      {
        assert outbox[..i+1][..i] == outbox[..i];
        if !outbox[i].published {
          rows := rows + [outbox[i]];
        }
        i := i + 1;
      }
      WaitingConcat(outbox[..i], outbox[i..]);
      assert outbox[..i] + outbox[i..] == outbox;
      assert outbox[|outbox|..] == [];
      WaitingMembers(outbox);
      assert forall r :: r in rows ==> r in Waiting(outbox);
    }

    /** `mark_published_batch` */
    method MarkPublished(ids: seq<nat>)
      modifies this`outbox
      ensures outbox == MarkRows(old(outbox), SetOf(ids))
      // exactly the rows named become published, and nothing else changes
      ensures |outbox| == |old(outbox)|
      ensures forall i :: 0 <= i < |outbox| ==>
                outbox[i] == old(outbox)[i].(published := old(outbox)[i].published || old(outbox)[i].id in ids)
    {
      var i := 0;
      while i < |outbox|
        invariant 0 <= i <= |outbox| == |old(outbox)|
        invariant forall j :: 0 <= j < i ==> outbox[j] == MarkRow(old(outbox)[j], SetOf(ids))
        invariant forall j :: i <= j < |outbox| ==> outbox[j] == old(outbox)[j]
      {
        if outbox[i].id in ids {
          outbox := outbox[i := outbox[i].(published := true)];
        }
        i := i + 1;
      }
    }

    // ---------- the transaction ----------

    /** The body of the command loop of `process_batch`: what it answers and writes is that of the tables
        alone, and is said here command by command. */
    method ProcessCommand(cmd: Command, stamp: nat -> Stamp) returns (verdict: Verdict)
      modifies this
      ensures verdict == Decide(old(Tables()), store, cmd, stamp(old(nextId)))
      ensures Tables() == Step(old(Tables()), store, cmd, stamp)
      ensures verdict.Applied? <==> cmd.store == store && IsNews(old(Tables()), cmd)
      ensures verdict.Applied? ==>
                (StateWritten(old(Tables()), Tables(), cmd, stamp(old(nextId)).eventId)
                 && HistoryWritten(old(Tables()), Tables(), cmd, stamp(old(nextId))))
      ensures !verdict.Applied? ==> Tables() == old(Tables())
    {
      ghost var before := Tables();
      verdict := RunCommand(cmd, stamp);
      DecisionTells(before, store, cmd, stamp);
    }

    method RunCommand(cmd: Command, stamp: nat -> Stamp) returns (verdict: Verdict)
      modifies this
      ensures verdict == Decide(old(Tables()), store, cmd, stamp(old(nextId)))
      ensures Tables() == Step(old(Tables()), store, cmd, stamp)
    {
      var seen := Check(cmd);
      if seen {
        return Duplicate;
      }
      var current := ReadCurrentVersion(cmd);
      if current.Some? && cmd.version <= current.value {
        return Conflict;
      }
      if !KnownOp(cmd.op) {
        return UnknownOp;
      }
      if cmd.store != store {
        return Failed;
      }
      var draw := stamp(nextId);
      if cmd.op == "delete" {
        payload := payload - {cmd.Target()};
      } else {
        payload := payload[cmd.Target() := PayloadRow(cmd.version, cmd.payload)];
        ClearTombstoneIfOlder(cmd.Target(), cmd.version);
      }
      var event := EventOf(cmd, draw, 0);
      verdict := Applied(event.(outboxSeq := nextId));
      if cmd.op == "delete" {
        RecordTombstone(cmd.Target(), cmd.version, event.eventId);
      }
      InsertEvent(event);
      Record(cmd);
    }

    method ProcessNext(cmds: seq<Command>, stamp: nat -> Stamp, i: nat, tally: BatchResult, ghost before: Db)
      returns (more: BatchResult, failed: bool)
      requires i < |cmds| && Reached(before, store, cmds, stamp, i, Tables(), tally.Counted(), tally.events)
      modifies this
      ensures failed ==> Fails(before, store, cmds, stamp)
      ensures !failed ==> Reached(before, store, cmds, stamp, i + 1, Tables(), more.Counted(), more.events)
    {
      ReachedNext(before, store, cmds, stamp, i, Tables(), tally.Counted(), tally.events);
      var verdict := ProcessCommand(cmds[i], stamp);
      more, failed := tally, verdict.Failed?;
      if !failed {
        more := Tally(tally, verdict);
      }
    }

    /** `process_batch`: all commands in one transaction; an error rolls everything back. */
    method ProcessBatch(cmds: seq<Command>, stamp: nat -> Stamp) returns (result: Option<BatchResult>)
      modifies this
      ensures result.None? <==> Fails(old(Tables()), store, cmds, stamp)
      ensures result.None? ==> Tables() == old(Tables())
      ensures result.Some? ==>
                (Tables() == Process(old(Tables()), store, cmds, stamp)
                 && result.value.Counted() == Count(old(Tables()), store, cmds, stamp)
                 && result.value.events == Events(old(Tables()), store, cmds, stamp))
    {
      var before := Tables();
      var tally := BatchResult(0, 0, 0, []);
      var i := 0;
      while i < |cmds|
        invariant 0 <= i <= |cmds|
        invariant Reached(before, store, cmds, stamp, i, Tables(), tally.Counted(), tally.events)
      {
        var failed;
        tally, failed := ProcessNext(cmds, stamp, i, tally, before);
        if failed {
          idem, payload, tombs, outbox, nextId := before.idem, before.payload, before.tombs, before.outbox, before.nextId;
          return None;
        }
        i := i + 1;
      }
      ReachedEnd(before, store, cmds, stamp, Tables(), tally.Counted(), tally.events);
      result := Some(tally);
    }
  }

  /** The counters and events of the result after one more command. */
  method Tally(tally: BatchResult, verdict: Verdict) returns (more: BatchResult)
    requires !verdict.Failed?
    ensures more.Counted() == tally.Counted().Plus(CountOf(verdict))
    ensures more.events == tally.events + (if verdict.Applied? then [verdict.event.(outboxSeq := 0)] else [])
    ensures more.committed == tally.committed + (if verdict.Applied? then 1 else 0)
    ensures more.duplicates == tally.duplicates + (if verdict.Duplicate? then 1 else 0)
    ensures more.conflicts == tally.conflicts + (if verdict.Conflict? then 1 else 0)
  {
    more := tally;
    match verdict {
      case Duplicate => more := more.(duplicates := more.duplicates + 1);
      case Conflict => more := more.(conflicts := more.conflicts + 1);
      case UnknownOp =>
      case Applied(event) => more := more.(committed := more.committed + 1, events := more.events + [event.(outboxSeq := 0)]);
    }
  }

  /** The rows not yet published, in id order. */
  function Waiting(outbox: seq<OutboxRow>): seq<OutboxRow> {
    if outbox == [] then []
    else Waiting(outbox[..|outbox|-1]) + (if outbox[|outbox|-1].published then [] else [outbox[|outbox|-1]])
  }

  /** Each row that is not published waits, and no other ... */
  lemma {:induction false} WaitingMembers(outbox: seq<OutboxRow>)
    ensures forall r :: r in Waiting(outbox) <==> r in outbox && !r.published
  {
    if outbox != [] {
      WaitingMembers(outbox[..|outbox|-1]);
      assert outbox == outbox[..|outbox|-1] + [outbox[|outbox|-1]];
    }
  }

  /** ... in the order of the outbox. */
  lemma {:induction false} WaitingRises(outbox: seq<OutboxRow>)
    requires forall i, j :: 0 <= i < j < |outbox| ==> outbox[i].id < outbox[j].id
    ensures forall i, j :: 0 <= i < j < |Waiting(outbox)| ==> Waiting(outbox)[i].id < Waiting(outbox)[j].id
  {
    if outbox != [] {
      var init := outbox[..|outbox|-1];
      WaitingRises(init);
      WaitingMembers(init);
      forall i | 0 <= i < |Waiting(init)|
        ensures Waiting(init)[i].id < outbox[|outbox|-1].id
      {
        assert Waiting(init)[i] in init;
      }
    }
  }

  lemma {:induction false} WaitingConcat(a: seq<OutboxRow>, b: seq<OutboxRow>)
    ensures Waiting(a + b) == Waiting(a) + Waiting(b)
    decreases |b|
  {
    if b == [] {
      assert a + b == a;
    } else {
      WaitingConcat(a, b[..|b|-1]);
      assert (a + b)[..|a+b|-1] == a + b[..|b|-1];
    }
  }
}
