// The tables of a writer's SQLite database and what one command does to them
// (crates/ixmati-writer: write_engine.rs, dedup.rs, tombstones.rs, outbox.rs).

module WriterTables {
  import opened Options

  // serialised JSON
  type Payload = seq<bv8>
  type Entity = (string, string)

  datatype Command = Command(op: string, store: string, entity: string, key: string, version: nat,
                             ts: string, idempotencyKey: string, payload: Payload)
  {
    function Target(): Entity { (entity, key) }
  }

  datatype Event = Event(eventId: string, eventType: string, store: string, entity: string, key: string,
                         version: nat, occurredAt: string, outboxSeq: nat, payload: Payload)
  {
    function Target(): Entity { (entity, key) }
  }

  /** `command_digest`: SHA-256 over these fields, taken to be injective. */
  datatype Digest = Digest(op: string, store: string, entity: string, key: string, version: nat, ts: string, payload: Payload)

  function CommandDigest(cmd: Command): Digest {
    Digest(cmd.op, cmd.store, cmd.entity, cmd.key, cmd.version, cmd.ts, cmd.payload)
  }

  datatype IdemRow = IdemRow(entity: string, key: string, version: nat, operation: string, digest: Digest)
  {
    function Target(): Entity { (entity, key) }
  }
  datatype PayloadRow = PayloadRow(version: nat, payload: Payload)
  datatype TombRow = TombRow(version: nat, eventId: string)
  /** The columns `id`, `store` and `published_at` of an outbox row, and the envelope stored in it; its
      other columns repeat the envelope. */
  datatype OutboxRow = OutboxRow(id: nat, store: string, event: Event, published: bool)

  /** One database file: `_idempotency`, `payload_<store>`, `_tombstones`, `_outbox` and the next
      AUTOINCREMENT id. */
  datatype Db = Db(idem: map<string, IdemRow>, payload: map<Entity, PayloadRow>, tombs: map<Entity, TombRow>,
                   outbox: seq<OutboxRow>, nextId: nat)

  const EMPTY_DB := Db(map[], map[], map[], [], 1)

  /** Event ids (UUIDs) and timestamps come from outside; the n-th row of the outbox gets the n-th. */
  datatype Stamp = Stamp(eventId: string, occurredAt: string)

  datatype Verdict = Applied(event: Event) | Duplicate | Conflict | UnknownOp | Failed

  function EventSuffix(op: string): string {
    if op == "upsert" then "creado"
    else if op == "delete" then "eliminado"
    else if op == "patch" then "actualizado"
    else "modificado"
  }

  predicate KnownOp(op: string) { op == "upsert" || op == "patch" || op == "delete" }

  // ---------- current version ----------

  /** `SELECT MAX(version) ... WHERE entity = ? AND key = ?` */
  ghost predicate IsMaxVersion(idem: map<string, IdemRow>, target: Entity, v: Option<nat>) {
    match v
    case None => forall k :: k in idem ==> idem[k].Target() != target
    case Some(m) =>
      && (exists k :: k in idem && idem[k].Target() == target && idem[k].version == m)
      && (forall k :: k in idem && idem[k].Target() == target ==> idem[k].version <= m)
  }

  lemma {:induction false} MaxVersionExists(idem: map<string, IdemRow>, target: Entity) returns (v: Option<nat>)
    ensures IsMaxVersion(idem, target, v)
    decreases |idem|
  {
    if idem == map[] {
      v := None;
    } else {
      var k :| k in idem;
      var rest := map x | x in idem && x != k :: idem[x];
      assert idem == rest[k := idem[k]];
      assert k !in rest && |idem| == |rest| + 1;
      var w := MaxVersionExists(rest, target);
      v := MaxWith(idem, rest, k, target, w);
    }
  }

  lemma MaxWith(idem: map<string, IdemRow>, rest: map<string, IdemRow>, k: string, target: Entity, w: Option<nat>)
    returns (v: Option<nat>)
    requires k !in rest && k in idem && idem == rest[k := idem[k]]
    requires IsMaxVersion(rest, target, w)
    ensures IsMaxVersion(idem, target, v)
    ensures v == if idem[k].Target() != target then w
                 else if w.Some? && w.value >= idem[k].version then w else Some(idem[k].version)
  {
    v := if idem[k].Target() != target then w
         else if w.Some? && w.value >= idem[k].version then w else Some(idem[k].version);
    if w.Some? {
      var x :| x in rest && rest[x].Target() == target && rest[x].version == w.value;
      assert idem[x] == rest[x];
    }
  }

  lemma MaxVersionUnique(idem: map<string, IdemRow>, target: Entity, v: Option<nat>, w: Option<nat>)
    requires IsMaxVersion(idem, target, v) && IsMaxVersion(idem, target, w)
    ensures v == w
  {
  }

  ghost function MaxVersion(idem: map<string, IdemRow>, target: Entity): (v: Option<nat>)
    ensures IsMaxVersion(idem, target, v)
  {
    assert exists v :: IsMaxVersion(idem, target, v) by {
      var v := MaxVersionExists(idem, target);
    }
    var v :| IsMaxVersion(idem, target, v);
    v
  }

  // ---------- one command ----------

  /** `IdempotencyTracker::check`: the row of this store and idempotency key. */
  predicate Seen(db: Db, store: string, cmd: Command) {
    cmd.store == store && cmd.idempotencyKey in db.idem
  }

  ghost function CurrentVersion(db: Db, store: string, cmd: Command): Option<nat> {
    if cmd.store == store then MaxVersion(db.idem, cmd.Target()) else None
  }

  /** The version check of `process_batch`. */
  ghost predicate Stale(db: Db, store: string, cmd: Command) {
    var current := CurrentVersion(db, store, cmd);
    current.Some? && cmd.version <= current.value
  }

  function EventOf(cmd: Command, stamp: Stamp, id: nat): Event {
    Event(stamp.eventId, cmd.entity + "." + EventSuffix(cmd.op), cmd.store, cmd.entity, cmd.key, cmd.version,
          stamp.occurredAt, id, cmd.payload)
  }

  function RowOf(cmd: Command): IdemRow {
    IdemRow(cmd.entity, cmd.key, cmd.version, cmd.op, CommandDigest(cmd))
  }

  /** `Tombstones::record`: an upsert that never lowers the version. */
  function TombsWith(tombs: map<Entity, TombRow>, target: Entity, version: nat, eventId: string): map<Entity, TombRow> {
    if target in tombs && version < tombs[target].version then tombs
    else tombs[target := TombRow(version, eventId)]
  }

  /** `Tombstones::clear_if_older` */
  function TombsCleared(tombs: map<Entity, TombRow>, target: Entity, version: nat): map<Entity, TombRow> {
    if target in tombs && tombs[target].version <= version then tombs - {target} else tombs
  }

  function PayloadAfter(payload: map<Entity, PayloadRow>, cmd: Command): map<Entity, PayloadRow> {
    if cmd.op == "delete" then payload - {cmd.Target()} else payload[cmd.Target() := PayloadRow(cmd.version, cmd.payload)]
  }

  function TombsAfter(tombs: map<Entity, TombRow>, cmd: Command, eventId: string): map<Entity, TombRow> {
    if cmd.op == "delete" then TombsWith(tombs, cmd.Target(), cmd.version, eventId)
    else TombsCleared(tombs, cmd.Target(), cmd.version)
  }

  /** The rows written for a command that is applied. */
  function Apply(db: Db, cmd: Command, stamp: Stamp): Db {
    var event := EventOf(cmd, stamp, db.nextId);
    db.(payload := PayloadAfter(db.payload, cmd),
        tombs := TombsAfter(db.tombs, cmd, stamp.eventId),
        outbox := db.outbox + [OutboxRow(db.nextId, cmd.store, event, false)],
        nextId := db.nextId + 1,
        idem := db.idem[cmd.idempotencyKey := RowOf(cmd)])
  }

  /** What the writer decides about a command. A known operation on another store names a table
      this database does not have. */
  ghost function Decide(db: Db, store: string, cmd: Command, stamp: Stamp): Verdict {
    if Seen(db, store, cmd) then Duplicate
    else if Stale(db, store, cmd) then Conflict
    else if !KnownOp(cmd.op) then UnknownOp
    else if cmd.store != store then Failed
    else Applied(EventOf(cmd, stamp, db.nextId))
  }

  ghost function Step(db: Db, store: string, cmd: Command, stamp: nat -> Stamp): Db {
    if Decide(db, store, cmd, stamp(db.nextId)).Applied? then Apply(db, cmd, stamp(db.nextId)) else db
  }

  /** The tables after a list of commands none of which fails. */
  ghost function Process(db: Db, store: string, cmds: seq<Command>, stamp: nat -> Stamp): Db {
    if cmds == [] then db
    else Step(Process(db, store, cmds[..|cmds|-1], stamp), store, cmds[|cmds|-1], stamp)
  }

  // ---------- publishing ----------

  function MarkRow(row: OutboxRow, ids: set<nat>): OutboxRow {
    row.(published := row.published || row.id in ids)
  }

  function SetOf(ids: seq<nat>): set<nat> { set id | id in ids }

  /** The outbox after `mark_published_batch`. */
  function MarkRows(outbox: seq<OutboxRow>, ids: set<nat>): (marked: seq<OutboxRow>)
    ensures |marked| == |outbox| && forall i :: 0 <= i < |outbox| ==> marked[i] == MarkRow(outbox[i], ids)
  {
    seq(|outbox|, i requires 0 <= i < |outbox| => MarkRow(outbox[i], ids))
  }
}
