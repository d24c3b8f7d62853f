// From the broker to the committed tables: the batcher, the receive loop and the acknowledgements
// of the writer as code (crates/ixmati-writer: batcher.rs, main.rs), and the whole path with
// crashes and redelivery as a step system (consumer.rs, main.rs, write_thread.rs).

module Batching {
  import opened Options
  import opened WriterTables

  /** A command received and not yet acknowledged; `id` names the broker's message. */
  datatype Pending = Pending(id: nat, cmd: Command)

  function Elapsed(since: nat, now: nat): nat {
    if now < since then 0 else now - since
  }

  function Max(a: nat, b: nat): nat { if a < b then b else a }

  class Batcher {
    const batchSize: nat
    const batchInterval: nat
    var current: seq<Pending>
    var lastFlush: nat

    ghost predicate Valid()
      reads this
    {
      current == [] || |current| < batchSize
    }

    constructor (batchSize: nat, batchInterval: nat, now: nat)
      ensures Valid() && current == [] && lastFlush == now
      ensures this.batchSize == batchSize && this.batchInterval == batchInterval
    {
      this.batchSize, this.batchInterval := batchSize, batchInterval;
      current, lastFlush := [], now;
    }

    predicate ShouldFlush(now: nat)
      reads this
    {
      current != [] && Elapsed(lastFlush, now) >= batchInterval
    }

    method Flush(now: nat) returns (batch: seq<Pending>)
      modifies this
      ensures Valid() && batch == old(current) && current == [] && lastFlush == now
    {
      batch := current;
      current := [];
      lastFlush := now;
    }

    /** A batch leaves when it is full or its interval is over, even while commands keep coming. */
    method Push(cmd: Pending, now: nat) returns (batch: Option<seq<Pending>>)
      requires Valid()
      modifies this
      ensures Valid()
      ensures batch.None? <==> |old(current)| + 1 < batchSize && Elapsed(old(lastFlush), now) < batchInterval
      ensures batch.None? ==> current == old(current) + [cmd] && lastFlush == old(lastFlush)
      ensures batch.Some? ==> batch.value == old(current) + [cmd] && current == [] && lastFlush == now
      ensures batch.Some? ==> |batch.value| <= Max(batchSize, 1)
    {
      current := current + [cmd];
      if |current| >= batchSize || ShouldFlush(now) {
        var full := Flush(now);
        return Some(full);
      }
      return None;
    }
  }

  /** What one `recv_timeout` of the main loop gives. */
  datatype Input = Received(cmd: Pending, at: nat) | TimedOut(at: nat)

  function CommandsOf(inputs: seq<Input>): seq<Pending> {
    if inputs == [] then []
    else CommandsOf(inputs[..|inputs|-1]) + (if inputs[|inputs|-1].Received? then [inputs[|inputs|-1].cmd] else [])
  }

  function Flatten(batches: seq<seq<Pending>>): seq<Pending> {
    if batches == [] then [] else Flatten(batches[..|batches|-1]) + batches[|batches|-1]
  }

  /** What the loop holds after some of its inputs: the batches that left, the commands that wait, and
      when the last batch left. */
  datatype Moment = Moment(batches: seq<seq<Pending>>, current: seq<Pending>, lastFlush: nat)

  /** The interval since `lastFlush` is over. */
  predicate Over(lastFlush: nat, interval: nat, at: nat) { interval == 0 || at >= lastFlush + interval }

  /** What waits leaves as one batch when it is full or its interval is over, be it that a command comes or
      that none comes; otherwise it stays, and grows by the command. */
  ghost predicate Turn(before: Moment, input: Input, after: Moment, size: nat, interval: nat) {
    var held := if input.Received? then before.current + [input.cmd] else before.current;
    after == if held != [] && (|held| >= size || Over(before.lastFlush, interval, input.at))
             then Moment(before.batches + [held], [], input.at)
             else before.(current := held)
  }

  /** The moments between the inputs. */
  ghost predicate Turns(moments: seq<Moment>, inputs: seq<Input>, size: nat, interval: nat) {
    && |moments| == |inputs| + 1
    && forall i :: 0 <= i < |inputs| ==> Turn(moments[i], inputs[i], moments[i+1], size, interval)
  }

  /** After every input, what still waits is not full and its interval is not over: an idle writer keeps
      nothing back. */
  lemma NothingWaitsLonger(moments: seq<Moment>, inputs: seq<Input>, size: nat, interval: nat, i: nat)
    requires Turns(moments, inputs, size, interval) && i < |inputs|
    requires moments[i+1].current != []
    ensures |moments[i+1].current| < size
    ensures interval > 0 && inputs[i].at < moments[i+1].lastFlush + interval
  {
    assert Turn(moments[i], inputs[i], moments[i+1], size, interval);
  }

  /** A timeout at which the interval is over sends all that waits, as one batch; one before that sends
      nothing. */
  lemma TimeoutSends(moments: seq<Moment>, inputs: seq<Input>, size: nat, interval: nat, i: nat)
    requires Turns(moments, inputs, size, interval) && i < |inputs| && inputs[i].TimedOut?
    requires |moments[i].current| < size && moments[i].current != []
    ensures if Over(moments[i].lastFlush, interval, inputs[i].at)
            then moments[i+1].current == [] && moments[i+1].batches == moments[i].batches + [moments[i].current]
            else moments[i+1] == moments[i]
  {
    assert Turn(moments[i], inputs[i], moments[i+1], size, interval);
  }

  /** The commands of a moment, and the bounds on its batches. */
  ghost predicate Keeps(m: Moment, cmds: seq<Pending>, size: nat) {
    && Flatten(m.batches) + m.current == cmds
    && (forall b :: b in m.batches ==> 0 < |b| <= Max(size, 1))
    && (m.current == [] || |m.current| < size)
  }

  lemma TurnKeeps(before: Moment, input: Input, after: Moment, cmds: seq<Pending>, size: nat, interval: nat)
    requires Keeps(before, cmds, size) && Turn(before, input, after, size, interval)
    ensures Keeps(after, cmds + (if input.Received? then [input.cmd] else []), size)
  {
    var more := if input.Received? then [input.cmd] else [];
    var held := before.current + more;
    assert held == if input.Received? then before.current + [input.cmd] else before.current;
    assert (before.batches + [held])[..|before.batches|] == before.batches;
    assert Flatten(before.batches) + before.current + more == Flatten(before.batches) + held;
    assert Flatten(before.batches) + held + [] == Flatten(before.batches) + held;
  }

  lemma NextCommands(inputs: seq<Input>, i: nat)
    requires 0 < i <= |inputs|
    ensures CommandsOf(inputs[..i]) == CommandsOf(inputs[..i-1]) + (if inputs[i-1].Received? then [inputs[i-1].cmd] else [])
  {
    assert inputs[..i][..i-1] == inputs[..i-1];
  }

  /** Nothing is lost, repeated or reordered on the way into the batches, and no batch is empty or too
      large. */
  lemma {:induction false} TurnsKeep(moments: seq<Moment>, inputs: seq<Input>, size: nat, interval: nat, i: nat)
    requires Turns(moments, inputs, size, interval) && moments[0].batches == [] && moments[0].current == [] && i <= |inputs|
    ensures Keeps(moments[i], CommandsOf(inputs[..i]), size)
  {
    if i > 0 {
      TurnsKeep(moments, inputs, size, interval, i - 1);
      assert Turn(moments[i-1], inputs[i-1], moments[i], size, interval);
      TurnKeeps(moments[i-1], inputs[i-1], moments[i], CommandsOf(inputs[..i-1]), size, interval);
      NextCommands(inputs, i);
    }
  }

  /** One `recv_timeout` and what `main` does about it. */
  method OnInput(batcher: Batcher, input: Input) returns (batch: Option<seq<Pending>>)
    requires batcher.Valid()
    modifies batcher
    ensures batcher.Valid()
    ensures var held := if input.Received? then old(batcher.current) + [input.cmd] else old(batcher.current);
      if held != [] && (|held| >= batcher.batchSize || Over(old(batcher.lastFlush), batcher.batchInterval, input.at))
      then batch == Some(held) && batcher.current == [] && batcher.lastFlush == input.at
      else batch.None? && batcher.current == held && batcher.lastFlush == old(batcher.lastFlush)
  {
    match input {
      case Received(cmd, at) =>
        batch := batcher.Push(cmd, at);
      case TimedOut(at) =>
        batch := None;
        if batcher.ShouldFlush(at) {
          var full := batcher.Flush(at);
          batch := Some(full);
        }
    }
  }

  /** The loop of `main`: no command is lost, repeated or moved between the channel and the batches, no
      batch is empty or too large, and each leaves when it is full or due and not before. */
  method ReceiveLoop(batcher: Batcher, inputs: seq<Input>) returns (batches: seq<seq<Pending>>, ghost moments: seq<Moment>)
    requires batcher.Valid() && batcher.current == []
    modifies batcher
    ensures batcher.Valid()
    ensures Flatten(batches) + batcher.current == CommandsOf(inputs)
    ensures forall b :: b in batches ==> 0 < |b| <= Max(batcher.batchSize, 1)
    ensures Turns(moments, inputs, batcher.batchSize, batcher.batchInterval)
    ensures moments[0] == Moment([], [], old(batcher.lastFlush))
    ensures moments[|inputs|] == Moment(batches, batcher.current, batcher.lastFlush)
    ensures inputs != [] && batcher.current != [] ==>
              |batcher.current| < batcher.batchSize
              && !Over(batcher.lastFlush, batcher.batchInterval, inputs[|inputs|-1].at)
  {
    batches := [];
    moments := [Moment([], [], batcher.lastFlush)];
    var i := 0;
    while i < |inputs|
      invariant 0 <= i <= |inputs| && batcher.Valid()
      invariant Turns(moments, inputs[..i], batcher.batchSize, batcher.batchInterval)
      invariant moments[0] == Moment([], [], old(batcher.lastFlush))
      invariant moments[i] == Moment(batches, batcher.current, batcher.lastFlush)
    {
      var batch := OnInput(batcher, inputs[i]);
      if batch.Some? {
        batches := batches + [batch.value];
      }
      ghost var next := Moment(batches, batcher.current, batcher.lastFlush);
      MomentsGrow(moments, inputs, i, next, batcher.batchSize, batcher.batchInterval);
      moments := moments + [next];
      i := i + 1;
    }
    assert inputs[..i] == inputs;
    TurnsKeep(moments, inputs, batcher.batchSize, batcher.batchInterval, i);
    if inputs != [] && batcher.current != [] {
      NothingWaitsLonger(moments, inputs, batcher.batchSize, batcher.batchInterval, |inputs| - 1);
    }
  }

  lemma MomentsGrow(moments: seq<Moment>, inputs: seq<Input>, i: nat, next: Moment, size: nat, interval: nat)
    requires i < |inputs| && Turns(moments, inputs[..i], size, interval) && Turn(moments[i], inputs[i], next, size, interval)
    ensures Turns(moments + [next], inputs[..i+1], size, interval)
  {
    var more := moments + [next];
    forall j | 0 <= j < i + 1
      ensures Turn(more[j], inputs[..i+1][j], more[j+1], size, interval)
    {
      if j < i {
        assert Turn(moments[j], inputs[..i][j], moments[j+1], size, interval);
      }
    }
  }
}

module Pipeline {
  import opened Options
  import opened WriterTables
  import opened WriterInvariant
  import opened WriteEngine
  import opened Batching

  // ---------- published marks do not matter to decisions ----------

  function MarkedPublished(db: Db, ids: set<nat>): Db {
    db.(outbox := MarkRows(db.outbox, ids))
  }

  function Unmarked(db: Db): Db {
    db.(outbox := seq(|db.outbox|, i requires 0 <= i < |db.outbox| => db.outbox[i].(published := false)))
  }

  lemma MarkedUnmarked(db: Db, ids: set<nat>)
    ensures Unmarked(MarkedPublished(db, ids)) == Unmarked(db)
  {
  }

  lemma SameTablesSameDecision(a: Db, b: Db, store: string, cmd: Command, stamp: nat -> Stamp)
    requires Unmarked(a) == Unmarked(b)
    ensures Decide(a, store, cmd, stamp(a.nextId)) == Decide(b, store, cmd, stamp(b.nextId))
    ensures Decided(a, store, cmd) <==> Decided(b, store, cmd)
  {
    assert Unmarked(a).idem == a.idem && Unmarked(b).idem == b.idem;
    assert Unmarked(a).nextId == a.nextId && Unmarked(b).nextId == b.nextId;
  }

  /** Marking rows before a command or after it comes to the same. */
  lemma StepUnmarked(db: Db, store: string, cmd: Command, stamp: nat -> Stamp)
    ensures Unmarked(Step(db, store, cmd, stamp)) == Step(Unmarked(db), store, cmd, stamp)
  {
    assert Unmarked(Unmarked(db)) == Unmarked(db);
    SameTablesSameDecision(db, Unmarked(db), store, cmd, stamp);
    if Decide(db, store, cmd, stamp(db.nextId)).Applied? {
      var a := Unmarked(Apply(db, cmd, stamp(db.nextId)));
      var b := Apply(Unmarked(db), cmd, stamp(db.nextId));
      assert a.outbox == b.outbox;
    }
  }

  lemma {:induction false} ProcessUnmarked(db: Db, store: string, cmds: seq<Command>, stamp: nat -> Stamp)
    ensures Unmarked(Process(db, store, cmds, stamp)) == Process(Unmarked(db), store, cmds, stamp)
  {
    if cmds != [] {
      var init, last := cmds[..|cmds|-1], cmds[|cmds|-1];
      ProcessUnmarked(db, store, init, stamp);
      StepUnmarked(Process(db, store, init, stamp), store, last, stamp);
    }
  }

  // ---------- a batch that commits settles all its commands ----------

  lemma StepSettles(db: Db, store: string, cmd: Command, stamp: nat -> Stamp)
    requires !Decide(db, store, cmd, stamp(db.nextId)).Failed?
    ensures Decided(Step(db, store, cmd, stamp), store, cmd)
  {
  }

  lemma CommitSettles(db: Db, store: string, cmds: seq<Command>, stamp: nat -> Stamp, i: nat)
    requires i < |cmds| && !Fails(db, store, cmds, stamp)
    ensures Decided(Process(db, store, cmds, stamp), store, cmds[i])
  {
    assert !FailsAt(db, store, cmds, stamp, i);
    var mid := Process(db, store, cmds[..i], stamp);
    StepSettles(mid, store, cmds[i], stamp);
    assert cmds[..i+1][..i] == cmds[..i];
    assert cmds == cmds[..i+1] + cmds[i+1..];
    ProcessConcat(db, store, cmds[..i+1], cmds[i+1..], stamp);
    ProcessDecidedStays(Process(db, store, cmds[..i+1], stamp), store, cmds[i], cmds[i+1..], stamp);
  }

  function CommandsIn(batch: seq<Pending>): (cmds: seq<Command>)
    ensures |cmds| == |batch| && forall i :: 0 <= i < |batch| ==> cmds[i] == batch[i].cmd
  {
    seq(|batch|, i requires 0 <= i < |batch| => batch[i].cmd)
  }

  lemma BatchSettles(db: Db, store: string, batch: seq<Pending>, stamp: nat -> Stamp)
    requires !Fails(db, store, CommandsIn(batch), stamp)
    ensures forall i :: 0 <= i < |batch| ==> Decided(Process(db, store, CommandsIn(batch), stamp), store, batch[i].cmd)
  {
    forall i | 0 <= i < |batch|
      ensures Decided(Process(db, store, CommandsIn(batch), stamp), store, batch[i].cmd)
    {
      CommitSettles(db, store, CommandsIn(batch), stamp, i);
    }
  }

  /** `sent` tells which acknowledgements the client accepts. */
  method AckAll(batch: seq<Pending>, sent: nat -> bool) returns (acks: set<nat>)
    ensures acks == set p | p in batch && sent(p.id) :: p.id
  {
    acks := {};
    for i := 0 to |batch|
      invariant acks == set p | p in batch[..i] && sent(p.id) :: p.id
    {
      assert batch[..i+1] == batch[..i] + [batch[i]];
      if sent(batch[i].id) {
        acks := acks + {batch[i].id};
      }
    }
    assert batch[..|batch|] == batch;
  }

  /** `process_batch` of the main loop: acknowledge after the commit, and nothing if it fails. */
  method ProcessBatchThenAck(db: Database, batch: seq<Pending>, stamp: nat -> Stamp, sent: nat -> bool)
    returns (committed: bool, acks: set<nat>)
    modifies db
    ensures committed <==> !Fails(old(db.Tables()), db.store, CommandsIn(batch), stamp)
    ensures !committed ==> db.Tables() == old(db.Tables()) && acks == {}
    ensures committed ==> db.Tables() == Process(old(db.Tables()), db.store, CommandsIn(batch), stamp)
    // all of a committed batch is settled in the tables
    ensures committed ==> forall i :: 0 <= i < |batch| ==> Decided(db.Tables(), db.store, batch[i].cmd)
    ensures committed ==> acks == set p | p in batch && sent(p.id) :: p.id
  {
    ghost var before := db.Tables();
    var result := db.ProcessBatch(CommandsIn(batch), stamp);
    if result.None? {
      return false, {};
    }
    BatchSettles(before, db.store, batch, stamp);
    committed := true;
    acks := AckAll(batch, sent);
  }

  // ---------- the whole path ----------

  datatype Message = Wrote(cmd: Command) | Malformed

  /** What the main thread is doing. */
  datatype Main = Waiting | Taken(p: Pending) | Processing(batch: seq<Pending>) | Acking(todo: seq<Pending>)

  datatype Config = Config(store: string, capacity: nat, batchSize: nat)

  /** `sent` and `acked` are the broker's, `acks` the acknowledgements under way to it, `offering`
      the consumer thread's; `db` is on disk; `log` lists the commands of all committed batches. */
  datatype State = State(sent: map<nat, Message>, acked: set<nat>, acks: set<nat>,
                         offering: Option<Pending>, channel: seq<Pending>, depth: int,
                         main: Main, current: seq<Pending>,
                         db: Db, log: seq<Command>)

  datatype Action =
    | Send(id: nat, msg: Message)
    | RejectMalformed(id: nat, accepted: bool)
    | Offer(id: nat)
    | TrySend
    | Take
    | Push(intervalOver: bool)
    | Flush
    | Commit
    | Abort
    | Ack(accepted: bool)
    | NextBatch
    | AckArrives(id: nat)
    | AckLost(id: nat)
    | MarkPublished(ids: set<nat>)
    | Crash

  const START := State(map[], {}, {}, None, [], 0, Waiting, [], EMPTY_DB, [])

  ghost predicate Enabled(s: State, a: Action) {
    match a
    case Send(id, _) => id !in s.sent
    // the broker delivers, and delivers again, whatever is not acknowledged
    case RejectMalformed(id, _) => id in s.sent && id !in s.acked && s.sent[id].Malformed? && s.offering.None?
    case Offer(id) => id in s.sent && id !in s.acked && s.sent[id].Wrote? && s.offering.None?
    case TrySend => s.offering.Some?
    case Take => s.main.Waiting? && s.channel != []
    case Push(_) => s.main.Taken?
    case Flush => s.main.Waiting? && s.current != []
    case Commit => s.main.Processing?
    case Abort => s.main.Processing?
    case Ack(_) => s.main.Acking? && s.main.todo != []
    case NextBatch => s.main.Acking? && s.main.todo == []
    case AckArrives(id) => id in s.acks
    case AckLost(id) => id in s.acks
    case MarkPublished(_) => true
    case Crash => true
  }

  ghost function Do(cfg: Config, s: State, a: Action, stamp: nat -> Stamp): State
    requires Enabled(s, a)
  {
    match a
    case Send(id, msg) => s.(sent := s.sent[id := msg])
    case RejectMalformed(id, accepted) => if accepted then s.(acks := s.acks + {id}) else s
    case Offer(id) => s.(offering := Some(Pending(id, s.sent[id].cmd)), depth := s.depth + 1)
    case TrySend =>
      // a full channel drops the copy; the message stays with the broker
      if |s.channel| < cfg.capacity then s.(channel := s.channel + [s.offering.value], offering := None)
      else s.(offering := None, depth := s.depth - 1)
    case Take => s.(main := Taken(s.channel[0]), channel := s.channel[1..])
    case Push(intervalOver) =>
      var batch := s.current + [s.main.p];
      if |batch| >= cfg.batchSize || intervalOver then s.(main := Processing(batch), current := [], depth := s.depth - 1)
      else s.(main := Waiting, current := batch, depth := s.depth - 1)
    case Flush => s.(main := Processing(s.current), current := [])
    case Commit =>
      var cmds := CommandsIn(s.main.batch);
      if Fails(s.db, cfg.store, cmds, stamp) then s.(main := Waiting)
      else s.(db := Process(s.db, cfg.store, cmds, stamp), log := s.log + cmds, main := Acking(s.main.batch))
    case Abort => s.(main := Waiting)
    case Ack(accepted) =>
      var rest := s.(main := Acking(s.main.todo[1..]));
      if accepted then rest.(acks := s.acks + {s.main.todo[0].id}) else rest
    case NextBatch => s.(main := Waiting)
    case AckArrives(id) => s.(acks := s.acks - {id}, acked := s.acked + {id})
    case AckLost(id) => s.(acks := s.acks - {id})
    case MarkPublished(ids) => s.(db := MarkedPublished(s.db, ids))
    // memory and connection go, the broker and the disk stay
    case Crash => START.(sent := s.sent, acked := s.acked, db := s.db, log := s.log)
  }

  /** Steps of the system from some state on. */
  ghost predicate Leads(cfg: Config, stamp: nat -> Stamp, actions: seq<Action>, states: seq<State>) {
    && |states| == |actions| + 1
    && forall i {:trigger actions[i]} :: 0 <= i < |actions| ==>
         Enabled(states[i], actions[i]) && states[i+1] == Do(cfg, states[i], actions[i], stamp)
  }

  /** A run of the system. */
  ghost predicate IsRun(cfg: Config, stamp: nat -> Stamp, actions: seq<Action>, states: seq<State>) {
    Leads(cfg, stamp, actions, states) && states[0] == START
  }

  // ---------- the invariant ----------

  predicate Traced(sent: map<nat, Message>, p: Pending) {
    p.id in sent && sent[p.id] == Wrote(p.cmd)
  }

  predicate AllTraced(sent: map<nat, Message>, ps: seq<Pending>) {
    forall i :: 0 <= i < |ps| ==> Traced(sent, ps[i])
  }

  function Held(m: Main): seq<Pending> {
    match m
    case Waiting => []
    case Taken(p) => [p]
    case Processing(batch) => batch
    case Acking(todo) => todo
  }

  /** Every command inside the process is the one the broker holds under its id. */
  predicate InMemoryTraced(s: State) {
    && (s.offering.Some? ==> Traced(s.sent, s.offering.value))
    && AllTraced(s.sent, s.channel) && AllTraced(s.sent, s.current) && AllTraced(s.sent, Held(s.main))
  }

  predicate DepthCounts(s: State) {
    s.depth == |s.channel| + (if s.offering.Some? then 1 else 0) + (if s.main.Taken? then 1 else 0)
  }

  ghost predicate CameThrough(sent: map<nat, Message>, c: Command) {
    exists id :: id in sent && sent[id] == Wrote(c)
  }

  /** The commands of committed batches came through the broker, are settled by the tables, and the
      tables are what they make. */
  ghost predicate LogTells(store: string, sent: map<nat, Message>, db: Db, log: seq<Command>, stamp: nat -> Stamp) {
    && (forall c :: c in log ==> Decided(db, store, c))
    && (forall c :: c in log ==> CameThrough(sent, c))
    && Unmarked(db) == Process(EMPTY_DB, store, log, stamp)
  }

  /** Acknowledgements are for malformed messages and for committed commands. */
  predicate AcksFollowLog(ids: set<nat>, sent: map<nat, Message>, log: seq<Command>) {
    forall id :: id in ids ==> id in sent && (sent[id].Wrote? ==> sent[id].cmd in log)
  }

  predicate AckedAfterCommit(s: State) {
    && AcksFollowLog(s.acked, s.sent, s.log) && AcksFollowLog(s.acks, s.sent, s.log)
    && (s.main.Acking? ==> forall i :: 0 <= i < |s.main.todo| ==> s.main.todo[i].cmd in s.log)
  }

  ghost predicate SysInv(cfg: Config, s: State, stamp: nat -> Stamp) {
    && InMemoryTraced(s) && DepthCounts(s) && AckedAfterCommit(s)
    && LogTells(cfg.store, s.sent, s.db, s.log, stamp)
  }

  lemma CommitKeepsLog(store: string, sent: map<nat, Message>, db: Db, log: seq<Command>, stamp: nat -> Stamp,
                       cmds: seq<Command>)
    requires LogTells(store, sent, db, log, stamp) && !Fails(db, store, cmds, stamp)
    requires forall c :: c in cmds ==> CameThrough(sent, c)
    ensures LogTells(store, sent, Process(db, store, cmds, stamp), log + cmds, stamp)
  {
    forall c | c in log + cmds
      ensures Decided(Process(db, store, cmds, stamp), store, c)
    {
      if c in log {
        ProcessDecidedStays(db, store, c, cmds, stamp);
      } else {
        var i :| 0 <= i < |cmds| && cmds[i] == c;
        CommitSettles(db, store, cmds, stamp, i);
      }
    }
    ProcessUnmarked(db, store, cmds, stamp);
    ProcessConcat(EMPTY_DB, store, log, cmds, stamp);
  }

  lemma MarkKeepsLog(store: string, sent: map<nat, Message>, db: Db, log: seq<Command>, stamp: nat -> Stamp,
                     ids: set<nat>)
    requires LogTells(store, sent, db, log, stamp)
    ensures LogTells(store, sent, MarkedPublished(db, ids), log, stamp)
  {
    MarkedUnmarked(db, ids);
    forall c | c in log
      ensures Decided(MarkedPublished(db, ids), store, c)
    {
      SameTablesSameDecision(db, MarkedPublished(db, ids), store, c, stamp);
    }
  }

  lemma SendKeepsLog(store: string, sent: map<nat, Message>, db: Db, log: seq<Command>, stamp: nat -> Stamp,
                     id: nat, msg: Message)
    requires LogTells(store, sent, db, log, stamp) && id !in sent
    ensures LogTells(store, sent[id := msg], db, log, stamp)
  {
    forall c | c in log
      ensures CameThrough(sent[id := msg], c)
    {
      assert CameThrough(sent, c);
      var i :| i in sent && sent[i] == Wrote(c);
      assert sent[id := msg][i] == Wrote(c);
    }
  }

  lemma StartInv(cfg: Config, stamp: nat -> Stamp)
    ensures SysInv(cfg, START, stamp)
  {
    assert Unmarked(EMPTY_DB) == EMPTY_DB;
  }

  lemma CommitInv(cfg: Config, s: State, stamp: nat -> Stamp)
    requires SysInv(cfg, s, stamp) && s.main.Processing?
    ensures SysInv(cfg, Do(cfg, s, Commit, stamp), stamp)
  {
    var cmds := CommandsIn(s.main.batch);
    if !Fails(s.db, cfg.store, cmds, stamp) {
      forall c | c in cmds
        ensures CameThrough(s.sent, c)
      {
        var i :| 0 <= i < |cmds| && cmds[i] == c;
        assert Traced(s.sent, s.main.batch[i]);
      }
      CommitKeepsLog(cfg.store, s.sent, s.db, s.log, stamp, cmds);
      assert forall i :: 0 <= i < |cmds| ==> s.main.batch[i].cmd in s.log + cmds;
    }
  }

  lemma ConsumerInv(cfg: Config, s: State, a: Action, stamp: nat -> Stamp)
    requires SysInv(cfg, s, stamp) && Enabled(s, a)
    requires a.RejectMalformed? || a.Offer? || a.TrySend?
    ensures SysInv(cfg, Do(cfg, s, a, stamp), stamp)
  {
    assert a.TrySend? ==> Traced(s.sent, s.offering.value);
  }

  lemma BatchingInv(cfg: Config, s: State, a: Action, stamp: nat -> Stamp)
    requires SysInv(cfg, s, stamp) && Enabled(s, a)
    requires a.Take? || a.Push? || a.Flush?
    ensures SysInv(cfg, Do(cfg, s, a, stamp), stamp)
  {
    if a.Push? {
      assert Held(s.main)[0] == s.main.p;
    }
  }

  lemma AckingInv(cfg: Config, s: State, a: Action, stamp: nat -> Stamp)
    requires SysInv(cfg, s, stamp) && Enabled(s, a)
    requires a.Abort? || a.Ack? || a.NextBatch? || a.AckArrives? || a.AckLost?
    ensures SysInv(cfg, Do(cfg, s, a, stamp), stamp)
  {
    assert a.Ack? ==> Traced(s.sent, Held(s.main)[0]);
  }

  /** Every action keeps the invariant. */
  lemma DoInv(cfg: Config, s: State, a: Action, stamp: nat -> Stamp)
    requires SysInv(cfg, s, stamp) && Enabled(s, a)
    ensures SysInv(cfg, Do(cfg, s, a, stamp), stamp)
  {
    match a
    case Send(id, msg) => SendKeepsLog(cfg.store, s.sent, s.db, s.log, stamp, id, msg);
    case Commit => CommitInv(cfg, s, stamp);
    case MarkPublished(ids) => MarkKeepsLog(cfg.store, s.sent, s.db, s.log, stamp, ids);
    case Crash =>
    case RejectMalformed(_, _) | Offer(_) | TrySend => ConsumerInv(cfg, s, a, stamp);
    case Take | Push(_) | Flush => BatchingInv(cfg, s, a, stamp);
    case Abort | Ack(_) | NextBatch | AckArrives(_) | AckLost(_) => AckingInv(cfg, s, a, stamp);
  }

  /** Every state of every run satisfies the invariant. */
  lemma {:induction false} RunInv(cfg: Config, stamp: nat -> Stamp, actions: seq<Action>, states: seq<State>, n: nat)
    requires IsRun(cfg, stamp, actions, states) && n < |states|
    ensures SysInv(cfg, states[n], stamp)
  {
    if n == 0 {
      StartInv(cfg, stamp);
    } else {
      RunInv(cfg, stamp, actions, states, n - 1);
      var a := actions[n-1];
      DoInv(cfg, states[n-1], a, stamp);
    }
  }

  // ---------- what it means ----------

  /** At every moment of every run: an acknowledged command is settled by the tables on disk, and a
      command the tables do not settle is still with the broker, unacknowledged. */
  lemma AckedOnlyAfterCommit(cfg: Config, stamp: nat -> Stamp, actions: seq<Action>, states: seq<State>,
                             n: nat, id: nat)
    requires IsRun(cfg, stamp, actions, states) && n < |states|
    requires id in states[n].sent && states[n].sent[id].Wrote?
    ensures id in states[n].acked ==> Decided(states[n].db, cfg.store, states[n].sent[id].cmd)
    ensures !Decided(states[n].db, cfg.store, states[n].sent[id].cmd) ==> id !in states[n].acked + states[n].acks
  {
    RunInv(cfg, stamp, actions, states, n);
  }

  lemma {:induction false} SentStays(cfg: Config, stamp: nat -> Stamp, actions: seq<Action>, states: seq<State>, n: nat, m: nat, id: nat)
    requires IsRun(cfg, stamp, actions, states) && n <= m < |states|
    requires id in states[n].sent
    ensures id in states[m].sent && states[m].sent[id] == states[n].sent[id]
  {
    if n < m {
      SentStays(cfg, stamp, actions, states, n, m - 1, id);
      var a := actions[m-1];
      assert states[m] == Do(cfg, states[m-1], a, stamp);
    }
  }

  /** A command sent to the broker is never lost: later it is either settled on disk or still to be
      delivered, across any number of crashes. */
  lemma NothingIsLost(cfg: Config, stamp: nat -> Stamp, actions: seq<Action>, states: seq<State>,
                      n: nat, m: nat, id: nat)
    requires IsRun(cfg, stamp, actions, states) && n <= m < |states|
    requires id in states[n].sent && states[n].sent[id].Wrote?
    ensures Decided(states[m].db, cfg.store, states[n].sent[id].cmd)
         || (id in states[m].sent && id !in states[m].acked && states[m].sent[id] == states[n].sent[id])
  {
    SentStays(cfg, stamp, actions, states, n, m, id);
    AckedOnlyAfterCommit(cfg, stamp, actions, states, m, id);
  }

  /** Whatever was redelivered, the tables are those of delivering each committed command once, in
      the order first committed; all acknowledged commands are among them; and the invariant of the
      tables holds. Rows may be marked as published in between. */
  lemma TablesEffectivelyOnce(cfg: Config, stamp: nat -> Stamp, actions: seq<Action>, states: seq<State>, n: nat)
    requires IsRun(cfg, stamp, actions, states) && n < |states|
    ensures var s := states[n]; var once := Firsts(s.log);
      && Unmarked(s.db) == Process(EMPTY_DB, cfg.store, once, stamp)
      && (forall i, j :: 0 <= i < j < |once| ==> once[i] != once[j])
      && (forall id :: id in s.acked ==> id in s.sent && (s.sent[id].Wrote? ==> s.sent[id].cmd in once))
      && (forall c :: c in once ==> CameThrough(s.sent, c))
      && Inv(Unmarked(s.db), cfg.store)
  {
    RunInv(cfg, stamp, actions, states, n);
    EffectivelyOnce(EMPTY_DB, cfg.store, states[n].log, stamp);
    FirstsExact(states[n].log);
    EmptyInv(cfg.store);
    ProcessInv(EMPTY_DB, cfg.store, states[n].log, stamp);
  }

  // ---------- and that it gets done ----------

  /** From the broker to the commit: a command that is delivered again after a restart. */
  lemma DeliversAgain(cfg: Config, s: State, id: nat, stamp: nat -> Stamp) returns (states: seq<State>)
    requires id in s.sent && s.sent[id].Wrote? && id !in s.acked && cfg.capacity > 0
    ensures Leads(cfg, stamp, [Crash, Offer(id), TrySend, Take, Push(true)], states) && states[0] == s
    ensures states[5] == START.(sent := s.sent, acked := s.acked, db := s.db, log := s.log,
                                main := Processing([Pending(id, s.sent[id].cmd)]))
  {
    var c0 := Do(cfg, s, Crash, stamp);
    var c1 := Do(cfg, c0, Offer(id), stamp);
    var c2 := Do(cfg, c1, TrySend, stamp);
    var p := Pending(id, s.sent[id].cmd);
    assert c2.channel == [p];
    var c3 := Do(cfg, c2, Take, stamp);
    assert c3.channel == [] && c3.main == Taken(p);
    var c4 := Do(cfg, c3, Push(true), stamp);
    assert c4.main == Processing([p]) by {
      assert [] + [p] == [p];
    }
    states := [s, c0, c1, c2, c3, c4];
  }

  /** From the commit to the broker. */
  lemma SettlesAndAcks(cfg: Config, s: State, p: Pending, stamp: nat -> Stamp) returns (states: seq<State>)
    requires s.main == Processing([p]) && s.acks == {} && !Foreign(cfg.store, p.cmd)
    ensures Leads(cfg, stamp, [Commit, Ack(true), AckArrives(p.id)], states) && states[0] == s
    ensures p.id in states[3].acked && states[3].db == Step(s.db, cfg.store, p.cmd, stamp) && states[3].sent == s.sent
    ensures Decided(states[3].db, cfg.store, p.cmd)
  {
    var cmds := CommandsIn([p]);
    assert cmds == [p.cmd] && cmds[..0] == [];
    assert Process(s.db, cfg.store, cmds[..0], stamp) == s.db;
    BatchFailsIff(s.db, cfg.store, cmds, stamp);
    CommitSettles(s.db, cfg.store, cmds, stamp, 0);
    var c1 := Do(cfg, s, Commit, stamp);
    var c2 := Do(cfg, c1, Ack(true), stamp);
    var c3 := Do(cfg, c2, AckArrives(p.id), stamp);
    states := [s, c1, c2, c3];
  }

  /** Wherever the system is, an unacknowledged command of its store can still be settled: after a restart
      and seven more steps the tables have taken it, and the broker has its acknowledgement. */
  lemma CanSettle(cfg: Config, s: State, id: nat, stamp: nat -> Stamp) returns (actions: seq<Action>, states: seq<State>)
    requires id in s.sent && s.sent[id].Wrote? && id !in s.acked
    requires cfg.capacity > 0 && !Foreign(cfg.store, s.sent[id].cmd)
    ensures Leads(cfg, stamp, actions, states) && states[0] == s && |actions| == 8
    ensures id in states[8].acked && Decided(states[8].db, cfg.store, s.sent[id].cmd)
    ensures states[8].db == Step(s.db, cfg.store, s.sent[id].cmd, stamp)
  {
    var first := DeliversAgain(cfg, s, id, stamp);
    var second := SettlesAndAcks(cfg, first[5], Pending(id, s.sent[id].cmd), stamp);
    actions := [Crash, Offer(id), TrySend, Take, Push(true)] + [Commit, Ack(true), AckArrives(id)];
    states := first + second[1..];
    assert |first| == 6 && |second| == 4 && states[0] == first[0] && states[8] == second[3];
    LeadsJoin(cfg, stamp, [Crash, Offer(id), TrySend, Take, Push(true)], first, [Commit, Ack(true), AckArrives(id)], second);
  }

  lemma LeadsJoin(cfg: Config, stamp: nat -> Stamp, a: seq<Action>, first: seq<State>, b: seq<Action>, second: seq<State>)
    requires Leads(cfg, stamp, a, first) && Leads(cfg, stamp, b, second) && first[|a|] == second[0]
    ensures Leads(cfg, stamp, a + b, first + second[1..])
  {
    var actions, states := a + b, first + second[1..];
    forall i | 0 <= i < |actions|
      ensures Enabled(states[i], actions[i]) && states[i+1] == Do(cfg, states[i], actions[i], stamp)
    {
      if i < |a| {
        assert actions[i] == a[i] && states[i] == first[i] && states[i+1] == first[i+1];
      } else {
        assert actions[i] == b[i - |a|] && states[i] == second[i - |a|] && states[i+1] == second[i + 1 - |a|];
      }
    }
  }
}
