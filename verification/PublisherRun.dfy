// The publisher thread, the MQTT client, its event loop thread and the broker as one step system
// (crates/ixmati-writer/src/event_publisher.rs), with failed publishes, retransmissions, dropped
// acknowledgements and crashes.

module PublisherRun {
  import opened Options
  import opened WriterTables
  import opened PublishTracking

  /** What the event loop reads from the client, in order. */
  datatype Note = Outgoing(packet: nat) | PubAck(packet: nat)

  // ---------- a tracker that still has notes to read ----------

  function Handle(t: Track, n: Note): Track {
    match n
    case Outgoing(packet) => Sent(t, packet)
    case PubAck(packet) => Acknowledged(t, packet)
  }

  function Yield(t: Track, n: Note): set<nat> {
    if n.PubAck? && n.packet in t.inflight then {t.inflight[n.packet]} else {}
  }

  /** A publish that is sent for the first time finds its row in the queue. */
  predicate Fed(t: Track, n: Note) {
    n.Outgoing? && n.packet != 0 && n.packet !in t.inflight ==> t.queued != []
  }

  datatype Outcome = Outcome(track: Track, rows: set<nat>, fed: bool)

  /** The tracker once all notes are read, and the rows they acknowledge. */
  function Settle(t: Track, notes: seq<Note>): Outcome {
    if notes == [] then Outcome(t, {}, true)
    else
      var o, last := Settle(t, notes[..|notes|-1]), notes[|notes|-1];
      Outcome(Handle(o.track, last), o.rows + Yield(o.track, last), o.fed && Fed(o.track, last))
  }

  lemma SettleSnoc(t: Track, notes: seq<Note>, n: Note)
    ensures var o := Settle(t, notes);
      Settle(t, notes + [n]) == Outcome(Handle(o.track, n), o.rows + Yield(o.track, n), o.fed && Fed(o.track, n))
  {
    assert (notes + [n])[..|notes + [n]|-1] == notes;
  }

  lemma {:induction false} SettleFront(t: Track, notes: seq<Note>)
    requires notes != []
    ensures var o := Settle(Handle(t, notes[0]), notes[1..]);
      Settle(t, notes) == Outcome(o.track, Yield(t, notes[0]) + o.rows, Fed(t, notes[0]) && o.fed)
    decreases |notes|
  {
    var init, last := notes[..|notes|-1], notes[|notes|-1];
    if init == [] {
      assert Settle(t, init) == Outcome(t, {}, true);
    } else {
      SettleFront(t, init);
      assert notes[1..] == init[1..] + [last];
      SettleSnoc(Handle(t, notes[0]), init[1..], last);
    }
  }

  /** Queueing a row and reading the notes can be exchanged ... */
  lemma {:induction false} SettleQueued(t: Track, notes: seq<Note>, row: nat)
    requires Settle(t, notes).fed
    ensures var o := Settle(t, notes); Settle(Queued(t, row), notes) == Outcome(Queued(o.track, row), o.rows, true)
  {
    if notes != [] {
      SettleQueued(t, notes[..|notes|-1], row);
      var o := Settle(t, notes[..|notes|-1]);
      if o.track.queued != [] {
        assert (o.track.queued + [row])[1..] == o.track.queued[1..] + [row];
      }
    }
  }

  /** ... and so can taking back a row that no note reaches. */
  lemma {:induction false} SettleTakenBack(t: Track, row: nat, notes: seq<Note>)
    requires Settle(Queued(t, row), notes).fed && Settle(Queued(t, row), notes).track.queued != []
    ensures var o := Settle(t, notes); o.fed && Settle(Queued(t, row), notes) == Outcome(Queued(o.track, row), o.rows, true)
  {
    if notes != [] {
      SettleTakenBack(t, row, notes[..|notes|-1]);
      var o := Settle(t, notes[..|notes|-1]);
      if o.track.queued != [] {
        assert (o.track.queued + [row])[1..] == o.track.queued[1..] + [row];
      } else {
        assert (o.track.queued + [row])[1..] == [];
      }
    }
  }

  lemma {:induction false} SettleOnlyTakes(t: Track, notes: seq<Note>)
    ensures |Settle(t, notes).track.queued| <= |t.queued|
  {
    if notes != [] {
      SettleOnlyTakes(t, notes[..|notes|-1]);
    }
  }

  // ---------- the step system ----------

  /** `hand` is the row between `queue` and the end of `publish`; `channel` and `outgoing` are the
      client's requests and packet ids; `rx` and `pending` the acknowledged rows on their way to the
      table. The outbox and what the broker acknowledged survive a crash. */
  datatype State = State(outbox: seq<OutboxRow>, acked: set<nat>,
                         track: Track, hand: Option<nat>, channel: seq<nat>, outgoing: map<nat, nat>,
                         notes: seq<Note>, rx: seq<nat>, pending: set<nat>)

  datatype Action =
    | Commit(added: OutboxRow)
    | QueueRow(row: nat)
    | PublishOk
    | PublishFails
    | Transmit(packet: nat)
    | Retransmit(packet: nat)
    | BrokerAcks(packet: nat)
    | StrayAck(packet: nat)
    | ReadNote(room: bool)
    | Drain(room: bool)
    | Mark(ids: set<nat>)
    | MarkFails(ids: set<nat>)
    | Crash

  const START := State([], {}, IDLE, None, [], map[], [], [], {})

  function Ids(outbox: seq<OutboxRow>): set<nat> { set r | r in outbox :: r.id }

  predicate Enabled(s: State, a: Action) {
    match a
    case Commit(row) => row.id !in Ids(s.outbox) && !row.published
    case QueueRow(row) => s.hand.None? && row in Ids(s.outbox) && !Contains(s.track, row)
    case PublishOk => s.hand.Some?
    case PublishFails => s.hand.Some?
    // a new publish gets a packet id that is not in use
    case Transmit(packet) => s.channel != [] && packet != 0 && packet !in s.outgoing
    case Retransmit(packet) => packet in s.outgoing
    case BrokerAcks(packet) => packet in s.outgoing
    case StrayAck(packet) => packet !in s.outgoing
    case ReadNote(_) => s.notes != []
    case Drain(_) => s.rx != []
    case Mark(ids) => ids <= s.pending
    case MarkFails(ids) => ids <= s.pending
    case Crash => true
  }

  function Do(s: State, a: Action): State
    requires Enabled(s, a)
  {
    match a
    case Commit(row) => s.(outbox := s.outbox + [row])
    case QueueRow(row) => s.(track := Queued(s.track, row), hand := Some(row))
    case PublishOk => s.(channel := s.channel + [s.hand.value], hand := None)
    case PublishFails => s.(track := s.track.(queued := Without(s.track.queued, s.hand.value)), hand := None)
    case Transmit(packet) =>
      s.(channel := s.channel[1..], outgoing := s.outgoing[packet := s.channel[0]], notes := s.notes + [Outgoing(packet)])
    case Retransmit(packet) => s.(notes := s.notes + [Outgoing(packet)])
    case BrokerAcks(packet) =>
      s.(acked := s.acked + {s.outgoing[packet]}, outgoing := s.outgoing - {packet}, notes := s.notes + [PubAck(packet)])
    case StrayAck(packet) => s.(notes := s.notes + [PubAck(packet)])
    case ReadNote(room) =>
      var n := s.notes[0];
      var row := if n.PubAck? then RowOfPacket(s.track, n.packet) else None;
      s.(track := Handle(s.track, n), notes := s.notes[1..],
         // a full channel drops the row, which is then published again
         rx := if row.Some? && room then s.rx + [row.value] else s.rx)
    case Drain(room) => s.(rx := s.rx[1..], pending := if room then s.pending + {s.rx[0]} else s.pending)
    case Mark(ids) => s.(outbox := MarkRows(s.outbox, ids), pending := s.pending - ids)
    case MarkFails(_) => s
    case Crash => START.(outbox := s.outbox, acked := s.acked)
  }

  predicate IsRun(actions: seq<Action>, states: seq<State>) {
    && |states| == |actions| + 1
    && states[0] == START
    && forall i {:trigger actions[i]} :: 0 <= i < |actions| ==>
         Enabled(states[i], actions[i]) && states[i+1] == Do(states[i], actions[i])
  }

  // ---------- the invariant ----------

  function InHand(s: State): seq<nat> {
    if s.hand.Some? then [s.hand.value] else []
  }

  /** After the notes are read, the queue is what the client has still to send plus the row in hand,
      and the ids in flight are the client's. */
  ghost predicate Mirrors(s: State) {
    var o := Settle(s.track, s.notes);
    o.fed && o.track == Track(s.channel + InHand(s), s.outgoing) && o.rows <= s.acked
  }

  predicate OnlyAcked(s: State) {
    && (forall i :: 0 <= i < |s.rx| ==> s.rx[i] in s.acked)
    && s.pending <= s.acked
    && (forall i :: 0 <= i < |s.outbox| && s.outbox[i].published ==> s.outbox[i].id in s.acked)
  }

  ghost predicate RunInv(s: State) {
    Mirrors(s) && EachOnce(s.track) && OnlyAcked(s) && 0 !in s.outgoing
  }

  lemma QueueRowInv(s: State, row: nat)
    requires RunInv(s) && Enabled(s, QueueRow(row))
    ensures RunInv(Do(s, QueueRow(row)))
  {
    SettleQueued(s.track, s.notes, row);
    assert s.channel + [] == s.channel;
  }

  /** As long as a row is in hand it is the last of the tracker's queue. */
  lemma InHandIsLast(s: State) returns (u: Track)
    requires RunInv(s) && s.hand.Some?
    ensures Queued(u, s.hand.value) == s.track
  {
    var row := s.hand.value;
    var o := Settle(s.track, s.notes);
    assert o.track.queued == s.channel + [row];
    SettleOnlyTakes(s.track, s.notes);
    var n := |s.track.queued|;
    var last := s.track.queued[n-1];
    u := s.track.(queued := s.track.queued[..n-1]);
    assert s.track.queued == u.queued + [last];
    SettleTakenBack(u, last, s.notes);
    assert (Settle(u, s.notes).track.queued + [last])[|s.channel|] == last;
  }

  lemma PublishFailsInv(s: State)
    requires RunInv(s) && s.hand.Some?
    ensures RunInv(Do(s, PublishFails))
  {
    var row := s.hand.value;
    var u := InHandIsLast(s);
    SettleTakenBack(u, row, s.notes);
    var left := Settle(u, s.notes).track.queued;
    assert left == (left + [row])[..|left|] && s.channel == (s.channel + [row])[..|s.channel|] && s.channel + [] == s.channel;
    WithoutLast(u, row);
    WithoutEachOnce(s.track, row);
  }

  lemma WithoutLast(u: Track, row: nat)
    requires EachOnce(Queued(u, row))
    ensures Without(Queued(u, row).queued, row) == u.queued
  {
    var all := u.queued + [row];
    assert all[..|all|-1] == u.queued;
    forall i | 0 <= i < |u.queued|
      ensures u.queued[i] != row
    {
      assert all[i] != all[|u.queued|];
    }
    WithoutAbsent(u.queued, row);
  }

  lemma ClientInv(s: State, a: Action)
    requires RunInv(s) && Enabled(s, a)
    requires a.Transmit? || a.Retransmit? || a.BrokerAcks? || a.StrayAck?
    ensures RunInv(Do(s, a))
  {
    var n := if a.Transmit? || a.Retransmit? then Outgoing(a.packet) else PubAck(a.packet);
    SettleSnoc(s.track, s.notes, n);
    if a.Transmit? {
      assert (s.channel + InHand(s))[1..] == s.channel[1..] + InHand(s);
    } else if a.StrayAck? {
      assert s.outgoing - {a.packet} == s.outgoing;
    }
  }

  lemma ReadNoteInv(s: State, room: bool)
    requires RunInv(s) && s.notes != []
    ensures RunInv(Do(s, ReadNote(room)))
  {
    SettleFront(s.track, s.notes);
    var n := s.notes[0];
    if n.Outgoing? {
      SentContains(s.track, n.packet);
    } else {
      AcknowledgedContains(s.track, n.packet);
      assert n.packet in s.track.inflight ==> s.track.inflight[n.packet] in Yield(s.track, n);
    }
  }

  lemma TableInv(s: State, a: Action)
    requires RunInv(s) && Enabled(s, a)
    requires a.Commit? || a.Drain? || a.Mark? || a.MarkFails?
    ensures RunInv(Do(s, a))
  {
  }

  lemma CrashInv(s: State)
    requires RunInv(s)
    ensures RunInv(Do(s, Crash))
  {
  }

  /** Every action keeps the invariant. */
  lemma DoInv(s: State, a: Action)
    requires RunInv(s) && Enabled(s, a)
    ensures RunInv(Do(s, a))
  {
    match a
    case QueueRow(row) => QueueRowInv(s, row);
    case PublishOk => assert s.channel + [s.hand.value] == s.channel + [s.hand.value] + [];
    case PublishFails => PublishFailsInv(s);
    case Transmit(_) | Retransmit(_) | BrokerAcks(_) | StrayAck(_) => ClientInv(s, a);
    case ReadNote(room) => ReadNoteInv(s, room);
    case Commit(_) | Drain(_) | Mark(_) | MarkFails(_) => TableInv(s, a);
    case Crash => CrashInv(s);
  }

  lemma {:induction false} EveryStateInv(actions: seq<Action>, states: seq<State>, n: nat)
    requires IsRun(actions, states) && n < |states|
    ensures RunInv(states[n])
  {
    if n > 0 {
      EveryStateInv(actions, states, n - 1);
      var a := actions[n-1];
      DoInv(states[n-1], a);
    }
  }

  // ---------- what it means ----------

  /** A row is marked as published only if the broker acknowledged it. */
  lemma PublishedWasAcked(actions: seq<Action>, states: seq<State>, n: nat, row: OutboxRow)
    requires IsRun(actions, states) && n < |states|
    requires row in states[n].outbox && row.published
    ensures row.id in states[n].acked
  {
    EveryStateInv(actions, states, n);
  }

  /** When the event loop has read all its notes, the tracker is the client's state: its queue the
      requests not yet sent, plus at most the row in hand, and its ids the rows really in flight. */
  lemma TrackerIsClient(actions: seq<Action>, states: seq<State>, n: nat)
    requires IsRun(actions, states) && n < |states| && states[n].notes == []
    ensures states[n].track == Track(states[n].channel + InHand(states[n]), states[n].outgoing)
  {
    EveryStateInv(actions, states, n);
  }

  /** An acknowledgement frees exactly the row it belongs to, for the table or, if it is dropped, to
      be published again. */
  lemma AckFreesItsRow(actions: seq<Action>, states: seq<State>, n: nat, room: bool)
    requires IsRun(actions, states) && n < |states|
    requires states[n].notes != [] && states[n].notes[0].PubAck? && states[n].notes[0].packet in states[n].track.inflight
    ensures var s := states[n]; var s' := Do(s, ReadNote(room)); var row := s.track.inflight[s.notes[0].packet];
      && row in s.acked && !Contains(s'.track, row)
      && (forall other :: other != row ==> (Contains(s'.track, other) <==> Contains(s.track, other)))
      && s'.rx == if room then s.rx + [row] else s.rx
  {
    var s := states[n];
    EveryStateInv(actions, states, n);
    SettleFront(s.track, s.notes);
    AcknowledgedContains(s.track, s.notes[0].packet);
    assert s.track.inflight[s.notes[0].packet] in Yield(s.track, s.notes[0]);
  }

  lemma {:induction false} AckedStays(actions: seq<Action>, states: seq<State>, n: nat, m: nat)
    requires IsRun(actions, states) && n <= m < |states|
    ensures states[n].acked <= states[m].acked && Ids(states[n].outbox) <= Ids(states[m].outbox)
  {
    if n < m {
      AckedStays(actions, states, n, m - 1);
      var s, a := states[m-1], actions[m-1];
      assert states[m] == Do(s, a);
      IdsGrow(s, a);
    }
  }

  lemma IdsGrow(s: State, a: Action)
    requires Enabled(s, a)
    ensures Ids(s.outbox) <= Ids(Do(s, a).outbox)
  {
    var s' := Do(s, a);
    forall id | id in Ids(s.outbox)
      ensures id in Ids(s'.outbox)
    {
      var i :| 0 <= i < |s.outbox| && s.outbox[i].id == id;
      assert s'.outbox[i].id == id && s'.outbox[i] in s'.outbox;
    }
  }

  /** A committed event never gets lost: until the broker has acknowledged it, its row waits in the
      outbox. */
  lemma UnackedStillWaits(actions: seq<Action>, states: seq<State>, n: nat, m: nat, id: nat)
    requires IsRun(actions, states) && n <= m < |states| && id in Ids(states[n].outbox)
    ensures id in states[m].acked || exists r :: r in states[m].outbox && r.id == id && !r.published
  {
    AckedStays(actions, states, n, m);
    EveryStateInv(actions, states, m);
    var r :| r in states[m].outbox && r.id == id;
  }

  // ---------- and that it gets done ----------

  /** Steps of the system from some state on. */
  predicate Leads(actions: seq<Action>, states: seq<State>) {
    && |states| == |actions| + 1
    && forall i {:trigger actions[i]} :: 0 <= i < |actions| ==>
         Enabled(states[i], actions[i]) && states[i+1] == Do(states[i], actions[i])
  }

  lemma LeadsJoin(a: seq<Action>, first: seq<State>, b: seq<Action>, second: seq<State>)
    requires Leads(a, first) && Leads(b, second) && first[|a|] == second[0]
    ensures Leads(a + b, first + second[1..])
  {
    var actions, states := a + b, first + second[1..];
    forall i | 0 <= i < |actions|
      ensures Enabled(states[i], actions[i]) && states[i+1] == Do(states[i], actions[i])
    {
      if i < |a| {
        assert actions[i] == a[i] && states[i] == first[i] && states[i+1] == first[i+1];
      } else {
        assert actions[i] == b[i - |a|] && states[i] == second[i - |a|] && states[i+1] == second[i + 1 - |a|];
      }
    }
  }

  /** After a restart a row is handed over and sent. */
  lemma SendsAgain(s: State, row: nat) returns (states: seq<State>)
    requires row in Ids(s.outbox)
    ensures Leads([Crash, QueueRow(row), PublishOk, Transmit(1), ReadNote(true)], states) && states[0] == s
    ensures states[5] == START.(outbox := s.outbox, acked := s.acked, track := Track([], map[1 := row]), outgoing := map[1 := row])
  {
    var c0 := Do(s, Crash);
    var c1 := Do(c0, QueueRow(row));
    var c2 := Do(c1, PublishOk);
    var c3 := Do(c2, Transmit(1));
    assert c1.track == Track([row], map[]) && c3.notes == [Outgoing(1)] && c3.channel == [];
    var c4 := Do(c3, ReadNote(true));
    states := [s, c0, c1, c2, c3, c4];
  }

  /** Once the broker acknowledges it, it is marked. */
  lemma AcksAndMarks(s: State, row: nat) returns (states: seq<State>)
    requires s.track == Track([], map[1 := row]) && s.outgoing == map[1 := row] && s.notes == [] && s.rx == []
    ensures Leads([BrokerAcks(1), ReadNote(true), Drain(true), Mark({row})], states) && states[0] == s
    ensures row in states[4].acked && states[4].outbox == MarkRows(s.outbox, {row})
  {
    var c1 := Do(s, BrokerAcks(1));
    var c2 := Do(c1, ReadNote(true));
    assert c2.rx == [row];
    var c3 := Do(c2, Drain(true));
    var c4 := Do(c3, Mark({row}));
    states := [s, c1, c2, c3, c4];
  }

  /** Wherever the system is, an event can still be published: after a restart and eight more steps the broker
      has acknowledged it, its row is marked, and the other rows are as they were. */
  lemma CanPublish(s: State, row: nat) returns (actions: seq<Action>, states: seq<State>)
    requires row in Ids(s.outbox)
    ensures Leads(actions, states) && states[0] == s && |actions| == 9
    ensures row in states[9].acked && |states[9].outbox| == |s.outbox|
    ensures forall i :: 0 <= i < |s.outbox| ==>
              states[9].outbox[i] == if s.outbox[i].id == row then s.outbox[i].(published := true) else s.outbox[i]
  {
    var first := SendsAgain(s, row);
    var second := AcksAndMarks(first[5], row);
    actions := [Crash, QueueRow(row), PublishOk, Transmit(1), ReadNote(true)] + [BrokerAcks(1), ReadNote(true), Drain(true), Mark({row})];
    states := first + second[1..];
    LeadsJoin([Crash, QueueRow(row), PublishOk, Transmit(1), ReadNote(true)], first,
              [BrokerAcks(1), ReadNote(true), Drain(true), Mark({row})], second);
  }
}
