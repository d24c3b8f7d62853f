// The outbox publisher (crates/ixmati-writer: event_publisher.rs): the tracker that pairs MQTT
// packet ids with outbox rows, the publish and drain loops, and the two threads around them as a
// step system.

module PublishTracking {
  import opened Options
  import opened WriterTables

  /** The part of the tracker that pairs ids with rows. */
  datatype Track = Track(queued: seq<nat>, inflight: map<nat, nat>)

  const IDLE := Track([], map[])

  /** `contains_row` */
  predicate Contains(t: Track, row: nat) {
    row in t.queued || row in t.inflight.Values
  }

  /** No row is tracked twice. */
  ghost predicate EachOnce(t: Track) {
    && (forall i, j :: 0 <= i < j < |t.queued| ==> t.queued[i] != t.queued[j])
    && (forall i, p :: 0 <= i < |t.queued| && p in t.inflight ==> t.queued[i] != t.inflight[p])
    && (forall p, q :: p in t.inflight && q in t.inflight && p != q ==> t.inflight[p] != t.inflight[q])
  }

  function Queued(t: Track, row: nat): Track {
    t.(queued := t.queued + [row])
  }

  /** `retain(|id| id != row)` */
  function Without(rows: seq<nat>, row: nat): seq<nat> {
    if rows == [] then []
    else Without(rows[..|rows|-1], row) + (if rows[|rows|-1] == row then [] else [rows[|rows|-1]])
  }

  lemma {:induction false} WithoutAbsent(rows: seq<nat>, row: nat)
    requires row !in rows
    ensures Without(rows, row) == rows
  {
    if rows != [] {
      WithoutAbsent(rows[..|rows|-1], row);
    }
  }

  lemma {:induction false} WithoutMembers(rows: seq<nat>, row: nat)
    ensures forall x :: x in Without(rows, row) <==> x in rows && x != row
    ensures (forall i, j :: 0 <= i < j < |rows| ==> rows[i] != rows[j]) ==>
              forall i, j :: 0 <= i < j < |Without(rows, row)| ==> Without(rows, row)[i] != Without(rows, row)[j]
  {
    if rows != [] {
      var init := rows[..|rows|-1];
      WithoutMembers(init, row);
      assert rows == init + [rows[|rows|-1]];
      if forall i, j :: 0 <= i < j < |rows| ==> rows[i] != rows[j] {
        assert rows[|rows|-1] !in init;
      }
    }
  }

  lemma WithoutEachOnce(t: Track, row: nat)
    requires EachOnce(t)
    ensures EachOnce(t.(queued := Without(t.queued, row)))
  {
    WithoutMembers(t.queued, row);
    var rest := Without(t.queued, row);
    forall i, p | 0 <= i < |rest| && p in t.inflight
      ensures rest[i] != t.inflight[p]
    {
      assert rest[i] in t.queued;
    }
  }

  /** Packet id 0 and ids already in flight are retransmissions or not assigned. */
  function Sent(t: Track, packet: nat): Track {
    if packet == 0 || packet in t.inflight || t.queued == [] then t
    else Track(t.queued[1..], t.inflight[packet := t.queued[0]])
  }

  function Acknowledged(t: Track, packet: nat): Track {
    t.(inflight := t.inflight - {packet})
  }

  function RowOfPacket(t: Track, packet: nat): Option<nat> {
    if packet in t.inflight then Some(t.inflight[packet]) else None
  }

  class PublishTracker {
    var queued: seq<nat>
    var inflight: map<nat, nat>
    var pendingSince: map<nat, nat>
    var timeoutReported: set<nat>

    function View(): Track
      reads this
    {
      Track(queued, inflight)
    }

    /** Exactly the tracked rows have a start time. */
    ghost predicate Valid()
      reads this
    {
      && EachOnce(View())
      && (forall row :: row in pendingSince <==> Contains(View(), row))
      && timeoutReported <= pendingSince.Keys
    }

    constructor ()
      ensures Valid() && View() == IDLE
    {
      queued, inflight, pendingSince, timeoutReported := [], map[], map[], {};
    }

    method Queue(row: nat, now: nat)
      requires Valid() && !Contains(View(), row)
      modifies this
      ensures Valid() && View() == Queued(old(View()), row)
      ensures pendingSince == old(pendingSince)[row := now]
    {
      queued := queued + [row];
      pendingSince := pendingSince[row := now];
      timeoutReported := timeoutReported - {row};
    }

    /** After a publish that failed; the row was never handed over, so it is not in flight. */
    method RemoveQueued(row: nat)
      requires Valid() && row !in inflight.Values
      modifies this
      ensures Valid() && View() == old(View()).(queued := Without(old(queued), row))
      ensures !Contains(View(), row)
    {
      WithoutMembers(queued, row);
      WithoutEachOnce(View(), row);
      queued := Without(queued, row);
      pendingSince := pendingSince - {row};
      timeoutReported := timeoutReported - {row};
    }

    method ContainsRow(row: nat) returns (found: bool)
      ensures found == Contains(View(), row)
    {
      found := row in queued || row in inflight.Values;
    }

    method OnOutgoingPublish(packet: nat)
      requires Valid()
      modifies this
      ensures Valid() && View() == Sent(old(View()), packet)
      ensures pendingSince == old(pendingSince) && timeoutReported == old(timeoutReported)
    {
      if packet == 0 || packet in inflight {
        return;
      }
      if queued != [] {
        ghost var was := View();
        inflight := inflight[packet := queued[0]];
        queued := queued[1..];
        SentContains(was, packet);
      }
    }

    method OnPuback(packet: nat) returns (row: Option<nat>)
      requires Valid()
      modifies this
      ensures Valid() && View() == Acknowledged(old(View()), packet)
      ensures row == RowOfPacket(old(View()), packet)
      // the row is free to be published again until it is marked
      ensures row.Some? ==> !Contains(View(), row.value)
    {
      if packet !in inflight {
        assert inflight - {packet} == inflight;
        return None;
      }
      ghost var was := View();
      var id := inflight[packet];
      inflight := inflight - {packet};
      pendingSince := pendingSince - {id};
      timeoutReported := timeoutReported - {id};
      AcknowledgedContains(was, packet);
      return Some(id);
    }

    /** A row that waits too long is reported once until it is acknowledged. */
    method CountNewTimeouts(timeout: nat, now: nat) returns (count: nat)
      requires Valid()
      modifies this`timeoutReported
      ensures Valid()
      ensures timeoutReported == old(timeoutReported) + Expired(pendingSince, timeout, now)
      ensures count == |timeoutReported| - |old(timeoutReported)|
      ensures forall row :: row in timeoutReported <==>
                row in old(timeoutReported) || (row in pendingSince && pendingSince[row] + timeout <= now)
    {
      count, timeoutReported := ReportTimeouts(pendingSince, timeoutReported, timeout, now);
    }
  }

  predicate TimedOut(since: map<nat, nat>, row: nat, timeout: nat, now: nat)
    requires row in since
  {
    now - since[row] >= timeout
  }

  function Expired(since: map<nat, nat>, timeout: nat, now: nat): set<nat> {
    set row | row in since && TimedOut(since, row, timeout, now)
  }

  method ReportTimeouts(since: map<nat, nat>, reported: set<nat>, timeout: nat, now: nat) returns (count: nat, reported': set<nat>)
    ensures reported' == reported + Expired(since, timeout, now)
    ensures count == |reported'| - |reported|
  {
    count, reported' := 0, reported;
    var todo := since.Keys;
    while todo != {}
      invariant todo <= since.Keys
      invariant forall row :: row in reported' <==>
                  row in reported || (row in since && row !in todo && TimedOut(since, row, timeout, now))
      invariant count == |reported'| - |reported|
      decreases |todo|
    {
      var row :| row in todo;
      if TimedOut(since, row, timeout, now) && row !in reported' {
        reported' := reported' + {row};
        count := count + 1;
      }
      todo := todo - {row};
    }
  }

  lemma SentContains(t: Track, packet: nat)
    requires EachOnce(t)
    ensures EachOnce(Sent(t, packet))
    ensures forall row :: Contains(Sent(t, packet), row) <==> Contains(t, row)
  {
    if packet != 0 && packet !in t.inflight && t.queued != [] {
      var u := Sent(t, packet);
      forall row
        ensures Contains(u, row) <==> Contains(t, row)
      {
        if row in t.inflight.Values {
          var p :| p in t.inflight && t.inflight[p] == row;
          assert u.inflight[p] == row;
        }
        if row in t.queued {
          var i :| 0 <= i < |t.queued| && t.queued[i] == row;
          if i == 0 { assert u.inflight[packet] == row; } else { assert u.queued[i-1] == row; }
        }
      }
    }
  }

  lemma AcknowledgedContains(t: Track, packet: nat)
    requires EachOnce(t)
    ensures EachOnce(Acknowledged(t, packet))
    ensures packet in t.inflight ==>
              forall row :: Contains(Acknowledged(t, packet), row) <==> Contains(t, row) && row != t.inflight[packet]
  {
    var u := Acknowledged(t, packet);
    forall row | row in t.inflight.Values && packet in t.inflight && row != t.inflight[packet]
      ensures row in u.inflight.Values
    {
      var p :| p in t.inflight && t.inflight[p] == row;
      assert p in u.inflight && u.inflight[p] == row;
    }
  }
}

module Publisher {
  import opened Options
  import opened WriterTables
  import opened WriteEngine
  import opened PublishTracking

  // ---------- the publisher's loops ----------

  function Handed(t: Track, row: nat, accepted: bool): seq<nat> {
    if Contains(t, row) || !accepted then [] else [row]
  }

  /** The rows of a pass that are handed to the MQTT client: those not tracked yet that it accepts. */
  function Chosen(t: Track, rows: seq<nat>, accepts: nat -> bool): seq<nat> {
    if rows == [] then []
    else
      var before, row := Chosen(t, rows[..|rows|-1], accepts), rows[|rows|-1];
      before + Handed(t.(queued := t.queued + before), row, accepts(row))
  }

  /** In the list, some `a` stands before every `b`. */
  predicate Sooner(rows: seq<nat>, a: nat, b: nat) {
    exists k :: 0 <= k < |rows| && rows[k] == a && b !in rows[..k+1]
  }

  /** The rows a pass hands over: each row of the pass that was neither queued nor in flight and that the
      client accepts, once, in the order in which the pass first meets them. */
  ghost predicate HandsOver(tail: seq<nat>, t: Track, rows: seq<nat>, accepts: nat -> bool) {
    && (forall x :: x in tail <==> x in rows && x !in t.queued && x !in t.inflight.Values && accepts(x))
    && (forall i, j :: 0 <= i < j < |tail| ==> tail[i] != tail[j] && Sooner(rows, tail[i], tail[j]))
  }

  lemma SoonerStays(rows: seq<nat>, row: nat, a: nat, b: nat)
    requires Sooner(rows, a, b)
    ensures Sooner(rows + [row], a, b)
  {
    var k :| 0 <= k < |rows| && rows[k] == a && b !in rows[..k+1];
    assert (rows + [row])[..k+1] == rows[..k+1] && (rows + [row])[k] == a;
  }

  lemma NewComesLast(rows: seq<nat>, row: nat, a: nat)
    requires a in rows && row !in rows
    ensures Sooner(rows + [row], a, row)
  {
    var k :| 0 <= k < |rows| && rows[k] == a;
    assert (rows + [row])[..k+1] == rows[..k+1] && (rows + [row])[k] == a;
    assert row !in rows[..k+1];
  }

  lemma HandsOverNext(tail: seq<nat>, t: Track, rows: seq<nat>, row: nat, accepts: nat -> bool)
    requires HandsOver(tail, t, rows, accepts)
    ensures HandsOver(tail + Handed(t.(queued := t.queued + tail), row, accepts(row)), t, rows + [row], accepts)
  {
    var more := tail + Handed(t.(queued := t.queued + tail), row, accepts(row));
    forall i, j | 0 <= i < j < |more|
      ensures more[i] != more[j] && Sooner(rows + [row], more[i], more[j])
    {
      if j < |tail| {
        SoonerStays(rows, row, tail[i], tail[j]);
      } else {
        assert tail[i] in tail;
        NewComesLast(rows, row, tail[i]);
      }
    }
  }

  /** What is chosen is what has to be handed over. */
  lemma {:induction false} ChosenHandsOver(t: Track, rows: seq<nat>, accepts: nat -> bool)
    ensures HandsOver(Chosen(t, rows, accepts), t, rows, accepts)
  {
    if rows != [] {
      var init, last := rows[..|rows|-1], rows[|rows|-1];
      ChosenHandsOver(t, init, accepts);
      HandsOverNext(Chosen(t, init, accepts), t, init, last, accepts);
      assert rows == init + [last];
    }
  }

  /** The tracker and the requests after a pass. */
  lemma PassTells(t: Track, rows: seq<nat>, accepts: nat -> bool, requests: seq<nat>, queued: seq<nat>, requests': seq<nat>)
    requires requests' == requests + Chosen(t, rows, accepts) && queued == t.queued + Chosen(t, rows, accepts)
    ensures requests <= requests' && queued == t.queued + requests'[|requests|..]
    ensures HandsOver(requests'[|requests|..], t, rows, accepts)
    ensures forall row :: row in queued || row in t.inflight.Values <==>
              row in t.queued || row in t.inflight.Values || (row in rows && accepts(row))
  {
    var tail := requests'[|requests|..];
    assert tail == Chosen(t, rows, accepts);
    ChosenHandsOver(t, rows, accepts);
  }

  /** The pending set after reading the channel; what does not fit is dropped. */
  function Drained(pending: set<nat>, rx: seq<nat>, capacity: nat): set<nat> {
    if rx == [] then pending
    else
      var before := Drained(pending, rx[..|rx|-1], capacity);
      if |before| < capacity then before + {rx[|rx|-1]} else before
  }

  lemma {:induction false} DrainedOnlyReceived(pending: set<nat>, rx: seq<nat>, capacity: nat)
    ensures pending <= Drained(pending, rx, capacity) <= pending + SetOf(rx)
    ensures |Drained(pending, rx, capacity)| <= |pending| || |Drained(pending, rx, capacity)| <= capacity
    ensures |pending| + |rx| <= capacity ==> Drained(pending, rx, capacity) == pending + SetOf(rx)
  {
    if rx != [] {
      var init := rx[..|rx|-1];
      DrainedOnlyReceived(pending, init, capacity);
      DrainedSize(pending, init, capacity);
      assert rx == init + [rx[|rx|-1]];
    }
  }

  lemma {:induction false} DrainedSize(pending: set<nat>, rx: seq<nat>, capacity: nat)
    ensures |Drained(pending, rx, capacity)| <= |pending| + |rx|
  {
    if rx != [] {
      DrainedSize(pending, rx[..|rx|-1], capacity);
    }
  }

  method TakeSome(pending: set<nat>, limit: nat) returns (ids: seq<nat>)
    ensures |ids| == if limit < |pending| then limit else |pending|
    ensures SetOf(ids) <= pending
    ensures |ids| == |pending| ==> SetOf(ids) == pending
    ensures forall i, j :: 0 <= i < j < |ids| ==> ids[i] != ids[j]
  {
    ids := [];
    var left := pending;
    while left != {} && |ids| < limit
      invariant left <= pending && |left| + |ids| == |pending| && |ids| <= limit
      invariant forall id :: id in ids <==> id in pending && id !in left
      invariant forall i, j :: 0 <= i < j < |ids| ==> ids[i] != ids[j]
      decreases |left|
    {
      var id :| id in left;
      left := left - {id};
      ids := ids + [id];
    }
  }

  class EventPublisher {
    const tracker: PublishTracker
    const db: Database
    const pendingCapacity: nat
    // requests handed to the MQTT client and not yet sent
    var requests: seq<nat>
    var pubackRx: seq<nat>
    var pending: set<nat>

    constructor (tracker: PublishTracker, db: Database, pendingCapacity: nat)
      ensures this.tracker == tracker && this.db == db && this.pendingCapacity == pendingCapacity
      ensures requests == [] && pubackRx == [] && pending == {}
    {
      this.tracker, this.db, this.pendingCapacity := tracker, db, pendingCapacity;
      requests, pubackRx, pending := [], [], {};
    }

    /** The loop of `drain_pubacks` over the channel. */
    method ReadPubacks()
      modifies this`pubackRx, this`pending
      ensures pubackRx == [] && pending == Drained(old(pending), old(pubackRx), pendingCapacity)
    {
      var received := pubackRx;
      while pubackRx != []
        invariant |pubackRx| <= |received|
        invariant pubackRx == received[|received| - |pubackRx|..]
        invariant pending == Drained(old(pending), received[..|received| - |pubackRx|], pendingCapacity)
      {
        var n := |received| - |pubackRx|;
        assert received[..n+1][..n] == received[..n];
        if |pending| < pendingCapacity {
          pending := pending + {pubackRx[0]};
        }
        pubackRx := pubackRx[1..];
      }
      assert received[..|received|] == received;
    }

    /** `drain_pubacks`: only rows that were acknowledged are marked, and an error keeps them. */
    method DrainPubacks(limit: nat, markSucceeds: bool) returns (marked: Option<nat>, ghost ids: set<nat>)
      modifies this`pubackRx, this`pending, db`outbox
      ensures pubackRx == []
      ensures ids <= Drained(old(pending), old(pubackRx), pendingCapacity)
      ensures marked.None? ==>
                ids == {} && db.outbox == old(db.outbox) && pending == Drained(old(pending), old(pubackRx), pendingCapacity)
      ensures marked.Some? ==>
                (marked.value == |ids|
                 && db.outbox == MarkRows(old(db.outbox), ids)
                 && pending == Drained(old(pending), old(pubackRx), pendingCapacity) - ids)
      ensures markSucceeds ==> marked.Some?
      ensures markSucceeds && limit >= |Drained(old(pending), old(pubackRx), pendingCapacity)| ==> pending == {}
    {
      ReadPubacks();
      ghost var drained := pending;
      if pending == {} {
        MarkNone(db.outbox);
        return Some(0), {};
      }
      var chosen := TakeSome(pending, limit);
      SizeOfDistinct(chosen);
      assert limit >= |drained| ==> drained - SetOf(chosen) == {};
      if !markSucceeds {
        return None, {};
      }
      db.MarkPublished(chosen);
      ids := SetOf(chosen);
      pending := pending - SetOf(chosen);
      marked := Some(|chosen|);
    }

    method PublishRow(row: nat, accepted: bool, now: nat)
      requires tracker.Valid()
      modifies this`requests, tracker
      ensures tracker.Valid()
      ensures tracker.View() == old(tracker.View()).(queued := old(tracker.queued) + Handed(old(tracker.View()), row, accepted))
      ensures requests == old(requests) + Handed(old(tracker.View()), row, accepted)
      // handed over and tracked if the client accepts it and it was not tracked yet; otherwise all stays
      ensures if accepted && row !in old(tracker.queued) && row !in old(tracker.inflight).Values
              then requests == old(requests) + [row] && tracker.queued == old(tracker.queued) + [row]
              else requests == old(requests) && tracker.queued == old(tracker.queued)
    {
      var tracked := tracker.ContainsRow(row);
      if tracked {
        return;
      }
      ghost var queued := tracker.queued;
      tracker.Queue(row, now);
      if accepted {
        requests := requests + [row];
      } else {
        tracker.RemoveQueued(row);
        WithoutAbsent(queued, row);
        assert (queued + [row])[..|queued|] == queued;
      }
    }

    /** The row loop of `publish_unpublished`. */
    method PublishEach(rows: seq<nat>, accepts: nat -> bool, now: nat)
      requires tracker.Valid()
      modifies this`requests, tracker
      ensures tracker.Valid()
      ensures tracker.View() == old(tracker.View()).(queued := old(tracker.queued) + Chosen(old(tracker.View()), rows, accepts))
      ensures requests == old(requests) + Chosen(old(tracker.View()), rows, accepts)
    {
      ghost var was := tracker.View();
      var i := 0;
      while i < |rows|
        invariant 0 <= i <= |rows| && tracker.Valid()
        invariant tracker.View() == was.(queued := was.queued + Chosen(was, rows[..i], accepts))
        invariant requests == old(requests) + Chosen(was, rows[..i], accepts)
      {
        ChosenNext(was, rows, accepts, i);
        PublishRow(rows[i], accepts(rows[i]), now);
        i := i + 1;
      }
      assert rows[..i] == rows;
    }

    /** A pass of `publish_unpublished`, while the event loop does nothing: the tracker's queue
        and the client's requests grow by the same rows in the same order. */
    method PublishRows(rows: seq<nat>, accepts: nat -> bool, now: nat)
      requires tracker.Valid()
      modifies this`requests, tracker
      ensures tracker.Valid()
      ensures tracker.View() == old(tracker.View()).(queued := old(tracker.queued) + Chosen(old(tracker.View()), rows, accepts))
      ensures requests == old(requests) + Chosen(old(tracker.View()), rows, accepts)
      ensures old(requests) <= requests && tracker.inflight == old(tracker.inflight)
      ensures tracker.queued == old(tracker.queued) + requests[|old(requests)|..]
      ensures HandsOver(requests[|old(requests)|..], old(tracker.View()), rows, accepts)
      ensures forall row :: row in tracker.queued || row in tracker.inflight.Values <==>
                row in old(tracker.queued) || row in old(tracker.inflight).Values || (row in rows && accepts(row))
    {
      ghost var was := tracker.View();
      PublishEach(rows, accepts, now);
      PassTells(was, rows, accepts, old(requests), tracker.queued, requests);
    }
  }

  lemma ChosenNext(t: Track, rows: seq<nat>, accepts: nat -> bool, i: nat)
    requires i < |rows|
    ensures Chosen(t, rows[..i+1], accepts) == Chosen(t, rows[..i], accepts)
              + Handed(t.(queued := t.queued + Chosen(t, rows[..i], accepts)), rows[i], accepts(rows[i]))
  {
    assert rows[..i+1][..i] == rows[..i];
  }

  lemma MarkNone(outbox: seq<OutboxRow>)
    ensures MarkRows(outbox, {}) == outbox
  {
    assert forall i :: 0 <= i < |outbox| ==> MarkRows(outbox, {})[i] == outbox[i];
  }

  lemma {:induction false} SizeOfDistinct(ids: seq<nat>)
    requires forall i, j :: 0 <= i < j < |ids| ==> ids[i] != ids[j]
    ensures |SetOf(ids)| == |ids|
  {
    if ids == [] {
      assert SetOf(ids) == {};
    } else {
      var init, last := ids[..|ids|-1], ids[|ids|-1];
      SizeOfDistinct(init);
      assert ids == init + [last];
      assert SetOf(ids) == SetOf(init) + {last};
    }
  }
}
