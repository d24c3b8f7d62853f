// The resumable event stream of the gRPC API (crates/ixmati-api/src/grpc.rs: subscribe_events,
// fetch_events, oldest_available_cursor).

module EventStream {
  import opened Options
  import opened WriterTables

  /** The columns `fetch_events` selects. */
  datatype Entry = Entry(id: nat, event: Event)

  datatype Filter = Filter(store: string, entity: string, key: string)

  predicate Wanted(f: Filter, e: Entry) {
    e.event.store == f.store && (f.entity == "" || e.event.entity == f.entity) && (f.key == "" || e.event.key == f.key)
  }

  /** Ids rise and event ids are unique. */
  ghost predicate WellFormed(outbox: seq<Entry>) {
    && (forall i, j :: 0 <= i < j < |outbox| ==> outbox[i].id < outbox[j].id)
    && (forall i, j :: 0 <= i < j < |outbox| ==> outbox[i].event.eventId != outbox[j].event.eventId)
  }

  function Kept(e: Entry, f: Filter, cursor: nat): seq<Entry> {
    if e.id > cursor && Wanted(f, e) then [e] else []
  }

  /** The wanted rows behind a cursor, in id order. */
  function After(outbox: seq<Entry>, f: Filter, cursor: nat): seq<Entry> {
    if outbox == [] then []
    else After(outbox[..|outbox|-1], f, cursor) + Kept(outbox[|outbox|-1], f, cursor)
  }

  /** The rows of the store behind the cursor, of the entity and the key asked for if any is; ids rise. */
  lemma {:induction false} AfterIs(outbox: seq<Entry>, f: Filter, cursor: nat)
    requires WellFormed(outbox)
    ensures forall e :: e in After(outbox, f, cursor) <==>
              e in outbox && e.id > cursor && e.event.store == f.store
              && (f.entity == "" || f.entity == e.event.entity) && (f.key == "" || f.key == e.event.key)
    ensures forall i, j :: 0 <= i < j < |After(outbox, f, cursor)| ==>
              After(outbox, f, cursor)[i].id < After(outbox, f, cursor)[j].id
  {
    AfterMembers(outbox, f, cursor);
    if outbox != [] {
      var n := |outbox| - 1;
      var init := outbox[..n];
      AfterIs(init, f, cursor);
      AfterMembers(init, f, cursor);
      forall i | 0 <= i < |After(init, f, cursor)|
        ensures After(init, f, cursor)[i].id < outbox[n].id
      {
        assert After(init, f, cursor)[i] in init;
      }
    }
  }

  lemma {:induction false} AfterMembers(outbox: seq<Entry>, f: Filter, cursor: nat)
    ensures forall e :: e in After(outbox, f, cursor) <==> e in outbox && e.id > cursor && Wanted(f, e)
  {
    if outbox != [] {
      AfterMembers(outbox[..|outbox|-1], f, cursor);
      assert outbox == outbox[..|outbox|-1] + [outbox[|outbox|-1]];
    }
  }

  lemma {:induction false} AfterConcat(a: seq<Entry>, b: seq<Entry>, f: Filter, cursor: nat)
    ensures After(a + b, f, cursor) == After(a, f, cursor) + After(b, f, cursor)
    decreases |b|
  {
    if b == [] {
      assert a + b == a;
    } else {
      AfterConcat(a, b[..|b|-1], f, cursor);
      assert (a + b)[..|a + b|-1] == a + b[..|b|-1];
    }
  }

  lemma {:induction false} NothingAfter(outbox: seq<Entry>, f: Filter, cursor: nat)
    requires forall i :: 0 <= i < |outbox| ==> outbox[i].id <= cursor
    ensures After(outbox, f, cursor) == []
  {
    if outbox != [] {
      NothingAfter(outbox[..|outbox|-1], f, cursor);
    }
  }

  lemma {:induction false} AllAfter(outbox: seq<Entry>, f: Filter, a: nat, b: nat)
    requires forall i :: 0 <= i < |outbox| ==> outbox[i].id > a && outbox[i].id > b
    ensures After(outbox, f, a) == After(outbox, f, b)
  {
    if outbox != [] {
      AllAfter(outbox[..|outbox|-1], f, a, b);
    }
  }

  lemma AfterSplit(outbox: seq<Entry>, f: Filter, cursor: nat, i: nat)
    requires i < |outbox|
    ensures After(outbox, f, cursor) == After(outbox[..i], f, cursor) + Kept(outbox[i], f, cursor) + After(outbox[i+1..], f, cursor)
  {
    assert outbox == outbox[..i+1] + outbox[i+1..];
    AfterConcat(outbox[..i+1], outbox[i+1..], f, cursor);
    assert outbox[..i+1][..i] == outbox[..i];
  }

  lemma {:induction false} FirstAt(outbox: seq<Entry>, f: Filter, cursor: nat) returns (i: nat)
    requires After(outbox, f, cursor) != []
    ensures i < |outbox| && outbox[i] == After(outbox, f, cursor)[0] && outbox[i].id > cursor && Wanted(f, outbox[i])
    ensures After(outbox[..i], f, cursor) == []
  {
    var n := |outbox| - 1;
    if After(outbox[..n], f, cursor) == [] {
      i := n;
    } else {
      i := FirstAt(outbox[..n], f, cursor);
      assert outbox[..n][..i] == outbox[..i];
    }
  }

  /** Moving the cursor to the first wanted row leaves the others. */
  lemma Advance(outbox: seq<Entry>, f: Filter, cursor: nat)
    requires WellFormed(outbox) && After(outbox, f, cursor) != []
    ensures var first := After(outbox, f, cursor)[0];
      && first in outbox && first.id > cursor && Wanted(f, first)
      && After(outbox, f, cursor)[1..] == After(outbox, f, first.id)
  {
    var i := FirstAt(outbox, f, cursor);
    var first, behind := outbox[i], outbox[i+1..];
    AfterSplit(outbox, f, cursor, i);
    AfterSplit(outbox, f, first.id, i);
    NothingAfter(outbox[..i], f, first.id);
    AllAfter(behind, f, cursor, first.id);
  }

  /** `fetch_events` */
  method FetchEvents(outbox: seq<Entry>, f: Filter, cursor: nat, limit: nat) returns (rows: seq<Entry>)
    ensures rows <= After(outbox, f, cursor)
    ensures |rows| == if |After(outbox, f, cursor)| < limit then |After(outbox, f, cursor)| else limit
  {
    rows := [];
    var i := 0;
    while i < |outbox| && |rows| < limit
      invariant 0 <= i <= |outbox| && |rows| <= limit
      invariant rows == After(outbox[..i], f, cursor)
    {
      assert outbox[..i+1][..i] == outbox[..i];
      if outbox[i].id > cursor && Wanted(f, outbox[i]) {
        rows := rows + [outbox[i]];
      }
      i := i + 1;
    }
    assert outbox == outbox[..i] + outbox[i..];
    AfterConcat(outbox[..i], outbox[i..], f, cursor);
    if i == |outbox| {
      assert outbox[i..] == [];
    }
  }

  /** No row of the store, or one that begins at most one behind the cursor. Only a cursor other than
      0 is checked. */
  predicate Accepted(outbox: seq<Entry>, store: string, cursor: nat) {
    cursor > 0 && (exists e :: e in outbox && e.event.store == store) ==>
      exists e :: e in outbox && e.event.store == store && e.id <= cursor + 1
  }

  /** It is refused when there are rows of the store and each of them is more than one behind it. */
  lemma RefusedIff(outbox: seq<Entry>, store: string, cursor: nat)
    ensures !Accepted(outbox, store, cursor) <==>
              cursor > 0 && (exists e :: e in outbox && e.event.store == store)
              && forall e :: e in outbox && e.event.store == store ==> e.id >= cursor + 2
  {
  }

  /** `oldest_available_cursor`: the smallest id of the store against the cursor asked for. */
  method OldestAvailableCursor(outbox: seq<Entry>, store: string, cursor: nat) returns (tooOld: bool)
    requires cursor > 0
    ensures tooOld == !Accepted(outbox, store, cursor)
  {
    var oldest: Option<nat> := None;
    for i := 0 to |outbox|
      invariant oldest.None? ==> forall j :: 0 <= j < i ==> outbox[j].event.store != store
      invariant oldest.Some? ==> exists j :: 0 <= j < i && outbox[j].event.store == store && outbox[j].id == oldest.value
      invariant oldest.Some? ==> forall j :: 0 <= j < i && outbox[j].event.store == store ==> oldest.value <= outbox[j].id
    {
      if outbox[i].event.store == store && (oldest.None? || outbox[i].id < oldest.value) {
        oldest := Some(outbox[i].id);
      }
    }
    tooOld := oldest.Some? && cursor + 1 < oldest.value;
  }

  // ---------- one subscription ----------

  /** How a subscription ends: refused, told to resume at a cursor, gone, or still open. */
  datatype End = OutOfRange | Resume(cursor: nat) | Gone | Open

  /** What one look at a full or closed channel tells. */
  datatype Channel = Channel(capacity: nat, open: bool)

  /** What was sent, followed by what lies behind the cursor, is what lay behind the start. */
  ghost predicate Exact(outbox: seq<Entry>, f: Filter, start: nat, cursor: nat, sent: seq<Entry>) {
    sent + After(outbox, f, cursor) == After(outbox, f, start)
  }

  /** A cursor is where the subscription started or a row of the outbox. */
  ghost predicate CursorOf(outbox: seq<Entry>, start: nat, cursor: nat) {
    cursor == start || (cursor > start && exists i :: 0 <= i < |outbox| && outbox[i].id == cursor)
  }

  /** Event ids remembered belong to rows up to the cursor. */
  ghost predicate SeenUpTo(seen: set<string>, outbox: seq<Entry>, cursor: nat) {
    forall s :: s in seen ==> exists i :: 0 <= i < |outbox| && outbox[i].event.eventId == s && outbox[i].id <= cursor
  }

  lemma Unseen(seen: set<string>, outbox: seq<Entry>, cursor: nat, e: Entry)
    requires WellFormed(outbox) && SeenUpTo(seen, outbox, cursor) && e in outbox && e.id > cursor
    ensures e.event.eventId !in seen
    ensures SeenUpTo(seen + {e.event.eventId}, outbox, e.id)
    ensures SeenUpTo({}, outbox, e.id)
  {
    var k :| 0 <= k < |outbox| && outbox[k] == e;
    forall s | s in seen
      ensures s != e.event.eventId
    {
      var i :| 0 <= i < |outbox| && outbox[i].event.eventId == s && outbox[i].id <= cursor;
      assert outbox[i].event.eventId != outbox[k].event.eventId;
    }
  }

  /** Appending rows does not disturb a subscription. */
  lemma Appended(outbox: seq<Entry>, more: seq<Entry>, f: Filter, start: nat, cursor: nat, sent: seq<Entry>)
    requires WellFormed(outbox + more) && CursorOf(outbox, start, cursor) && Exact(outbox, f, start, cursor, sent)
    ensures Exact(outbox + more, f, start, cursor, sent)
  {
    MoreIsBehind(outbox, more, f, start, cursor);
    calc {
      sent + After(outbox + more, f, cursor);
      { AfterConcat(outbox, more, f, cursor); }
      sent + (After(outbox, f, cursor) + After(more, f, cursor));
      sent + After(outbox, f, cursor) + After(more, f, start);
      { AfterConcat(outbox, more, f, start); }
      After(outbox + more, f, start);
    }
  }

  lemma MoreIsBehind(outbox: seq<Entry>, more: seq<Entry>, f: Filter, start: nat, cursor: nat)
    requires WellFormed(outbox + more) && CursorOf(outbox, start, cursor)
    ensures After(more, f, cursor) == After(more, f, start)
  {
    if cursor != start {
      var i :| 0 <= i < |outbox| && outbox[i].id == cursor;
      forall j | 0 <= j < |more|
        ensures more[j].id > cursor && more[j].id > start
      {
        assert (outbox + more)[i].id < (outbox + more)[|outbox| + j].id;
      }
      AllAfter(more, f, cursor, start);
    }
  }

  lemma AppendedCursor(outbox: seq<Entry>, more: seq<Entry>, start: nat, cursor: nat, seen: set<string>)
    requires CursorOf(outbox, start, cursor) && SeenUpTo(seen, outbox, cursor)
    ensures CursorOf(outbox + more, start, cursor) && SeenUpTo(seen, outbox + more, cursor)
  {
    if cursor != start {
      var i :| 0 <= i < |outbox| && outbox[i].id == cursor;
      assert (outbox + more)[i].id == cursor;
    }
    forall s | s in seen
      ensures exists i :: 0 <= i < |outbox + more| && (outbox + more)[i].event.eventId == s && (outbox + more)[i].id <= cursor
    {
      var i :| 0 <= i < |outbox| && outbox[i].event.eventId == s && outbox[i].id <= cursor;
      assert (outbox + more)[i] == outbox[i];
    }
  }

  ghost predicate Progress(outbox: seq<Entry>, f: Filter, start: nat, cursor: nat, sent: seq<Entry>, seen: set<string>) {
    Exact(outbox, f, start, cursor, sent) && CursorOf(outbox, start, cursor) && SeenUpTo(seen, outbox, cursor)
  }

  const BATCH: nat := 128
  const SEEN_MAX: nat := 4096

  /** One row of a batch; `left` is what the batch has still to send. */
  method SendRow(row: Entry, cursor0: nat, seen0: set<string>, sent0: seq<Entry>, look: Channel,
                 ghost outbox: seq<Entry>, ghost f: Filter, ghost start: nat, ghost left: seq<Entry>)
    returns (sent: seq<Entry>, cursor: nat, seen: set<string>, end: End)
    requires WellFormed(outbox) && left != [] && left[0] == row && left <= After(outbox, f, cursor0)
    requires Progress(outbox, f, start, cursor0, sent0, seen0)
    ensures end.Open? ==> Progress(outbox, f, start, cursor, sent, seen) && sent == sent0 + [row] && cursor == row.id
    ensures end.Open? ==> left[1..] <= After(outbox, f, cursor)
    ensures !end.Open? ==> sent == sent0 && cursor == cursor0
    ensures end.Resume? ==> end.cursor == cursor0
    ensures end == Open || end == Gone || end.Resume?
    ensures end.Open? <==> look.capacity > 1 && look.open
    ensures end.Resume? <==> look.capacity <= 1
  {
    NextRow(outbox, f, start, cursor0, sent0, seen0, left);
    sent, cursor, seen, end := sent0, cursor0, seen0, Open;
    var isNew := row.event.eventId !in seen;
    seen := seen + {row.event.eventId};
    if |seen| > SEEN_MAX {
      seen := {};
    }
    if isNew {
      // one slot stays free for the message that tells where to resume
      if look.capacity <= 1 {
        end := Resume(cursor);
        return;
      }
      if !look.open {
        end := Gone;
        return;
      }
      sent := sent + [row];
    }
    cursor := row.id;
  }

  /** The first `k` looks at the channel found its other end there and a slot to spare. */
  ghost predicate Clear(channel: nat -> Channel, k: int) {
    forall i :: 0 <= i < k ==> channel(i).capacity > 1 && channel(i).open
  }

  /** What the look behind `k` clear ones found. */
  ghost predicate StopsAt(channel: nat -> Channel, k: nat, end: End) {
    && Clear(channel, k)
    && (end.Resume? ==> channel(k).capacity <= 1)
    && (end.Gone? ==> channel(k).capacity > 1 && !channel(k).open)
  }

  /** The row loop of `subscribe_events`, one batch; `channel` is what the n-th look finds. */
  method SendRows(outbox: seq<Entry>, f: Filter, rows: seq<Entry>, start: nat, cursor0: nat, seen0: set<string>,
                  sent0: seq<Entry>, channel: nat -> Channel)
    returns (sent: seq<Entry>, cursor: nat, seen: set<string>, end: End)
    requires WellFormed(outbox) && rows <= After(outbox, f, cursor0)
    requires Progress(outbox, f, start, cursor0, sent0, seen0)
    ensures Exact(outbox, f, start, cursor, sent) && CursorOf(outbox, start, cursor)
    ensures end.Open? ==> SeenUpTo(seen, outbox, cursor) && sent == sent0 + rows && Clear(channel, |rows|)
    ensures end.Resume? ==> end.cursor == cursor
    ensures !end.Open? ==> |sent0| <= |sent| < |sent0| + |rows| && StopsAt(channel, |sent| - |sent0|, end)
    ensures !end.OutOfRange?
  {
    sent, cursor, seen, end := sent0, cursor0, seen0, Open;
    for i := 0 to |rows|
      invariant end.Open? && Clear(channel, i) && Progress(outbox, f, start, cursor, sent, seen)
      invariant rows[i..] <= After(outbox, f, cursor)
      invariant sent == sent0 + rows[..i]
    {
      RowAt(rows, sent0, i);
      sent, cursor, seen, end := SendRow(rows[i], cursor, seen, sent, channel(i), outbox, f, start, rows[i..]);
      if !end.Open? {
        assert |sent| - |sent0| == i && StopsAt(channel, i, end);
        return;
      }
    }
    assert rows[..|rows|] == rows;
  }

  lemma RowAt(rows: seq<Entry>, sent: seq<Entry>, i: nat)
    requires i < |rows|
    ensures rows[i..] != [] && rows[i..][0] == rows[i] && rows[i..][1..] == rows[i+1..]
    ensures sent + rows[..i] + [rows[i]] == sent + rows[..i+1]
  {
  }

  lemma NextRow(outbox: seq<Entry>, f: Filter, start: nat, cursor: nat, sent: seq<Entry>, seen: set<string>,
                left: seq<Entry>)
    requires WellFormed(outbox) && Progress(outbox, f, start, cursor, sent, seen)
    requires left != [] && left <= After(outbox, f, cursor)
    ensures left[0].event.eventId !in seen
    ensures Progress(outbox, f, start, left[0].id, sent + [left[0]], seen + {left[0].event.eventId})
    ensures Progress(outbox, f, start, left[0].id, sent + [left[0]], {})
    ensures left[1..] <= After(outbox, f, left[0].id)
  {
    assert After(outbox, f, cursor)[0] == left[0];
    Advance(outbox, f, cursor);
    Unseen(seen, outbox, cursor, left[0]);
    NextCursor(outbox, f, start, cursor, sent, left[0]);
  }

  lemma NextCursor(outbox: seq<Entry>, f: Filter, start: nat, cursor: nat, sent: seq<Entry>, row: Entry)
    requires WellFormed(outbox) && Exact(outbox, f, start, cursor, sent) && CursorOf(outbox, start, cursor)
    requires After(outbox, f, cursor) != [] && After(outbox, f, cursor)[0] == row
    ensures Exact(outbox, f, start, row.id, sent + [row]) && CursorOf(outbox, start, row.id)
  {
    Advance(outbox, f, cursor);
    assert After(outbox, f, cursor) == [row] + After(outbox, f, row.id);
    assert sent + ([row] + After(outbox, f, row.id)) == sent + [row] + After(outbox, f, row.id);
    var i :| 0 <= i < |outbox| && outbox[i] == row;
    assert outbox[i].id == row.id;
  }

  lemma Grown(outbox: seq<Entry>, grown: seq<Entry>, f: Filter, start: nat, cursor: nat, sent: seq<Entry>, seen: set<string>)
    requires WellFormed(grown) && outbox <= grown && Progress(outbox, f, start, cursor, sent, seen)
    ensures Progress(grown, f, start, cursor, sent, seen)
  {
    var more := grown[|outbox|..];
    assert grown == outbox + more;
    Appended(outbox, more, f, start, cursor, sent);
    AppendedCursor(outbox, more, start, cursor, seen);
  }

  function Least(a: nat, b: nat): nat { if a < b then a else b }

  method Pass(f: Filter, outbox: seq<Entry>, start: nat, cursor0: nat, seen0: set<string>, sent0: seq<Entry>, channel: nat -> Channel)
    returns (sent: seq<Entry>, cursor: nat, seen: set<string>, end: End)
    requires WellFormed(outbox) && Progress(outbox, f, start, cursor0, sent0, seen0)
    ensures Exact(outbox, f, start, cursor, sent) && CursorOf(outbox, start, cursor)
    ensures end.Open? ==> Progress(outbox, f, start, cursor, sent, seen)
    // a pass that is not cut off sends 128 rows, or all there are
    ensures end.Open? ==> |sent| == |sent0| + Least(128, |After(outbox, f, cursor0)|)
    ensures end.Open? ==> Clear(channel, |sent| - |sent0|)
    ensures end.Resume? ==> end.cursor == cursor
    ensures !end.Open? ==> |sent0| <= |sent| < |sent0| + 128 && StopsAt(channel, |sent| - |sent0|, end)
    ensures !end.OutOfRange?
  {
    var rows := FetchEvents(outbox, f, cursor0, BATCH);
    sent, cursor, seen, end := SendRows(outbox, f, rows, start, cursor0, seen0, sent0, channel);
  }

  /** How many rows have been sent after the first `v` looks at the outbox. */
  function SentBy(views: seq<seq<Entry>>, f: Filter, start: nat, v: nat): nat
    requires v <= |views|
  {
    if v == 0 then 0 else Least(SentBy(views, f, start, v - 1) + 128, |After(views[v-1], f, start)|)
  }

  /** If the outbox stops growing, enough looks find everything. */
  lemma {:induction false} EnoughLooks(views: seq<seq<Entry>>, f: Filter, start: nat, n: nat, v: nat)
    requires n < |views| && n <= v <= |views| && forall u :: n <= u < |views| ==> views[u] == views[n]
    ensures v > n ==> SentBy(views, f, start, v) >= Least(128 * (v - n), |After(views[n], f, start)|)
    ensures v > n ==> SentBy(views, f, start, v) <= |After(views[n], f, start)|
    ensures v > n && 128 * (v - n) >= |After(views[n], f, start)| ==> SentBy(views, f, start, v) == |After(views[n], f, start)|
    decreases v
  {
    if v > n {
      EnoughLooks(views, f, start, n, v - 1);
    }
  }

  /** So a subscription that stays open over enough looks at an outbox that has stopped growing sends all that
      is wanted behind its start. */
  lemma EverythingArrives(views: seq<seq<Entry>>, f: Filter, start: nat, n: nat, sent: seq<Entry>)
    requires n < |views| && forall u :: n <= u < |views| ==> views[u] == views[n]
    requires 128 * (|views| - n) >= |After(views[n], f, start)|
    requires |sent| == SentBy(views, f, start, |views|) && sent <= After(views[|views|-1], f, start)
    ensures sent == After(views[n], f, start)
  {
    EnoughLooks(views, f, start, n, |views|);
  }

  ghost predicate ClearUpTo(views: seq<seq<Entry>>, f: Filter, start: nat, channel: nat -> nat -> Channel, v: nat)
    requires v <= |views|
  {
    forall u :: 0 <= u < v ==> Clear(channel(u), SentBy(views, f, start, u + 1) - SentBy(views, f, start, u))
  }

  /** Cut off in look `v`, after `n` rows in all. */
  ghost predicate CutAt(views: seq<seq<Entry>>, f: Filter, start: nat, channel: nat -> nat -> Channel, v: nat, n: nat, end: End) {
    && v < |views| && ClearUpTo(views, f, start, channel, v)
    && SentBy(views, f, start, v) <= n < SentBy(views, f, start, v) + 128
    && StopsAt(channel(v), n - SentBy(views, f, start, v), end)
  }

  /** What was sent when it ends in look `last`. */
  ghost predicate EndsIn(views: seq<seq<Entry>>, f: Filter, start: nat, last: nat, cursor: nat, sent: seq<Entry>, end: End) {
    && last < |views| && (end.Open? ==> last == |views| - 1)
    && Exact(views[last], f, start, cursor, sent) && CursorOf(views[last], start, cursor)
    && (end.Resume? ==> end.cursor == cursor)
  }

  /** A channel that always has a slot to spare, and whose other end stays, cuts nothing off. */
  lemma CutIsFullOrClosed(views: seq<seq<Entry>>, f: Filter, start: nat, channel: nat -> nat -> Channel, v: nat, n: nat, end: End)
    requires CutAt(views, f, start, channel, v, n, end)
    ensures end.Resume? ==> exists i :: 0 <= i < 128 && channel(v)(i).capacity <= 1
    ensures end.Gone? ==> exists i :: 0 <= i < 128 && !channel(v)(i).open
  {
    assert 0 <= n - SentBy(views, f, start, v) < 128;
  }

  lemma NextLook(views: seq<seq<Entry>>, f: Filter, start: nat, channel: nat -> nat -> Channel, v: nat, left: nat, n: nat)
    requires v < |views| && ClearUpTo(views, f, start, channel, v)
    requires |After(views[v], f, start)| == SentBy(views, f, start, v) + left
    requires n == SentBy(views, f, start, v) + Least(128, left) && Clear(channel(v), n - SentBy(views, f, start, v))
    ensures n == SentBy(views, f, start, v + 1) && ClearUpTo(views, f, start, channel, v + 1)
  {
  }

  /** One look at the outbox, which may have grown since the last. */
  method Look(f: Filter, start: nat, views: seq<seq<Entry>>, v: nat, cursor0: nat, seen0: set<string>, sent0: seq<Entry>,
              channel: nat -> nat -> Channel)
    returns (sent: seq<Entry>, cursor: nat, seen: set<string>, end: End)
    requires v < |views| && WellFormed(views[v]) && (v > 0 ==> views[v-1] <= views[v])
    requires Progress(views[if v == 0 then 0 else v - 1], f, start, cursor0, sent0, seen0)
    requires |sent0| == SentBy(views, f, start, v) && ClearUpTo(views, f, start, channel, v)
    ensures Exact(views[v], f, start, cursor, sent) && CursorOf(views[v], start, cursor)
    ensures end.Open? ==> Progress(views[v], f, start, cursor, sent, seen) && |sent| == SentBy(views, f, start, v + 1)
    ensures end.Open? ==> ClearUpTo(views, f, start, channel, v + 1)
    ensures end.Resume? ==> end.cursor == cursor
    ensures !end.Open? ==> CutAt(views, f, start, channel, v, |sent|, end)
    ensures !end.OutOfRange?
  {
    if v > 0 {
      Grown(views[v-1], views[v], f, start, cursor0, sent0, seen0);
    }
    ghost var left := |After(views[v], f, cursor0)|;
    assert |After(views[v], f, start)| == |sent0| + left;
    sent, cursor, seen, end := Pass(f, views[v], start, cursor0, seen0, sent0, channel(v));
    if end.Open? {
      NextLook(views, f, start, channel, v, left, |sent|);
    }
  }

  /** `subscribe_events`: the cursor is checked, then one pass per view of the outbox, which only grows.
      Nothing is skipped or repeated before the cursor the subscriber is told. */
  method Subscribe(f: Filter, start: nat, views: seq<seq<Entry>>, channel: nat -> nat -> Channel)
    returns (sent: seq<Entry>, end: End)
    requires views != [] && forall v :: 0 <= v < |views| ==> WellFormed(views[v])
    requires forall v :: 0 < v < |views| ==> views[v-1] <= views[v]
    ensures exists last: nat, cursor: nat :: EndsIn(views, f, start, last, cursor, sent, end)
    ensures end.OutOfRange? == !Accepted(views[0], f.store, start) && (end.OutOfRange? ==> sent == [])
    // open: each look sent up to 128 rows, each through a channel with a slot to spare
    ensures end.Open? ==> |sent| == SentBy(views, f, start, |views|) && sent <= After(views[|views|-1], f, start)
                          && ClearUpTo(views, f, start, channel, |views|)
    // cut off: by what the channel was like at the next row
    ensures end.Resume? || end.Gone? ==> exists v :: CutAt(views, f, start, channel, v, |sent|, end)
  {
    var at, seen: set<string> := start, {};
    sent := [];
    ghost var last: nat := 0;
    assert Exact(views[0], f, start, at, sent);
    if start > 0 {
      var tooOld := OldestAvailableCursor(views[0], f.store, start);
      if tooOld {
        assert EndsIn(views, f, start, 0, start, [], OutOfRange);
        return [], OutOfRange;
      }
    }
    var v := 0;
    while v < |views|
      invariant 0 <= v <= |views| && last == (if v == 0 then 0 else v - 1)
      invariant Progress(views[last], f, start, at, sent, seen)
      invariant |sent| == SentBy(views, f, start, v) && ClearUpTo(views, f, start, channel, v)
    {
      last := v;
      sent, at, seen, end := Look(f, start, views, v, at, seen, sent, channel);
      if !end.Open? {
        assert EndsIn(views, f, start, v, at, sent, end);
        return;
      }
      v := v + 1;
    }
    end := Open;
    assert EndsIn(views, f, start, last, at, sent, end);
  }

  // ---------- resuming ----------

  lemma ExactJoins(outbox: seq<Entry>, f: Filter, start: nat, cut: nat, cursor: nat, first: seq<Entry>, second: seq<Entry>)
    requires Exact(outbox, f, start, cut, first) && Exact(outbox, f, cut, cursor, second)
    ensures Exact(outbox, f, start, cursor, first + second)
  {
    assert first + (second + After(outbox, f, cursor)) == first + second + After(outbox, f, cursor);
  }

  /** A subscriber that resumes where it was told gets, all sessions together, exactly what one
      session without interruption gets. */
  lemma ResumeIsSeamless(outbox: seq<Entry>, more: seq<Entry>, f: Filter, start: nat, cut: nat, cursor: nat,
                         first: seq<Entry>, second: seq<Entry>)
    requires WellFormed(outbox + more)
    requires Exact(outbox, f, start, cut, first) && CursorOf(outbox, start, cut)
    requires Exact(outbox + more, f, cut, cursor, second) && CursorOf(outbox + more, cut, cursor)
    ensures Exact(outbox + more, f, start, cursor, first + second) && CursorOf(outbox + more, start, cursor)
  {
    Appended(outbox, more, f, start, cut, first);
    ExactJoins(outbox + more, f, start, cut, cursor, first, second);
    if cursor == cut && cut != start {
      AppendedCursor(outbox, more, start, cut, {});
    }
  }

  /** A session: the outbox at its end, its start and the cursor it was told, and what it sent. */
  datatype Session = Session(outbox: seq<Entry>, start: nat, cut: nat, sent: seq<Entry>)

  function AllSent(sessions: seq<Session>): seq<Entry> {
    if sessions == [] then [] else AllSent(sessions[..|sessions|-1]) + sessions[|sessions|-1].sent
  }

  ghost predicate IsSession(f: Filter, s: Session) {
    WellFormed(s.outbox) && Exact(s.outbox, f, s.start, s.cut, s.sent) && CursorOf(s.outbox, s.start, s.cut)
  }

  predicate Follows(s: Session, t: Session) {
    t.start == s.cut && s.outbox <= t.outbox
  }

  /** Each session resumes where the one before was cut. */
  ghost predicate Chained(f: Filter, sessions: seq<Session>) {
    sessions == [] || (IsSession(f, sessions[|sessions|-1]) && Chained(f, sessions[..|sessions|-1])
                       && (|sessions| > 1 ==> Follows(sessions[|sessions|-2], sessions[|sessions|-1])))
  }

  /** Over any number of cuts: no gap and no repetition. */
  lemma {:induction false} AnyNumberOfCuts(f: Filter, sessions: seq<Session>)
    requires sessions != [] && Chained(f, sessions)
    ensures var last := sessions[|sessions|-1];
      && WellFormed(last.outbox)
      && Exact(last.outbox, f, sessions[0].start, last.cut, AllSent(sessions))
      && CursorOf(last.outbox, sessions[0].start, last.cut)
  {
    var n := |sessions| - 1;
    var init, last := sessions[..n], sessions[n];
    if n == 0 {
      assert AllSent(init) == [];
      assert AllSent(sessions) == [] + last.sent == last.sent;
    } else {
      AnyNumberOfCuts(f, init);
      assert init[n-1] == sessions[n-1] && init[0] == sessions[0];
      NextSession(f, init[n-1], last, init[0].start, AllSent(init));
    }
  }

  lemma NextSession(f: Filter, s: Session, t: Session, start: nat, sent: seq<Entry>)
    requires IsSession(f, t) && Follows(s, t)
    requires Exact(s.outbox, f, start, s.cut, sent) && CursorOf(s.outbox, start, s.cut)
    ensures Exact(t.outbox, f, start, t.cut, sent + t.sent) && CursorOf(t.outbox, start, t.cut)
  {
    var more := t.outbox[|s.outbox|..];
    assert t.outbox == s.outbox + more;
    ResumeIsSeamless(s.outbox, more, f, start, s.cut, t.cut, sent, t.sent);
  }

  /** ... and once nothing is left behind the last cursor, everything wanted behind the first has been
      sent, in id order. */
  lemma CaughtUp(f: Filter, sessions: seq<Session>)
    requires sessions != [] && Chained(f, sessions)
    requires After(sessions[|sessions|-1].outbox, f, sessions[|sessions|-1].cut) == []
    ensures AllSent(sessions) == After(sessions[|sessions|-1].outbox, f, sessions[0].start)
  {
    AnyNumberOfCuts(f, sessions);
    assert AllSent(sessions) + [] == AllSent(sessions);
  }

  /** A cursor that a session reported is accepted as long as its row is kept. */
  lemma ReportedCursorAccepted(outbox: seq<Entry>, more: seq<Entry>, f: Filter, start: nat, cursor: nat, i: nat)
    requires WellFormed(outbox + more) && i < |outbox| && outbox[i].id == cursor && outbox[i].event.store == f.store
    ensures Accepted(outbox + more, f.store, cursor)
  {
    assert (outbox + more)[i] == outbox[i];
  }

  // ---------- cursors and deleted rows ----------

  /** The outbox once the rows with these ids are deleted. */
  function Retained(outbox: seq<Entry>, gone: set<nat>): seq<Entry> {
    if outbox == [] then []
    else
      var last := outbox[|outbox|-1];
      Retained(outbox[..|outbox|-1], gone) + (if last.id in gone then [] else [last])
  }

  /** A wanted row behind the cursor was deleted. */
  ghost predicate Lost(outbox: seq<Entry>, gone: set<nat>, f: Filter, cursor: nat) {
    exists e :: e in outbox && e.id in gone && e.id > cursor && Wanted(f, e)
  }

  predicate HasRowOf(outbox: seq<Entry>, store: string) {
    exists e :: e in outbox && e.event.store == store
  }

  /** ... although an older row of the store was kept. */
  ghost predicate LostFromHole(outbox: seq<Entry>, gone: set<nat>, f: Filter, cursor: nat) {
    exists e, k :: e in outbox && e.id in gone && e.id > cursor && Wanted(f, e)
                   && k in Retained(outbox, gone) && k.event.store == f.store && k.id < e.id
  }

  /** The rows of the store were deleted oldest first. */
  ghost predicate OldestFirst(outbox: seq<Entry>, gone: set<nat>, store: string) {
    forall d, e :: d in outbox && e in outbox && d.event.store == store && e.event.store == store && d.id < e.id && e.id in gone
                   ==> d.id in gone
  }

  lemma {:induction false} RetainedMembers(outbox: seq<Entry>, gone: set<nat>)
    ensures forall e :: e in Retained(outbox, gone) <==> e in outbox && e.id !in gone
  {
    if outbox != [] {
      RetainedMembers(outbox[..|outbox|-1], gone);
      assert outbox == outbox[..|outbox|-1] + [outbox[|outbox|-1]];
    }
  }

  lemma {:induction false} NothingLost(outbox: seq<Entry>, gone: set<nat>, f: Filter, cursor: nat)
    requires !Lost(outbox, gone, f, cursor)
    ensures After(Retained(outbox, gone), f, cursor) == After(outbox, f, cursor)
  {
    if outbox != [] {
      var init, last := outbox[..|outbox|-1], outbox[|outbox|-1];
      NothingLost(init, gone, f, cursor);
      AfterConcat(Retained(init, gone), if last.id in gone then [] else [last], f, cursor);
      assert last in outbox && [last][..0] == [];
    }
  }

  /** A reader loses something exactly if a wanted row behind its cursor is gone. */
  lemma CompleteIff(outbox: seq<Entry>, gone: set<nat>, f: Filter, cursor: nat)
    ensures After(Retained(outbox, gone), f, cursor) == After(outbox, f, cursor) <==> !Lost(outbox, gone, f, cursor)
  {
    if Lost(outbox, gone, f, cursor) {
      var e :| e in outbox && e.id in gone && e.id > cursor && Wanted(f, e);
      RetainedMembers(outbox, gone);
      AfterMembers(outbox, f, cursor);
      AfterMembers(Retained(outbox, gone), f, cursor);
      assert e in After(outbox, f, cursor) && e !in After(Retained(outbox, gone), f, cursor);
    } else {
      NothingLost(outbox, gone, f, cursor);
    }
  }

  /** What an accepted cursor is worth, whatever rows were deleted. From 0 on, or with no row of the
      store left, the check protects from nothing. Otherwise it protects from everything but holes. */
  lemma AcceptedIsComplete(outbox: seq<Entry>, gone: set<nat>, f: Filter, cursor: nat)
    requires Accepted(Retained(outbox, gone), f.store, cursor)
    ensures After(Retained(outbox, gone), f, cursor) == After(outbox, f, cursor) <==>
            if cursor > 0 && HasRowOf(Retained(outbox, gone), f.store)
            then !LostFromHole(outbox, gone, f, cursor) else !Lost(outbox, gone, f, cursor)
  {
    var kept := Retained(outbox, gone);
    CompleteIff(outbox, gone, f, cursor);
    if cursor > 0 && HasRowOf(kept, f.store) && Lost(outbox, gone, f, cursor) {
      var e :| e in outbox && e.id in gone && e.id > cursor && Wanted(f, e);
      var k := Oldest(kept, f.store);
      RetainedMembers(outbox, gone);
      assert k.id <= cursor + 1 && k.id != e.id;
    }
  }

  /** So when rows go oldest first, a subscriber that resumes loses nothing as long as some row of the
      store is left. */
  lemma OldestFirstIsComplete(outbox: seq<Entry>, gone: set<nat>, f: Filter, cursor: nat)
    requires OldestFirst(outbox, gone, f.store) && cursor > 0
    requires Accepted(Retained(outbox, gone), f.store, cursor) && HasRowOf(Retained(outbox, gone), f.store)
    ensures After(Retained(outbox, gone), f, cursor) == After(outbox, f, cursor)
  {
    AcceptedIsComplete(outbox, gone, f, cursor);
    RetainedMembers(outbox, gone);
  }

  /** The check protects every subscriber who resumes if and only if rows go oldest first. */
  lemma CheckProtectsIff(outbox: seq<Entry>, gone: set<nat>, store: string)
    requires forall e :: e in outbox ==> e.id > 0
    requires HasRowOf(Retained(outbox, gone), store)
    ensures (forall cursor: nat {:trigger Accepted(Retained(outbox, gone), store, cursor)} ::
               cursor > 0 && Accepted(Retained(outbox, gone), store, cursor) ==>
               After(Retained(outbox, gone), Filter(store, "", ""), cursor) == After(outbox, Filter(store, "", ""), cursor))
       <==> OldestFirst(outbox, gone, store)
  {
    var f, kept := Filter(store, "", ""), Retained(outbox, gone);
    if OldestFirst(outbox, gone, store) {
      forall cursor: nat | cursor > 0 && Accepted(kept, store, cursor)
        ensures After(kept, f, cursor) == After(outbox, f, cursor)
      {
        OldestFirstIsComplete(outbox, gone, f, cursor);
      }
    } else {
      var d, e :| d in outbox && e in outbox && d.event.store == store && e.event.store == store && d.id < e.id
                  && e.id in gone && d.id !in gone;
      RetainedMembers(outbox, gone);
      CompleteIff(outbox, gone, f, d.id);
      assert Accepted(kept, store, d.id);
    }
  }

  lemma {:induction false} Oldest(outbox: seq<Entry>, store: string) returns (k: Entry)
    requires HasRowOf(outbox, store)
    ensures k in outbox && k.event.store == store
    ensures forall e :: e in outbox && e.event.store == store ==> k.id <= e.id
  {
    var init, last := outbox[..|outbox|-1], outbox[|outbox|-1];
    assert outbox == init + [last];
    if HasRowOf(init, store) {
      k := Oldest(init, store);
      if last.event.store == store && last.id < k.id {
        k := last;
      }
    } else {
      k := last;
    }
  }

  // ---------- accepted, and yet rows are lost ----------

  function Row(id: nat, eventId: string): Entry {
    Entry(id, Event(eventId, "t", "s", "e", "k", 1, "now", id, []))
  }

  const EVERYTHING := Filter("s", "", "")

  /** A new subscriber starts at 0, which is never checked. */
  lemma ZeroLosesRows()
    ensures var outbox, gone := [Row(1, "a"), Row(2, "b")], {1};
      && WellFormed(outbox) && OldestFirst(outbox, gone, "s") && HasRowOf(Retained(outbox, gone), "s")
      && Accepted(Retained(outbox, gone), "s", 0)
      && After(Retained(outbox, gone), EVERYTHING, 0) != After(outbox, EVERYTHING, 0)
  {
    var outbox, gone := [Row(1, "a"), Row(2, "b")], {1};
    RetainedMembers(outbox, gone);
    assert outbox[0] in outbox && outbox[1] in outbox;
    assert outbox[1] in Retained(outbox, gone);
    CompleteIff(outbox, gone, EVERYTHING, 0);
  }

  /** With no row of the store left every cursor is accepted. */
  lemma NoRowsAcceptAll(outbox: seq<Entry>, f: Filter, cursor: nat)
    requires !HasRowOf(outbox, f.store)
    ensures Accepted(outbox, f.store, cursor)
  {
  }

  /** Cleaning up goes by the time of publication, so an older row that still waits to be published
      hides that newer ones are gone. */
  lemma HolesLoseRows()
    ensures var outbox, gone := [Row(1, "a"), Row(2, "b")], {2};
      && WellFormed(outbox) && HasRowOf(Retained(outbox, gone), "s")
      && Accepted(Retained(outbox, gone), "s", 1)
      && After(Retained(outbox, gone), EVERYTHING, 1) != After(outbox, EVERYTHING, 1)
  {
    var outbox, gone := [Row(1, "a"), Row(2, "b")], {2};
    RetainedMembers(outbox, gone);
    assert outbox[0] in outbox && outbox[1] in outbox;
    assert outbox[0] in Retained(outbox, gone);
    CompleteIff(outbox, gone, EVERYTHING, 1);
  }
}
