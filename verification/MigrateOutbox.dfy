// The migrator's outbox (crates/ixmati-store-migrate/src/lib.rs: collect_outbox, write_destinations):
// the events of all sources, once each, in the order of their event ids.

module MigratePlan {

  /** `bucket_for_key`, with the hash as a parameter; rename and merge have one destination. */
  function Place(split: bool, hash: string -> nat, n: nat, key: string): (b: nat)
    requires n > 0
    ensures b < n
  {
    if split then hash(key) % n else 0
  }

  datatype Plan = Plan(split: bool, hash: string -> nat, n: nat)
  {
    ghost predicate Valid() { n > 0 }
    function At(key: string): (b: nat)
      requires Valid()
      ensures b < n
    {
      Place(split, hash, n, key)
    }
  }

  /** A split sends a key to the destination its hash is congruent to; otherwise there is only the first. */
  lemma PlacedByHash(plan: Plan, key: string, b: nat, q: nat)
    requires plan.Valid() && b < plan.n
    ensures plan.split && plan.hash(key) == q * plan.n + b ==> plan.At(key) == b
    ensures !plan.split ==> plan.At(key) == 0
  {
    if plan.split && plan.hash(key) == q * plan.n + b {
      RemainderIs(plan.hash(key), q, b, plan.n);
    }
  }

  lemma RemainderIs(x: nat, q: nat, b: nat, n: nat)
    requires b < n && x == q * n + b
    ensures x % n == b
  {
    var p := x / n;
    assert x == p * n + x % n;
    if p < q {
      MultipleApart(p, q, n);
    } else if q < p {
      MultipleApart(q, p, n);
    }
  }

  lemma MultipleApart(p: nat, q: nat, n: nat)
    requires p < q
    ensures q * n >= p * n + n
  {
    assert q * n == (q - p - 1) * n + p * n + n;
  }
}

module MigrateOutbox {
  import opened Options
  import opened WriterTables
  import opened MigratePlan
  import opened MigrateMerge

  function EventRows(sources: seq<Source>): seq<EventRow> {
    if sources == [] then [] else EventRows(sources[..|sources|-1]) + sources[|sources|-1].events
  }

  lemma {:induction false} EventSource(sources: seq<Source>, e: EventRow)
    ensures e in EventRows(sources) <==> exists i :: 0 <= i < |sources| && e in sources[i].events
  {
    if sources != [] {
      var n := |sources| - 1;
      EventSource(sources[..n], e);
      assert e in EventRows(sources) <==> e in EventRows(sources[..n]) || e in sources[n].events;
      if i :| 0 <= i < |sources| && e in sources[i].events {
        assert i < n ==> e in sources[..n][i].events;
      }
    }
  }

  // ---------- collecting ----------

  /** What `collect_outbox` compares: the type, and the stored envelope as a whole. */
  predicate Contradicts(a: EventRow, b: EventRow) {
    a.Id() == b.Id() && (a.event.eventType != b.event.eventType || a.event != b.event)
  }

  predicate SomeContradict(rows: seq<EventRow>) {
    exists i, j :: 0 <= i < j < |rows| && Contradicts(rows[i], rows[j])
  }

  /** The first row of every event id. */
  function FirstRows(rows: seq<EventRow>): map<string, EventRow> {
    if rows == [] then map[]
    else
      var m, last := FirstRows(rows[..|rows|-1]), rows[|rows|-1];
      if last.Id() in m then m else m[last.Id() := last]
  }

  lemma {:induction false} FirstRowsAre(rows: seq<EventRow>)
    ensures forall k :: k in FirstRows(rows) ==> FirstRows(rows)[k] in rows && FirstRows(rows)[k].Id() == k
    ensures forall e :: e in rows ==> e.Id() in FirstRows(rows)
  {
    if rows != [] {
      FirstRowsAre(rows[..|rows|-1]);
      assert rows == rows[..|rows|-1] + [rows[|rows|-1]];
    }
  }

  /** Event ids rise. */
  ghost predicate Ascending(rows: seq<EventRow>) {
    forall i, j :: 0 <= i < j < |rows| ==> CompareText(rows[i].Id(), rows[j].Id()) < 0
  }

  /** The rows of the map in the order of their ids. */
  ghost predicate Sorted(m: map<string, EventRow>, rows: seq<EventRow>) {
    && Ascending(rows)
    && (forall k :: k in m ==> m[k] in rows)
    && (forall e :: e in rows ==> e.Id() in m && m[e.Id()] == e)
  }

  /** What rises is the text of the ids. */
  lemma IdsRise(rows: seq<EventRow>, i: nat, j: nat)
    requires Ascending(rows) && i < j < |rows|
    ensures Later(rows[j].Id(), rows[i].Id())
  {
    CompareTextTotal(rows[i].Id(), rows[j].Id());
    CompareTextIsLater(rows[j].Id(), rows[i].Id());
  }

  function Insert(rows: seq<EventRow>, e: EventRow): seq<EventRow> {
    if rows == [] then [e]
    else
      var init, last := rows[..|rows|-1], rows[|rows|-1];
      if CompareText(last.Id(), e.Id()) < 0 then rows + [e] else Insert(init, e) + [last]
  }

  lemma {:induction false} InsertMembers(rows: seq<EventRow>, e: EventRow)
    ensures forall x :: x in Insert(rows, e) <==> x == e || x in rows
  {
    if rows != [] {
      InsertMembers(rows[..|rows|-1], e);
      assert rows == rows[..|rows|-1] + [rows[|rows|-1]];
    }
  }

  lemma Before(a: string, b: string, c: string)
    requires CompareText(a, b) < 0 && CompareText(b, c) < 0
    ensures CompareText(a, c) < 0
  {
    CompareTextTotal(a, b);
    CompareTextTotal(b, c);
    CompareTextTotal(a, c);
    CompareTextTransitive(c, b, a);
    CompareTextTotal(c, a);
  }

  lemma {:induction false} InsertKeepsOrder(rows: seq<EventRow>, e: EventRow)
    requires Ascending(rows) && forall x :: x in rows ==> x.Id() != e.Id()
    ensures Ascending(Insert(rows, e))
  {
    if rows != [] {
      var init, last := rows[..|rows|-1], rows[|rows|-1];
      assert last in rows;
      if CompareText(last.Id(), e.Id()) < 0 {
        forall i | 0 <= i < |rows|
          ensures CompareText(rows[i].Id(), e.Id()) < 0
        {
          if i < |rows| - 1 { Before(rows[i].Id(), last.Id(), e.Id()); }
        }
      } else {
        assert forall x :: x in init ==> x in rows;
        InsertKeepsOrder(init, e);
        InsertMembers(init, e);
        CompareTextTotal(last.Id(), e.Id());
        CompareTextTotal(e.Id(), last.Id());
        var longer := Insert(init, e);
        forall i | 0 <= i < |longer|
          ensures CompareText(longer[i].Id(), last.Id()) < 0
        {
          assert longer[i] in longer;
          if longer[i] != e {
            var j :| 0 <= j < |init| && init[j] == longer[i];
            assert rows[j] == init[j];
          }
        }
      }
    }
  }

  /** The order of `sort_by`, whatever order the map gives its values in. */
  method SortRows(m: map<string, EventRow>) returns (rows: seq<EventRow>)
    requires forall k :: k in m ==> m[k].Id() == k
    ensures Sorted(m, rows)
  {
    rows := [];
    var todo := m;
    while todo != map[]
      invariant todo.Keys <= m.Keys && (forall k :: k in todo ==> todo[k] == m[k])
      invariant Ascending(rows)
      invariant forall k :: k in m && k !in todo ==> m[k] in rows
      invariant forall e :: e in rows ==> e.Id() in m && e.Id() !in todo && m[e.Id()] == e
      decreases |todo|
    {
      var k :| k in todo;
      InsertKeepsOrder(rows, m[k]);
      InsertMembers(rows, m[k]);
      rows := Insert(rows, m[k]);
      todo := todo - {k};
    }
  }

  lemma NextContradicts(rows: seq<EventRow>, i: nat)
    requires i < |rows| && !SomeContradict(rows[..i]) && rows[i].Id() in FirstRows(rows[..i])
    ensures Contradicts(FirstRows(rows[..i])[rows[i].Id()], rows[i]) ==> SomeContradict(rows)
    ensures !Contradicts(FirstRows(rows[..i])[rows[i].Id()], rows[i]) ==> !SomeContradict(rows[..i+1])
  {
    FirstRowsAre(rows[..i]);
    var first := FirstRows(rows[..i])[rows[i].Id()];
    var f :| 0 <= f < i && rows[..i][f] == first;
    if Contradicts(first, rows[i]) {
      assert Contradicts(rows[f], rows[i]);
    } else {
      var more := rows[..i+1];
      forall a, b | 0 <= a < b < |more|
        ensures !Contradicts(more[a], more[b])
      {
        if b < i {
          assert !Contradicts(rows[..i][a], rows[..i][b]);
        } else if a < f {
          assert !Contradicts(rows[..i][a], rows[..i][f]);
        } else if f < a {
          assert !Contradicts(rows[..i][f], rows[..i][a]);
        }
      }
    }
  }

  lemma NewIdAgrees(rows: seq<EventRow>, i: nat)
    requires i < |rows| && !SomeContradict(rows[..i]) && rows[i].Id() !in FirstRows(rows[..i])
    ensures !SomeContradict(rows[..i+1])
  {
    FirstRowsAre(rows[..i]);
    var more := rows[..i+1];
    forall a, b | 0 <= a < b < |more|
      ensures !Contradicts(more[a], more[b])
    {
      if b < i {
        assert !Contradicts(rows[..i][a], rows[..i][b]);
      } else {
        assert rows[..i][a] in rows[..i];
      }
    }
  }

  /** `collect_outbox`: fails exactly when two rows of one event id hold different envelopes. */
  method CollectOutbox(sources: seq<Source>) returns (result: Option<seq<EventRow>>)
    ensures result.None? <==> SomeContradict(EventRows(sources))
    ensures result.Some? ==> Sorted(FirstRows(EventRows(sources)), result.value)
  {
    var rows := EventRows(sources);
    var byEvent: map<string, EventRow> := map[];
    for i := 0 to |rows|
      invariant byEvent == FirstRows(rows[..i]) && !SomeContradict(rows[..i])
    {
      assert rows[..i+1][..i] == rows[..i];
      var row := rows[i];
      if row.Id() in byEvent {
        NextContradicts(rows, i);
        if byEvent[row.Id()].event.eventType != row.event.eventType || byEvent[row.Id()].event != row.event {
          FirstRowsAre(rows[..i]);
          return None;
        }
      } else {
        NewIdAgrees(rows, i);
        byEvent := byEvent[row.Id() := row];
      }
    }
    assert rows[..|rows|] == rows;
    FirstRowsAre(rows);
    var sorted := SortRows(byEvent);
    result := Some(sorted);
  }

  // ---------- writing ----------

  /** The events of the keys of one destination. */
  function Routed(plan: Plan, rows: seq<EventRow>, b: nat): seq<EventRow>
    requires plan.Valid()
  {
    if rows == [] then []
    else Routed(plan, rows[..|rows|-1], b) + (if plan.At(rows[|rows|-1].event.key) == b then [rows[|rows|-1]] else [])
  }

  /** `insert_outbox`: a new id and the name of the destination, and the envelope as it was. */
  function RowFrom(e: EventRow, store: string, id: nat): OutboxRow {
    OutboxRow(id, store, e.event, e.published)
  }

  /** The rows of a new outbox: ids count from 1. */
  function Numbered(rows: seq<EventRow>, store: string): (outbox: seq<OutboxRow>)
    ensures |outbox| == |rows| && forall i :: 0 <= i < |rows| ==> outbox[i] == RowFrom(rows[i], store, i + 1)
  {
    seq(|rows|, i requires 0 <= i < |rows| => RowFrom(rows[i], store, i + 1))
  }

  lemma NumberedNext(rows: seq<EventRow>, e: EventRow, store: string)
    ensures Numbered(rows + [e], store) == Numbered(rows, store) + [RowFrom(e, store, |rows| + 1)]
  {
  }

  lemma {:induction false} RoutedMembers(plan: Plan, rows: seq<EventRow>, b: nat)
    requires plan.Valid()
    ensures forall e :: e in Routed(plan, rows, b) <==> e in rows && plan.At(e.event.key) == b
  {
    if rows != [] {
      RoutedMembers(plan, rows[..|rows|-1], b);
      assert rows == rows[..|rows|-1] + [rows[|rows|-1]];
    }
  }

  lemma {:induction false} RoutedAscending(plan: Plan, rows: seq<EventRow>, b: nat)
    requires plan.Valid() && Ascending(rows)
    ensures Ascending(Routed(plan, rows, b))
  {
    if rows != [] {
      var init, last := rows[..|rows|-1], rows[|rows|-1];
      RoutedAscending(plan, init, b);
      var routed := Routed(plan, init, b);
      forall i | 0 <= i < |routed|
        ensures CompareText(routed[i].Id(), last.Id()) < 0
      {
        RoutedMembers(plan, init, b);
        assert routed[i] in routed;
        var j :| 0 <= j < |init| && init[j] == routed[i];
        assert rows[j] == init[j];
      }
    }
  }

  ghost predicate OutboxWritten(plan: Plan, names: seq<string>, rows: seq<EventRow>, outboxes: seq<seq<OutboxRow>>)
    requires plan.Valid() && |names| == plan.n
  {
    |outboxes| == plan.n && forall b :: 0 <= b < plan.n ==> outboxes[b] == Numbered(Routed(plan, rows, b), names[b])
  }

  /** `write_destinations` for the outbox: each event goes to the destination of its key, behind those
      with smaller event ids. */
  method WriteOutbox(plan: Plan, names: seq<string>, rows: seq<EventRow>) returns (outboxes: seq<seq<OutboxRow>>)
    requires plan.Valid() && |names| == plan.n
    ensures OutboxWritten(plan, names, rows, outboxes)
    // rows are numbered from 1 under the new name, and carry what they carried
    ensures forall b, i :: 0 <= b < plan.n && 0 <= i < |outboxes[b]| ==>
              outboxes[b][i].id == i + 1 && outboxes[b][i].store == names[b]
              && exists e :: e in rows && plan.At(e.event.key) == b && outboxes[b][i].event == e.event && outboxes[b][i].published == e.published
    // and none is left out
    ensures forall e :: e in rows ==>
              exists i :: 0 <= i < |outboxes[plan.At(e.event.key)]| && outboxes[plan.At(e.event.key)][i].event == e.event
                          && outboxes[plan.At(e.event.key)][i].published == e.published
  {
    outboxes := seq(plan.n, _ => []);
    for i := 0 to |rows|
      invariant OutboxWritten(plan, names, rows[..i], outboxes)
    {
      assert rows[..i+1][..i] == rows[..i];
      var b := plan.At(rows[i].event.key);
      NumberedNext(Routed(plan, rows[..i], b), rows[i], names[b]);
      outboxes := outboxes[b := outboxes[b] + [RowFrom(rows[i], names[b], |outboxes[b]| + 1)]];
    }
    assert rows[..|rows|] == rows;
    forall b, i | 0 <= b < plan.n && 0 <= i < |outboxes[b]|
      ensures outboxes[b][i] == RowFrom(Routed(plan, rows, b)[i], names[b], i + 1) && Routed(plan, rows, b)[i] in rows
      ensures plan.At(Routed(plan, rows, b)[i].event.key) == b
    {
      RoutedMembers(plan, rows, b);
    }
    forall e | e in rows
      ensures e in Routed(plan, rows, plan.At(e.event.key))
    {
      RoutedMembers(plan, rows, plan.At(e.event.key));
    }
  }
}
