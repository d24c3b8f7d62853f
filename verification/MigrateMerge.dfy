// The store migrator's merge (crates/ixmati-store-migrate/src/lib.rs): which row of a key survives,
// and which idempotency rows do.

module MigrateMerge {
  import opened Options
  import opened WriterTables

  // ---------- the order of rows ----------

  /** Rust's order on strings, here by characters; negative, zero or positive. */
  function CompareText(a: string, b: string): int {
    if a == [] && b == [] then 0
    else if a == [] then -1
    else if b == [] then 1
    else if a[0] != b[0] then (if a[0] < b[0] then -1 else 1)
    else CompareText(a[1..], b[1..])
  }

  lemma {:induction false} CompareTextTotal(a: string, b: string)
    ensures CompareText(a, b) == 0 <==> a == b
    ensures CompareText(a, b) < 0 <==> CompareText(b, a) > 0
  {
    if a != [] && b != [] && a[0] == b[0] {
      CompareTextTotal(a[1..], b[1..]);
      assert a == [a[0]] + a[1..] && b == [b[0]] + b[1..];
    }
  }

  /** A text comes later at the first character in which they differ, or if it goes on where the other ends. */
  ghost predicate Later(a: string, b: string) {
    exists i: nat :: LaterAt(a, b, i)
  }

  predicate LaterAt(a: string, b: string, i: nat) {
    i < |a| && i <= |b| && a[..i] == b[..i] && (i == |b| || a[i] > b[i])
  }

  lemma {:induction false} CompareTextIsLater(a: string, b: string)
    ensures CompareText(a, b) > 0 <==> Later(a, b)
  {
    if a != [] && b != [] && a[0] == b[0] {
      CompareTextIsLater(a[1..], b[1..]);
      if i: nat :| LaterAt(a[1..], b[1..], i) {
        LaterBehind(a, b, i);
      }
      if i: nat :| LaterAt(a, b, i) {
        assert i > 0 && a[1..][..i-1] == a[..i][1..] && b[1..][..i-1] == b[..i][1..];
        assert LaterAt(a[1..], b[1..], i - 1);
      }
    } else if i: nat :| LaterAt(a, b, i) {
      if i > 0 {
        LaterStart(a, b, i);
      }
    } else if a != [] {
      assert !LaterAt(a, b, 0);
    }
  }

  lemma LaterStart(a: string, b: string, i: nat)
    requires LaterAt(a, b, i) && i > 0
    ensures b != [] && a[0] == b[0]
  {
    assert a[..i][0] == b[..i][0];
  }

  lemma LaterBehind(a: string, b: string, i: nat)
    requires a != [] && b != [] && a[0] == b[0] && LaterAt(a[1..], b[1..], i)
    ensures LaterAt(a, b, i + 1)
  {
    assert a[..i+1] == [a[0]] + a[1..][..i] && b[..i+1] == [b[0]] + b[1..][..i];
  }

  lemma {:induction false} CompareTextTransitive(a: string, b: string, c: string)
    requires CompareText(a, b) >= 0 && CompareText(b, c) >= 0
    ensures CompareText(a, c) >= 0
  {
    if a != [] && b != [] && c != [] && a[0] == b[0] == c[0] {
      CompareTextTransitive(a[1..], b[1..], c[1..]);
    }
  }

  /** A payload row, or a tombstone when there is no payload. */
  datatype StateRow = StateRow(entity: string, key: string, version: nat, timestamp: string, source: string,
                               payload: Option<Payload>, eventId: string)
  {
    function Target(): Entity { (entity, key) }
  }

  /** `compare_state`: version, then timestamp, then the smaller source name. */
  function CompareState(a: StateRow, b: StateRow): int {
    if a.version != b.version then a.version - b.version
    else if a.timestamp != b.timestamp then CompareText(a.timestamp, b.timestamp)
    else CompareText(b.source, a.source)
  }

  /** The later write: the higher version, then the later timestamp, then the source that comes first. */
  ghost predicate Newer(a: StateRow, b: StateRow) {
    || a.version > b.version
    || (a.version == b.version && Later(a.timestamp, b.timestamp))
    || (a.version == b.version && a.timestamp == b.timestamp && Later(b.source, a.source))
  }

  lemma CompareStateIsNewer(a: StateRow, b: StateRow)
    ensures CompareState(a, b) > 0 <==> Newer(a, b)
  {
    CompareTextIsLater(a.timestamp, b.timestamp);
    CompareTextIsLater(b.source, a.source);
    CompareTextTotal(a.timestamp, a.timestamp);
    assert a.timestamp == b.timestamp ==> CompareText(a.timestamp, b.timestamp) == 0;
  }

  lemma CompareStateTotal(a: StateRow, b: StateRow)
    ensures CompareState(a, b) == 0 <==> a.version == b.version && a.timestamp == b.timestamp && a.source == b.source
    ensures CompareState(a, b) < 0 <==> CompareState(b, a) > 0
  {
    CompareTextTotal(a.timestamp, b.timestamp);
    CompareTextTotal(b.source, a.source);
  }

  lemma CompareStateTransitive(a: StateRow, b: StateRow, c: StateRow)
    requires CompareState(a, b) >= 0 && CompareState(b, c) >= 0
    ensures CompareState(a, c) >= 0
  {
    CompareTextTotal(a.timestamp, b.timestamp);
    CompareTextTotal(b.timestamp, c.timestamp);
    CompareTextTotal(a.timestamp, c.timestamp);
    if a.version == b.version == c.version {
      if CompareText(a.timestamp, b.timestamp) >= 0 && CompareText(b.timestamp, c.timestamp) >= 0 {
        CompareTextTransitive(a.timestamp, b.timestamp, c.timestamp);
      }
      if a.timestamp == b.timestamp == c.timestamp {
        CompareTextTransitive(c.source, b.source, a.source);
      } else if a.timestamp == c.timestamp {
        CompareTextTotal(a.timestamp, b.timestamp);
        assert false;
      }
    }
  }

  lemma GreaterThanGreatest(a: StateRow, b: StateRow, c: StateRow)
    requires CompareState(a, b) > 0 && CompareState(b, c) >= 0
    ensures CompareState(a, c) > 0
  {
    CompareStateTransitive(a, b, c);
    CompareStateTotal(a, c);
    CompareStateTotal(c, a);
    CompareStateTotal(b, a);
    if CompareState(a, c) == 0 {
      CompareStateTransitive(b, c, a);
    }
  }

  // ---------- collecting the states ----------

  type States = map<Entity, StateRow>

  /** One source database: what its queries list. */
  datatype Source = Source(name: string, live: seq<StateRow>, dead: seq<StateRow>, idem: seq<IdempotencyRow>,
                           events: seq<EventRow>)

  /** What is read from an outbox row: the stored envelope, but neither id nor store of the row. */
  datatype EventRow = EventRow(event: Event, published: bool)
  {
    function Id(): string { event.eventId }
    function Target(): Entity { event.Target() }
    function Version(): nat { event.version }
  }

  datatype IdempotencyRow = IdempotencyRow(idempotencyKey: string, row: IdemRow, source: string)

  /** The effect of `merge_state` on the map. */
  function Merged(states: States, candidate: StateRow): States {
    if candidate.Target() !in states || CompareState(candidate, states[candidate.Target()]) > 0
    then states[candidate.Target() := candidate]
    else states
  }

  /** The rows in the order they are merged: source by source, payloads before tombstones. */
  function Candidates(sources: seq<Source>): seq<StateRow> {
    if sources == [] then []
    else Candidates(sources[..|sources|-1]) + sources[|sources|-1].live + sources[|sources|-1].dead
  }

  function MergeAll(rows: seq<StateRow>): States {
    if rows == [] then map[] else Merged(MergeAll(rows[..|rows|-1]), rows[|rows|-1])
  }

  /** Nothing of the same key is greater, and what is equal comes later. */
  predicate Wins(rows: seq<StateRow>, i: nat)
    requires i < |rows|
  {
    && (forall j :: 0 <= j < |rows| && rows[j].Target() == rows[i].Target() ==> CompareState(rows[i], rows[j]) >= 0)
    && (forall j :: 0 <= j < i && rows[j].Target() == rows[i].Target() ==> CompareState(rows[i], rows[j]) > 0)
  }

  lemma StillWins(init: seq<StateRow>, last: StateRow, i: nat)
    requires i < |init| && Wins(init, i)
    requires last.Target() == init[i].Target() ==> CompareState(last, init[i]) <= 0
    ensures Wins(init + [last], i)
  {
    CompareStateTotal(last, init[i]);
    CompareStateTotal(init[i], last);
    assert forall j :: 0 <= j < |init| ==> (init + [last])[j] == init[j];
  }

  lemma GreaterWins(init: seq<StateRow>, last: StateRow, i: nat)
    requires i < |init| && Wins(init, i)
    requires last.Target() == init[i].Target() && CompareState(last, init[i]) > 0
    ensures Wins(init + [last], |init|)
  {
    var rows := init + [last];
    CompareStateTotal(last, last);
    forall j | 0 <= j < |init| && rows[j].Target() == last.Target()
      ensures CompareState(last, rows[j]) > 0
    {
      assert rows[j] == init[j];
      GreaterThanGreatest(last, init[i], init[j]);
    }
  }

  lemma FirstWins(init: seq<StateRow>, last: StateRow)
    requires forall r :: r in init ==> r.Target() != last.Target()
    ensures Wins(init + [last], |init|)
  {
    CompareStateTotal(last, last);
    assert forall j :: 0 <= j < |init| ==> (init + [last])[j] in init;
  }

  /** The surviving row of a key is the greatest, and among equals the first. */
  lemma {:induction false} SurvivorWins(rows: seq<StateRow>, t: Entity) returns (i: nat)
    requires exists r :: r in rows && r.Target() == t
    ensures i < |rows| && rows[i].Target() == t && Wins(rows, i)
    ensures t in MergeAll(rows) && MergeAll(rows)[t] == rows[i]
  {
    var n := |rows| - 1;
    var init, last := rows[..n], rows[n];
    assert rows == init + [last];
    NoneMerged(init, t);
    if t in MergeAll(init) {
      i := SurvivorWins(init, t);
      if last.Target() == t && CompareState(last, init[i]) > 0 {
        GreaterWins(init, last, i);
        i := n;
      } else {
        StillWins(init, last, i);
      }
    } else {
      FirstWins(init, last);
      i := n;
    }
  }

  lemma {:induction false} NoneMerged(rows: seq<StateRow>, t: Entity)
    ensures t in MergeAll(rows) <==> exists r :: r in rows && r.Target() == t
  {
    if rows != [] {
      var init, last := rows[..|rows|-1], rows[|rows|-1];
      NoneMerged(init, t);
      assert rows == init + [last];
    }
  }

  /** `merge_state`; the flag tells that the rows differ. */
  method MergeState(states: States, candidate: StateRow) returns (after: States, conflict: bool)
    ensures after == Merged(states, candidate)
    ensures after == if candidate.Target() in states && !Newer(candidate, states[candidate.Target()])
                     then states else states[candidate.Target() := candidate]
    ensures conflict <==>
              (candidate.Target() in states
               && (states[candidate.Target()].version != candidate.version
                   || states[candidate.Target()].payload != candidate.payload
                   || states[candidate.Target()].timestamp != candidate.timestamp))
  {
    var key := (candidate.entity, candidate.key);
    if key !in states {
      return states[key := candidate], false;
    }
    var current := states[key];
    CompareStateIsNewer(candidate, current);
    conflict := current.version != candidate.version || current.payload != candidate.payload
      || current.timestamp != candidate.timestamp;
    after := states;
    if CompareState(candidate, current) > 0 {
      after := states[key := candidate];
    }
  }

  method MergeRows(states: States, rows: seq<StateRow>, ghost before: seq<StateRow>) returns (after: States)
    requires states == MergeAll(before)
    ensures after == MergeAll(before + rows)
  {
    after := states;
    assert before + rows[..0] == before;
    for i := 0 to |rows|
      invariant after == MergeAll(before + rows[..i])
    {
      assert (before + rows[..i+1])[..|before|+i] == before + rows[..i];
      var conflict;
      after, conflict := MergeState(after, rows[i]);
    }
    assert rows[..|rows|] == rows;
  }

  /** `collect_states` */
  method CollectStates(sources: seq<Source>) returns (states: States)
    ensures states == MergeAll(Candidates(sources))
  {
    states := map[];
    for i := 0 to |sources|
      invariant states == MergeAll(Candidates(sources[..i]))
    {
      assert sources[..i+1][..i] == sources[..i];
      states := MergeRows(states, sources[i].live, Candidates(sources[..i]));
      states := MergeRows(states, sources[i].dead, Candidates(sources[..i]) + sources[i].live);
    }
    assert sources[..|sources|] == sources;
  }

  // ---------- independence of the order of sources ----------

  /** What the tables of a source guarantee: its rows carry its name, one row per key and table. */
  predicate FromSource(source: Source) {
    && (forall r :: r in source.live ==> r.source == source.name && r.payload.Some?)
    && (forall r :: r in source.dead ==> r.source == source.name && r.payload.None?)
    && (forall i, j :: 0 <= i < j < |source.live| ==> source.live[i].Target() != source.live[j].Target())
    && (forall i, j :: 0 <= i < j < |source.dead| ==> source.dead[i].Target() != source.dead[j].Target())
  }

  predicate DistinctNames(sources: seq<Source>) {
    forall a, b :: 0 <= a < b < |sources| ==> sources[a].name != sources[b].name
  }

  predicate RowOf(source: Source, r: StateRow) {
    r in source.live || r in source.dead
  }

  lemma {:induction false} CandidateSource(sources: seq<Source>, r: StateRow)
    ensures r in Candidates(sources) <==> exists i :: 0 <= i < |sources| && RowOf(sources[i], r)
  {
    if sources != [] {
      var n := |sources| - 1;
      var init := sources[..n];
      CandidateSource(init, r);
      assert r in Candidates(sources) <==> r in Candidates(init) || RowOf(sources[n], r);
      assert (exists i :: 0 <= i < |init| && RowOf(init[i], r)) ==> exists i :: 0 <= i < |sources| && RowOf(sources[i], r) by {
        if i :| 0 <= i < |init| && RowOf(init[i], r) {
          assert RowOf(sources[i], r);
        }
      }
      if i :| 0 <= i < |sources| && RowOf(sources[i], r) {
        assert i < n ==> RowOf(init[i], r);
      }
    }
  }

  predicate WellFormed(sources: seq<Source>) {
    DistinctNames(sources) && forall s :: s in sources ==> FromSource(s)
  }

  /** Last writer wins: the version, then the timestamp, then the smaller source name; within one
      source a payload row goes before a tombstone. */
  ghost predicate Beats(a: StateRow, b: StateRow) {
    || Newer(a, b)
    || (a.version == b.version && a.timestamp == b.timestamp && a.source == b.source && a.payload.Some? && b.payload.None?)
  }

  lemma TiesAreLiveAndDead(sources: seq<Source>, a: StateRow, b: StateRow)
    requires WellFormed(sources) && a in Candidates(sources) && b in Candidates(sources)
    requires a.Target() == b.Target() && CompareState(a, b) == 0 && a != b
    ensures a.source == b.source && a.payload.Some? == b.payload.None?
  {
    CompareStateTotal(a, b);
    CandidateSource(sources, a);
    CandidateSource(sources, b);
    var i :| 0 <= i < |sources| && RowOf(sources[i], a);
    var j :| 0 <= j < |sources| && RowOf(sources[j], b);
    assert sources[i] in sources && sources[j] in sources;
    assert a.source == sources[i].name && b.source == sources[j].name;
    assert i == j;
  }

  /** The payload rows of a source are merged before its tombstones. */
  lemma {:induction false} LiveBeforeDead(sources: seq<Source>, i: nat, live: StateRow) returns (j: nat)
    requires WellFormed(sources) && i < |Candidates(sources)| && live in Candidates(sources)
    requires live.payload.Some? && Candidates(sources)[i].payload.None? && live.source == Candidates(sources)[i].source
    ensures j < i && Candidates(sources)[j] == live
  {
    var n := |sources| - 1;
    var init, last := sources[..n], sources[n];
    var dead := Candidates(sources)[i];
    var before := |Candidates(init)|;
    assert WellFormed(init) by {
      assert forall s :: s in init ==> s in sources;
    }
    assert last in sources;
    if i < before {
      assert dead in Candidates(init);
      SourceOf(sources, init, dead, live);
      j := LiveBeforeDead(init, i, live);
    } else {
      LastSource(sources, i, live);
      var k :| 0 <= k < |last.live| && last.live[k] == live;
      j := before + k;
    }
  }

  lemma SourceOf(sources: seq<Source>, init: seq<Source>, a: StateRow, b: StateRow)
    requires WellFormed(sources) && sources != [] && init == sources[..|sources|-1]
    requires a in Candidates(init) && b in Candidates(sources) && a.source == b.source
    ensures b in Candidates(init)
  {
    CandidateSource(init, a);
    CandidateSource(sources, b);
    CandidateSource(init, b);
    var x :| 0 <= x < |init| && RowOf(init[x], a);
    var y :| 0 <= y < |sources| && RowOf(sources[y], b);
    assert sources[x] in sources && sources[y] in sources;
    assert x == y;
    assert RowOf(init[y], b);
  }

  lemma LastLive(sources: seq<Source>, i: nat)
    requires sources != [] && FromSource(sources[|sources|-1])
    requires 0 <= i - |Candidates(sources[..|sources|-1])| < |sources[|sources|-1].live|
    ensures i < |Candidates(sources)| && Candidates(sources)[i].payload.Some?
  {
    var last := sources[|sources|-1];
    var k := i - |Candidates(sources[..|sources|-1])|;
    assert last.live[k] in last.live;
    assert Candidates(sources)[i] == last.live[k];
  }

  lemma WinsStrictly(rows: seq<StateRow>, i: nat, k: nat)
    requires k < i < |rows| && Wins(rows, i) && rows[k].Target() == rows[i].Target()
    ensures CompareState(rows[i], rows[k]) > 0
  {
  }

  lemma LastSource(sources: seq<Source>, i: nat, live: StateRow)
    requires WellFormed(sources) && sources != [] && |Candidates(sources[..|sources|-1])| <= i < |Candidates(sources)|
    requires live in Candidates(sources) && live.payload.Some?
    requires Candidates(sources)[i].payload.None? && live.source == Candidates(sources)[i].source
    ensures live in sources[|sources|-1].live
    ensures i >= |Candidates(sources[..|sources|-1])| + |sources[|sources|-1].live|
  {
    var n := |sources| - 1;
    var last := sources[n];
    var dead := Candidates(sources)[i];
    assert last in sources;
    var before := |Candidates(sources[..n])|;
    if i < before + |last.live| {
      LastLive(sources, i);
      assert false;
    }
    assert dead == last.dead[i - before - |last.live|];
    assert dead in last.dead && dead.source == last.name;
    CandidateSource(sources, live);
    var y :| 0 <= y < |sources| && RowOf(sources[y], live);
    assert sources[y] in sources && sources[y].name == last.name;
    assert y == n;
  }

  /** The row that survives for a key is the one that beats all others of the key. */
  lemma LastWriterWins(sources: seq<Source>, t: Entity, r: StateRow)
    requires WellFormed(sources) && r in Candidates(sources) && r.Target() == t
    ensures t in MergeAll(Candidates(sources))
    ensures MergeAll(Candidates(sources))[t] == r
       <==> forall other :: other in Candidates(sources) && other.Target() == t && other != r ==> Beats(r, other)
  {
    var rows := Candidates(sources);
    var i := SurvivorWins(rows, t);
    var w := rows[i];
    assert w in rows;
    forall other | other in rows && other.Target() == t && other != w
      ensures Beats(w, other) && !Beats(other, w)
    {
      WinnerBeats(sources, i, other);
    }
  }

  lemma WinnerBeats(sources: seq<Source>, i: nat, other: StateRow)
    requires WellFormed(sources) && i < |Candidates(sources)| && Wins(Candidates(sources), i)
    requires other in Candidates(sources) && other != Candidates(sources)[i]
    requires other.Target() == Candidates(sources)[i].Target()
    ensures Beats(Candidates(sources)[i], other) && !Beats(other, Candidates(sources)[i])
  {
    var rows := Candidates(sources);
    var w := rows[i];
    var j :| 0 <= j < |rows| && rows[j] == other;
    assert CompareState(w, rows[j]) >= 0;
    CompareStateTotal(w, other);
    CompareStateTotal(other, w);
    CompareStateIsNewer(w, other);
    CompareStateIsNewer(other, w);
    if CompareState(w, other) == 0 {
      TiesAreLiveAndDead(sources, w, other);
      if w.payload.None? {
        var k := LiveBeforeDead(sources, i, other);
        WinsStrictly(rows, i, k);
        assert false;
      }
    }
  }

  /** Merging the sources in another order gives the same states. */
  lemma {:induction false} OrderDoesNotMatter(sources: seq<Source>, shuffled: seq<Source>)
    requires multiset(sources) == multiset(shuffled)
    requires WellFormed(sources)
    ensures MergeAll(Candidates(sources)) == MergeAll(Candidates(shuffled))
  {
    SameMembers(sources, shuffled);
    StaysDistinct(sources, shuffled);
    var a, b := MergeAll(Candidates(sources)), MergeAll(Candidates(shuffled));
    forall r: StateRow
      ensures r in Candidates(sources) <==> r in Candidates(shuffled)
    {
      if r in Candidates(sources) { SameCandidate(sources, shuffled, r); }
      if r in Candidates(shuffled) { SameCandidate(shuffled, sources, r); }
    }
    forall t: Entity
      ensures t in a <==> t in b
      ensures t in a ==> a[t] == b[t]
    {
      NoneMerged(Candidates(sources), t);
      NoneMerged(Candidates(shuffled), t);
      if t in a {
        var i := SurvivorWins(Candidates(sources), t);
        var w := Candidates(sources)[i];
        LastWriterWins(sources, t, w);
        LastWriterWins(shuffled, t, w);
      }
    }
  }

  lemma SameMembers(a: seq<Source>, b: seq<Source>)
    requires multiset(a) == multiset(b)
    ensures forall s :: s in a <==> s in b
  {
    forall s: Source
      ensures s in a <==> s in b
    {
      assert s in a <==> s in multiset(a);
      assert s in b <==> s in multiset(b);
    }
  }

  lemma StaysDistinct(a: seq<Source>, b: seq<Source>)
    requires multiset(a) == multiset(b) && DistinctNames(a)
    ensures DistinctNames(b)
  {
    SameMembers(a, b);
    forall i, j | 0 <= i < j < |b|
      ensures b[i].name != b[j].name
    {
      assert b[i] in a && b[j] in a;
      var x :| 0 <= x < |a| && a[x] == b[i];
      var y :| 0 <= y < |a| && a[y] == b[j];
      if x == y {
        TwiceInMultiset(b, i, j);
        OnceInMultiset(a, x);
      }
    }
  }

  lemma TwiceInMultiset(b: seq<Source>, i: nat, j: nat)
    requires i < j < |b| && b[i] == b[j]
    ensures multiset(b)[b[i]] >= 2
  {
    assert b == b[..j] + [b[j]] + b[j+1..];
    assert b[..j][i] == b[i];
    assert b[i] in multiset(b[..j]);
  }

  lemma OnceInMultiset(a: seq<Source>, x: nat)
    requires x < |a| && DistinctNames(a)
    ensures multiset(a)[a[x]] == 1
  {
    assert a == a[..x] + [a[x]] + a[x+1..];
    assert a[x] !in a[..x] && a[x] !in a[x+1..];
    assert a[x] !in multiset(a[..x]) && a[x] !in multiset(a[x+1..]);
  }

  lemma SameCandidate(a: seq<Source>, b: seq<Source>, r: StateRow)
    requires forall s :: s in a ==> s in b
    requires r in Candidates(a)
    ensures r in Candidates(b)
  {
    CandidateSource(a, r);
    CandidateSource(b, r);
    var i :| 0 <= i < |a| && RowOf(a[i], r);
    assert a[i] in b;
    var j :| 0 <= j < |b| && b[j] == a[i];
    assert RowOf(b[j], r);
  }

  // ---------- collecting the idempotency rows ----------

  function IdemRows(sources: seq<Source>): seq<IdempotencyRow> {
    if sources == [] then [] else IdemRows(sources[..|sources|-1]) + sources[|sources|-1].idem
  }

  /** `same_idempotency` is equality of the stored row. */
  predicate Diverges(rows: seq<IdempotencyRow>, i: nat, j: nat)
    requires i < |rows| && j < |rows|
  {
    rows[i].idempotencyKey == rows[j].idempotencyKey && rows[i].row != rows[j].row
  }

  predicate SomeDiverge(rows: seq<IdempotencyRow>) {
    exists i, j :: 0 <= i < j < |rows| && Diverges(rows, i, j)
  }

  predicate HasKey(rows: seq<IdempotencyRow>, k: string) {
    exists i :: 0 <= i < |rows| && rows[i].idempotencyKey == k
  }

  /** The map holds the rows of the list, one per key. */
  predicate Holds(m: map<string, IdemRow>, rows: seq<IdempotencyRow>) {
    && (forall i :: 0 <= i < |rows| ==> rows[i].idempotencyKey in m && m[rows[i].idempotencyKey] == rows[i].row)
    && (forall k :: k in m ==> HasKey(rows, k))
  }

  lemma HoldsRepeat(m: map<string, IdemRow>, rows: seq<IdempotencyRow>, next: IdempotencyRow)
    requires Holds(m, rows) && next.idempotencyKey in m && m[next.idempotencyKey] == next.row
    ensures Holds(m, rows + [next])
  {
    forall k | k in m
      ensures HasKey(rows + [next], k)
    {
      assert HasKey(rows, k);
      var i :| 0 <= i < |rows| && rows[i].idempotencyKey == k;
      assert (rows + [next])[i].idempotencyKey == k;
    }
  }

  lemma HoldsNew(m: map<string, IdemRow>, rows: seq<IdempotencyRow>, next: IdempotencyRow)
    requires Holds(m, rows) && next.idempotencyKey !in m
    ensures Holds(m[next.idempotencyKey := next.row], rows + [next])
  {
    forall k | k in m[next.idempotencyKey := next.row]
      ensures HasKey(rows + [next], k)
    {
      if k == next.idempotencyKey {
        assert (rows + [next])[|rows|].idempotencyKey == k;
      } else {
        assert HasKey(rows, k);
        var i :| 0 <= i < |rows| && rows[i].idempotencyKey == k;
        assert (rows + [next])[i].idempotencyKey == k;
      }
    }
  }

  lemma HoldsNext(m: map<string, IdemRow>, rows: seq<IdempotencyRow>, i: nat)
    requires i < |rows| && Holds(m, rows[..i])
    requires rows[i].idempotencyKey in m ==> m[rows[i].idempotencyKey] == rows[i].row
    ensures Holds(if rows[i].idempotencyKey in m then m else m[rows[i].idempotencyKey := rows[i].row], rows[..i+1])
  {
    assert rows[..i+1] == rows[..i] + [rows[i]];
    if rows[i].idempotencyKey in m {
      HoldsRepeat(m, rows[..i], rows[i]);
    } else {
      HoldsNew(m, rows[..i], rows[i]);
    }
  }

  lemma FirstDivergence(m: map<string, IdemRow>, rows: seq<IdempotencyRow>, i: nat)
    requires i < |rows| && Holds(m, rows[..i])
    requires rows[i].idempotencyKey in m && m[rows[i].idempotencyKey] != rows[i].row
    ensures SomeDiverge(rows)
  {
    assert HasKey(rows[..i], rows[i].idempotencyKey);
    var j :| 0 <= j < i && rows[..i][j].idempotencyKey == rows[i].idempotencyKey;
    assert m[rows[..i][j].idempotencyKey] == rows[..i][j].row;
    assert Diverges(rows, j, i);
  }

  lemma HeldNeverDiverge(m: map<string, IdemRow>, rows: seq<IdempotencyRow>)
    requires Holds(m, rows)
    ensures !SomeDiverge(rows)
  {
  }

  /** `collect_idempotency`: fails exactly when two rows of one key differ. */
  method CollectIdempotency(sources: seq<Source>) returns (result: Option<map<string, IdemRow>>, deduplicated: nat)
    ensures result.None? <==> SomeDiverge(IdemRows(sources))
    ensures result.Some? ==> Holds(result.value, IdemRows(sources))
    ensures result.Some? ==> |result.value| + deduplicated == |IdemRows(sources)|
  {
    var rows := IdemRows(sources);
    var byKey: map<string, IdemRow> := map[];
    deduplicated := 0;
    for i := 0 to |rows|
      invariant Holds(byKey, rows[..i])
      invariant |byKey| + deduplicated == i
    {
      var k := rows[i].idempotencyKey;
      if k in byKey {
        if byKey[k] != rows[i].row {
          FirstDivergence(byKey, rows, i);
          return None, 0;
        }
        HoldsNext(byKey, rows, i);
        deduplicated := deduplicated + 1;
      } else {
        HoldsNext(byKey, rows, i);
        byKey := byKey[k := rows[i].row];
      }
    }
    assert rows[..|rows|] == rows;
    HeldNeverDiverge(byKey, rows);
    result := Some(byKey);
  }
}
