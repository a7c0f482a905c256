/** Store.MapData: the markers shown on the map, derived from the history. The grouped
    query takes the other columns of a group from a row where max(observed_at) is
    reached; when several rows reach it SQLite may take any of them, so the choice is an
    argument of the specification (`pick`) and every result holds for all choices. */
module MapView {
  import opened Schema
  import opened Ordering
  import Flags

  datatype Query = Query(minLat: real, maxLat: real, minLon: real, maxLon: real,
                         since: int, includeInsincere: bool, includeMissing: bool)

  datatype Marker = Marker(location: Location, row: Sighting, latest: int, count: nat)

  predicate InView(q: Query, l: Location) {
    q.minLat <= l.lat <= q.maxLat && q.minLon <= l.lon <= q.maxLon
  }

  predicate Visible(flags: seq<Flag>, q: Query, s: Sighting) {
    s.observedAt >= q.since && (q.includeInsincere || Flags.FlagSum(flags, s.reporter) <= 0)
  }

  predicate Exists(s: Sighting) {
    s.transpired == "sighted" || s.toExist
  }

  /** The group of a location: its visible sightings in the window. */
  function Rows(sightings: seq<Sighting>, flags: seq<Flag>, q: Query, locationId: int): seq<Sighting> {
    if sightings == [] then []
    else
      var n := |sightings| - 1;
      Rows(sightings[..n], flags, q, locationId) +
      if sightings[n].locationId == locationId && Visible(flags, q, sightings[n]) then [sightings[n]] else []
  }

  function Group(db: Db, q: Query, l: Location): seq<Sighting> {
    Rows(db.sightings, db.flags, q, l.id)
  }

  ghost predicate IsLatest(rows: seq<Sighting>, s: Sighting) {
    s in rows && forall t :: t in rows ==> t.observedAt <= s.observedAt
  }

  /** A choice that takes a row of maximal observed_at from every group. */
  ghost predicate LegalPick(db: Db, q: Query, pick: map<int, Sighting>) {
    forall l :: l in db.locations && InView(q, l) && Group(db, q, l) != [] ==>
      l.id in pick && IsLatest(Group(db, q, l), pick[l.id])
  }

  /** What a pass has kept of a group: nothing if it is empty, else a latest row and the size. */
  ghost predicate Kept(rows: seq<Sighting>, id: int, best: map<int, Sighting>, count: map<int, nat>) {
    if rows == [] then id !in best && id !in count
    else id in best && id in count && IsLatest(rows, best[id]) && count[id] == |rows|
  }

  /** A pass over the sightings has kept every group. */
  ghost predicate Aggregates(sightings: seq<Sighting>, flags: seq<Flag>, q: Query, best: map<int, Sighting>,
      count: map<int, nat>) {
    forall id :: Kept(Rows(sightings, flags, q, id), id, best, count)
  }

  /** ORDER BY observed_at DESC, loc.id. */
  predicate Before(a: Marker, b: Marker) {
    a.latest > b.latest || (a.latest == b.latest && a.location.id < b.location.id)
  }

  ghost predicate IsMarker(db: Db, q: Query, pick: map<int, Sighting>, m: Marker) {
    && m.location in db.locations && InView(q, m.location) && Group(db, q, m.location) != []
    && m.location.id in pick && m.row == pick[m.location.id] && m.latest == m.row.observedAt
    && m.count == |Group(db, q, m.location)|
    && (q.includeMissing || Exists(m.row))
  }

  /** The specification: exactly one marker for every location in view with a visible
      sighting in the window (and, unless missing ones are wanted, whose latest sighting
      says it exists), in order. */
  ghost predicate Answers(db: Db, q: Query, pick: map<int, Sighting>, out: seq<Marker>) {
    && LegalPick(db, q, pick) && Sorted(Before, out)
    && forall m :: m in out <==> IsMarker(db, q, pick, m)
  }

  lemma {:induction false} RowsMembers(sightings: seq<Sighting>, flags: seq<Flag>, q: Query, locationId: int)
    ensures forall s :: s in Rows(sightings, flags, q, locationId) <==>
                        s in sightings && s.locationId == locationId && Visible(flags, q, s)
    decreases |sightings|
  {
    if sightings == [] {
    } else {
      var n := |sightings| - 1;
      RowsMembers(sightings[..n], flags, q, locationId);
      assert sightings == sightings[..n] + [sightings[n]];
    }
  }

  lemma RowsOfAppend(a: seq<Sighting>, s: Sighting, flags: seq<Flag>, q: Query, locationId: int)
    ensures Rows(a + [s], flags, q, locationId) ==
            Rows(a, flags, q, locationId) + if s.locationId == locationId && Visible(flags, q, s) then [s] else []
  {
    assert (a + [s])[..|a|] == a;
  }

  lemma KeptOneMore(rows: seq<Sighting>, s: Sighting, best: map<int, Sighting>, count: map<int, nat>, takes: bool)
    requires Kept(rows, s.locationId, best, count)
    requires s.locationId !in best ==> takes
    requires s.locationId in best && s.observedAt > best[s.locationId].observedAt ==> takes
    requires s.locationId in best && s.observedAt < best[s.locationId].observedAt ==> !takes
    ensures Kept(rows + [s], s.locationId, if takes then best[s.locationId := s] else best,
                 count[s.locationId := if s.locationId in count then count[s.locationId] + 1 else 1])
  {
    assert (rows + [s])[|rows|] == s;
    assert forall t :: t in rows + [s] <==> t in rows || t == s;
  }

  /** One step of the pass: a visible sighting takes over its group if it is later than the row
      kept so far, may take over if it is equally late, and is counted either way. */
  lemma AggregateOne(sightings: seq<Sighting>, s: Sighting, flags: seq<Flag>, q: Query,
                     best: map<int, Sighting>, count: map<int, nat>, takes: bool)
    requires Aggregates(sightings, flags, q, best, count)
    requires s.locationId !in best ==> takes
    requires s.locationId in best && s.observedAt > best[s.locationId].observedAt ==> takes
    requires s.locationId in best && s.observedAt < best[s.locationId].observedAt ==> !takes
    ensures !Visible(flags, q, s) ==> Aggregates(sightings + [s], flags, q, best, count)
    ensures Visible(flags, q, s) ==>
              Aggregates(sightings + [s], flags, q, if takes then best[s.locationId := s] else best,
                         count[s.locationId := if s.locationId in count then count[s.locationId] + 1 else 1])
  {
    var visible := Visible(flags, q, s);
    var best' := if visible && takes then best[s.locationId := s] else best;
    var count' := if visible then count[s.locationId := if s.locationId in count then count[s.locationId] + 1 else 1]
        else count;
    forall id: int
      ensures Kept(Rows(sightings + [s], flags, q, id), id, best', count')
    {
      RowsOfAppend(sightings, s, flags, q, id);
      var rows := Rows(sightings, flags, q, id);
      assert Kept(rows, id, best, count);
      if visible && id == s.locationId {
        KeptOneMore(rows, s, best, count, takes);
      } else {
        assert Rows(sightings + [s], flags, q, id) == rows;
      }
    }
  }

  lemma BeforeIsStrictOrder()
    ensures StrictOrder(Before)
  {
  }

  /** The choice among equally late rows is all that is left open: it fixes the answer. */
  lemma AnswerIsUnique(db: Db, q: Query, pick: map<int, Sighting>, a: seq<Marker>, b: seq<Marker>)
    requires Answers(db, q, pick, a) && Answers(db, q, pick, b)
    ensures a == b
  {
    BeforeIsStrictOrder();
    SortedIsUnique(Before, a, b);
  }

  /** A visible sighting at l, in the terms of the tables. */
  predicate Seen(db: Db, q: Query, l: Location, s: Sighting) {
    && s in db.sightings && s.locationId == l.id && s.observedAt >= q.since
    && (q.includeInsincere || Flags.FlagSum(db.flags, s.reporter) <= 0)
  }

  function Members(sightings: seq<Sighting>, flags: seq<Flag>, q: Query, locationId: int): set<Sighting> {
    set s | s in sightings && s.locationId == locationId && Visible(flags, q, s)
  }

  lemma {:induction false} RowsCount(sightings: seq<Sighting>, flags: seq<Flag>, q: Query, locationId: int)
    requires forall i, j :: 0 <= i < j < |sightings| ==> sightings[i].id < sightings[j].id
    ensures |Rows(sightings, flags, q, locationId)| == |Members(sightings, flags, q, locationId)|
    decreases |sightings|
  {
    if sightings == [] {
    } else {
      var n := |sightings| - 1;
      var before, s := sightings[..n], sightings[n];
      RowsCount(before, flags, q, locationId);
      assert sightings == before + [s] && s !in before;
      if s.locationId == locationId && Visible(flags, q, s) {
        assert Members(sightings, flags, q, locationId) == Members(before, flags, q, locationId) + {s};
        assert s !in Members(before, flags, q, locationId);
      } else {
        assert Members(sightings, flags, q, locationId) == Members(before, flags, q, locationId);
      }
    }
  }

  /** What the markers say, read off the tables: a location has one exactly when it is in the box
      and has a sighting in the window that is not hidden (and, if missing ones are not wanted,
      the one taken of the latest was sighted or is to exist); the marker shows a latest one of
      these and how many there are. */
  lemma MarkersMean(db: Db, q: Query, pick: map<int, Sighting>, out: seq<Marker>, l: Location)
    requires Answers(db, q, pick, out) && Keyed(db) && l in db.locations
    ensures (exists m :: m in out && m.location == l) <==>
            && q.minLat <= l.lat <= q.maxLat && q.minLon <= l.lon <= q.maxLon
            && (exists s :: Seen(db, q, l, s)) && l.id in pick
            && (q.includeMissing || pick[l.id].transpired == "sighted" || pick[l.id].toExist)
    ensures forall m :: m in out && m.location == l ==>
              && Seen(db, q, l, m.row) && m.row == pick[l.id] && m.latest == m.row.observedAt
              && (q.includeMissing || m.row.transpired == "sighted" || m.row.toExist)
              && (forall s :: Seen(db, q, l, s) ==> s.observedAt <= m.latest)
              && m.count == |set s | s in db.sightings && Seen(db, q, l, s)|
  {
    RowsMembers(db.sightings, db.flags, q, l.id);
    RowsCount(db.sightings, db.flags, q, l.id);
    var rows := Group(db, q, l);
    assert forall s :: Seen(db, q, l, s) <==> s in rows;
    assert (set s | s in db.sightings && Seen(db, q, l, s)) == Members(db.sightings, db.flags, q, l.id);
    if InView(q, l) && rows != [] && (q.includeMissing || Exists(pick[l.id])) {
      assert rows[0] in rows;
      var m := Marker(l, pick[l.id], pick[l.id].observedAt, |rows|);
      assert IsMarker(db, q, pick, m);
      assert m in out;
    }
  }

  /** A sighting counts for a location if it is there, not older than the window, and, unless
      insincere reports are wanted, its reporter's marks do not outnumber the clearings. */
  lemma SeenMeans(db: Db, q: Query, l: Location, s: Sighting)
    ensures Seen(db, q, l, s) <==>
            && s in db.sightings && s.locationId == l.id && s.observedAt >= q.since
            && (q.includeInsincere || Flags.FlagSum(db.flags, s.reporter) <= 0)
  {
  }

  /** The latest marker comes first, and of equally late ones that of the older location. */
  lemma MarkersInOrder(db: Db, q: Query, pick: map<int, Sighting>, out: seq<Marker>, i: nat, j: nat)
    requires Answers(db, q, pick, out) && i < j < |out|
    ensures out[i].latest > out[j].latest || (out[i].latest == out[j].latest && out[i].location.id < out[j].location.id)
  {
    assert Before(out[i], out[j]);
  }

  /** No location has two markers. */
  lemma OneMarkerPerLocation(db: Db, q: Query, pick: map<int, Sighting>, out: seq<Marker>, i: nat, j: nat)
    requires Answers(db, q, pick, out) && i < j < |out|
    ensures out[i].location != out[j].location
  {
    assert out[i] in out && out[j] in out && Before(out[i], out[j]);
    assert IsMarker(db, q, pick, out[i]) && IsMarker(db, q, pick, out[j]);
  }

  // ---------------------------------------------------------------------------
  // Missing markers
  // ---------------------------------------------------------------------------

  function Present(out: seq<Marker>): seq<Marker> {
    if out == [] then []
    else Present(out[..|out| - 1]) + if Exists(out[|out| - 1].row) then [out[|out| - 1]] else []
  }

  lemma {:induction false} PresentKeepsOrder(out: seq<Marker>)
    requires Sorted(Before, out)
    ensures Sorted(Before, Present(out))
    ensures forall m :: m in Present(out) <==> m in out && Exists(m.row)
    decreases |out|
  {
    if out == [] {
    } else {
      var n := |out| - 1;
      assert out == out[..n] + [out[n]];
      PresentKeepsOrder(out[..n]);
      forall i | 0 <= i < |Present(out[..n])|
        ensures Before(Present(out[..n])[i], out[n])
      {
        assert Present(out[..n])[i] in out[..n];
      }
    }
  }

  /** Without missing markers the answer is exactly the sub-list of existing ones. */
  lemma WithoutMissingIsSublist(db: Db, q: Query, pick: map<int, Sighting>, all: seq<Marker>, present: seq<Marker>)
    requires Answers(db, q.(includeMissing := true), pick, all)
    requires Answers(db, q.(includeMissing := false), pick, present)
    ensures present == Present(all)
    ensures forall m :: m in present <==> m in all && (m.row.transpired == "sighted" || m.row.toExist)
  {
    PresentKeepsOrder(all);
    var q1, q0 := q.(includeMissing := true), q.(includeMissing := false);
    forall l: Location
      ensures Group(db, q1, l) == Group(db, q0, l)
    {
      SameVisibleSameRows(db.sightings, db.flags, q1, db.flags, q0, l.id);
    }
    forall m
      ensures m in Present(all) <==> IsMarker(db, q0, pick, m)
    {
      assert m in all <==> IsMarker(db, q1, pick, m);
    }
    BeforeIsStrictOrder();
    SortedIsUnique(Before, present, Present(all));
  }

  // ---------------------------------------------------------------------------
  // Hiding
  // ---------------------------------------------------------------------------

  lemma {:induction false} SameVisibleSameRows(sightings: seq<Sighting>, flags: seq<Flag>, q: Query, flags': seq<Flag>,
      q': Query, locationId: int)
    requires forall s :: s in sightings ==> Visible(flags, q, s) == Visible(flags', q', s)
    ensures Rows(sightings, flags, q, locationId) == Rows(sightings, flags', q', locationId)
    decreases |sightings|
  {
    if sightings == [] {
    } else {
      var n := |sightings| - 1;
      assert sightings[n] in sightings;
      SameVisibleSameRows(sightings[..n], flags, q, flags', q', locationId);
    }
  }

  /** The answer depends on the history only through the groups. */
  lemma AnswerDependsOnGroups(db: Db, q: Query, db': Db, q': Query, pick: map<int, Sighting>, out: seq<Marker>)
    requires db'.locations == db.locations
    requires q' == q.(since := q'.since, includeInsincere := q'.includeInsincere)
    requires forall l :: l in db.locations ==> Group(db', q', l) == Group(db, q, l)
    ensures Answers(db, q, pick, out) <==> Answers(db', q', pick, out)
  {
    forall m
      ensures IsMarker(db, q, pick, m) <==> IsMarker(db', q', pick, m)
    {
    }
    assert LegalPick(db, q, pick) <==> LegalPick(db', q', pick);
  }

  /** The history with the sightings of flagged users deleted. */
  function Sincere(sightings: seq<Sighting>, flags: seq<Flag>): seq<Sighting> {
    if sightings == [] then []
    else
      var n := |sightings| - 1;
      Sincere(sightings[..n], flags) + if Flags.FlagSum(flags, sightings[n].reporter) <= 0 then [sightings[n]] else []
  }

  lemma {:induction false} RowsOfSincere(sightings: seq<Sighting>, flags: seq<Flag>, q: Query, locationId: int)
    ensures Rows(Sincere(sightings, flags), flags, q.(includeInsincere := true), locationId) ==
            Rows(sightings, flags, q.(includeInsincere := false), locationId)
    decreases |sightings|
  {
    if sightings == [] {
    } else {
      var n := |sightings| - 1;
      RowsOfSincere(sightings[..n], flags, q, locationId);
      var kept := Sincere(sightings[..n], flags);
      if Flags.FlagSum(flags, sightings[n].reporter) <= 0 {
        assert Sincere(sightings, flags) == kept + [sightings[n]];
        RowsOfAppend(kept, sightings[n], flags, q.(includeInsincere := true), locationId);
      } else {
        assert Sincere(sightings, flags) == kept;
      }
    }
  }

  /** Hiding commutes with aggregation: the map without insincere reports is the map that
      shows everything, on the database from which the flagged users' sightings are deleted. */
  lemma HidingCommutes(db: Db, q: Query, pick: map<int, Sighting>, out: seq<Marker>)
    ensures Answers(db, q.(includeInsincere := false), pick, out) <==>
            Answers(db.(sightings := Sincere(db.sightings, db.flags)), q.(includeInsincere := true), pick, out)
  {
    forall l: Location
      ensures Group(db.(sightings := Sincere(db.sightings, db.flags)), q.(includeInsincere := true), l) ==
              Group(db, q.(includeInsincere := false), l)
    {
      RowsOfSincere(db.sightings, db.flags, q, l.id);
    }
    AnswerDependsOnGroups(db, q.(includeInsincere := false), db.(sightings := Sincere(db.sightings, db.flags)),
                          q.(includeInsincere := true), pick, out);
  }

  /** Flags matter only through which reporters they hide. */
  lemma SameHiddenSameAnswer(db: Db, flags: seq<Flag>, q: Query, pick: map<int, Sighting>, out: seq<Marker>)
    requires forall s :: s in db.sightings ==>
               (Flags.FlagSum(flags, s.reporter) <= 0) == (Flags.FlagSum(db.flags, s.reporter) <= 0)
    ensures Answers(db, q, pick, out) <==> Answers(db.(flags := flags), q, pick, out)
  {
    forall l: Location
      ensures Group(db.(flags := flags), q, l) == Group(db, q, l)
    {
      SameVisibleSameRows(db.sightings, flags, q, db.flags, q, l.id);
    }
    AnswerDependsOnGroups(db, q, db.(flags := flags), q, pick, out);
  }

  /** Flags that cancel out for every reporter leave every map unchanged. */
  lemma BalancedFlagsChangeNothing(db: Db, more: seq<Flag>, q: Query, pick: map<int, Sighting>, out: seq<Marker>)
    requires forall s :: s in db.sightings ==> Flags.FlagSum(more, s.reporter) == 0
    ensures Answers(db, q, pick, out) <==> Answers(db.(flags := db.flags + more), q, pick, out)
  {
    forall s | s in db.sightings
      ensures Flags.FlagSum(db.flags + more, s.reporter) == Flags.FlagSum(db.flags, s.reporter)
    {
      Flags.FlagSumOfConcat(db.flags, more, s.reporter);
    }
    SameHiddenSameAnswer(db, db.flags + more, q, pick, out);
  }

  // ---------------------------------------------------------------------------
  // Widening the window
  // ---------------------------------------------------------------------------

  lemma {:induction false} WiderHasMore(sightings: seq<Sighting>, flags: seq<Flag>, q: Query, since: int,
      locationId: int)
    requires since <= q.since
    ensures |Rows(sightings, flags, q, locationId)| <= |Rows(sightings, flags, q.(since := since), locationId)|
    decreases |sightings|
  {
    if sightings == [] {
    } else {
      WiderHasMore(sightings[..|sightings| - 1], flags, q, since, locationId);
    }
  }

  /** A group that is not empty has the same latest rows in any wider window. */
  lemma WiderHasSameLatest(db: Db, q: Query, since: int, l: Location, s: Sighting)
    requires since <= q.since && Group(db, q, l) != []
    ensures IsLatest(Group(db, q, l), s) <==> IsLatest(Group(db, q.(since := since), l), s)
  {
    RowsMembers(db.sightings, db.flags, q, l.id);
    RowsMembers(db.sightings, db.flags, q.(since := since), l.id);
    var first := Group(db, q, l)[0];
    assert first in Group(db, q, l);
  }

  /** An earlier `since` with the same choice among ties: every marker is still there, with the
      same row, status and latest time, and a count at least as large. */
  lemma WideningKeepsMarkers(db: Db, q: Query, since: int, pick: map<int, Sighting>, narrow: seq<Marker>,
      wide: seq<Marker>)
    requires since <= q.since
    requires Answers(db, q, pick, narrow) && Answers(db, q.(since := since), pick, wide)
    ensures forall m :: m in narrow ==> exists w :: w in wide && w == m.(count := w.count) && w.count >= m.count
  {
    var q' := q.(since := since);
    forall m | m in narrow
      ensures exists w :: w in wide && w == m.(count := w.count) && w.count >= m.count
    {
      assert IsMarker(db, q, pick, m);
      WiderHasMore(db.sightings, db.flags, q, since, m.location.id);
      var w := m.(count := |Group(db, q', m.location)|);
      assert IsMarker(db, q', pick, w);
      assert w in wide;
    }
  }

  /** A consistent choice always exists: whatever the wide query picked is a legal pick of
      the narrow one. */
  lemma WidePickIsNarrowPick(db: Db, q: Query, since: int, pick: map<int, Sighting>)
    requires since <= q.since && LegalPick(db, q.(since := since), pick)
    ensures LegalPick(db, q, pick)
  {
    forall l | l in db.locations && InView(q, l) && Group(db, q, l) != []
      ensures l.id in pick && IsLatest(Group(db, q, l), pick[l.id])
    {
      WiderHasMore(db.sightings, db.flags, q, since, l.id);
      WiderHasSameLatest(db, q, since, l, pick[l.id]);
    }
  }
}
