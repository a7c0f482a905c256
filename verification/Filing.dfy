/** Store.InsertSighting: two SQL statements with no transaction around them, so other
    requests and imports may come in between. A single call is described first, then
    any number of calls interleaved with imports and the other writers. */
module Filing {
  import opened Schema
  import opened Rounding
  import Import

  datatype Request = Request(user: int, lat: real, lon: real, observedAt: int, transpired: string, traits: Traits)
  {
    /** The six-decimal cell of the stored coordinates is the one that is looked up. */
    predicate SurvivesRounding() {
      Survives(lat) && Survives(lon)
    }
  }

  datatype Error = ConstraintFailed | NotSentWhatTranspired

  /** A call that returns no error always answers with an id, also when nothing was filed. */
  datatype Reply = Ok(id: int) | Err(error: Error)

  predicate SameCell(l: Location, lat: real, lon: real) {
    Round6(l.lat) == Round6(lat) && Round6(l.lon) == Round6(lon)
  }

  predicate CellTaken(db: Db, lat: real, lon: real) {
    exists l :: l in db.locations && SameCell(l, lat, lon)
  }

  /** The cell holds a location, or the coordinates survive double rounding. */
  predicate Covered(db: Db, req: Request) {
    CellTaken(db, req.lat, req.lon) || req.SurvivesRounding()
  }

  function FirstStatement(db: Db, req: Request): Option<Db> {
    if CellTaken(db, req.lat, req.lon) then Some(db)
    else if InRange(Round7(req.lat), Round7(req.lon)) && HasUser(db, req.user) then
      Some(AppendLocation(db, Round7(req.lat), Round7(req.lon), req.user, req.observedAt))
    else None
  }

  /** The switch between the statements; None is its default case, an error. */
  function ToExist(transpired: string): Option<bool> {
    if transpired == "sighted" then Some(true)
    else if transpired == "missed" || transpired == "removed" then Some(false)
    else None
  }

  /** The statement does not write image_url. */
  function NewSighting(db: Db, req: Request, l: Location): Sighting {
    Sighting(NextSightingId(db.sightings), req.user, l.id, req.observedAt,
             req.transpired, ToExist(req.transpired) == Some(true), req.traits.(imageUrl := None), None)
  }

  /** When the statement inserts nothing, LastInsertId is whatever row the connection at hand
      inserted last: any id at all. */
  ghost predicate SecondStatement(db: Db, req: Request, db': Db, reply: Reply) {
    if !CellTaken(db, req.lat, req.lon) then db' == db && reply.Ok?
    else if !HasUser(db, req.user) then db' == db && reply == Err(ConstraintFailed)
    else reply == Ok(NextSightingId(db.sightings)) &&
         exists l :: l in db.locations && SameCell(l, req.lat, req.lon)
             && db' == AppendSighting(db, NewSighting(db, req, l))
  }

  /** One call with nothing in between. */
  ghost predicate Inserts(db: Db, req: Request, db': Db, reply: Reply) {
    match FirstStatement(db, req)
    case None => db' == db && reply == Err(ConstraintFailed)
    case Some(mid) =>
      if ToExist(req.transpired).None? then db' == mid && reply == Err(NotSentWhatTranspired)
      else SecondStatement(mid, req, db', reply)
  }

  // ---------------------------------------------------------------------------
  // One call
  // ---------------------------------------------------------------------------

  /** Storing at seven decimals puts the new location in the cell that was looked up
      exactly when both coordinates survive double rounding. */
  lemma StoredCellIsLookedUpCell(l: Location, req: Request)
    requires l.lat == Round7(req.lat) && l.lon == Round7(req.lon)
    ensures SameCell(l, req.lat, req.lon) <==> req.SurvivesRounding()
  {
    DoubleRounding(req.lat);
    DoubleRounding(req.lon);
  }

  lemma TakenAfterFirst(db: Db, req: Request)
    requires FirstStatement(db, req).Some?
    ensures CellTaken(FirstStatement(db, req).value, req.lat, req.lon) <==>
            CellTaken(db, req.lat, req.lon) || req.SurvivesRounding()
  {
    if !CellTaken(db, req.lat, req.lon) {
      var db' := FirstStatement(db, req).value;
      var n := |db.locations|;
      assert forall l :: l in db'.locations ==> l in db.locations || l == db'.locations[n];
      StoredCellIsLookedUpCell(db'.locations[n], req);
      assert db'.locations[n] in db'.locations;
    }
  }

  /** req has been filed, as the next sighting, and answered with its id. */
  ghost predicate FilesNext(db: Db, req: Request, db': Db, reply: Reply) {
    && reply == Ok(NextSightingId(db.sightings))
    && exists l :: l in db'.locations && SameCell(l, req.lat, req.lon)
        && db'.sightings == db.sightings + [NewSighting(db, req, l)]
  }

  /** An accepted call files its sighting if and only if it is covered: the cell already held a
      location or both coordinates survive double rounding. Otherwise it leaves a lone location
      and no sighting, and is answered with an id that means nothing. */
  lemma FiledIff(db: Db, req: Request, db': Db, reply: Reply)
    requires Inserts(db, req, db', reply) && reply.Ok?
    ensures db'.sightings != db.sightings <==> Covered(db, req)
    ensures Covered(db, req) ==> FilesNext(db, req, db', reply)
    ensures !Covered(db, req) ==> db' == AppendLocation(db, Round7(req.lat), Round7(req.lon), req.user, req.observedAt)
  {
    var mid := FirstStatement(db, req).value;
    TakenAfterFirst(db, req);
    if Covered(db, req) {
      var l :| l in mid.locations && SameCell(l, req.lat, req.lon)
          && db' == AppendSighting(mid, NewSighting(mid, req, l));
      assert NewSighting(mid, req, l) == NewSighting(db, req, l);
    }
  }

  /** A call at the coordinates of a stored location finds that cell: it creates no
      location, and its sighting is filed unless it is refused. */
  lemma RefilingLands(db: Db, req: Request, l: Location, db': Db, reply: Reply)
    requires l in db.locations && req.lat == l.lat && req.lon == l.lon
    requires Inserts(db, req, db', reply)
    ensures db'.locations == db.locations
    ensures reply.Ok? ==> FilesNext(db, req, db', reply)
    ensures reply.Err? <==>
            !(req.transpired == "sighted" || req.transpired == "missed" || req.transpired == "removed")
                || !HasUser(db, req.user)
  {
    assert CellTaken(db, req.lat, req.lon);
  }

  /** In the failing zone of a free cell a call leaves a location that its own lookup
      cannot see, so the cell stays free. */
  lemma LoneLocation(db: Db, req: Request, db': Db, reply: Reply)
    requires Inserts(db, req, db', reply) && reply.Ok?
    requires !CellTaken(db, req.lat, req.lon) && !req.SurvivesRounding()
    ensures !CellTaken(db', req.lat, req.lon)
    ensures db' == AppendLocation(db, Round7(req.lat), Round7(req.lon), req.user, req.observedAt)
  {
    FiledIff(db, req, db', reply);
    TakenAfterFirst(db, req);
  }

  /** Such a coordinate never recovers by itself: n calls, each answered without an error,
      leave n equal lone locations and file nothing. */
  lemma {:induction false} LoneLocationsPileUp(trace: seq<Db>, replies: seq<Reply>, req: Request, n: nat)
    requires n <= |replies| && |trace| == |replies| + 1
    requires !CellTaken(trace[0], req.lat, req.lon) && !req.SurvivesRounding()
    requires forall i :: 0 <= i < n ==> Inserts(trace[i], req, trace[i + 1], replies[i]) && replies[i].Ok?
    ensures !CellTaken(trace[n], req.lat, req.lon)
    ensures trace[n].sightings == trace[0].sightings && |trace[n].locations| == |trace[0].locations| + n
    ensures forall k :: |trace[0].locations| <= k < |trace[n].locations| ==>
              trace[n].locations[k].lat == Round7(req.lat) && trace[n].locations[k].lon == Round7(req.lon)
  {
    if n == 0 {
    } else {
      LoneLocationsPileUp(trace, replies, req, n - 1);
      LoneLocation(trace[n - 1], req, trace[n], replies[n - 1]);
    }
  }

  /** When a call is answered without an error: it says what transpired in one of three words,
      its user exists, and its cell is taken or its stored coordinates pass the CHECKs. */
  lemma AcceptedIff(db: Db, req: Request, db': Db, reply: Reply)
    requires Inserts(db, req, db', reply)
    ensures reply.Ok? <==>
            && (req.transpired == "sighted" || req.transpired == "missed" || req.transpired == "removed")
            && HasUser(db, req.user)
            && (CellTaken(db, req.lat, req.lon)
                || (-90.0 <= Round7(req.lat) <= 90.0 && -180.0 <= Round7(req.lon) <= 180.0))
  {
  }

  /** And which error it is answered otherwise: the words are looked at once the location is
      there, so a constraint on the location comes first. */
  lemma RefusedHow(db: Db, req: Request, db': Db, reply: Reply)
    requires Inserts(db, req, db', reply) && reply.Err?
    ensures var known := req.transpired == "sighted" || req.transpired == "missed" || req.transpired == "removed";
            var stored := CellTaken(db, req.lat, req.lon)
                          || (-90.0 <= Round7(req.lat) <= 90.0 && -180.0 <= Round7(req.lon) <= 180.0
                              && HasUser(db, req.user));
            reply.error == if stored && !known then NotSentWhatTranspired else ConstraintFailed
  {
  }

  /** What is looked up: a location whose coordinates round to the same six decimals. */
  lemma TakenMeans(db: Db, lat: real, lon: real)
    ensures CellTaken(db, lat, lon) <==>
            exists l :: l in db.locations && Round6(l.lat) == Round6(lat) && Round6(l.lon) == Round6(lon)
  {
    if l :| l in db.locations && Round6(l.lat) == Round6(lat) && Round6(l.lon) == Round6(lon) {
      assert SameCell(l, lat, lon);
    }
  }

  /** The row that the first statement adds. */
  lemma FirstAdds(db: Db, req: Request)
    requires FirstStatement(db, req).Some? && !CellTaken(db, req.lat, req.lon)
    ensures FirstStatement(db, req).value ==
            db.(locations := db.locations +
                [Location(NextLocationId(db.locations), Round7(req.lat), Round7(req.lon), req.user, req.observedAt)])
  {
  }

  /** A refused call leaves nothing behind if and only if its cell is taken or a constraint stops
      its location: an unknown `transpired` is rejected only after the location is created. */
  lemma RefusedLeavesNothingIff(db: Db, req: Request, db': Db, reply: Reply)
    requires Inserts(db, req, db', reply) && reply.Err?
    ensures db' == db <==>
            || CellTaken(db, req.lat, req.lon)
            || !(-90.0 <= Round7(req.lat) <= 90.0 && -180.0 <= Round7(req.lon) <= 180.0)
            || !HasUser(db, req.user)
    ensures db' != db ==> db' == AppendLocation(db, Round7(req.lat), Round7(req.lon), req.user, req.observedAt)
  {
    if db' != db {
      assert db'.locations[|db.locations|] in db'.locations;
    }
  }

  const REPORTER := User(1, "someone", "reporter", 0, 0, "")

  /** A database with one user and nothing filed. */
  const BLANK := Db(map[], {}, [REPORTER], None, [], [], [])

  /** For one, a report of "unknown" from a fresh place is refused and leaves the place. */
  lemma RefusedCallLeavesALocation(traits: Traits) returns (req: Request, db': Db)
    ensures Inserts(BLANK, req, db', Err(NotSentWhatTranspired)) && req.transpired == "unknown"
    ensures |BLANK.locations| == 0 && |db'.locations| == 1
  {
    req := Request(1, 0.0, 0.0, 0, "unknown", traits);
    assert REPORTER in BLANK.users;
    assert Round7(0.0) == 0.0;
    db' := FirstStatement(BLANK, req).value;
  }

  /** Wherever the cell is free, any number of calls in the failing zone by a user are all
      answered without an error. */
  lemma {:induction false} LoneLocationsHappen(db: Db, req: Request, n: nat)
    returns (trace: seq<Db>, replies: seq<Reply>)
    requires HasUser(db, req.user) && InRange(Round7(req.lat), Round7(req.lon)) && ToExist(req.transpired).Some?
    requires !CellTaken(db, req.lat, req.lon) && !req.SurvivesRounding()
    ensures |replies| == n && |trace| == n + 1 && trace[0] == db
    ensures forall i :: 0 <= i < n ==> Inserts(trace[i], req, trace[i + 1], replies[i]) && replies[i].Ok?
    decreases n
  {
    if n == 0 {
      trace, replies := [db], [];
    } else {
      var next := FirstStatement(db, req).value;
      TakenAfterFirst(db, req);
      assert Inserts(db, req, next, Ok(NextLocationId(db.locations)));
      var t, rs := LoneLocationsHappen(next, req, n - 1);
      trace, replies := [db] + t, [Ok(NextLocationId(db.locations))] + rs;
    }
  }

  lemma FailingZone()
    ensures !Survives(0.00000045) && Round7(0.00000045) == 0.0000005
  {
  }

  /** For one, three reports from 0.00000045 degrees north of the origin leave three locations
      and no sighting. */
  lemma ThreeLoneLocations(traits: Traits) returns (trace: seq<Db>, replies: seq<Reply>, req: Request)
    ensures req == Request(1, 0.00000045, 0.0, 0, "sighted", traits) && |replies| == 3 && |trace| == 4
            && trace[0] == BLANK
    ensures forall i :: 0 <= i < 3 ==> Inserts(trace[i], req, trace[i + 1], replies[i]) && replies[i].Ok?
    ensures |trace[3].locations| == 3 && trace[3].sightings == []
  {
    req := Request(1, 0.00000045, 0.0, 0, "sighted", traits);
    FailingZone();
    assert REPORTER in BLANK.users;
    assert Round7(0.0) == 0.0;
    trace, replies := LoneLocationsHappen(BLANK, req, 3);
    LoneLocationsPileUp(trace, replies, req, 3);
  }

  /** One id for two calls. The first, uncovered, is answered on its connection with the id of
      the location it created and owns no sighting; the second is rightly answered with the id of
      its own, which is the same number. */
  lemma TwoCallsShareAnId(traits: Traits) returns (r1: Request, r2: Request, d1: Db, d2: Db)
    ensures r1 == Request(1, 0.00000045, 0.0, 0, "sighted", traits)
            && r2 == Request(1, 10.0, 10.0, 0, "sighted", traits)
    ensures Inserts(BLANK, r1, d1, Ok(1)) && |d1.locations| == 1 && d1.locations[0].id == 1 && d1.sightings == []
    ensures Inserts(d1, r2, d2, Ok(1)) && |d2.sightings| == 1 && d2.sightings[0].id == 1
    ensures FiledAs(d2, 1, r2) && !FiledAs(d2, 1, r1)
  {
    r1, r2 := Request(1, 0.00000045, 0.0, 0, "sighted", traits), Request(1, 10.0, 10.0, 0, "sighted", traits);
    FailingZone();
    ExactZones();
    assert REPORTER in BLANK.users;
    d1 := FirstStatement(BLANK, r1).value;
    TakenAfterFirst(BLANK, r1);
    assert Inserts(BLANK, r1, d1, Ok(1));
    var mid := FirstStatement(d1, r2).value;
    var l := mid.locations[1];
    assert l in mid.locations && SameCell(l, 10.0, 10.0);
    d2 := AppendSighting(mid, NewSighting(mid, r2, l));
    assert Fulfils(d2, d2.sightings[0], r2);
    forall k | k in d2.locations && k.id == 2
      ensures !SameCell(k, r1.lat, r1.lon)
    {
      assert k == l;
    }
  }

  lemma ExactZones()
    ensures Round7(0.0) == 0.0 && Round7(10.0) == 10.0
    ensures Round6(0.0) == 0.0 && Round6(10.0) == 10.0 && Round6(0.00000045) == 0.0 && Round6(0.0000005) == 0.000001
  {
  }

  // ---------------------------------------------------------------------------
  // One location per cell
  // ---------------------------------------------------------------------------

  ghost predicate OnePerCell(db: Db) {
    forall i, j :: 0 <= i < j < |db.locations| ==> !SameCell(db.locations[i], db.locations[j].lat, db.locations[j].lon)
  }

  /** Appending a location keeps one per cell exactly when its cell is free. */
  lemma AppendKeepsOnePerCell(db: Db, lat: real, lon: real, createdBy: int, createdAt: int)
    requires OnePerCell(db)
    ensures OnePerCell(AppendLocation(db, lat, lon, createdBy, createdAt)) <==> !CellTaken(db, lat, lon)
  {
    var db' := AppendLocation(db, lat, lon, createdBy, createdAt);
    var n := |db.locations|;
    assert forall i :: 0 <= i < n ==> db'.locations[i] == db.locations[i];
    if CellTaken(db, lat, lon) {
      var l :| l in db.locations && SameCell(l, lat, lon);
      var i :| 0 <= i < n && db.locations[i] == l;
      assert SameCell(db'.locations[i], db'.locations[n].lat, db'.locations[n].lon);
    }
  }

  /** The first statement keeps one location per cell exactly when the cell it looked up was
      taken or the cell it stores into was free. */
  lemma FirstKeepsOnePerCellIff(db: Db, req: Request)
    requires OnePerCell(db) && FirstStatement(db, req).Some?
    ensures OnePerCell(FirstStatement(db, req).value) <==>
            CellTaken(db, req.lat, req.lon) || !CellTaken(db, Round7(req.lat), Round7(req.lon))
    ensures req.SurvivesRounding() ==> OnePerCell(FirstStatement(db, req).value)
  {
    AppendKeepsOnePerCell(db, Round7(req.lat), Round7(req.lon), req.user, req.observedAt);
    DoubleRounding(req.lat);
    DoubleRounding(req.lon);
    assert req.SurvivesRounding() ==>
        forall l :: SameCell(l, req.lat, req.lon) == SameCell(l, Round7(req.lat), Round7(req.lon));
  }

  /** An empty import box implies a free cell: the box is 90 times wider than a cell. */
  lemma EmptyBoxIsFreeCell(db: Db, rec: Import.Record)
    requires !Import.Occupied(db, rec)
    ensures !CellTaken(db, rec.lat, rec.lon)
  {
    forall l | l in db.locations
      ensures !SameCell(l, rec.lat, rec.lon)
    {
      SameCellIsClose(l.lat, rec.lat);
      SameCellIsClose(l.lon, rec.lon);
      assert !Import.InBox(l, rec);
    }
  }

  lemma {:induction false} ImportKeepsOnePerCell(db: Db, job: Import.Job, recs: seq<Import.Record>, db': Db)
    requires Import.Applies(db, job, recs, db') && OnePerCell(db)
    ensures OnePerCell(db')
    decreases |recs|
  {
    if recs == [] {
    } else {
      var n := |recs| - 1;
      var mid :| Import.Applies(db, job, recs[..n], mid) && Import.Steps(mid, job, recs[n], db');
      ImportKeepsOnePerCell(db, job, recs[..n], mid);
      Import.StepEffect(mid, job, recs[n], db');
      if !Import.Occupied(mid, recs[n]) {
        EmptyBoxIsFreeCell(mid, recs[n]);
        AppendKeepsOnePerCell(mid, recs[n].lat, recs[n].lon, job.importer, job.observedAt);
      }
    }
  }

  // ---------------------------------------------------------------------------
  // Importing over users' reports
  // ---------------------------------------------------------------------------

  /** The cells of one coordinate that an import box can touch: at most 92 in a row, 90
      millionths and the two at the ends. */
  const ROW := 92

  lemma {:induction false} Pigeonhole<T>(s: set<T>, f: T -> int, n: nat)
    requires forall x :: x in s ==> 0 <= f(x) < n
    requires forall x, y :: x in s && y in s && f(x) == f(y) ==> x == y
    ensures |s| <= n
  {
    if n == 0 {
      assert s == {};
    } else if x :| x in s && f(x) == n - 1 {
      Pigeonhole(s - {x}, f, n - 1);
    } else {
      Pigeonhole(s, f, n - 1);
    }
  }

  lemma CellInRow(x: real, center: real)
    requires center - Import.DELTA <= x <= center + Import.DELTA
    ensures 0 <= Cell6(x) - Cell6(center - Import.DELTA) < ROW
  {
    HalfAwayIsMonotone((center - Import.DELTA) * 1000000.0, x * 1000000.0);
    HalfAwayIsNearest((center - Import.DELTA) * 1000000.0);
    HalfAwayIsNearest(x * 1000000.0);
  }

  /** The position of a location's cell in the square of cells around a record. */
  function Place(rec: Import.Record): Location -> int {
    (l: Location) =>
      (Cell6(l.lat) - Cell6(rec.lat - Import.DELTA)) * ROW + (Cell6(l.lon) - Cell6(rec.lon - Import.DELTA))
  }

  lemma PlaceInSquare(l: Location, rec: Import.Record)
    requires Import.InBox(l, rec)
    ensures 0 <= Place(rec)(l) < ROW * ROW
  {
    CellInRow(l.lat, rec.lat);
    CellInRow(l.lon, rec.lon);
  }

  lemma SquareDigits(a: int, b: int, c: int, d: int)
    requires a * ROW + b == c * ROW + d && 0 <= b < ROW && 0 <= d < ROW
    ensures a == c && b == d
  {
  }

  lemma SamePlaceIsSameCell(k: Location, l: Location, rec: Import.Record)
    requires Import.InBox(k, rec) && Import.InBox(l, rec) && Place(rec)(k) == Place(rec)(l)
    ensures SameCell(k, l.lat, l.lon)
  {
    CellInRow(k.lat, rec.lat);
    CellInRow(k.lon, rec.lon);
    CellInRow(l.lat, rec.lat);
    CellInRow(l.lon, rec.lon);
    SquareDigits(Cell6(k.lat) - Cell6(rec.lat - Import.DELTA), Cell6(k.lon) - Cell6(rec.lon - Import.DELTA),
                 Cell6(l.lat) - Cell6(rec.lat - Import.DELTA), Cell6(l.lon) - Cell6(rec.lon - Import.DELTA));
  }

  /** One location per cell bounds what an import box holds. */
  lemma BoxHoldsCells(db: Db, rec: Import.Record)
    requires OnePerCell(db)
    ensures |Import.Box(db, rec)| <= ROW * ROW
  {
    var box := Import.Box(db, rec);
    forall k, l | k in box && l in box && Place(rec)(k) == Place(rec)(l)
      ensures k == l
    {
      SamePlaceIsSameCell(k, l, rec);
      var i :| 0 <= i < |db.locations| && db.locations[i] == k;
      var j :| 0 <= j < |db.locations| && db.locations[j] == l;
      assert SameCell(l, k.lat, k.lon);
    }
    forall l | l in box
      ensures 0 <= Place(rec)(l) < ROW * ROW
    {
      PlaceInSquare(l, rec);
    }
    Pigeonhole(box, Place(rec), ROW * ROW);
  }

  /** Importing among users' reports, where locations are one per cell rather than separated:
      the number of runs after which a batch is settled has a bound that no database and no
      batch enters into. */
  lemma ImportsConvergeOverReports(trace: seq<Db>, jobs: seq<Import.Job>, recs: seq<Import.Record>)
    requires Import.Reruns(trace, jobs, recs) && OnePerCell(trace[0]) && |trace| > ROW * ROW
    ensures Import.Settled(trace[ROW * ROW], recs)
    ensures forall i :: ROW * ROW <= i < |trace| ==> trace[i] == trace[ROW * ROW]
  {
    ImportKeepsOnePerCell(trace[0], jobs[0], recs, trace[1]);
    forall k | 0 <= k < |recs|
      ensures |Import.Box(trace[1], recs[k])| <= ROW * ROW
    {
      BoxHoldsCells(trace[1], recs[k]);
    }
    Import.ConvergesWithin(trace, jobs, recs, ROW * ROW);
  }

  // ---------------------------------------------------------------------------
  // Interleaved calls
  // ---------------------------------------------------------------------------

  /** How far a call has come. Two history variables tell what no reply does: whether the call
      was covered at its first statement, and whether its second statement inserted a row. */
  datatype Phase = Waiting | Between(covered: bool) | Finished(covered: bool, filed: bool, reply: Reply)

  /** The database and the phase of each of the calls `reqs`. */
  datatype Sys = Sys(db: Db, phases: seq<Phase>)

  ghost predicate RunsFirst(reqs: seq<Request>, s: Sys, i: nat, s': Sys) {
    && i < |reqs| == |s.phases| && s.phases[i] == Waiting
    && var covered := Covered(s.db, reqs[i]);
       match FirstStatement(s.db, reqs[i])
       case None => s' == s.(phases := s.phases[i := Finished(covered, false, Err(ConstraintFailed))])
       case Some(mid) =>
         if ToExist(reqs[i].transpired).None?
             then s' == Sys(mid, s.phases[i := Finished(covered, false, Err(NotSentWhatTranspired))])
         else s' == Sys(mid, s.phases[i := Between(covered)])
  }

  ghost predicate RunsSecond(reqs: seq<Request>, s: Sys, i: nat, s': Sys) {
    && i < |reqs| == |s.phases| == |s'.phases| && s.phases[i].Between? && s'.phases[i].Finished?
    && s'.phases == s.phases[i := s'.phases[i]] && s'.phases[i].covered == s.phases[i].covered
    && s'.phases[i].filed == (s'.phases[i].reply.Ok? && CellTaken(s.db, reqs[i].lat, reqs[i].lon))
    && SecondStatement(s.db, reqs[i], s'.db, s'.phases[i].reply)
  }

  /** A committed import. One that fails or is a dry run leaves everything as it was. */
  ghost predicate RunsImport(s: Sys, s': Sys) {
    s'.phases == s.phases && exists job, recs :: Import.Applies(s.db, job, recs, s'.db)
  }

  /** Store.InsertCanonical, which inserts without looking. */
  ghost predicate RunsCanonical(s: Sys, s': Sys) {
    s'.phases == s.phases && exists lat, lon, user, now ::
      InRange(lat, lon) && HasUser(s.db, user) && s'.db == AppendLocation(s.db, lat, lon, user, now)
  }

  /** Anything that leaves the two tables alone and removes no user. */
  ghost predicate RunsElsewhere(s: Sys, s': Sys) {
    && s'.phases == s.phases && s'.db.locations == s.db.locations && s'.db.sightings == s.db.sightings
    && forall id :: HasUser(s.db, id) ==> HasUser(s'.db, id)
  }

  ghost predicate CallStep(reqs: seq<Request>, s: Sys, s': Sys) {
    exists i :: 0 <= i < |reqs| && (RunsFirst(reqs, s, i, s') || RunsSecond(reqs, s, i, s'))
  }

  /** Steps that InsertCanonical takes no part in. */
  ghost predicate QuietStep(reqs: seq<Request>, s: Sys, s': Sys) {
    CallStep(reqs, s, s') || RunsImport(s, s') || RunsElsewhere(s, s')
  }

  ghost predicate Run(reqs: seq<Request>, trace: seq<Sys>) {
    && trace != [] && trace[0].phases == seq(|reqs|, _ => Waiting) && Ordered(trace[0].db)
    && forall k :: 0 <= k < |trace| - 1 ==>
        QuietStep(reqs, trace[k], trace[k + 1]) || RunsCanonical(trace[k], trace[k + 1])
  }

  /** Any of these steps may come next. */
  lemma AnyStepMayFollow(reqs: seq<Request>, trace: seq<Sys>, s': Sys, i: nat)
    requires Run(reqs, trace)
    requires var s := trace[|trace| - 1];
             || (i < |reqs| && (RunsFirst(reqs, s, i, s') || RunsSecond(reqs, s, i, s')))
             || RunsImport(s, s') || RunsElsewhere(s, s') || RunsCanonical(s, s')
    ensures Run(reqs, trace + [s'])
  {
    var all, n := trace + [s'], |trace| - 1;
    forall k | 0 <= k < |all| - 1
      ensures QuietStep(reqs, all[k], all[k + 1]) || RunsCanonical(all[k], all[k + 1])
    {
      if k < n {
        assert all[k] == trace[k] && all[k + 1] == trace[k + 1];
        assert QuietStep(reqs, trace[k], trace[k + 1]) || RunsCanonical(trace[k], trace[k + 1]);
      } else {
        assert all[k] == trace[n] && all[k + 1] == s';
      }
    }
  }

  ghost predicate Ordered(db: Db) {
    forall i, j :: 0 <= i < j < |db.sightings| ==> db.sightings[i].id < db.sightings[j].id
  }

  /** s is the sighting that req asked for, at a location of its cell. */
  ghost predicate Fulfils(db: Db, s: Sighting, req: Request) {
    && s in db.sightings && s.reporter == req.user && s.observedAt == req.observedAt && s.transpired == req.transpired
    && s.toExist == (req.transpired == "sighted") && s.traits == req.traits.(imageUrl := None) && s.externalId == None
    && exists l :: l in db.locations && l.id == s.locationId && SameCell(l, req.lat, req.lon)
  }

  ghost predicate FiledAs(db: Db, id: int, req: Request) {
    exists s :: Fulfils(db, s, req) && s.id == id
  }

  ghost predicate CallInvariant(db: Db, req: Request, phase: Phase) {
    match phase
    case Waiting => true
    case Between(covered) => ToExist(req.transpired).Some? && (covered ==> CellTaken(db, req.lat, req.lon))
    case Finished(covered, filed, Ok(id)) => (covered ==> filed) && (filed ==> FiledAs(db, id, req))
    case Finished(_, filed, Err(_)) => !filed
  }

  ghost predicate Invariant(reqs: seq<Request>, s: Sys) {
    && |s.phases| == |reqs| && Ordered(s.db)
    && (forall i :: 0 <= i < |reqs| ==> CallInvariant(s.db, reqs[i], s.phases[i]))
    && (forall i, j :: 0 <= i < j < |reqs| && Filed(s.phases[i]) && Filed(s.phases[j]) ==>
          s.phases[i].reply != s.phases[j].reply)
  }

  /** The call returned no error. */
  predicate Answered(phase: Phase) {
    phase.Finished? && phase.reply.Ok?
  }

  predicate Filed(phase: Phase) {
    Answered(phase) && phase.filed
  }

  lemma TakenStays(db: Db, db': Db, lat: real, lon: real)
    requires db.locations <= db'.locations && CellTaken(db, lat, lon)
    ensures CellTaken(db', lat, lon)
  {
    var l :| l in db.locations && SameCell(l, lat, lon);
    assert l in db'.locations;
  }

  lemma CallInvariantStays(db: Db, db': Db, req: Request, phase: Phase)
    requires db.locations <= db'.locations && db.sightings <= db'.sightings && CallInvariant(db, req, phase)
    ensures CallInvariant(db', req, phase)
  {
    match phase {
      case Waiting =>
      case Between(covered) =>
        if covered {
          TakenStays(db, db', req.lat, req.lon);
        }
      case Finished(_, filed, Ok(id)) =>
        if filed {
          var s :| Fulfils(db, s, req) && s.id == id;
          var l :| l in db.locations && l.id == s.locationId && SameCell(l, req.lat, req.lon);
          assert s in db'.sightings && l in db'.locations;
          assert Fulfils(db', s, req);
        }
      case Finished(_, _, Err(_)) =>
    }
  }

  lemma ImportStepKeepsOrder(db: Db, job: Import.Job, rec: Import.Record, db': Db)
    requires Import.Steps(db, job, rec, db') && Ordered(db)
    ensures Ordered(db')
  {
    Import.StepEffect(db, job, rec, db');
    if db'.sightings != db.sightings {
      var l :| db'.sightings == db.sightings + [Import.NewSighting(db, job, rec, l)];
      AppendKeepsOrder(db, db', Import.NewSighting(db, job, rec, l));
    }
  }

  lemma AppendKeepsOrder(db: Db, db': Db, s: Sighting)
    requires Ordered(db) && s.id == NextSightingId(db.sightings) && db'.sightings == db.sightings + [s]
    ensures Ordered(db')
  {
  }

  lemma {:induction false} ImportKeepsOrder(db: Db, job: Import.Job, recs: seq<Import.Record>, db': Db)
    requires Import.Applies(db, job, recs, db') && Ordered(db)
    ensures Ordered(db')
    decreases |recs|
  {
    if recs == [] {
    } else {
      var n := |recs| - 1;
      var mid :| Import.Applies(db, job, recs[..n], mid) && Import.Steps(mid, job, recs[n], db');
      ImportKeepsOrder(db, job, recs[..n], mid);
      ImportStepKeepsOrder(mid, job, recs[n], db');
    }
  }

  lemma FirstKeepsInvariant(reqs: seq<Request>, s: Sys, i: nat, s': Sys)
    requires Invariant(reqs, s) && RunsFirst(reqs, s, i, s')
    ensures Invariant(reqs, s')
  {
    if FirstStatement(s.db, reqs[i]).Some? {
      TakenAfterFirst(s.db, reqs[i]);
    }
    forall k | 0 <= k < |reqs|
      ensures CallInvariant(s'.db, reqs[k], s'.phases[k])
    {
      if k != i {
        CallInvariantStays(s.db, s'.db, reqs[k], s.phases[k]);
      }
    }
  }

  /** The id of the newest sighting is larger than that of any sighting already replied. */
  lemma FreshReply(reqs: seq<Request>, s: Sys, j: nat)
    requires Invariant(reqs, s) && j < |reqs| && Filed(s.phases[j])
    ensures s.phases[j].reply.id < NextSightingId(s.db.sightings)
  {
    assert CallInvariant(s.db, reqs[j], s.phases[j]);
    var t :| Fulfils(s.db, t, reqs[j]) && t.id == s.phases[j].reply.id;
    var k :| 0 <= k < |s.db.sightings| && s.db.sightings[k] == t;
  }

  lemma SecondFulfils(reqs: seq<Request>, s: Sys, i: nat, s': Sys)
    requires Invariant(reqs, s) && RunsSecond(reqs, s, i, s')
    ensures CallInvariant(s'.db, reqs[i], s'.phases[i]) && Ordered(s'.db)
    ensures s.db.locations <= s'.db.locations && s.db.sightings <= s'.db.sightings
  {
    assert CallInvariant(s.db, reqs[i], s.phases[i]);
    if Filed(s'.phases[i]) {
      var l :| l in s.db.locations && SameCell(l, reqs[i].lat, reqs[i].lon)
          && s'.db == AppendSighting(s.db, NewSighting(s.db, reqs[i], l));
      assert s'.db.sightings[|s.db.sightings|] == NewSighting(s.db, reqs[i], l);
      assert Fulfils(s'.db, NewSighting(s.db, reqs[i], l), reqs[i]);
    }
  }

  lemma SecondKeepsInvariant(reqs: seq<Request>, s: Sys, i: nat, s': Sys)
    requires Invariant(reqs, s) && RunsSecond(reqs, s, i, s')
    ensures Invariant(reqs, s')
  {
    SecondFulfils(reqs, s, i, s');
    forall k | 0 <= k < |reqs| && k != i
      ensures CallInvariant(s'.db, reqs[k], s'.phases[k])
    {
      CallInvariantStays(s.db, s'.db, reqs[k], s.phases[k]);
    }
    forall k | 0 <= k < |reqs| && k != i && Filed(s.phases[k]) && Filed(s'.phases[i])
      ensures s'.phases[k].reply != s'.phases[i].reply
    {
      FreshReply(reqs, s, k);
    }
  }

  lemma OtherKeepsInvariant(reqs: seq<Request>, s: Sys, s': Sys)
    requires Invariant(reqs, s) && (RunsImport(s, s') || RunsElsewhere(s, s') || RunsCanonical(s, s'))
    ensures Invariant(reqs, s')
  {
    if RunsImport(s, s') {
      var job, recs :| Import.Applies(s.db, job, recs, s'.db);
      Import.RunGrows(s.db, job, recs, s'.db);
      ImportKeepsOrder(s.db, job, recs, s'.db);
    }
    forall k | 0 <= k < |reqs|
      ensures CallInvariant(s'.db, reqs[k], s'.phases[k])
    {
      CallInvariantStays(s.db, s'.db, reqs[k], s.phases[k]);
    }
  }

  lemma {:induction false} RunKeepsInvariant(reqs: seq<Request>, trace: seq<Sys>, k: nat)
    requires Run(reqs, trace) && k < |trace|
    ensures Invariant(reqs, trace[k])
  {
    if k == 0 {
    } else {
      RunKeepsInvariant(reqs, trace, k - 1);
      var s, s' := trace[k - 1], trace[k];
      assert QuietStep(reqs, trace[k - 1], trace[k - 1 + 1]) || RunsCanonical(trace[k - 1], trace[k - 1 + 1]);
      if CallStep(reqs, s, s') {
        var i :| 0 <= i < |reqs| && (RunsFirst(reqs, s, i, s') || RunsSecond(reqs, s, i, s'));
        if RunsFirst(reqs, s, i, s') {
          FirstKeepsInvariant(reqs, s, i, s');
        } else {
          SecondKeepsInvariant(reqs, s, i, s');
        }
      } else {
        OtherKeepsInvariant(reqs, s, s');
      }
    }
  }

  /** Safety over every run: in any state that any interleaving of calls, imports and other
      writers reaches, a call answered with an id has been filed if it was covered at its first
      statement, so certainly if its coordinates survive double rounding. A filed call owns a
      sighting with the id it was answered, carrying what it asked for, at a location of its cell,
      and no two filed calls share one. (Of a call that is not covered the id says nothing: see
      TwoCallsShareAnId.) */
  lemma CoveredCallsAreFiled(reqs: seq<Request>, trace: seq<Sys>, k: nat, i: nat)
    requires Run(reqs, trace) && k < |trace| && i < |reqs|
    ensures |trace[k].phases| == |reqs|
    ensures Answered(trace[k].phases[i]) && (trace[k].phases[i].covered || reqs[i].SurvivesRounding()) ==>
            Filed(trace[k].phases[i])
    ensures Filed(trace[k].phases[i]) ==> FiledAs(trace[k].db, trace[k].phases[i].reply.id, reqs[i])
    ensures forall j :: 0 <= j < |reqs| && j != i && Filed(trace[k].phases[i]) && Filed(trace[k].phases[j]) ==>
              trace[k].phases[j].reply.id != trace[k].phases[i].reply.id
  {
    RunKeepsInvariant(reqs, trace, k);
    assert CallInvariant(trace[k].db, reqs[i], trace[k].phases[i]);
    CoverageIsHistory(reqs, trace, k, i);
  }

  /** A call whose coordinates survive double rounding is covered from its first statement on. */
  lemma {:induction false} CoverageIsHistory(reqs: seq<Request>, trace: seq<Sys>, k: nat, i: nat)
    requires Run(reqs, trace) && k < |trace| && i < |reqs|
    ensures |trace[k].phases| == |reqs|
    ensures !trace[k].phases[i].Waiting? && reqs[i].SurvivesRounding() ==> trace[k].phases[i].covered
  {
    if k == 0 {
    } else {
      CoverageIsHistory(reqs, trace, k - 1, i);
      var s, s' := trace[k - 1], trace[k];
      assert QuietStep(reqs, trace[k - 1], trace[k - 1 + 1]) || RunsCanonical(trace[k - 1], trace[k - 1 + 1]);
      if CallStep(reqs, s, s') {
        var j :| 0 <= j < |reqs| && (RunsFirst(reqs, s, j, s') || RunsSecond(reqs, s, j, s'));
      }
    }
  }

  /** Locations are never removed, so whatever runs between its two statements, a covered
      call of a registered user appends exactly one sighting, at a location of its cell. */
  lemma CoveredCallFilesOnce(reqs: seq<Request>, trace: seq<Sys>, k: nat, i: nat)
    requires Run(reqs, trace) && k + 1 < |trace| && i < |reqs|
    requires RunsSecond(reqs, trace[k], i, trace[k + 1]) && trace[k].phases[i].covered
             && HasUser(trace[k].db, reqs[i].user)
    ensures Filed(trace[k + 1].phases[i]) && trace[k + 1].phases[i].reply.id == NextSightingId(trace[k].db.sightings)
    ensures exists l :: l in trace[k].db.locations && SameCell(l, reqs[i].lat, reqs[i].lon)
              && trace[k + 1].db.sightings == trace[k].db.sightings + [NewSighting(trace[k].db, reqs[i], l)]
  {
    RunKeepsInvariant(reqs, trace, k);
    assert CallInvariant(trace[k].db, reqs[i], trace[k].phases[i]);
  }

  /** One location per cell is kept by every interleaving of calls whose coordinates survive
      double rounding with imports. InsertCanonical is not among the steps: it inserts
      unconditionally (see AppendKeepsOnePerCell for when that is harmless). */
  lemma {:induction false} RunKeepsOnePerCell(reqs: seq<Request>, trace: seq<Sys>, k: nat)
    requires k < |trace| && OnePerCell(trace[0].db)
    requires forall i :: 0 <= i < |trace| - 1 ==> QuietStep(reqs, trace[i], trace[i + 1])
    requires forall i :: 0 <= i < |reqs| ==> reqs[i].SurvivesRounding()
    ensures OnePerCell(trace[k].db)
  {
    if k == 0 {
    } else {
      RunKeepsOnePerCell(reqs, trace, k - 1);
      var s, s' := trace[k - 1], trace[k];
      assert QuietStep(reqs, trace[k - 1], trace[k - 1 + 1]);
      if RunsImport(s, s') {
        var job, recs :| Import.Applies(s.db, job, recs, s'.db);
        ImportKeepsOnePerCell(s.db, job, recs, s'.db);
      } else if CallStep(reqs, s, s') {
        var i :| 0 <= i < |reqs| && (RunsFirst(reqs, s, i, s') || RunsSecond(reqs, s, i, s'));
        if FirstStatement(s.db, reqs[i]).Some? {
          FirstKeepsOnePerCellIff(s.db, reqs[i]);
        }
      }
    }
  }

  lemma CallKeepsNoRepeats(db: Db, req: Request, db': Db, reply: Reply)
    requires SecondStatement(db, req, db', reply) && Import.NoRepeats(db)
    ensures Import.NoRepeats(db')
  {
  }

  /** Nothing is told twice over every interleaving of imports of any batches with calls and
      other writers: no two imported sightings ever agree in location, state and key. */
  lemma {:induction false} RunKeepsNoRepeats(reqs: seq<Request>, trace: seq<Sys>, k: nat)
    requires Run(reqs, trace) && k < |trace| && Import.NoRepeats(trace[0].db)
    ensures Import.NoRepeats(trace[k].db)
  {
    if k == 0 {
    } else {
      RunKeepsNoRepeats(reqs, trace, k - 1);
      var s, s' := trace[k - 1], trace[k];
      assert QuietStep(reqs, trace[k - 1], trace[k - 1 + 1]) || RunsCanonical(trace[k - 1], trace[k - 1 + 1]);
      if RunsImport(s, s') {
        var job, recs :| Import.Applies(s.db, job, recs, s'.db);
        Import.RunKeepsNoRepeats(s.db, job, recs, s'.db);
      } else if CallStep(reqs, s, s') {
        var i :| 0 <= i < |reqs| && (RunsFirst(reqs, s, i, s') || RunsSecond(reqs, s, i, s'));
        if RunsSecond(reqs, s, i, s') {
          CallKeepsNoRepeats(s.db, reqs[i], s'.db, s'.phases[i].reply);
        }
      }
    }
  }

  /** The same, row by row. */
  lemma NothingIsToldTwice(reqs: seq<Request>, trace: seq<Sys>, k: nat, i: nat, j: nat)
    requires Run(reqs, trace) && k < |trace| && Import.NoRepeats(trace[0].db) && i < j < |trace[k].db.sightings|
    ensures var s, t := trace[k].db.sightings[i], trace[k].db.sightings[j];
            s.externalId.Some? && s.externalId == t.externalId && s.locationId == t.locationId ==>
              s.transpired != t.transpired
  {
    RunKeepsNoRepeats(reqs, trace, k);
    assert !Import.Repeats(trace[k].db.sightings[i], trace[k].db.sightings[j]);
  }

  /** So over every such run a record is told no more often than its box holds locations. */
  lemma ToldOncePerLocation(reqs: seq<Request>, trace: seq<Sys>, k: nat, rec: Import.Record)
    requires Run(reqs, trace) && k < |trace| && Import.NoRepeats(trace[0].db)
    ensures |Import.Tellings(trace[k].db, rec)| <= |Import.Box(trace[k].db, rec)|
  {
    RunKeepsNoRepeats(reqs, trace, k);
    Import.ToldOncePerLocation(trace[k].db, rec);
  }

  /** With one location per cell and calls that survive rounding, that is a bound no run and no
      database enters into. */
  lemma TellingsAreBounded(reqs: seq<Request>, trace: seq<Sys>, k: nat, rec: Import.Record)
    requires Run(reqs, trace) && k < |trace| && Import.NoRepeats(trace[0].db) && OnePerCell(trace[0].db)
    requires forall i :: 0 <= i < |trace| - 1 ==> QuietStep(reqs, trace[i], trace[i + 1])
    requires forall i :: 0 <= i < |reqs| ==> reqs[i].SurvivesRounding()
    ensures |Import.Tellings(trace[k].db, rec)| <= ROW * ROW
  {
    ToldOncePerLocation(reqs, trace, k, rec);
    RunKeepsOnePerCell(reqs, trace, k);
    BoxHoldsCells(trace[k].db, rec);
  }
}
