/** Store.ImportSourceRecords as a relation between database states. Its two SQL
    statements are one step each; the LIMIT 1 of the second leaves open which of
    the matching locations is taken, so every result here holds for every choice. */
module Import {
  import opened Schema

  /** Half the side of the box in which a record accepts an existing location. */
  const DELTA := 0.000045

  /** time.Time's zero value, 1 January of year 1. */
  const ZERO_TIME := -62135596800

  datatype Record = Record(when: Option<int>, externalId: string, lat: real, lon: real, exists_: bool, traits: Traits)
  {
    function Transpired(): string {
      if exists_ then "sighted" else "unknown"
    }

    /** The same report with the opposite state. */
    function Flipped(): Record {
      this.(exists_ := !exists_)
    }
  }

  /** The arguments of one call other than the records. */
  datatype Job = Job(importer: int, observedAt: int)
  {
    function TimeOf(rec: Record): int {
      if rec.when.Some? && rec.when.value != ZERO_TIME then rec.when.value else observedAt
    }
  }

  predicate InBox(l: Location, rec: Record) {
    && rec.lat - DELTA <= l.lat <= rec.lat + DELTA
    && rec.lon - DELTA <= l.lon <= rec.lon + DELTA
  }

  function Box(db: Db, rec: Record): set<Location> {
    set l | l in db.locations && InBox(l, rec)
  }

  predicate SightingRecords(s: Sighting, l: Location, rec: Record) {
    s.locationId == l.id && s.transpired == rec.Transpired() && s.externalId == Some(rec.externalId)
  }

  /** Some earlier sighting at l already carries the state and key of rec. */
  predicate Recorded(db: Db, l: Location, rec: Record) {
    exists s :: s in db.sightings && SightingRecords(s, l, rec)
  }

  /** The rows among which the second statement chooses. */
  function Unrecorded(db: Db, rec: Record): set<Location> {
    set l | l in Box(db, rec) && !Recorded(db, l, rec)
  }

  predicate Occupied(db: Db, rec: Record) {
    exists l :: l in db.locations && InBox(l, rec)
  }

  predicate LocationAccepted(db: Db, job: Job, rec: Record) {
    InRange(rec.lat, rec.lon) && HasUser(db, job.importer)
  }

  /** The database after the first statement, or None when a constraint stops it. */
  function EnsureLocation(db: Db, job: Job, rec: Record): Option<Db> {
    if Occupied(db, rec) then Some(db)
    else if LocationAccepted(db, job, rec) then Some(AppendLocation(db, rec.lat, rec.lon, job.importer, job.observedAt))
    else None
  }

  function NewSighting(db: Db, job: Job, rec: Record, l: Location): Sighting {
    Sighting(NextSightingId(db.sightings), job.importer, l.id, job.TimeOf(rec),
             rec.Transpired(), rec.exists_, rec.traits, Some(rec.externalId))
  }

  /** The second statement succeeds and leads to db'. */
  ghost predicate Attaches(db: Db, job: Job, rec: Record, db': Db) {
    if Unrecorded(db, rec) == {} then db' == db
    else HasUser(db, job.importer) &&
         exists l :: l in Unrecorded(db, rec) && db' == AppendSighting(db, NewSighting(db, job, rec, l))
  }

  /** One pass of the loop body succeeds and leads to db'. */
  ghost predicate Steps(db: Db, job: Job, rec: Record, db': Db) {
    var mid := EnsureLocation(db, job, rec);
    mid.Some? && Attaches(mid.value, job, rec, db')
  }

  /** One pass of the loop body ends in an error. */
  ghost predicate StepFails(db: Db, job: Job, rec: Record) {
    var mid := EnsureLocation(db, job, rec);
    mid.None? || (Unrecorded(mid.value, rec) != {} && !HasUser(mid.value, job.importer))
  }

  /** The whole batch succeeds and leads to db'. */
  ghost predicate Applies(db: Db, job: Job, recs: seq<Record>, db': Db) {
    if recs == [] then db' == db
    else
      var n := |recs| - 1;
      exists mid :: Applies(db, job, recs[..n], mid) && Steps(mid, job, recs[n], db')
  }

  /** The batch ends in an error at record k, so that its transaction is rolled back. */
  ghost predicate FailsAt(db: Db, job: Job, recs: seq<Record>, k: nat) {
    k < |recs| && exists mid :: Applies(db, job, recs[..k], mid) && StepFails(mid, job, recs[k])
  }

  /** Successful runs of the same batch, one after another, from the first state of the trace. */
  ghost predicate Reruns(trace: seq<Db>, jobs: seq<Job>, recs: seq<Record>) {
    && |trace| == |jobs| + 1
    && forall i :: 0 <= i < |jobs| ==> Applies(trace[i], jobs[i], recs, trace[i + 1])
  }

  // ---------------------------------------------------------------------------
  // One step
  // ---------------------------------------------------------------------------

  /** What a successful pass does: it leaves a location in the box, and appends at most
      one location (only to an empty box) and at most one sighting (only at a location
      in the box that did not have the record's state and key). */
  lemma StepEffect(db: Db, job: Job, rec: Record, db': Db)
    requires Steps(db, job, rec, db')
    ensures Grows(db, db') && Occupied(db', rec)
    ensures Occupied(db, rec) ==> db'.locations == db.locations
    ensures !Occupied(db, rec) ==> LocationAccepted(db, job, rec)
    ensures !Occupied(db, rec) ==>
            db'.locations == db.locations +
            [Location(NextLocationId(db.locations), rec.lat, rec.lon, job.importer, job.observedAt)]
    ensures db'.sightings == db.sightings ==> Unrecorded(db', rec) == {}
    ensures db'.sightings != db.sightings ==>
      HasUser(db, job.importer) && |db'.sightings| == |db.sightings| + 1 &&
      exists l :: l in Box(db', rec) && !Recorded(db, l, rec) && Recorded(db', l, rec)
        && db'.sightings == db.sightings + [NewSighting(db, job, rec, l)]
  {
    var mid := EnsureLocation(db, job, rec).value;
    if !Occupied(db, rec) {
      assert InBox(mid.locations[|db.locations|], rec);
    }
    var l0 :| l0 in mid.locations && InBox(l0, rec);
    assert l0 in db'.locations;
    if db'.sightings != db.sightings {
      var l :| l in Unrecorded(mid, rec) && db' == AppendSighting(mid, NewSighting(mid, job, rec, l));
      var s := NewSighting(db, job, rec, l);
      assert db'.sightings == db.sightings + [s];
      assert s in db'.sightings && SightingRecords(s, l, rec);
      assert l in Box(db', rec);
    }
  }

  lemma GrowsTransitive(a: Db, b: Db, c: Db)
    requires Grows(a, b) && Grows(b, c)
    ensures Grows(a, c)
  {
  }

  /** Once recorded, always recorded: sightings are never removed. */
  lemma RecordedStays(db: Db, db': Db, l: Location, rec: Record)
    requires db.sightings <= db'.sightings && Recorded(db, l, rec)
    ensures Recorded(db', l, rec)
  {
    var s :| s in db.sightings && SightingRecords(s, l, rec);
    assert s in db'.sightings;
  }

  lemma OccupiedStays(db: Db, db': Db, rec: Record)
    requires db.locations <= db'.locations && Occupied(db, rec)
    ensures Occupied(db', rec)
  {
    var l :| l in db.locations && InBox(l, rec);
    assert l in db'.locations;
  }

  lemma UnrecordedShrinks(db: Db, db': Db, rec: Record)
    requires Grows(db, db') && db'.locations == db.locations
    ensures Unrecorded(db', rec) <= Unrecorded(db, rec)
    ensures |Unrecorded(db', rec)| <= |Unrecorded(db, rec)|
  {
    forall l | l in Unrecorded(db', rec)
      ensures l in Unrecorded(db, rec)
    {
      if Recorded(db, l, rec) {
        RecordedStays(db, db', l, rec);
      }
    }
    CardinalityOfSubset(Unrecorded(db', rec), Unrecorded(db, rec));
  }

  lemma OneMoreStep(db: Db, job: Job, recs: seq<Record>, i: nat, mid: Db, db': Db)
    requires i < |recs| && Applies(db, job, recs[..i], mid) && Steps(mid, job, recs[i], db')
    ensures Applies(db, job, recs[..i + 1], db')
  {
    assert recs[..i + 1][..i] == recs[..i];
  }

  // ---------------------------------------------------------------------------
  // One run
  // ---------------------------------------------------------------------------

  ghost predicate Closed(db: Db, recs: seq<Record>) {
    forall k :: 0 <= k < |recs| ==> Occupied(db, recs[k])
  }

  lemma {:induction false} RunGrows(db: Db, job: Job, recs: seq<Record>, db': Db)
    requires Applies(db, job, recs, db')
    ensures Grows(db, db')
    decreases |recs|
  {
    if recs == [] {
    } else {
      var n := |recs| - 1;
      var mid :| Applies(db, job, recs[..n], mid) && Steps(mid, job, recs[n], db');
      RunGrows(db, job, recs[..n], mid);
      StepEffect(mid, job, recs[n], db');
      GrowsTransitive(db, mid, db');
    }
  }

  lemma ClosedStays(db: Db, db': Db, recs: seq<Record>)
    requires db.locations <= db'.locations && Closed(db, recs)
    ensures Closed(db', recs)
  {
    forall k | 0 <= k < |recs|
      ensures Occupied(db', recs[k])
    {
      OccupiedStays(db, db', recs[k]);
    }
  }

  lemma ClosedLast(db: Db, recs: seq<Record>)
    requires recs != []
    ensures Closed(db, recs) <==> Closed(db, recs[..|recs| - 1]) && Occupied(db, recs[|recs| - 1])
  {
    var n := |recs| - 1;
    assert forall k :: 0 <= k < n ==> recs[..n][k] == recs[k];
  }

  /** After a run every box is occupied, and a run over occupied boxes creates no location. */
  lemma {:induction false} RunEffect(db: Db, job: Job, recs: seq<Record>, db': Db)
    requires Applies(db, job, recs, db')
    ensures Grows(db, db') && Closed(db', recs)
    ensures Closed(db, recs) ==> db'.locations == db.locations
    decreases |recs|
  {
    RunGrows(db, job, recs, db');
    if recs == [] {
    } else {
      var n := |recs| - 1;
      var mid :| Applies(db, job, recs[..n], mid) && Steps(mid, job, recs[n], db');
      RunEffect(db, job, recs[..n], mid);
      StepEffect(mid, job, recs[n], db');
      ClosedStays(mid, db', recs[..n]);
      ClosedLast(db', recs);
      ClosedLast(db, recs);
    }
  }

  lemma LastStep(db: Db, job: Job, recs: seq<Record>, db': Db) returns (mid: Db)
    requires Applies(db, job, recs, db') && recs != []
    ensures Applies(db, job, recs[..|recs| - 1], mid) && Steps(mid, job, recs[|recs| - 1], db')
    ensures Grows(db, mid) && Grows(mid, db')
    ensures Closed(db, recs) ==> Closed(db, recs[..|recs| - 1]) && mid.locations == db'.locations == db.locations
  {
    var n := |recs| - 1;
    mid :| Applies(db, job, recs[..n], mid) && Steps(mid, job, recs[n], db');
    RunEffect(db, job, recs[..n], mid);
    StepEffect(mid, job, recs[n], db');
    ClosedLast(db, recs);
  }

  /** The run passes through record k: the states just before and just after it. */
  lemma {:induction false} SplitAt(db: Db, job: Job, recs: seq<Record>, db': Db, k: nat) returns (before: Db, after: Db)
    requires Applies(db, job, recs, db') && k < |recs|
    ensures Applies(db, job, recs[..k], before) && Steps(before, job, recs[k], after)
    ensures Grows(db, before) && Grows(before, after) && Grows(after, db')
    ensures Closed(db, recs) ==> before.locations == after.locations == db'.locations == db.locations
    decreases |recs|
  {
    var n := |recs| - 1;
    var mid := LastStep(db, job, recs, db');
    if k == n {
      before, after := mid, db';
    } else {
      before, after := SplitAt(db, job, recs[..n], mid, k);
      assert recs[..n][..k] == recs[..k];
      GrowsTransitive(after, mid, db');
    }
  }

  /** After any run each record is recorded somewhere in its box. */
  lemma RunRecords(db: Db, job: Job, recs: seq<Record>, db': Db, k: nat) returns (l: Location)
    requires Applies(db, job, recs, db') && k < |recs|
    ensures l in Box(db', recs[k]) && Recorded(db', l, recs[k])
  {
    var before, after := SplitAt(db, job, recs, db', k);
    StepEffect(before, job, recs[k], after);
    if after.sightings == before.sightings {
      l :| l in after.locations && InBox(l, recs[k]);
      assert l !in Unrecorded(after, recs[k]);
    } else {
      l :| l in Box(after, recs[k]) && Recorded(after, l, recs[k]);
    }
    assert l in db'.locations;
    RecordedStays(after, db', l, recs[k]);
  }

  /** A run over occupied boxes records each record at one more location of its box,
      as long as there is one left. */
  lemma RunShrinks(db: Db, job: Job, recs: seq<Record>, db': Db, k: nat)
    requires Applies(db, job, recs, db') && Closed(db, recs) && k < |recs|
    ensures |Unrecorded(db', recs[k])| <= |Unrecorded(db, recs[k])|
    ensures Unrecorded(db, recs[k]) != {} ==> |Unrecorded(db', recs[k])| < |Unrecorded(db, recs[k])|
  {
    var rec := recs[k];
    var before, after := SplitAt(db, job, recs, db', k);
    StepEffect(before, job, rec, after);
    UnrecordedShrinks(db, before, rec);
    UnrecordedShrinks(before, after, rec);
    UnrecordedShrinks(after, db', rec);
    if after.sightings != before.sightings {
      var l :| l in Box(after, rec) && !Recorded(before, l, rec) && Recorded(after, l, rec);
      assert l in Unrecorded(before, rec) && l !in Unrecorded(after, rec);
      CardinalityOfSubset(Unrecorded(after, rec), Unrecorded(before, rec));
    }
  }

  /** s is a report of rec by this job: everything the source says a sighting carries. */
  ghost predicate Reports(db: Db, s: Sighting, job: Job, rec: Record) {
    && s.reporter == job.importer && s.externalId == Some(rec.externalId) && s.traits == rec.traits
    && s.transpired == (if rec.exists_ then "sighted" else "unknown") && s.toExist == rec.exists_
    && (rec.when.Some? && rec.when.value != -62135596800 ==> s.observedAt == rec.when.value)
    && (rec.when.None? || rec.when.value == -62135596800 ==> s.observedAt == job.observedAt)
    && exists l :: l in db.locations && l.id == s.locationId && InBox(l, rec)
  }

  ghost predicate ReportsSome(db: Db, s: Sighting, job: Job, recs: seq<Record>) {
    exists i :: 0 <= i < |recs| && Reports(db, s, job, recs[i])
  }

  lemma StepReports(db: Db, job: Job, rec: Record, db': Db)
    requires Steps(db, job, rec, db')
    ensures forall k :: |db.sightings| <= k < |db'.sightings| ==> Reports(db', db'.sightings[k], job, rec)
  {
    StepEffect(db, job, rec, db');
  }

  /** Every sighting a run appends is a report of one of its records, in that record's box. */
  lemma {:induction false} RunAppendsReports(db: Db, job: Job, recs: seq<Record>, db': Db)
    requires Applies(db, job, recs, db')
    ensures |db.sightings| <= |db'.sightings| <= |db.sightings| + |recs|
    ensures forall k :: |db.sightings| <= k < |db'.sightings| ==> ReportsSome(db', db'.sightings[k], job, recs)
    decreases |recs|
  {
    if recs == [] {
    } else {
      var n := |recs| - 1;
      var mid :| Applies(db, job, recs[..n], mid) && Steps(mid, job, recs[n], db');
      RunAppendsReports(db, job, recs[..n], mid);
      StepEffect(mid, job, recs[n], db');
      StepReports(mid, job, recs[n], db');
      forall k | |db.sightings| <= k < |db'.sightings|
        ensures ReportsSome(db', db'.sightings[k], job, recs)
      {
        if k < |mid.sightings| {
          var i :| 0 <= i < n && Reports(mid, mid.sightings[k], job, recs[..n][i]);
          var l :| l in mid.locations && l.id == mid.sightings[k].locationId && InBox(l, recs[i]);
          assert l in db'.locations && Reports(db', db'.sightings[k], job, recs[i]);
        } else {
          assert Reports(db', db'.sightings[k], job, recs[n]);
        }
      }
    }
  }

  /** Every record's box is occupied and fully recorded: what makes a re-run a no-op. */
  ghost predicate Settled(db: Db, recs: seq<Record>) {
    forall k :: 0 <= k < |recs| ==> Occupied(db, recs[k]) && Unrecorded(db, recs[k]) == {}
  }

  lemma {:induction false} SettledRunChangesNothing(db: Db, job: Job, recs: seq<Record>, db': Db)
    requires Applies(db, job, recs, db') && Settled(db, recs)
    ensures db' == db
    decreases |recs|
  {
    if recs == [] {
    } else {
      var n := |recs| - 1;
      var mid :| Applies(db, job, recs[..n], mid) && Steps(mid, job, recs[n], db');
      assert forall i :: 0 <= i < n ==> recs[..n][i] == recs[i];
      SettledRunChangesNothing(db, job, recs[..n], mid);
      assert Occupied(db, recs[n]) && Unrecorded(db, recs[n]) == {};
    }
  }

  /** A run changes nothing if and only if the database is settled for the batch. The
      documented promise that re-running an unchanged map is a no-op holds exactly then. */
  lemma NoOpIffSettled(db: Db, job: Job, recs: seq<Record>, db': Db)
    requires Applies(db, job, recs, db')
    ensures db' == db <==> Settled(db, recs)
  {
    if Settled(db, recs) {
      SettledRunChangesNothing(db, job, recs, db');
    } else if db' == db {
      RunEffect(db, job, recs, db');
      forall k | 0 <= k < |recs|
        ensures Unrecorded(db, recs[k]) == {}
      {
        RunShrinks(db, job, recs, db', k);
      }
    }
  }

  /** A settled database accepts the batch from any importer, even one that is not a user. */
  lemma {:induction false} SettledApplies(db: Db, job: Job, recs: seq<Record>)
    requires Settled(db, recs)
    ensures Applies(db, job, recs, db)
    decreases |recs|
  {
    if recs == [] {
    } else {
      var n := |recs| - 1;
      assert forall i :: 0 <= i < n ==> recs[..n][i] == recs[i];
      SettledApplies(db, job, recs[..n]);
      assert Occupied(db, recs[n]) && Unrecorded(db, recs[n]) == {};
      OneMoreStep(db, job, recs, n, db, db);
      assert recs[..n + 1] == recs;
    }
  }

  // ---------------------------------------------------------------------------
  // In the terms of the tables
  // ---------------------------------------------------------------------------

  /** The box of a record: 0.000045 degrees to every side, the edges included. */
  lemma InBoxMeans(l: Location, rec: Record)
    ensures InBox(l, rec) <==> -0.000045 <= l.lat - rec.lat <= 0.000045 && -0.000045 <= l.lon - rec.lon <= 0.000045
  {
  }

  /** What keeps the second statement from choosing l: an earlier sighting at l that carries both
      the record's key and its state, whoever reported it. */
  lemma RecordedMeans(db: Db, l: Location, rec: Record)
    ensures Recorded(db, l, rec) <==>
            exists s :: s in db.sightings && s.locationId == l.id && s.externalId == Some(rec.externalId)
                        && s.transpired == (if rec.exists_ then "sighted" else "unknown")
  {
    if s :| s in db.sightings && s.locationId == l.id && s.externalId == Some(rec.externalId)
            && s.transpired == (if rec.exists_ then "sighted" else "unknown")
    {
      assert SightingRecords(s, l, rec);
    }
  }

  /** A location of the box where no sighting carries both key and state makes one pass append
      exactly one sighting, so a user's own report without a key never stands in for the
      importer's. */
  lemma NewKeyIsAppended(db: Db, job: Job, rec: Record, db': Db, l: Location)
    requires Steps(db, job, rec, db') && l in db.locations
    requires -0.000045 <= l.lat - rec.lat <= 0.000045 && -0.000045 <= l.lon - rec.lon <= 0.000045
    requires forall s :: s in db.sightings && s.locationId == l.id ==>
               s.externalId != Some(rec.externalId) || s.transpired != (if rec.exists_ then "sighted" else "unknown")
    ensures |db'.sightings| == |db.sightings| + 1 && db'.locations == db.locations
  {
    InBoxMeans(l, rec);
    RecordedMeans(db, l, rec);
    StepEffect(db, job, rec, db');
    assert l in Unrecorded(db, rec);
    assert db'.sightings == db.sightings ==> l in Unrecorded(db', rec);
  }

  /** The no-op law read off the tables. */
  lemma NoOpMeans(db: Db, job: Job, recs: seq<Record>, db': Db)
    requires Applies(db, job, recs, db')
    ensures db' == db <==>
            forall k :: 0 <= k < |recs| ==>
              && (exists l :: l in db.locations && InBox(l, recs[k]))
              && forall l :: l in db.locations && InBox(l, recs[k]) ==>
                   exists s :: s in db.sightings && s.locationId == l.id && s.externalId == Some(recs[k].externalId)
                               && s.transpired == (if recs[k].exists_ then "sighted" else "unknown")
  {
    NoOpIffSettled(db, job, recs, db');
    forall k | 0 <= k < |recs|
      ensures Unrecorded(db, recs[k]) == {} <==>
              forall l :: l in db.locations && InBox(l, recs[k]) ==>
                exists s :: s in db.sightings && s.locationId == l.id && s.externalId == Some(recs[k].externalId)
                            && s.transpired == (if recs[k].exists_ then "sighted" else "unknown")
    {
      forall l
        ensures Recorded(db, l, recs[k]) <==>
                exists s :: s in db.sightings && s.locationId == l.id && s.externalId == Some(recs[k].externalId)
                            && s.transpired == (if recs[k].exists_ then "sighted" else "unknown")
      {
        RecordedMeans(db, l, recs[k]);
      }
      if Unrecorded(db, recs[k]) != {} {
        var l :| l in Unrecorded(db, recs[k]);
        assert l in db.locations && InBox(l, recs[k]) && !Recorded(db, l, recs[k]);
      } else {
        assert forall l :: l in db.locations && InBox(l, recs[k]) ==> l !in Unrecorded(db, recs[k]);
      }
    }
  }

  /** After a run every record of it is told at a location of its box: the row is there. */
  lemma RunTells(db: Db, job: Job, recs: seq<Record>, db': Db, k: nat) returns (l: Location, s: Sighting)
    requires Applies(db, job, recs, db') && k < |recs|
    ensures l in db'.locations && s in db'.sightings && s.locationId == l.id
    ensures -0.000045 <= l.lat - recs[k].lat <= 0.000045 && -0.000045 <= l.lon - recs[k].lon <= 0.000045
    ensures s.externalId == Some(recs[k].externalId)
    ensures s.transpired == if recs[k].exists_ then "sighted" else "unknown"
  {
    l := RunRecords(db, job, recs, db', k);
    InBoxMeans(l, recs[k]);
    RecordedMeans(db', l, recs[k]);
    s :| s in db'.sightings && s.locationId == l.id && s.externalId == Some(recs[k].externalId)
         && s.transpired == (if recs[k].exists_ then "sighted" else "unknown");
  }

  /** When a pass ends in an error: it has to insert a row, and the importer is no user, or the
      row is a location outside the CHECKed ranges. */
  lemma StepFailsIff(db: Db, job: Job, rec: Record)
    requires Keyed(db) && forall s :: s in db.sightings ==> HasLocation(db, s.locationId)
    ensures StepFails(db, job, rec) <==>
            if !Occupied(db, rec) then
              !(-90.0 <= rec.lat <= 90.0 && -180.0 <= rec.lon <= 180.0) || !HasUser(db, job.importer)
            else
              !HasUser(db, job.importer) && exists l :: l in Box(db, rec) && !Recorded(db, l, rec)
  {
    if Occupied(db, rec) {
      assert Unrecorded(db, rec) != {} <==> exists l :: l in Unrecorded(db, rec);
      assert forall l :: l in Unrecorded(db, rec) <==> l in Box(db, rec) && !Recorded(db, l, rec);
    }
  }

  // ---------------------------------------------------------------------------
  // Many runs: termination from any database
  // ---------------------------------------------------------------------------

  /** The number of (record, in-box location) pairs not recorded yet. */
  ghost function Missing(db: Db, recs: seq<Record>): nat {
    if recs == [] then 0 else Missing(db, recs[..|recs| - 1]) + |Unrecorded(db, recs[|recs| - 1])|
  }

  lemma {:induction false} MissingShrinks(db: Db, db': Db, recs: seq<Record>)
    requires Grows(db, db') && db'.locations == db.locations
    ensures Missing(db', recs) <= Missing(db, recs)
    ensures (exists k :: 0 <= k < |recs| && |Unrecorded(db', recs[k])| < |Unrecorded(db, recs[k])|) ==>
              Missing(db', recs) < Missing(db, recs)
    decreases |recs|
  {
    if recs == [] {
    } else {
      var n := |recs| - 1;
      MissingShrinks(db, db', recs[..n]);
      UnrecordedShrinks(db, db', recs[n]);
      assert forall k :: 0 <= k < n ==> recs[..n][k] == recs[k];
    }
  }

  /** All of the batch is charged to `Missing`: the sightings appended by the first k
      records are no more than the missing pairs used up. */
  lemma {:induction false} PrefixCharges(db: Db, job: Job, recs: seq<Record>, k: nat, mid: Db)
    requires k <= |recs| && Closed(db, recs) && Applies(db, job, recs[..k], mid)
    ensures Grows(db, mid) && mid.locations == db.locations
    ensures Missing(mid, recs) + |mid.sightings| <= Missing(db, recs) + |db.sightings|
    decreases k
  {
    assert forall i :: 0 <= i < k ==> recs[..k][i] == recs[i];
    RunEffect(db, job, recs[..k], mid);
    if k == 0 {
    } else {
      assert recs[..k][..k - 1] == recs[..k - 1];
      var prev :| Applies(db, job, recs[..k - 1], prev) && Steps(prev, job, recs[k - 1], mid);
      PrefixCharges(db, job, recs, k - 1, prev);
      StepEffect(prev, job, recs[k - 1], mid);
      MissingShrinks(prev, mid, recs);
      if mid.sightings != prev.sightings {
        var rec := recs[k - 1];
        var l :| l in Box(mid, rec) && !Recorded(prev, l, rec) && Recorded(mid, l, rec);
        UnrecordedShrinks(prev, mid, rec);
        assert l in Unrecorded(prev, rec) && l !in Unrecorded(mid, rec);
        CardinalityOfSubset(Unrecorded(mid, rec), Unrecorded(prev, rec));
      }
    }
  }

  /** A re-run creates no location, and every sighting it appends uses up a missing pair. */
  lemma RerunCharges(db: Db, job: Job, recs: seq<Record>, db': Db)
    requires Applies(db, job, recs, db') && Closed(db, recs)
    ensures db'.locations == db.locations
    ensures Missing(db', recs) + |db'.sightings| <= Missing(db, recs) + |db.sightings|
    ensures db' != db ==> Missing(db', recs) < Missing(db, recs)
  {
    assert recs[..|recs|] == recs;
    PrefixCharges(db, job, recs, |recs|, db');
  }

  lemma {:induction false} NothingMissingIsSettled(db: Db, recs: seq<Record>)
    requires Closed(db, recs)
    ensures Missing(db, recs) == 0 <==> Settled(db, recs)
    decreases |recs|
  {
    if recs == [] {
    } else {
      var n := |recs| - 1;
      assert forall i :: 0 <= i < n ==> recs[..n][i] == recs[i];
      NothingMissingIsSettled(db, recs[..n]);
    }
  }

  lemma {:induction false} SettledForever(trace: seq<Db>, jobs: seq<Job>, recs: seq<Record>, i: nat, j: nat)
    requires Reruns(trace, jobs, recs) && i <= j < |trace| && Settled(trace[i], recs)
    ensures trace[j] == trace[i]
    decreases j - i
  {
    if i == j {
    } else {
      NoOpIffSettled(trace[i], jobs[i], recs, trace[i + 1]);
      SettledForever(trace, jobs, recs, i + 1, j);
    }
  }

  /** From any database whatever, repeated import of one batch stops: after the first
      run no location is created, and after as many further runs as there are missing
      pairs the database never changes again. */
  lemma {:induction false} RerunsTerminate(trace: seq<Db>, jobs: seq<Job>, recs: seq<Record>, i: nat)
    requires Reruns(trace, jobs, recs) && 1 <= i < |trace|
    ensures Closed(trace[i], recs) && trace[i].locations == trace[1].locations
    ensures Missing(trace[i], recs) <= Missing(trace[1], recs)
    ensures i > Missing(trace[1], recs) ==> Settled(trace[i], recs) && forall j :: i <= j < |trace| ==>
            trace[j] == trace[i]
  {
    DeficitAfter(trace, jobs, recs, i);
    if i > Missing(trace[1], recs) {
      NothingMissingIsSettled(trace[i], recs);
      forall j | i <= j < |trace|
        ensures trace[j] == trace[i]
      {
        SettledForever(trace, jobs, recs, i, j);
      }
    }
  }

  lemma {:induction false} DeficitAfter(trace: seq<Db>, jobs: seq<Job>, recs: seq<Record>, i: nat)
    requires Reruns(trace, jobs, recs) && 1 <= i < |trace|
    ensures Closed(trace[i], recs) && trace[i].locations == trace[1].locations
    ensures Missing(trace[i], recs) == 0 || Missing(trace[i], recs) + (i - 1) <= Missing(trace[1], recs)
    decreases i
  {
    RunEffect(trace[i - 1], jobs[i - 1], recs, trace[i]);
    if i == 1 {
    } else {
      DeficitAfter(trace, jobs, recs, i - 1);
      RerunCharges(trace[i - 1], jobs[i - 1], recs, trace[i]);
      NoOpIffSettled(trace[i - 1], jobs[i - 1], recs, trace[i]);
      NothingMissingIsSettled(trace[i - 1], recs);
    }
  }

  // ---------------------------------------------------------------------------
  // Many runs: how many are enough
  // ---------------------------------------------------------------------------

  lemma {:induction false} UnrecordedAfter(trace: seq<Db>, jobs: seq<Job>, recs: seq<Record>, k: nat, i: nat)
    requires Reruns(trace, jobs, recs) && k < |recs| && 1 <= i < |trace|
    ensures Unrecorded(trace[i], recs[k]) == {} || |Unrecorded(trace[i], recs[k])| + i <= |Box(trace[1], recs[k])|
    decreases i
  {
    DeficitAfter(trace, jobs, recs, i);
    if i == 1 {
      var l := RunRecords(trace[0], jobs[0], recs, trace[1], k);
      CardinalityOfSubset(Unrecorded(trace[1], recs[k]), Box(trace[1], recs[k]));
    } else {
      UnrecordedAfter(trace, jobs, recs, k, i - 1);
      DeficitAfter(trace, jobs, recs, i - 1);
      RunShrinks(trace[i - 1], jobs[i - 1], recs, trace[i], k);
    }
  }

  /** When no box holds more than n locations after the first run, n runs are enough:
      from then on the database never changes. With n == 1, one run is enough. */
  lemma ConvergesWithin(trace: seq<Db>, jobs: seq<Job>, recs: seq<Record>, n: nat)
    requires Reruns(trace, jobs, recs) && 1 <= n < |trace|
    requires forall k :: 0 <= k < |recs| ==> |Box(trace[1], recs[k])| <= n
    ensures Settled(trace[n], recs)
    ensures forall i :: n <= i < |trace| ==> trace[i] == trace[n]
  {
    DeficitAfter(trace, jobs, recs, n);
    forall k | 0 <= k < |recs|
      ensures Unrecorded(trace[n], recs[k]) == {}
    {
      UnrecordedAfter(trace, jobs, recs, k, n);
    }
    forall i | n <= i < |trace|
      ensures trace[i] == trace[n]
    {
      SettledForever(trace, jobs, recs, n, i);
    }
  }

  // ---------------------------------------------------------------------------
  // Separation and packing
  // ---------------------------------------------------------------------------

  /** More than DELTA apart in latitude or in longitude. */
  predicate Apart(a: Location, b: Location) {
    a.lat - b.lat > DELTA || b.lat - a.lat > DELTA || a.lon - b.lon > DELTA || b.lon - a.lon > DELTA
  }

  ghost predicate Separated(db: Db) {
    forall i, j :: 0 <= i < j < |db.locations| ==> Apart(db.locations[i], db.locations[j])
  }

  lemma StepKeepsSeparation(db: Db, job: Job, rec: Record, db': Db)
    requires Steps(db, job, rec, db') && Separated(db)
    ensures Separated(db')
  {
    if !Occupied(db, rec) {
      assert forall i :: 0 <= i < |db.locations| ==> db.locations[i] in db.locations && !InBox(db.locations[i], rec);
    }
  }

  /** Import keeps the locations separated: it creates one only in an empty box. */
  lemma {:induction false} RunKeepsSeparation(db: Db, job: Job, recs: seq<Record>, db': Db)
    requires Applies(db, job, recs, db') && Separated(db)
    ensures Separated(db')
    decreases |recs|
  {
    if recs == [] {
    } else {
      var n := |recs| - 1;
      var mid :| Applies(db, job, recs[..n], mid) && Steps(mid, job, recs[n], db');
      RunKeepsSeparation(db, job, recs[..n], mid);
      StepKeepsSeparation(mid, job, recs[n], db');
    }
  }

  /** The locations of a box that lie in one of its four closed quadrants. */
  ghost function Quadrant(db: Db, rec: Record, north: bool, east: bool): set<Location> {
    set l | l in Box(db, rec) && (l.lat >= rec.lat) == north && (l.lon >= rec.lon) == east
  }

  lemma AtMostOne<T>(s: set<T>)
    requires forall a, b :: a in s && b in s ==> a == b
    ensures |s| <= 1
  {
    if s != {} {
      var a :| a in s;
      assert s == {a};
    }
  }

  lemma CardinalityOfUnion<T>(a: set<T>, b: set<T>)
    ensures |a + b| <= |a| + |b|
  {
  }

  lemma QuadrantHoldsOne(db: Db, rec: Record, north: bool, east: bool)
    requires Separated(db)
    ensures |Quadrant(db, rec, north, east)| <= 1
  {
    var q := Quadrant(db, rec, north, east);
    forall a, b | a in q && b in q
      ensures a == b
    {
      var i :| 0 <= i < |db.locations| && db.locations[i] == a;
      var j :| 0 <= j < |db.locations| && db.locations[j] == b;
      assert !Apart(a, b) && !Apart(b, a);
    }
    AtMostOne(q);
  }

  /** The packing bound: separated locations leave room for at most four in a box. */
  lemma BoxHoldsFour(db: Db, rec: Record)
    requires Separated(db)
    ensures |Box(db, rec)| <= 4
  {
    var ne, nw := Quadrant(db, rec, true, true), Quadrant(db, rec, true, false);
    var se, sw := Quadrant(db, rec, false, true), Quadrant(db, rec, false, false);
    QuadrantHoldsOne(db, rec, true, true);
    QuadrantHoldsOne(db, rec, true, false);
    QuadrantHoldsOne(db, rec, false, true);
    QuadrantHoldsOne(db, rec, false, false);
    assert Box(db, rec) <= ne + nw + (se + sw);
    CardinalityOfSubset(Box(db, rec), ne + nw + (se + sw));
    CardinalityOfUnion(ne, nw);
    CardinalityOfUnion(se, sw);
    CardinalityOfUnion(ne + nw, se + sw);
  }

  /** From separated locations (none, say) four runs of a batch are always enough. */
  lemma FourRunsSuffice(trace: seq<Db>, jobs: seq<Job>, recs: seq<Record>)
    requires Reruns(trace, jobs, recs) && Separated(trace[0]) && |trace| > 4
    ensures Settled(trace[4], recs)
    ensures forall i :: 4 <= i < |trace| ==> trace[i] == trace[4]
  {
    RunKeepsSeparation(trace[0], jobs[0], recs, trace[1]);
    forall k | 0 <= k < |recs|
      ensures |Box(trace[1], recs[k])| <= 4
    {
      BoxHoldsFour(trace[1], recs[k]);
    }
    ConvergesWithin(trace, jobs, recs, 4);
  }

  // ---------------------------------------------------------------------------
  // However the imports are mixed: nothing is told twice
  // ---------------------------------------------------------------------------

  /** Two imported sightings of one key tell the same state of the same place. */
  predicate Repeats(s: Sighting, t: Sighting) {
    s.externalId.Some? && s.externalId == t.externalId && s.transpired == t.transpired && s.locationId == t.locationId
  }

  ghost predicate NoRepeats(db: Db) {
    forall i, j :: 0 <= i < j < |db.sightings| ==> !Repeats(db.sightings[i], db.sightings[j])
  }

  lemma StepKeepsNoRepeats(db: Db, job: Job, rec: Record, db': Db)
    requires Steps(db, job, rec, db') && NoRepeats(db)
    ensures NoRepeats(db')
  {
    StepEffect(db, job, rec, db');
    if db'.sightings != db.sightings {
      var l :| !Recorded(db, l, rec) && db'.sightings == db.sightings + [NewSighting(db, job, rec, l)];
      forall i | 0 <= i < |db.sightings|
        ensures !Repeats(db.sightings[i], NewSighting(db, job, rec, l))
      {
        if Repeats(db.sightings[i], NewSighting(db, job, rec, l)) {
          assert db.sightings[i] in db.sightings && SightingRecords(db.sightings[i], l, rec);
          assert Recorded(db, l, rec);
        }
      }
    }
  }

  /** No import tells a state of a key twice at one location, whatever its batch. */
  lemma {:induction false} RunKeepsNoRepeats(db: Db, job: Job, recs: seq<Record>, db': Db)
    requires Applies(db, job, recs, db') && NoRepeats(db)
    ensures NoRepeats(db')
    decreases |recs|
  {
    if recs == [] {
    } else {
      var n := |recs| - 1;
      var mid :| Applies(db, job, recs[..n], mid) && Steps(mid, job, recs[n], db');
      RunKeepsNoRepeats(db, job, recs[..n], mid);
      StepKeepsNoRepeats(mid, job, recs[n], db');
    }
  }

  /** The sightings that tell rec's state and key at a location of its box. */
  function Tellings(db: Db, rec: Record): set<Sighting> {
    set s | s in db.sightings && Tells(s, Box(db, rec), rec) && s.transpired == rec.Transpired()
  }

  lemma {:induction false} InjectionBound<A(!new), B(!new)>(s: set<A>, t: set<B>, rel: (A, B) -> bool)
    requires forall a :: a in s ==> exists b :: b in t && rel(a, b)
    requires forall a, c, b :: a in s && c in s && b in t && rel(a, b) && rel(c, b) ==> a == c
    ensures |s| <= |t|
  {
    if s == {} {
    } else {
      var a :| a in s;
      var b :| b in t && rel(a, b);
      forall c | c in s - {a}
        ensures exists d :: d in t - {b} && rel(c, d)
      {
        var d :| d in t && rel(c, d);
        assert d != b;
      }
      InjectionBound(s - {a}, t - {b}, rel);
    }
  }

  /** So a record is told no more often than its box holds locations. */
  lemma ToldOncePerLocation(db: Db, rec: Record)
    requires NoRepeats(db)
    ensures |Tellings(db, rec)| <= |Box(db, rec)|
  {
    var at := (s: Sighting, l: Location) => l.id == s.locationId;
    var tellings, box := Tellings(db, rec), Box(db, rec);
    forall s, t, l | s in tellings && t in tellings && l in box && at(s, l) && at(t, l)
      ensures s == t
    {
      assert Repeats(s, t) && Repeats(t, s);
      var i :| 0 <= i < |db.sightings| && db.sightings[i] == s;
      var j :| 0 <= j < |db.sightings| && db.sightings[j] == t;
    }
    forall s | s in tellings
      ensures exists l :: l in box && at(s, l)
    {
      var l :| l in box && l.id == s.locationId;
      assert at(s, l);
    }
    InjectionBound(tellings, box, at);
  }

  /** Imports of any batches by any importers, one after another. */
  ghost predicate Imports(trace: seq<Db>, jobs: seq<Job>, batches: seq<seq<Record>>) {
    && |trace| == |jobs| + 1 == |batches| + 1
    && forall i :: 0 <= i < |jobs| ==> Applies(trace[i], jobs[i], batches[i], trace[i + 1])
  }

  lemma {:induction false} ImportsKeep(trace: seq<Db>, jobs: seq<Job>, batches: seq<seq<Record>>, i: nat)
    requires Imports(trace, jobs, batches) && i < |trace| && Separated(trace[0]) && NoRepeats(trace[0])
    ensures Separated(trace[i]) && NoRepeats(trace[i])
  {
    if i == 0 {
    } else {
      ImportsKeep(trace, jobs, batches, i - 1);
      RunKeepsSeparation(trace[i - 1], jobs[i - 1], batches[i - 1], trace[i]);
      RunKeepsNoRepeats(trace[i - 1], jobs[i - 1], batches[i - 1], trace[i]);
    }
  }

  /** What is counted. */
  lemma TellingsMean(db: Db, rec: Record, s: Sighting)
    ensures s in Tellings(db, rec) <==>
            && s in db.sightings && s.externalId == Some(rec.externalId)
            && s.transpired == (if rec.exists_ then "sighted" else "unknown")
            && exists l :: l in db.locations && InBox(l, rec) && l.id == s.locationId
  {
    if l :| l in db.locations && InBox(l, rec) && l.id == s.locationId {
      assert l in Box(db, rec);
    }
  }

  /** Over any sequence of imports from separated locations, whatever their batches, a record has
      at most four tellings in its box. */
  lemma ToldFourTimesAtMost(trace: seq<Db>, jobs: seq<Job>, batches: seq<seq<Record>>, i: nat, rec: Record)
    requires Imports(trace, jobs, batches) && i < |trace| && Separated(trace[0]) && NoRepeats(trace[0])
    ensures |Tellings(trace[i], rec)| <= 4
  {
    ImportsKeep(trace, jobs, batches, i);
    ToldOncePerLocation(trace[i], rec);
    BoxHoldsFour(trace[i], rec);
  }

  // ---------------------------------------------------------------------------
  // Single records: the bound is tight, and a state told before is not told again
  // ---------------------------------------------------------------------------

  /** One pass appends a sighting exactly when the box is empty or some location in it lacks
      the record's state and key. */
  lemma AppendsIffUnrecorded(db: Db, job: Job, rec: Record, db': Db)
    requires Steps(db, job, rec, db') && (forall s :: s in db.sightings ==> HasLocation(db, s.locationId)) && Keyed(db)
    ensures db'.sightings != db.sightings <==> !Occupied(db, rec) || Unrecorded(db, rec) != {}
  {
    StepEffect(db, job, rec, db');
    if !Occupied(db, rec) {
      var mid := EnsureLocation(db, job, rec).value;
      var l := mid.locations[|db.locations|];
      assert l in Box(mid, rec);
      forall s | s in db.sightings
        ensures s.locationId < l.id
      {
        var k :| k in db.locations && k.id == s.locationId;
      }
      assert l in Unrecorded(mid, rec);
    }
  }

  /** A report of rec's key at one of the places. */
  predicate Tells(s: Sighting, places: set<Location>, rec: Record) {
    s.externalId == Some(rec.externalId) && exists l :: l in places && l.id == s.locationId
  }

  /** The state that the source last told of rec's key at these places. */
  function LastTold(sightings: seq<Sighting>, places: set<Location>, rec: Record): Option<string> {
    if sightings == [] then None
    else
      var n := |sightings| - 1;
      if Tells(sightings[n], places, rec) then Some(sightings[n].transpired) else LastTold(sightings[..n], places, rec)
  }

  lemma {:induction false} LastToldIsTold(sightings: seq<Sighting>, places: set<Location>, rec: Record)
    ensures LastTold(sightings, places, rec).None? ==> forall s :: s in sightings ==> !Tells(s, places, rec)
    ensures LastTold(sightings, places, rec).Some? ==>
              exists s :: s in sightings && Tells(s, places, rec)
                  && s.transpired == LastTold(sightings, places, rec).value
    decreases |sightings|
  {
    if sightings == [] {
    } else {
      var n := |sightings| - 1;
      LastToldIsTold(sightings[..n], places, rec);
      assert sightings == sightings[..n] + [sightings[n]];
    }
  }

  lemma LastToldOfAppend(sightings: seq<Sighting>, s: Sighting, places: set<Location>, rec: Record)
    ensures LastTold(sightings + [s], places, rec) ==
            if Tells(s, places, rec) then Some(s.transpired) else LastTold(sightings, places, rec)
  {
    assert (sightings + [s])[..|sightings|] == sightings;
  }

  /** The documented rule: a corrective sighting is appended only when the reported state differs
      from what the source last told. */
  ghost predicate FollowsRule(db: Db, rec: Record, db': Db) {
    db'.sightings != db.sightings <==> LastTold(db.sightings, Box(db, rec), rec) != Some(rec.Transpired())
  }

  /** When one pass follows the documented rule, from any database: always if the box is empty,
      and otherwise exactly if the box is fully recorded just when the last word there is the
      record's state. */
  lemma FollowsRuleIff(db: Db, job: Job, rec: Record, db': Db)
    requires Steps(db, job, rec, db') && (forall s :: s in db.sightings ==> HasLocation(db, s.locationId)) && Keyed(db)
    ensures FollowsRule(db, rec, db') <==>
            !Occupied(db, rec) || (Unrecorded(db, rec) == {} <==>
                LastTold(db.sightings, Box(db, rec), rec) == Some(rec.Transpired()))
  {
    AppendsIffUnrecorded(db, job, rec, db');
    LastToldIsTold(db.sightings, Box(db, rec), rec);
    if !Occupied(db, rec) {
      assert Box(db, rec) == {};
    }
  }

  lemma LastWordIsRecorded(db: Db, rec: Record, l: Location)
    requires Box(db, rec) == {l} && LastTold(db.sightings, {l}, rec) == Some(rec.Transpired())
    ensures Recorded(db, l, rec)
  {
    LastToldIsTold(db.sightings, {l}, rec);
    var s :| s in db.sightings && Tells(s, {l}, rec) && s.transpired == rec.Transpired();
    assert SightingRecords(s, l, rec);
  }

  /** At a lone location the pass follows the rule if and only if the record's state was either
      never told there or is the last word. */
  lemma LoneLocationFollowsRuleIff(db: Db, job: Job, rec: Record, db': Db, l: Location)
    requires Steps(db, job, rec, db') && (forall s :: s in db.sightings ==> HasLocation(db, s.locationId)) && Keyed(db)
    requires Box(db, rec) == {l}
    ensures FollowsRule(db, rec, db') <==>
            (Recorded(db, l, rec) ==> LastTold(db.sightings, {l}, rec) == Some(rec.Transpired()))
  {
    FollowsRuleIff(db, job, rec, db');
    assert l in Box(db, rec);
    assert Unrecorded(db, rec) == if Recorded(db, l, rec) then {} else {l};
    if LastTold(db.sightings, {l}, rec) == Some(rec.Transpired()) {
      LastWordIsRecorded(db, rec, l);
    }
  }

  /** Every location of the box has carried the record's state and key, in some past state
      db of a database that has grown since without a new location in the box: then the
      record leaves no trace, whatever was reported in between. */
  lemma ToldOnceIsNotToldAgain(db: Db, later: Db, job: Job, rec: Record, db': Db)
    requires Settled(db, [rec]) && Grows(db, later) && Box(later, rec) == Box(db, rec)
    requires Steps(later, job, rec, db')
    ensures db' == later
  {
    assert Occupied(db, [rec][0]) && Unrecorded(db, [rec][0]) == {};
    OccupiedStays(db, later, rec);
    forall l | l in Box(later, rec)
      ensures Recorded(later, l, rec)
    {
      assert l !in Unrecorded(db, rec);
      RecordedStays(db, later, l, rec);
    }
    assert Unrecorded(later, rec) == {};
  }

  lemma SingleRun(db: Db, job: Job, rec: Record, db': Db)
    ensures Applies(db, job, [rec], db') <==> Steps(db, job, rec, db')
  {
    var none := [rec][..|[rec]| - 1];
    assert none == [] && [rec][|[rec]| - 1] == rec;
    assert Applies(db, job, none, db);
  }

  /** A sign reported standing, then gone, then standing again at a lone location keeps "gone" as
      its last word: the rule demands a third sighting and the import appends none. */
  lemma FlipBackIsLost(job: Job, rec: Record, d0: Db, d1: Db, d2: Db, d3: Db)
    requires Applies(d0, job, [rec], d1) && Applies(d1, job, [rec.Flipped()], d2) && Applies(d2, job, [rec], d3)
    requires |Box(d1, rec)| == 1
    ensures d3 == d2
    ensures d2 != d1 ==> LastTold(d2.sightings, Box(d2, rec), rec) == Some(rec.Flipped().Transpired())
    ensures d2 != d1 ==> !FollowsRule(d2, rec, d3)
  {
    ConvergesWithin([d0, d1], [job], [rec], 1);
    assert Occupied(d1, [rec][0]);
    SingleRun(d1, job, rec.Flipped(), d2);
    SingleRun(d2, job, rec, d3);
    FlippedGrows(d1, job, rec, d2);
    ToldOnceIsNotToldAgain(d1, d2, job, rec, d3);
    if d2 != d1 {
      FlippedIsLastWord(d1, job, rec, d2);
    }
  }

  lemma FlippedGrows(db: Db, job: Job, rec: Record, db': Db)
    requires Occupied(db, rec) && Steps(db, job, rec.Flipped(), db')
    ensures Grows(db, db') && Box(db', rec) == Box(db, rec)
  {
    assert Occupied(db, rec.Flipped());
    StepEffect(db, job, rec.Flipped(), db');
  }

  lemma FlippedIsLastWord(db: Db, job: Job, rec: Record, db': Db)
    requires Occupied(db, rec) && Steps(db, job, rec.Flipped(), db') && db' != db
    ensures LastTold(db'.sightings, Box(db', rec), rec) == Some(rec.Flipped().Transpired())
  {
    assert Occupied(db, rec.Flipped());
    StepEffect(db, job, rec.Flipped(), db');
    var l :| l in Box(db', rec.Flipped()) && db'.sightings == db.sightings + [NewSighting(db, job, rec.Flipped(), l)];
    var s := NewSighting(db, job, rec.Flipped(), l);
    assert l in Box(db', rec) && Tells(s, Box(db', rec), rec);
    LastToldOfAppend(db.sightings, s, Box(db', rec), rec);
  }

  lemma RunFromEmptyBox(db: Db, job: Job, rec: Record) returns (db': Db, l: Location)
    requires !Occupied(db, rec) && LocationAccepted(db, job, rec) && Keyed(db)
    requires forall s :: s in db.sightings ==> HasLocation(db, s.locationId)
    ensures Applies(db, job, [rec], db') && Box(db', rec) == {l}
    ensures db'.users == db.users && Recorded(db', l, rec) && !Recorded(db', l, rec.Flipped())
  {
    var mid := EnsureLocation(db, job, rec).value;
    l := mid.locations[|db.locations|];
    forall s | s in db.sightings
      ensures s.locationId < l.id
    {
      var k :| k in db.locations && k.id == s.locationId;
    }
    var s := NewSighting(mid, job, rec, l);
    db' := AppendSighting(mid, s);
    assert forall k :: k in mid.locations <==> k in db.locations || k == l;
    assert Box(mid, rec) == {l} == Box(db', rec);
    assert l in Unrecorded(mid, rec);
    assert s in db'.sightings && SightingRecords(s, l, rec);
    SingleRun(db, job, rec, db');
  }

  lemma RunAtLoneLocation(db: Db, job: Job, rec: Record, l: Location) returns (db': Db)
    requires Box(db, rec) == {l} && !Recorded(db, l, rec) && HasUser(db, job.importer)
    ensures Applies(db, job, [rec], db') && db' != db && Grows(db, db') && db'.locations == db.locations
  {
    db' := AppendSighting(db, NewSighting(db, job, rec, l));
    assert l in Box(db, rec) && l in Unrecorded(db, rec);
    SingleRun(db, job, rec, db');
  }

  /** It happens: wherever a registered importer first reports a sign in an empty box, three runs
      of its batch, as reported, flipped and flipped back, lose the third report. */
  lemma FlipBackHappens(d0: Db, job: Job, rec: Record) returns (d1: Db, d2: Db)
    requires !Occupied(d0, rec) && LocationAccepted(d0, job, rec) && Keyed(d0)
    requires forall s :: s in d0.sightings ==> HasLocation(d0, s.locationId)
    ensures Applies(d0, job, [rec], d1) && Applies(d1, job, [rec.Flipped()], d2) && Applies(d2, job, [rec], d2)
    ensures LastTold(d2.sightings, Box(d2, rec), rec) == Some(rec.Flipped().Transpired()) && !FollowsRule(d2, rec, d2)
  {
    var l: Location;
    d1, l := RunFromEmptyBox(d0, job, rec);
    SameBox(d1, rec);
    d2 := RunAtLoneLocation(d1, job, rec.Flipped(), l);
    SettledAtLone(d1, d2, rec, l);
    SettledApplies(d2, job, [rec]);
    FlipBackIsLost(job, rec, d0, d1, d2, d2);
  }

  lemma SameBox(db: Db, rec: Record)
    ensures Box(db, rec.Flipped()) == Box(db, rec)
  {
  }

  lemma SettledAtLone(db: Db, db': Db, rec: Record, l: Location)
    requires Box(db, rec) == {l} && Recorded(db, l, rec) && Grows(db, db') && db'.locations == db.locations
    ensures Settled(db', [rec])
  {
    RecordedStays(db, db', l, rec);
    assert l in Box(db, rec);
    assert Box(db', rec) == {l};
  }

  /** A sighting at l records rec there and, with distinct ids, nowhere else. */
  lemma OnlyThereRecorded(db: Db, job: Job, rec: Record, l: Location, k: Location)
    requires l.id != k.id && !Recorded(db, k, rec)
    ensures !Recorded(AppendSighting(db, NewSighting(db, job, rec, l)), k, rec)
  {
  }

  lemma ThereRecorded(db: Db, job: Job, rec: Record, l: Location)
    ensures Recorded(AppendSighting(db, NewSighting(db, job, rec, l)), l, rec)
  {
    var s := NewSighting(db, job, rec, l);
    assert s in AppendSighting(db, s).sightings && SightingRecords(s, l, rec);
  }

  lemma UnrecordedWithout(db: Db, job: Job, rec: Record, l: Location)
    requires Keyed(db) && l in Unrecorded(db, rec)
    ensures Unrecorded(AppendSighting(db, NewSighting(db, job, rec, l)), rec) == Unrecorded(db, rec) - {l}
  {
    var db' := AppendSighting(db, NewSighting(db, job, rec, l));
    ThereRecorded(db, job, rec, l);
    UnrecordedShrinks(db, db', rec);
    forall k | k in Unrecorded(db, rec) && k != l
      ensures k in Unrecorded(db', rec)
    {
      OnlyThereRecorded(db, job, rec, l, k);
    }
  }

  /** With distinct ids, one pass over an occupied box uses up exactly one location. */
  lemma StepUsesOne(db: Db, job: Job, rec: Record, db': Db)
    requires Keyed(db) && Occupied(db, rec) && Steps(db, job, rec, db') && Unrecorded(db, rec) != {}
    ensures |Unrecorded(db', rec)| == |Unrecorded(db, rec)| - 1
    ensures Keyed(db') && db' != db && db'.locations == db.locations && db'.users == db.users
  {
    var l :| l in Unrecorded(db, rec) && db' == AppendSighting(db, NewSighting(db, job, rec, l));
    UnrecordedWithout(db, job, rec, l);
    AppendSightingKeyed(db, NewSighting(db, job, rec, l));
    assert |db'.sightings| == |db.sightings| + 1;
  }

  const CENTER := Record(None, "k", 0.0, 0.0, true, Traits(None, "", "", "", ""))
  const IMPORTER := User(1, "importer", "reporter", 0, 0, "")

  /** A database with the importer and no location. */
  const NO_SIGNS := Db(map[], {}, [IMPORTER], None, [], [], [])

  /** For one, a sign at the origin of an empty database: standing, gone, standing. */
  lemma FlipBackExample() returns (d1: Db, d2: Db)
    ensures Applies(NO_SIGNS, Job(1, 0), [CENTER], d1) && Applies(d1, Job(1, 0), [CENTER.Flipped()], d2)
    ensures Applies(d2, Job(1, 0), [CENTER], d2) && LastTold(d2.sightings, Box(d2, CENTER), CENTER) == Some("unknown")
  {
    assert IMPORTER in NO_SIGNS.users;
    d1, d2 := FlipBackHappens(NO_SIGNS, Job(1, 0), CENTER);
  }

  /** Four separated locations, one at each corner of the box around the origin. */
  const CORNERS := Db(map[], {}, [IMPORTER], None,
                      [Location(1, DELTA, DELTA, 1, 0), Location(2, DELTA, -DELTA, 1, 0),
                       Location(3, -DELTA, DELTA, 1, 0), Location(4, -DELTA, -DELTA, 1, 0)], [], [])

  /** A state reached from CORNERS with n locations still unrecorded. */
  ghost predicate Remaining(db: Db, n: nat) {
    Keyed(db) && db.users == [IMPORTER] && Occupied(db, CENTER) && |Unrecorded(db, CENTER)| == n
  }

  lemma CornersRemain()
    ensures Separated(CORNERS) && Remaining(CORNERS, 4)
  {
    var c := CORNERS.locations;
    assert forall l :: l in c ==> InBox(l, CENTER);
    assert Unrecorded(CORNERS, CENTER) == {c[0], c[1], c[2], c[3]};
    assert c[0] in CORNERS.locations;
  }

  lemma AnotherRun(db: Db, n: nat) returns (db': Db)
    requires n > 0 && Remaining(db, n)
    ensures Applies(db, Job(1, 0), [CENTER], db') && Remaining(db', n - 1) && db' != db
  {
    assert IMPORTER in db.users;
    var l :| l in Unrecorded(db, CENTER);
    db' := AppendSighting(db, NewSighting(db, Job(1, 0), CENTER, l));
    SingleRun(db, Job(1, 0), CENTER, db');
    StepUsesOne(db, Job(1, 0), CENTER, db');
  }

  lemma {:induction false} RunsAllAppend(db: Db, n: nat) returns (trace: seq<Db>, jobs: seq<Job>)
    requires Remaining(db, n)
    ensures |trace| == n + 1 && trace[0] == db && Reruns(trace, jobs, [CENTER])
    ensures forall i :: 0 <= i < n ==> trace[i + 1] != trace[i]
    decreases n
  {
    if n == 0 {
      trace, jobs := [db], [];
    } else {
      var next := AnotherRun(db, n);
      var t, js := RunsAllAppend(next, n - 1);
      trace, jobs := [db] + t, [Job(1, 0)] + js;
    }
  }

  /** Four is tight: with a location at each corner of the box, every one of the first
      four runs of a one-record batch still appends. */
  lemma FourRunsAreNeeded() returns (trace: seq<Db>, jobs: seq<Job>)
    ensures |trace| == 5 && Reruns(trace, jobs, [CENTER]) && Separated(trace[0])
    ensures forall i :: 0 <= i < 4 ==> trace[i + 1] != trace[i]
  {
    CornersRemain();
    trace, jobs := RunsAllAppend(CORNERS, 4);
  }

  /** A batch of a registered importer fails only on a record outside the CHECKed ranges. */
  lemma InRangeBatchCannotFail(db: Db, job: Job, recs: seq<Record>, k: nat)
    requires HasUser(db, job.importer) && forall i :: 0 <= i < |recs| ==> InRange(recs[i].lat, recs[i].lon)
    ensures !FailsAt(db, job, recs, k)
  {
    if k < |recs| {
      forall mid | Applies(db, job, recs[..k], mid)
        ensures !StepFails(mid, job, recs[k])
      {
        RunGrows(db, job, recs[..k], mid);
      }
    }
  }

  /** After one success, and with a registered importer, the batch cannot fail any more. */
  lemma RerunCannotFail(db: Db, job: Job, recs: seq<Record>, k: nat)
    requires Closed(db, recs) && HasUser(db, job.importer)
    ensures !FailsAt(db, job, recs, k)
  {
    if k < |recs| {
      forall mid | Applies(db, job, recs[..k], mid)
        ensures !StepFails(mid, job, recs[k])
      {
        RunGrows(db, job, recs[..k], mid);
        OccupiedStays(db, mid, recs[k]);
      }
    }
  }
}
