/** From writing to reading: what a report that has just been filed or imported does to the
    map, whoever looks. */
module Shown {
  import opened Schema
  import Import
  import Filing
  import Flags
  import MapView

  /** s is later than every other sighting at its location. */
  ghost predicate IsLastWord(db: Db, s: Sighting) {
    s in db.sightings && forall t :: t in db.sightings && t.locationId == s.locationId && t != s ==>
        t.observedAt < s.observedAt
  }

  /** Every map with l in view and s in its window, and on which s is not hidden, shows s at l;
      if s reports the sign gone, only a map with missing ones does, and the others show nothing
      there. */
  ghost predicate ShownOnEveryMap(db: Db, l: Location, s: Sighting) {
    forall q: MapView.Query, pick, out: seq<MapView.Marker> ::
      MapView.Answers(db, q, pick, out) && MapView.InView(q, l) && MapView.Seen(db, q, l, s) ==>
        && ((exists m :: m in out && m.location == l) <==> q.includeMissing || MapView.Exists(s))
        && forall m :: m in out && m.location == l ==> m.row == s && m.latest == s.observedAt
  }

  /** The last word at a location is what every map shows there, whatever the choice among ties. */
  lemma LastWordIsShown(db: Db, l: Location, s: Sighting)
    requires Keyed(db) && l in db.locations && s.locationId == l.id && IsLastWord(db, s)
    ensures ShownOnEveryMap(db, l, s)
  {
    forall q: MapView.Query, pick, out: seq<MapView.Marker> |
      MapView.Answers(db, q, pick, out) && MapView.InView(q, l) && MapView.Seen(db, q, l, s)
      ensures (exists m :: m in out && m.location == l) <==> q.includeMissing || MapView.Exists(s)
      ensures forall m :: m in out && m.location == l ==> m.row == s && m.latest == s.observedAt
    {
      MapView.MarkersMean(db, q, pick, out, l);
      PickIsLastWord(db, l, s, q, pick);
    }
  }

  lemma PickIsLastWord(db: Db, l: Location, s: Sighting, q: MapView.Query, pick: map<int, Sighting>)
    requires l in db.locations && s.locationId == l.id && IsLastWord(db, s)
    requires MapView.LegalPick(db, q, pick) && MapView.InView(q, l) && MapView.Seen(db, q, l, s)
    ensures l.id in pick && pick[l.id] == s
  {
    MapView.RowsMembers(db.sightings, db.flags, q, l.id);
    assert s in MapView.Group(db, q, l);
  }

  /** End to end, over every interleaving: a call answered without an error that was covered at
      its first statement has a sighting with the answered id in its cell, carrying what it
      reported, and if that is the last word at its location, every map in view and window that
      does not hide the reporter shows it. */
  lemma CoveredCallIsShown(reqs: seq<Filing.Request>, trace: seq<Filing.Sys>, k: nat, i: nat)
    returns (s: Sighting, l: Location)
    requires Filing.Run(reqs, trace) && k < |trace| && i < |reqs| == |trace[k].phases| && Keyed(trace[k].db)
    requires Filing.Answered(trace[k].phases[i]) && (trace[k].phases[i].covered || reqs[i].SurvivesRounding())
    ensures Filing.Fulfils(trace[k].db, s, reqs[i]) && s.id == trace[k].phases[i].reply.id
    ensures l in trace[k].db.locations && l.id == s.locationId && Filing.SameCell(l, reqs[i].lat, reqs[i].lon)
    ensures IsLastWord(trace[k].db, s) ==> ShownOnEveryMap(trace[k].db, l, s)
  {
    var db := trace[k].db;
    Filing.CoveredCallsAreFiled(reqs, trace, k, i);
    s :| Filing.Fulfils(db, s, reqs[i]) && s.id == trace[k].phases[i].reply.id;
    l :| l in db.locations && l.id == s.locationId && Filing.SameCell(l, reqs[i].lat, reqs[i].lon);
    if IsLastWord(db, s) {
      LastWordIsShown(db, l, s);
    }
  }

  /** The same for every sighting that an import run appends. */
  lemma ImportedReportIsShown(db: Db, job: Import.Job, recs: seq<Import.Record>, db': Db, k: nat)
    returns (rec: Import.Record, l: Location)
    requires Import.Applies(db, job, recs, db') && Keyed(db') && |db.sightings| <= k < |db'.sightings|
    ensures rec in recs && Import.Reports(db', db'.sightings[k], job, rec)
    ensures l in db'.locations && l.id == db'.sightings[k].locationId && Import.InBox(l, rec)
    ensures IsLastWord(db', db'.sightings[k]) ==> ShownOnEveryMap(db', l, db'.sightings[k])
  {
    Import.RunAppendsReports(db, job, recs, db');
    var s := db'.sightings[k];
    assert Import.ReportsSome(db', s, job, recs);
    var i :| 0 <= i < |recs| && Import.Reports(db', s, job, recs[i]);
    rec := recs[i];
    l :| l in db'.locations && l.id == s.locationId && Import.InBox(l, rec);
    if IsLastWord(db', s) {
      LastWordIsShown(db', l, s);
    }
  }
}
