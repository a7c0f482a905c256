/** Store.AuditEventsSince: location creations and sightings in one list, newest first. */
module Audit {
  import opened Schema
  import opened Ordering
  import Flags

  /** In ascending order of the texts 'location_created' and 'sighting'. */
  datatype Kind = LocationCreated | SightingFiled

  datatype Event = Event(kind: Kind, id: int, author: string, insincerity: int,
                         lat: real, lon: real, timestamp: int, sighting: Option<Sighting>)

  const LIMIT: nat := 500

  function LocationEvent(db: Db, l: Location, u: User): Event {
    Event(LocationCreated, l.id, u.opaqueId, Flags.FlagSum(db.flags, u.id), l.lat, l.lon, l.createdAt, None)
  }

  function SightingEvent(db: Db, s: Sighting, l: Location, u: User): Event {
    Event(SightingFiled, s.id, u.opaqueId, Flags.FlagSum(db.flags, u.id), l.lat, l.lon, s.observedAt, Some(s))
  }

  /** The two halves of the UNION ALL over the first nl locations and ns sightings. */
  ghost predicate FromLocations(db: Db, since: int, nl: nat, e: Event)
    requires nl <= |db.locations|
  {
    exists i, u :: 0 <= i < nl && u in db.users && u.id == db.locations[i].createdBy
      && db.locations[i].createdAt >= since && e == LocationEvent(db, db.locations[i], u)
  }

  ghost predicate FromSightings(db: Db, since: int, ns: nat, e: Event)
    requires ns <= |db.sightings|
  {
    exists i, l, u :: 0 <= i < ns && l in db.locations && l.id == db.sightings[i].locationId
      && u in db.users && u.id == db.sightings[i].reporter
      && db.sightings[i].observedAt >= since && e == SightingEvent(db, db.sightings[i], l, u)
  }

  ghost predicate IsEvent(db: Db, since: int, e: Event) {
    FromLocations(db, since, |db.locations|, e) || FromSightings(db, since, |db.sightings|, e)
  }

  /** ORDER BY timestamp DESC, event_type DESC, event_id DESC. */
  predicate Newer(a: Event, b: Event) {
    || a.timestamp > b.timestamp
    || (a.timestamp == b.timestamp && a.kind == SightingFiled && b.kind == LocationCreated)
    || (a.timestamp == b.timestamp && a.kind == b.kind && a.id > b.id)
  }

  function FirstRows(all: seq<Event>): seq<Event> {
    if |all| <= LIMIT then all else all[..LIMIT]
  }

  ghost predicate InOrder(db: Db, since: int, all: seq<Event>) {
    Sorted(Newer, all) && forall e :: e in all <==> IsEvent(db, since, e)
  }

  /** The specification: the first 500 of all events in descending order. */
  ghost predicate Lists(db: Db, since: int, out: seq<Event>) {
    exists all :: InOrder(db, since, all) && out == FirstRows(all)
  }

  lemma NewerIsStrictOrder()
    ensures StrictOrder(Newer)
  {
  }

  /** The order decides between any two events, so the list is determined. */
  lemma ListIsUnique(db: Db, since: int, a: seq<Event>, b: seq<Event>)
    requires Lists(db, since, a) && Lists(db, since, b)
    ensures a == b
  {
    var x :| InOrder(db, since, x) && a == FirstRows(x);
    var y :| InOrder(db, since, y) && b == FirstRows(y);
    NewerIsStrictOrder();
    SortedIsUnique(Newer, x, y);
  }

  /** a stands before b in the list: by time, the latest first; then sightings before locations;
      then by id, the largest first. */
  lemma ListedInOrder(db: Db, since: int, out: seq<Event>, i: nat, j: nat)
    requires Lists(db, since, out) && i < j < |out|
    ensures out[i].timestamp >= out[j].timestamp
    ensures out[i].timestamp == out[j].timestamp && out[i].kind != out[j].kind ==> out[i].kind == SightingFiled
    ensures out[i].timestamp == out[j].timestamp && out[i].kind == out[j].kind ==> out[i].id > out[j].id
  {
    var all :| InOrder(db, since, all) && out == FirstRows(all);
    assert Newer(all[i], all[j]);
  }

  /** At most 500 events are listed. One of the window that is left out ranks below each of 500
      listed ones. */
  lemma OmittedRankBelow(db: Db, since: int, out: seq<Event>, e: Event)
    requires Lists(db, since, out)
    ensures |out| <= 500 && forall o :: o in out ==> IsEvent(db, since, o)
    ensures IsEvent(db, since, e) && e !in out ==>
              |out| == 500 && forall o :: o in out ==>
                && o.timestamp >= e.timestamp
                && (o.timestamp == e.timestamp && o.kind != e.kind ==> o.kind == SightingFiled)
                && (o.timestamp == e.timestamp && o.kind == e.kind ==> o.id > e.id)
  {
    var all :| InOrder(db, since, all) && out == FirstRows(all);
    assert forall j :: 0 <= j < |out| ==> out[j] == all[j] && out[j] in all;
    if IsEvent(db, since, e) && e !in out {
      assert e in all;
      var k :| 0 <= k < |all| && all[k] == e;
      assert forall j :: 0 <= j < |out| ==> Newer(all[j], all[k]);
    }
  }

  lemma SameIdSameUser(db: Db, a: User, b: User)
    requires Keyed(db) && a in db.users && b in db.users && a.id == b.id
    ensures a == b
  {
    var i :| 0 <= i < |db.users| && db.users[i] == a;
    var j :| 0 <= j < |db.users| && db.users[j] == b;
    assert i == j;
  }

  lemma SameIdSameLocation(db: Db, a: Location, b: Location)
    requires Keyed(db) && a in db.locations && b in db.locations && a.id == b.id
    ensures a == b
  {
    var i :| 0 <= i < |db.locations| && db.locations[i] == a;
    var j :| 0 <= j < |db.locations| && db.locations[j] == b;
    assert i == j;
  }

  /** The rows an event was joined from. */
  lemma LocationSource(db: Db, since: int, e: Event) returns (l: Location, u: User)
    requires IsEvent(db, since, e) && e.kind == LocationCreated
    ensures l in db.locations && u in db.users && u.id == l.createdBy && l.createdAt >= since
    ensures e == LocationEvent(db, l, u)
  {
    var i: nat;
    i, u :| 0 <= i < |db.locations| && u in db.users && u.id == db.locations[i].createdBy
    && db.locations[i].createdAt >= since && e == LocationEvent(db, db.locations[i], u);
    l := db.locations[i];
  }

  lemma SightingSource(db: Db, since: int, e: Event) returns (s: Sighting, l: Location, u: User)
    requires IsEvent(db, since, e) && e.kind == SightingFiled
    ensures s in db.sightings && l in db.locations && l.id == s.locationId && s.observedAt >= since
    ensures u in db.users && u.id == s.reporter && e == SightingEvent(db, s, l, u)
  {
    var i: nat;
    i, l, u :| 0 <= i < |db.sightings| && l in db.locations && l.id == db.sightings[i].locationId
    && u in db.users && u.id == db.sightings[i].reporter
    && db.sightings[i].observedAt >= since && e == SightingEvent(db, db.sightings[i], l, u);
    s := db.sightings[i];
  }

  lemma SameIdSameSighting(db: Db, a: Sighting, b: Sighting)
    requires Keyed(db) && a in db.sightings && b in db.sightings && a.id == b.id
    ensures a == b
  {
    var i :| 0 <= i < |db.sightings| && db.sightings[i] == a;
    var j :| 0 <= j < |db.sightings| && db.sightings[j] == b;
    assert i == j;
  }

  /** Kind and id identify an event. */
  lemma SameKeySameEvent(db: Db, since: int, a: Event, b: Event)
    requires Keyed(db) && IsEvent(db, since, a) && IsEvent(db, since, b) && a.kind == b.kind && a.id == b.id
    ensures a == b
  {
    if a.kind == LocationCreated {
      var l, u := LocationSource(db, since, a);
      var k, v := LocationSource(db, since, b);
      SameIdSameLocation(db, l, k);
      SameIdSameUser(db, u, v);
    } else {
      var s, l, u := SightingSource(db, since, a);
      var t, k, v := SightingSource(db, since, b);
      SameIdSameSighting(db, s, t);
      SameIdSameLocation(db, l, k);
      SameIdSameUser(db, u, v);
    }
  }

  /** The joins drop and repeat nothing: where keys and references hold, every location of the
      window is the event of exactly one author... */
  lemma EveryLocationIsListedOnce(db: Db, since: int, l: Location) returns (e: Event)
    requires Keyed(db) && Referenced(db) && l in db.locations && l.createdAt >= since
    ensures IsEvent(db, since, e) && e.kind == LocationCreated && e.id == l.id
    ensures e.timestamp == l.createdAt && e.lat == l.lat && e.lon == l.lon
    ensures e.insincerity == Flags.FlagSum(db.flags, l.createdBy)
    ensures exists u :: u in db.users && u.id == l.createdBy && e.author == u.opaqueId
    ensures forall f :: IsEvent(db, since, f) && f.kind == LocationCreated && f.id == l.id ==> f == e
  {
    var i :| 0 <= i < |db.locations| && db.locations[i] == l;
    var u :| u in db.users && u.id == l.createdBy;
    e := LocationEvent(db, l, u);
    assert FromLocations(db, since, |db.locations|, e);
    forall f | IsEvent(db, since, f) && f.kind == LocationCreated && f.id == l.id
      ensures f == e
    {
      SameKeySameEvent(db, since, e, f);
    }
  }

  lemma SightingIsEvent(db: Db, since: int, i: nat, l: Location, u: User)
    requires i < |db.sightings| && db.sightings[i].observedAt >= since
    requires l in db.locations && l.id == db.sightings[i].locationId && u in db.users
             && u.id == db.sightings[i].reporter
    ensures IsEvent(db, since, SightingEvent(db, db.sightings[i], l, u))
  {
    assert FromSightings(db, since, |db.sightings|, SightingEvent(db, db.sightings[i], l, u));
  }

  /** ... and so is every sighting of the window. */
  lemma EverySightingIsListedOnce(db: Db, since: int, s: Sighting) returns (e: Event)
    requires Keyed(db) && Referenced(db) && s in db.sightings && s.observedAt >= since
    ensures IsEvent(db, since, e) && e.kind == SightingFiled && e.sighting == Some(s) && e.timestamp == s.observedAt
    ensures e.insincerity == Flags.FlagSum(db.flags, s.reporter)
    ensures exists u :: u in db.users && u.id == s.reporter && e.author == u.opaqueId
    ensures exists l :: l in db.locations && l.id == s.locationId && e.lat == l.lat && e.lon == l.lon
    ensures forall f :: IsEvent(db, since, f) && f.kind == SightingFiled && f.id == s.id ==> f == e
  {
    var i :| 0 <= i < |db.sightings| && db.sightings[i] == s;
    var u :| u in db.users && u.id == s.reporter;
    var l :| l in db.locations && l.id == s.locationId;
    e := SightingEvent(db, s, l, u);
    SightingIsEvent(db, since, i, l, u);
    forall f | IsEvent(db, since, f) && f.kind == SightingFiled && f.id == s.id
      ensures f == e
    {
      SameKeySameEvent(db, since, e, f);
    }
  }

  /** Two different events never tie in the order. */
  lemma EventsAreComparable(db: Db, since: int, a: Event, b: Event)
    requires Keyed(db) && IsEvent(db, since, a) && IsEvent(db, since, b) && a != b
    ensures Newer(a, b) || Newer(b, a)
  {
    if a.kind == b.kind && a.id == b.id {
      SameKeySameEvent(db, since, a, b);
    }
  }

  // ---------------------------------------------------------------------------
  // Reading the tables row by row
  // ---------------------------------------------------------------------------

  /** Row i of `locations` adds at most the event of its own author. */
  lemma NextLocation(db: Db, since: int, i: nat)
    requires i < |db.locations|
    ensures forall e :: FromLocations(db, since, i + 1, e) <==>
              FromLocations(db, since, i, e) ||
              exists u :: u in db.users && u.id == db.locations[i].createdBy && db.locations[i].createdAt >= since
                  && e == LocationEvent(db, db.locations[i], u)
  {
    forall e | FromLocations(db, since, i, e)
      ensures FromLocations(db, since, i + 1, e)
    {
      var k, u :| 0 <= k < i && u in db.users && u.id == db.locations[k].createdBy
        && db.locations[k].createdAt >= since && e == LocationEvent(db, db.locations[k], u);
    }
  }

  lemma NextLocationEvent(db: Db, since: int, i: nat, u: User)
    requires Keyed(db) && i < |db.locations| && u in db.users && u.id == db.locations[i].createdBy
             && db.locations[i].createdAt >= since
    ensures forall e :: FromLocations(db, since, i + 1, e) <==>
            FromLocations(db, since, i, e) || e == LocationEvent(db, db.locations[i], u)
  {
    NextLocation(db, since, i);
    var own := LocationEvent(db, db.locations[i], u);
    assert FromLocations(db, since, i + 1, own);
    forall e | FromLocations(db, since, i + 1, e) && !FromLocations(db, since, i, e)
      ensures e == own
    {
      var v :| v in db.users && v.id == db.locations[i].createdBy && e == LocationEvent(db, db.locations[i], v);
      SameIdSameUser(db, u, v);
    }
  }

  lemma NextSighting(db: Db, since: int, i: nat)
    requires i < |db.sightings|
    ensures forall e :: FromSightings(db, since, i + 1, e) <==>
              FromSightings(db, since, i, e) ||
              exists l, u :: l in db.locations && l.id == db.sightings[i].locationId && u in db.users
                  && u.id == db.sightings[i].reporter
                && db.sightings[i].observedAt >= since && e == SightingEvent(db, db.sightings[i], l, u)
  {
    forall e | FromSightings(db, since, i, e)
      ensures FromSightings(db, since, i + 1, e)
    {
      var k, l, u :| 0 <= k < i && l in db.locations && l.id == db.sightings[k].locationId
        && u in db.users && u.id == db.sightings[k].reporter
        && db.sightings[k].observedAt >= since && e == SightingEvent(db, db.sightings[k], l, u);
    }
  }

  lemma NextSightingEvent(db: Db, since: int, i: nat, l: Location, u: User)
    requires Keyed(db) && i < |db.sightings| && db.sightings[i].observedAt >= since
    requires l in db.locations && l.id == db.sightings[i].locationId && u in db.users
             && u.id == db.sightings[i].reporter
    ensures forall e :: FromSightings(db, since, i + 1, e) <==>
            FromSightings(db, since, i, e) || e == SightingEvent(db, db.sightings[i], l, u)
  {
    NextSighting(db, since, i);
    var own := SightingEvent(db, db.sightings[i], l, u);
    assert FromSightings(db, since, i + 1, own);
    forall e | FromSightings(db, since, i + 1, e) && !FromSightings(db, since, i, e)
      ensures e == own
    {
      var k, v :| k in db.locations && k.id == db.sightings[i].locationId && v in db.users
          && v.id == db.sightings[i].reporter
        && e == SightingEvent(db, db.sightings[i], k, v);
      SameIdSameUser(db, u, v);
      SameIdSameLocation(db, l, k);
    }
  }

  /** The event of row nl of `locations` (or, after all of those, of row ns of `sightings`) has
      not been read before, so it can be put in its place. */
  lemma AllComparable(db: Db, since: int, nl: nat, ns: nat, e: Event)
    requires Keyed(db) && nl <= |db.locations| && ns <= |db.sightings| && IsEvent(db, since, e)
    requires if nl < |db.locations| then ns == 0 && e.kind == LocationCreated && e.id == db.locations[nl].id
             else ns < |db.sightings| && e.kind == SightingFiled && e.id == db.sightings[ns].id
    ensures forall f :: FromLocations(db, since, nl, f) || FromSightings(db, since, ns, f) ==>
            Newer(e, f) || Newer(f, e)
  {
    forall f | FromLocations(db, since, nl, f) || FromSightings(db, since, ns, f)
      ensures Newer(e, f) || Newer(f, e)
    {
      assert f.kind != e.kind || f.id != e.id;
    }
  }
}
