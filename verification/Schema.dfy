/** The tables of the SQLite database, one datatype a row and one sequence a table.
    A table is listed in the order of its INTEGER PRIMARY KEY, so a new row goes at
    the end with the next id. Instants are whole seconds since 1970 in UTC (module
    Calendar proves that their RFC 3339 texts compare the same way), and
    coordinates are exact reals. */
module Schema {

  datatype Option<+T> = None | Some(value: T)

  datatype User = User(id: int, opaqueId: string, role: string, registeredAt: int, lastSeenAt: int, called: string)

  /** A row of the legacy table that held the real subject of each user. */
  datatype Identity = Identity(userId: int, subject: string)

  datatype Location = Location(id: int, lat: real, lon: real, createdBy: int, createdAt: int)

  /** The columns of a sighting that are stored and shown but never decided upon. */
  datatype Traits = Traits(imageUrl: Option<string>, medium: string, message: string, height: string,
      description: string)

  datatype Sighting = Sighting(id: int, reporter: int, locationId: int, observedAt: int,
                               transpired: string, toExist: bool, traits: Traits, externalId: Option<string>)

  datatype Flag = Flag(id: int, target: int, kind: string, value: int, flaggedBy: int, createdAt: int)

  datatype Db = Db(config: map<string, string>, permissions: set<(string, string)>,
                   users: seq<User>, identities: Option<seq<Identity>>,
                   locations: seq<Location>, sightings: seq<Sighting>, flags: seq<Flag>)

  /** The CHECK constraints on a location. */
  predicate InRange(lat: real, lon: real) {
    -90.0 <= lat <= 90.0 && -180.0 <= lon <= 180.0
  }

  predicate HasUser(db: Db, id: int) {
    exists u :: u in db.users && u.id == id
  }

  predicate HasLocation(db: Db, id: int) {
    exists l :: l in db.locations && l.id == id
  }

  function NextLocationId(locations: seq<Location>): int {
    if locations == [] then 1 else locations[|locations| - 1].id + 1
  }

  function NextSightingId(sightings: seq<Sighting>): int {
    if sightings == [] then 1 else sightings[|sightings| - 1].id + 1
  }

  function NextFlagId(flags: seq<Flag>): int {
    if flags == [] then 1 else flags[|flags| - 1].id + 1
  }

  function NextUserId(users: seq<User>): int {
    if users == [] then 1 else users[|users| - 1].id + 1
  }

  /** Primary keys: each table is listed by strictly increasing id. */
  ghost predicate Keyed(db: Db) {
    && (forall i, j :: 0 <= i < j < |db.locations| ==> db.locations[i].id < db.locations[j].id)
    && (forall i, j :: 0 <= i < j < |db.sightings| ==> db.sightings[i].id < db.sightings[j].id)
    && (forall i, j :: 0 <= i < j < |db.flags| ==> db.flags[i].id < db.flags[j].id)
    && (forall i, j :: 0 <= i < j < |db.users| ==> db.users[i].id < db.users[j].id)
  }

  /** Foreign keys and CHECK constraints. */
  ghost predicate Referenced(db: Db) {
    && (forall l :: l in db.locations ==> HasUser(db, l.createdBy) && InRange(l.lat, l.lon))
    && (forall s :: s in db.sightings ==> HasUser(db, s.reporter) && HasLocation(db, s.locationId))
    && (forall f :: f in db.flags ==>
        HasUser(db, f.target) && HasUser(db, f.flaggedBy) && (f.value == 1 || f.value == -1))
  }

  /** UNIQUE(opaque_id). */
  ghost predicate UniqueOpaque(users: seq<User>) {
    forall i, j :: 0 <= i < j < |users| ==> users[i].opaqueId != users[j].opaqueId
  }

  /** Every constraint that schema.sql declares. */
  ghost predicate Valid(db: Db) {
    Keyed(db) && Referenced(db) && UniqueOpaque(db.users)
  }

  function AppendLocation(db: Db, lat: real, lon: real, createdBy: int, createdAt: int): Db {
    db.(locations := db.locations + [Location(NextLocationId(db.locations), lat, lon, createdBy, createdAt)])
  }

  function AppendSighting(db: Db, s: Sighting): Db {
    db.(sightings := db.sightings + [s])
  }

  /** Rows are only ever added to the two append-only tables, and nothing else moves. */
  ghost predicate Grows(db: Db, db': Db) {
    && db.locations <= db'.locations
    && db.sightings <= db'.sightings
    && db' == db.(locations := db'.locations, sightings := db'.sightings)
  }

  lemma AppendLocationValid(db: Db, lat: real, lon: real, createdBy: int, createdAt: int)
    requires Valid(db) && InRange(lat, lon) && HasUser(db, createdBy)
    ensures Valid(AppendLocation(db, lat, lon, createdBy, createdAt))
  {
    var db' := AppendLocation(db, lat, lon, createdBy, createdAt);
    ReferencesKept(db, db');
    assert Keyed(db');
    assert forall l :: l in db'.locations ==> l in db.locations || l == db'.locations[|db.locations|];
  }

  /** References survive when no row that may be referred to is lost. */
  lemma ReferencesKept(db: Db, db': Db)
    requires db.locations <= db'.locations && db.users <= db'.users
    ensures forall id :: HasUser(db, id) ==> HasUser(db', id)
    ensures forall id :: HasLocation(db, id) ==> HasLocation(db', id)
  {
    forall id | HasLocation(db, id)
      ensures HasLocation(db', id)
    {
      var l :| l in db.locations && l.id == id;
      assert l in db'.locations;
    }
    forall id | HasUser(db, id)
      ensures HasUser(db', id)
    {
      var u :| u in db.users && u.id == id;
      assert u in db'.users;
    }
  }

  lemma AppendSightingValid(db: Db, s: Sighting)
    requires Valid(db) && s.id == NextSightingId(db.sightings)
    requires HasUser(db, s.reporter) && HasLocation(db, s.locationId)
    ensures Valid(AppendSighting(db, s))
  {
    AppendSightingReferenced(db, s);
    AppendSightingKeyed(db, s);
  }

  lemma AppendSightingKeyed(db: Db, s: Sighting)
    requires Keyed(db) && s.id == NextSightingId(db.sightings)
    ensures Keyed(AppendSighting(db, s))
  {
    var n := |db.sightings|;
    assert forall i :: 0 <= i < n ==> AppendSighting(db, s).sightings[i] == db.sightings[i];
  }

  lemma AppendFlagKeyed(db: Db, f: Flag)
    requires Keyed(db) && f.id == NextFlagId(db.flags)
    ensures Keyed(db.(flags := db.flags + [f]))
  {
    var n := |db.flags|;
    assert forall i :: 0 <= i < n ==> (db.flags + [f])[i] == db.flags[i];
  }

  lemma AppendSightingReferenced(db: Db, s: Sighting)
    requires Referenced(db) && HasUser(db, s.reporter) && HasLocation(db, s.locationId)
    ensures Referenced(AppendSighting(db, s))
  {
    var db' := AppendSighting(db, s);
    ReferencesKept(db, db');
    forall t | t in db'.sightings
      ensures HasUser(db', t.reporter) && HasLocation(db', t.locationId)
    {
      assert t in db.sightings || t == s;
    }
  }

  lemma AppendFlagReferenced(db: Db, f: Flag)
    requires Referenced(db) && HasUser(db, f.target) && HasUser(db, f.flaggedBy) && (f.value == 1 || f.value == -1)
    ensures Referenced(db.(flags := db.flags + [f]))
  {
    var db' := db.(flags := db.flags + [f]);
    ReferencesKept(db, db');
    forall g | g in db'.flags
      ensures HasUser(db', g.target) && HasUser(db', g.flaggedBy) && (g.value == 1 || g.value == -1)
    {
      assert g in db.flags || g == f;
    }
  }

  /** The next id is one more than the largest, as SQLite chooses it, and 1 at first. */
  lemma NextIdsAreMaxPlusOne(db: Db)
    requires Keyed(db)
    ensures db.locations == [] ==> NextLocationId(db.locations) == 1
    ensures forall l :: l in db.locations ==> l.id < NextLocationId(db.locations)
    ensures db.locations != [] ==> exists l :: l in db.locations && l.id + 1 == NextLocationId(db.locations)
    ensures db.sightings == [] ==> NextSightingId(db.sightings) == 1
    ensures forall s :: s in db.sightings ==> s.id < NextSightingId(db.sightings)
    ensures db.sightings != [] ==> exists s :: s in db.sightings && s.id + 1 == NextSightingId(db.sightings)
    ensures db.flags == [] ==> NextFlagId(db.flags) == 1
    ensures forall f :: f in db.flags ==> f.id < NextFlagId(db.flags)
    ensures db.flags != [] ==> exists f :: f in db.flags && f.id + 1 == NextFlagId(db.flags)
    ensures db.users == [] ==> NextUserId(db.users) == 1
    ensures forall u :: u in db.users ==> u.id < NextUserId(db.users)
    ensures db.users != [] ==> exists u :: u in db.users && u.id + 1 == NextUserId(db.users)
  {
    assert db.locations != [] ==> db.locations[|db.locations| - 1] in db.locations;
    assert db.sightings != [] ==> db.sightings[|db.sightings| - 1] in db.sightings;
    assert db.flags != [] ==> db.flags[|db.flags| - 1] in db.flags;
    assert db.users != [] ==> db.users[|db.users| - 1] in db.users;
  }

  lemma CardinalityOfSubset<T>(a: set<T>, b: set<T>)
    requires a <= b
    ensures |a| <= |b|
    ensures a != b ==> |a| < |b|
  {
    assert b == a + (b - a);
    if a != b {
      assert |b - a| > 0;
    }
  }
}
