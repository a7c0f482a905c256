/** The datastore as it is programmed: a database whose tables grow in place, and the methods
    of db.go and of the store package on it, each proved against the specification of its
    module. Where a constraint stops a statement the method reports it, and a transaction that
    fails or is a dry run leaves the tables as they were. */
module Store {
  import opened Schema
  import opened Ordering
  import Import
  import Filing
  import Flags
  import MapView
  import Audit
  import Identity
  import Rounding

  class Database {
    var config: map<string, string>
    var permissions: set<(string, string)>
    var users: seq<User>
    var identities: Option<seq<Schema.Identity>>
    var locations: seq<Location>
    var sightings: seq<Sighting>
    var flags: seq<Flag>

    function State(): Db
      reads this
    {
      Db(config, permissions, users, identities, locations, sightings, flags)
    }

    /** A new file with the schema applied: it has no legacy table. */
    constructor ()
      ensures State() == Db(map[], {}, [], None, [], [], [])
    {
      config, permissions, users, identities := map[], {}, [], None;
      locations, sightings, flags := [], [], [];
    }

    /** ensureUserIDHashSeed */
    method EnsureSeed(candidate: string) returns (seed: string)
      modifies `config
      ensures State() == Identity.EnsureSeed(old(State()), candidate)
      ensures Identity.SEED_KEY in config && seed == config[Identity.SEED_KEY]
    {
      if Identity.SEED_KEY !in config {
        config := config[Identity.SEED_KEY := candidate];
      }
      seed := config[Identity.SEED_KEY];
    }

    /** The first loop of dropUserIdentities: hash every subject. */
    method ReadPending(h: Identity.Hasher, seed: string, rows: seq<Schema.Identity>)
      returns (pending: Option<seq<Identity.Pending>>)
      ensures pending == Identity.PendingOf(h, seed, rows)
    {
      var out := [];
      for i := 0 to |rows|
        invariant Identity.PendingOf(h, seed, rows[..i]) == Some(out)
      {
        assert rows[..i + 1][..i] == rows[..i];
        var oid := h.OpaqueUserID(seed, rows[i].subject);
        if oid.None? {
          Identity.PendingFailsEarly(h, seed, rows, i + 1);
          return None;
        }
        out := out + [Identity.Pending(rows[i].userId, oid.value)];
      }
      assert rows[..|rows|] == rows;
      return Some(out);
    }

    /** The second loop: UPDATE row by row, rolled back at the first violation of UNIQUE. */
    method RehashUsers(pending: seq<Identity.Pending>) returns (ok: bool)
      modifies `users
      ensures ok <==> Identity.RehashAll(old(users), pending).Some?
      ensures users == if ok then Identity.RehashAll(old(users), pending).value else old(users)
    {
      var before := users;
      for i := 0 to |pending|
        invariant Identity.RehashAll(before, pending[..i]) == Some(users)
      {
        assert pending[..i + 1][..i] == pending[..i];
        var updated := Identity.Rehash(users, pending[i].userId, pending[i].oid);
        if updated.None? {
          Identity.RehashFailsEarly(before, pending, i + 1);
          users := before;  // tx.Rollback
          return false;
        }
        users := updated.value;
      }
      assert pending[..|pending|] == pending;
      return true;
    }

    /** dropUserIdentities */
    method DropUserIdentities(h: Identity.Hasher, seed: string) returns (ok: bool)
      modifies `users, `identities
      ensures (State(), ok) == Identity.Migrate(old(State()), h, seed)
    {
      if identities.None? {
        return true;
      }
      var pending := ReadPending(h, seed, identities.value);
      if pending.None? {
        return false;
      }
      ok := RehashUsers(pending.value);
      if ok {
        identities := None;
      }
    }

    /** seedRolePermissions, in whatever order the map of defaults is ranged over */
    method SeedRolePermissions()
      modifies `permissions
      ensures permissions == old(permissions) + Identity.DEFAULT_PERMISSIONS
    {
      var todo := Identity.DEFAULT_PERMISSIONS;
      while todo != {}
        invariant todo <= Identity.DEFAULT_PERMISSIONS
        invariant permissions == old(permissions) + (Identity.DEFAULT_PERMISSIONS - todo)
        decreases |todo|
      {
        var p :| p in todo;
        permissions := permissions + {p};
        todo := todo - {p};
      }
    }

    /** Open, after the connection and the schema */
    method Open(h: Identity.Hasher, candidate: string) returns (ok: bool)
      modifies this
      ensures (State(), ok) == Identity.Opened(old(State()), h, candidate)
    {
      var seed := EnsureSeed(candidate);
      ok := DropUserIdentities(h, seed);
      if ok {
        SeedRolePermissions();
      }
    }
  }

  class Store {
    const db: Database
    const h: Identity.Hasher
    /** seedOnce, and the seed it cached; None is a cached error */
    var seedRead: bool
    var seed: Option<string>

    constructor (db: Database, h: Identity.Hasher)
      ensures this.db == db && this.h == h && Valid() && !seedRead
    {
      this.db, this.h := db, h;
      seedRead, seed := false, None;
    }

    /** A cached seed is the one in the database (no operation here ever changes it). */
    ghost predicate Valid()
      reads this, db
    {
      seedRead && seed.Some? ==> Identity.SEED_KEY in db.config && db.config[Identity.SEED_KEY] == seed.value
    }

    // -------------------------------------------------------------------------
    // Users
    // -------------------------------------------------------------------------

    /** What hashSeed returns in the current state. */
    function SeedSeen(): Option<string>
      reads this, db
    {
      if seedRead then seed
      else if Identity.SEED_KEY in db.config then Some(db.config[Identity.SEED_KEY])
      else None
    }

    method HashSeed() returns (s: Option<string>)
      requires Valid()
      modifies this
      ensures Valid() && s == old(SeedSeen()) == SeedSeen() && seedRead
    {
      if !seedRead {
        seed := if Identity.SEED_KEY in db.config then Some(db.config[Identity.SEED_KEY]) else None;
        seedRead := true;
      }
      s := seed;
    }

    /** Fails exactly when the seed is missing (or was, when first read) or does not hash the
        subject, and then changes nothing. */
    method ResolveUser(subject: string, now: int) returns (user: Option<User>)
      requires Valid() && UniqueOpaque(db.users)
      modifies this, db`users
      ensures Valid()
      ensures user.Some? ==> Identity.Resolves(old(db.State()), h, subject, now, db.State(), user.value)
      ensures user.None? ==> db.State() == old(db.State())
      ensures user.None? <==>
              || old(SeedSeen()).None? || h.decode(old(SeedSeen()).value).None?
              || h.decode(old(SeedSeen()).value).value == "" || subject == ""
      ensures user.Some? ==> user.value.opaqueId == h.mac(h.decode(old(SeedSeen()).value).value, subject)
    {
      var s := HashSeed();
      if s.None? {
        return None;
      }
      var oid := h.OpaqueUserID(s.value, subject);
      Identity.OpaqueUserIDMeans(h, s.value, subject);
      if oid.None? {
        return None;
      }
      var users := db.users;
      var i := 0;
      while i < |users| && users[i].opaqueId != oid.value
        invariant 0 <= i <= |users|
        invariant forall k :: 0 <= k < i ==> users[k].opaqueId != oid.value
      {
        i := i + 1;
      }
      if i < |users| {
        assert users[i] in users;
        user := Some(users[i].(lastSeenAt := now));
        db.users := users[i := user.value];
        assert db.users[i] in db.users;
      } else {
        user := Some(User(NextUserId(users), oid.value, "reporter", now, now, ""));
        db.users := users + [user.value];
        assert db.users[|users|] in db.users;
      }
      assert db.users == Identity.Upsert(users, oid.value, now);
    }

    /** userByOpaque */
    method UserByOpaque(oid: string) returns (id: Option<int>)
      ensures id.None? <==> !Identity.HasOpaque(db.users, oid)
      ensures id.Some? ==> exists u :: u in db.users && u.opaqueId == oid && u.id == id.value
    {
      for i := 0 to |db.users|
        invariant forall k :: 0 <= k < i ==> db.users[k].opaqueId != oid
      {
        if db.users[i].opaqueId == oid {
          assert db.users[i] in db.users;
          return Some(db.users[i].id);
        }
      }
      return None;
    }

    method SetUserRole(oid: string, role: string) returns (found: bool)
      modifies db`users
      ensures db.State() == old(db.State()).(users := Identity.WithRole(old(db.users), oid, role))
      ensures |db.users| == |old(db.users)|
      ensures forall i :: 0 <= i < |db.users| ==>
                db.users[i] == if old(db.users)[i].opaqueId == oid then old(db.users)[i].(role := role)
                    else old(db.users)[i]
      ensures found <==> Identity.HasOpaque(old(db.users), oid)
    {
      var users := db.users;
      var rows := 0;
      for i := 0 to |users|
        invariant |db.users| == |users|
        invariant forall k :: 0 <= k < |users| ==>
                  db.users[k] == if k < i then Identity.WithRole(users, oid, role)[k] else users[k]
        invariant rows >= 0 && (rows > 0 <==> exists k :: 0 <= k < i && users[k].opaqueId == oid)
      {
        if users[i].opaqueId == oid {
          db.users := db.users[i := users[i].(role := role)];
          rows := rows + 1;
        }
      }
      assert db.users == Identity.WithRole(users, oid, role);
      found := rows != 0;
    }

    method SetUserCalled(id: int, called: string) returns (found: bool)
      modifies db`users
      ensures db.State() == old(db.State()).(users := Identity.WithCalled(old(db.users), id, called))
      ensures |db.users| == |old(db.users)|
      ensures forall i :: 0 <= i < |db.users| ==>
                db.users[i] == if old(db.users)[i].id == id then old(db.users)[i].(called := called)
                    else old(db.users)[i]
      ensures found <==> HasUser(old(db.State()), id)
    {
      var users := db.users;
      var rows := 0;
      for i := 0 to |users|
        invariant |db.users| == |users|
        invariant forall k :: 0 <= k < |users| ==>
                  db.users[k] == if k < i then Identity.WithCalled(users, id, called)[k] else users[k]
        invariant rows >= 0 && (rows > 0 <==> exists k :: 0 <= k < i && users[k].id == id)
      {
        if users[i].id == id {
          db.users := db.users[i := users[i].(called := called)];
          rows := rows + 1;
        }
      }
      assert db.users == Identity.WithCalled(users, id, called);
      found := rows != 0;
    }

    // -------------------------------------------------------------------------
    // Locations and sightings
    // -------------------------------------------------------------------------

    /** The loop body of the import: two statements, in a transaction that the caller holds. */
    method ImportRecord(job: Import.Job, rec: Import.Record) returns (ok: bool)
      modifies db`locations, db`sightings
      ensures ok ==> Import.Steps(old(db.State()), job, rec, db.State())
      ensures !ok ==> Import.StepFails(old(db.State()), job, rec)
    {
      if !Import.Occupied(db.State(), rec) {
        if !Import.LocationAccepted(db.State(), job, rec) {
          return false;
        }
        db.locations := db.locations +
            [Location(NextLocationId(db.locations), rec.lat, rec.lon, job.importer, job.observedAt)];
      }
      var candidates := Import.Unrecorded(db.State(), rec);
      if candidates != {} {
        if !HasUser(db.State(), job.importer) {
          return false;
        }
        var l :| l in candidates;  // LIMIT 1
        db.sightings := db.sightings + [Import.NewSighting(db.State(), job, rec, l)];
      }
      return true;
    }

    /** One transaction over the batch. On an error `records` counts the failing record too, and
        nothing is changed, as after a dry run. */
    method ImportSourceRecords(job: Import.Job, recs: seq<Import.Record>, dryRun: bool) returns (ok: bool, records: nat)
      modifies db`locations, db`sightings
      ensures ok && !dryRun ==> Import.Applies(old(db.State()), job, recs, db.State())
      ensures ok && dryRun ==> exists db' :: Import.Applies(old(db.State()), job, recs, db')
      ensures ok ==> records == |recs|
      ensures !ok ==> records > 0 && Import.FailsAt(old(db.State()), job, recs, records - 1)
      ensures !ok || dryRun ==> db.State() == old(db.State())
    {
      var locations, sightings := db.locations, db.sightings;
      ghost var before := db.State();
      records := 0;
      for i := 0 to |recs|
        invariant records == i && Import.Applies(before, job, recs[..i], db.State())
        invariant db.State() == before.(locations := db.locations, sightings := db.sightings)
      {
        ghost var mid := db.State();
        records := records + 1;
        ok := ImportRecord(job, recs[i]);
        if !ok {
          db.locations, db.sightings := locations, sightings;  // tx.Rollback
          return;
        }
        Import.OneMoreStep(before, job, recs, i, mid, db.State());
      }
      assert recs[..|recs|] == recs;
      if dryRun {
        db.locations, db.sightings := locations, sightings;  // tx.Rollback
      }
      ok := true;
    }

    /** InsertSighting, when nothing runs between its two statements. */
    method InsertSighting(req: Filing.Request) returns (reply: Filing.Reply)
      modifies db`locations, db`sightings
      ensures Filing.Inserts(old(db.State()), req, db.State(), reply)
    {
      if !Filing.CellTaken(db.State(), req.lat, req.lon) {
        var lat, lon := Rounding.Round7(req.lat), Rounding.Round7(req.lon);
        if !InRange(lat, lon) || !HasUser(db.State(), req.user) {
          return Filing.Err(Filing.ConstraintFailed);
        }
        db.locations := db.locations + [Location(NextLocationId(db.locations), lat, lon, req.user, req.observedAt)];
      }
      if Filing.ToExist(req.transpired).None? {
        return Filing.Err(Filing.NotSentWhatTranspired);
      }
      if !Filing.CellTaken(db.State(), req.lat, req.lon) {
        var lastRow: int := *;  // LastInsertId after no insertion
        return Filing.Ok(lastRow);
      }
      if !HasUser(db.State(), req.user) {
        return Filing.Err(Filing.ConstraintFailed);
      }
      var l :| l in db.locations && Filing.SameCell(l, req.lat, req.lon);  // LIMIT 1
      var s := Filing.NewSighting(db.State(), req, l);
      db.sightings := db.sightings + [s];
      reply := Filing.Ok(s.id);
    }

    method InsertCanonical(userId: int, lat: real, lon: real, now: int) returns (id: Option<int>)
      modifies db`locations
      ensures id.Some? <==> -90.0 <= lat <= 90.0 && -180.0 <= lon <= 180.0 && HasUser(old(db.State()), userId)
      ensures id.Some? ==> id.value == NextLocationId(old(db.locations))
      ensures id.Some? ==>
                db.State() == old(db.State()).(locations := old(db.locations) +
                    [Location(id.value, lat, lon, userId, now)])
      ensures id.None? ==> db.State() == old(db.State())
    {
      if !InRange(lat, lon) || !HasUser(db.State(), userId) {
        return None;
      }
      id := Some(NextLocationId(db.locations));
      db.locations := db.locations + [Location(id.value, lat, lon, userId, now)];
    }

    /** The one-pass grouped query: a best row and a count per location, then the markers in
        order. Among equally late rows the pass may keep either. */
    method MapData(q: MapView.Query) returns (out: seq<MapView.Marker>)
      requires Keyed(db.State())
      ensures exists pick :: MapView.Answers(db.State(), q, pick, out)
    {
      var best, count := Aggregate(q);
      assert MapView.LegalPick(db.State(), q, best);
      out := Markers(q, best, count);
    }

    method Aggregate(q: MapView.Query) returns (best: map<int, Sighting>, count: map<int, nat>)
      ensures MapView.Aggregates(db.sightings, db.flags, q, best, count)
    {
      best, count := map[], map[];
      for i := 0 to |db.sightings|
        invariant MapView.Aggregates(db.sightings[..i], db.flags, q, best, count)
      {
        var s := db.sightings[i];
        assert db.sightings[..i + 1] == db.sightings[..i] + [s];
        var takes := s.locationId !in best || s.observedAt > best[s.locationId].observedAt;
        if !takes && s.observedAt == best[s.locationId].observedAt {
          takes := *;
        }
        MapView.AggregateOne(db.sightings[..i], s, db.flags, q, best, count, takes);
        if MapView.Visible(db.flags, q, s) {
          count := count[s.locationId := if s.locationId in count then count[s.locationId] + 1 else 1];
          if takes {
            best := best[s.locationId := s];
          }
        }
      }
      assert db.sightings[..|db.sightings|] == db.sightings;
    }

    /** The last part of the query: HAVING and ORDER BY. */
    method Markers(q: MapView.Query, best: map<int, Sighting>, count: map<int, nat>) returns (out: seq<MapView.Marker>)
      requires Keyed(db.State()) && MapView.Aggregates(db.sightings, db.flags, q, best, count)
      ensures MapView.Answers(db.State(), q, best, out)
    {
      out := [];
      MapView.BeforeIsStrictOrder();
      for j := 0 to |db.locations|
        invariant Sorted(MapView.Before, out)
        invariant forall m :: m in out <==> m.location in db.locations[..j] && MapView.IsMarker(db.State(), q, best, m)
      {
        var l := db.locations[j];
        assert db.locations[..j + 1] == db.locations[..j] + [l];
        assert l !in db.locations[..j];
        assert MapView.Kept(MapView.Group(db.State(), q, l), l.id, best, count);
        if MapView.InView(q, l) && l.id in best && (q.includeMissing || MapView.Exists(best[l.id])) {
          var m := MapView.Marker(l, best[l.id], best[l.id].observedAt, count[l.id]);
          assert MapView.IsMarker(db.State(), q, best, m);
          forall n | n in out
            ensures MapView.Before(m, n) || MapView.Before(n, m)
          {
            assert n.location.id < l.id;
          }
          out := Insert(MapView.Before, out, m);
        }
      }
      assert db.locations[..|db.locations|] == db.locations;
    }

    // -------------------------------------------------------------------------
    // Flags and audit
    // -------------------------------------------------------------------------

    method SetInsincere(flaggedBy: int, target: string, insincere: bool, now: int) returns (ok: bool)
      modifies db`flags
      ensures ok <==> Identity.HasOpaque(db.users, target) && HasUser(old(db.State()), flaggedBy)
      ensures ok ==> exists u :: u in db.users && u.opaqueId == target &&
                       db.State() == old(db.State()).(flags := old(db.flags) +
                           [Flag(NextFlagId(old(db.flags)), u.id, "insincere",
                                 if insincere then 1 else -1, flaggedBy, now)])
      ensures !ok ==> db.State() == old(db.State())
    {
      var id := UserByOpaque(target);
      if id.None? || !HasUser(db.State(), flaggedBy) {
        return false;
      }
      db.flags := db.flags + [Flags.NewFlag(db.flags, id.value, insincere, flaggedBy, now)];
      return true;
    }

    /** ListUserFlags: all flags of the user, newest first, each with the opaque id of the user
        who set it. Where the references hold, the join with these users drops none. */
    method ListUserFlags(target: string) returns (list: Option<seq<Flags.Listed>>)
      requires Keyed(db.State()) && Referenced(db.State())
      ensures list.None? <==> !Identity.HasOpaque(db.users, target)
      ensures list.Some? ==> forall i, j :: 0 <= i < j < |list.value| ==>
                || list.value[i].flag.createdAt > list.value[j].flag.createdAt
                || (list.value[i].flag.createdAt == list.value[j].flag.createdAt
                    && list.value[i].flag.id > list.value[j].flag.id)
      ensures list.Some? ==> Sorted(Flags.Newer, Flags.Rows(list.value))
      ensures list.Some? ==> forall r :: r in list.value ==>
              exists u :: u in db.users && u.id == r.flag.flaggedBy && u.opaqueId == r.flaggedByOpaque
      ensures list.Some? ==>
                exists u :: u in db.users && u.opaqueId == target &&
                            forall f :: f in Flags.Rows(list.value) <==> f in db.flags && f.target == u.id
    {
      var id := UserByOpaque(target);
      if id.None? {
        return None;
      }
      var flags := FlagsOf(id.value);
      var out: seq<Flags.Listed> := [];
      for i := 0 to |flags|
        invariant Flags.Rows(out) == flags[..i]
        invariant forall r :: r in out ==>
                  exists u :: u in db.users && u.id == r.flag.flaggedBy && u.opaqueId == r.flaggedByOpaque
      {
        var author := FindUser(flags[i].flaggedBy);
        assert flags[i] in flags;
        Flags.RowsOfAppend(out, Flags.Listed(flags[i], author.value.opaqueId));
        out := out + [Flags.Listed(flags[i], author.value.opaqueId)];
        assert flags[..i + 1] == flags[..i] + [flags[i]];
      }
      assert flags[..|flags|] == flags;
      Flags.NewestFirst(out);
      return Some(out);
    }

    /** The rows of user_flags with this target, in the order of the query. */
    method FlagsOf(target: int) returns (out: seq<Flag>)
      requires Keyed(db.State()) && Referenced(db.State())
      ensures Sorted(Flags.Newer, out)
      ensures forall f :: f in out <==> f in db.flags && f.target == target
    {
      out := [];
      for i := 0 to |db.flags|
        invariant Sorted(Flags.Newer, out)
        invariant forall f :: f in out <==> f in db.flags[..i] && f.target == target
      {
        var f := db.flags[i];
        assert db.flags[..i + 1] == db.flags[..i] + [f];
        if f.target == target {
          out := Insert(Flags.Newer, out, f);
        }
      }
      assert db.flags[..|db.flags|] == db.flags;
    }

    method FindUser(id: int) returns (u: Option<User>)
      ensures u.None? <==> !HasUser(db.State(), id)
      ensures u.Some? ==> u.value in db.users && u.value.id == id
    {
      for i := 0 to |db.users|
        invariant forall k :: 0 <= k < i ==> db.users[k].id != id
      {
        if db.users[i].id == id {
          return Some(db.users[i]);
        }
      }
      return None;
    }

    method FindLocation(id: int) returns (l: Option<Location>)
      ensures l.None? <==> !HasLocation(db.State(), id)
      ensures l.Some? ==> l.value in db.locations && l.value.id == id
    {
      for i := 0 to |db.locations|
        invariant forall k :: 0 <= k < i ==> db.locations[k].id != id
      {
        if db.locations[i].id == id {
          return Some(db.locations[i]);
        }
      }
      return None;
    }

    method AuditEventsSince(since: int) returns (out: seq<Audit.Event>)
      requires Keyed(db.State())
      ensures Audit.Lists(db.State(), since, out)
    {
      var created := LocationsSince(since);
      var all := AddSightings(since, created);
      assert Audit.InOrder(db.State(), since, all);
      out := Audit.FirstRows(all);
    }

    /** The first half of the UNION ALL, in the final order. */
    method LocationsSince(since: int) returns (all: seq<Audit.Event>)
      requires Keyed(db.State())
      ensures Sorted(Audit.Newer, all)
      ensures forall e :: e in all <==> Audit.FromLocations(db.State(), since, |db.locations|, e)
    {
      all := [];
      Audit.NewerIsStrictOrder();
      ghost var d := db.State();
      for i := 0 to |db.locations|
        invariant Sorted(Audit.Newer, all)
        invariant forall e :: e in all <==> Audit.FromLocations(d, since, i, e)
      {
        var l := db.locations[i];
        Audit.NextLocation(d, since, i);
        if l.createdAt >= since {
          var u := FindUser(l.createdBy);
          if u.Some? {
            var e := Audit.LocationEvent(db.State(), l, u.value);
            Audit.NextLocationEvent(d, since, i, u.value);
            Audit.AllComparable(d, since, i, 0, e);
            all := Insert(Audit.Newer, all, e);
          }
        }
      }
    }

    /** The second half, merged into the first. */
    method AddSightings(since: int, created: seq<Audit.Event>) returns (all: seq<Audit.Event>)
      requires Keyed(db.State()) && Sorted(Audit.Newer, created)
      requires forall e :: e in created <==> Audit.FromLocations(db.State(), since, |db.locations|, e)
      ensures Sorted(Audit.Newer, all)
      ensures forall e :: e in all <==> Audit.IsEvent(db.State(), since, e)
    {
      all := created;
      Audit.NewerIsStrictOrder();
      ghost var d := db.State();
      for i := 0 to |db.sightings|
        invariant Sorted(Audit.Newer, all)
        invariant forall e :: e in all <==>
                    Audit.FromLocations(d, since, |db.locations|, e) || Audit.FromSightings(d, since, i, e)
      {
        var s := db.sightings[i];
        Audit.NextSighting(d, since, i);
        if s.observedAt >= since {
          var l := FindLocation(s.locationId);
          var u := FindUser(s.reporter);
          if l.Some? && u.Some? {
            var e := Audit.SightingEvent(db.State(), s, l.value, u.value);
            Audit.NextSightingEvent(d, since, i, l.value, u.value);
            Audit.AllComparable(d, since, |db.locations|, i, e);
            all := Insert(Audit.Newer, all, e);
          }
        }
      }
    }
  }
}
