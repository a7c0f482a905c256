/** The append-only design over whole runs: any interleaving of the operations on one
    database, with the two statements of InsertSighting as separate steps. */
module History {
  import opened Schema
  import Import
  import Filing
  import Flags
  import Identity
  import Rounding

  ghost predicate UserStep(h: Identity.Hasher, db: Db, db': Db) {
    || (exists candidate: string :: db' == Identity.Opened(db, h, candidate).0)
    || (exists subject, now, u :: Identity.Resolves(db, h, subject, now, db', u))
    || (exists oid, role :: db' == db.(users := Identity.WithRole(db.users, oid, role)))
    || (exists id, called :: db' == db.(users := Identity.WithCalled(db.users, id, called)))
    || db' == db.(config := db'.config, permissions := db'.permissions)
  }

  ghost predicate ImportStep(db: Db, db': Db) {
    exists job, recs :: Import.Applies(db, job, recs, db')
  }

  ghost predicate FilingStep(db: Db, db': Db) {
    || (exists req :: Filing.FirstStatement(db, req) == Some(db'))
    || (exists req, reply :: Filing.SecondStatement(db, req, db', reply))
  }

  ghost predicate CanonicalStep(db: Db, db': Db) {
    exists lat, lon, user, now :: InRange(lat, lon) && HasUser(db, user)
        && db' == AppendLocation(db, lat, lon, user, now)
  }

  ghost predicate FlagStep(db: Db, db': Db) {
    exists target, insincere, who, now :: HasUser(db, target) && HasUser(db, who)
      && db' == db.(flags := db.flags + [Flags.NewFlag(db.flags, target, insincere, who, now)])
  }

  ghost predicate Step(h: Identity.Hasher, db: Db, db': Db) {
    UserStep(h, db, db') || ImportStep(db, db') || FilingStep(db, db') || CanonicalStep(db, db') || FlagStep(db, db')
  }

  ghost predicate StepAt(h: Identity.Hasher, trace: seq<Db>, k: nat)
    requires k + 1 < |trace|
  {
    Step(h, trace[k], trace[k + 1])
  }

  ghost predicate Run(h: Identity.Hasher, trace: seq<Db>) {
    trace != [] && Valid(trace[0]) && forall k :: 0 <= k < |trace| - 1 ==> StepAt(h, trace, k)
  }

  /** History is only ever added to, and no user disappears. */
  ghost predicate OnlyAdds(db: Db, db': Db) {
    && db.locations <= db'.locations && db.sightings <= db'.sightings && db.flags <= db'.flags
    && |db.users| <= |db'.users|
    && forall i :: 0 <= i < |db.users| ==>
        db'.users[i].id == db.users[i].id && db'.users[i].registeredAt == db.users[i].registeredAt
  }

  lemma UsersStay(db: Db, db': Db, id: int)
    requires |db.users| <= |db'.users| && (forall i :: 0 <= i < |db.users| ==> db'.users[i].id == db.users[i].id)
             && HasUser(db, id)
    ensures HasUser(db', id)
  {
    var u :| u in db.users && u.id == id;
    var i :| 0 <= i < |db.users| && db.users[i] == u;
    assert db'.users[i] in db'.users;
  }

  /** References survive any change of the users that keeps ids. */
  lemma ReferencesSurvive(db: Db, db': Db)
    requires Referenced(db) && |db.users| <= |db'.users| && forall i :: 0 <= i < |db.users| ==>
             db'.users[i].id == db.users[i].id
    requires db'.locations == db.locations && db'.sightings == db.sightings && db'.flags == db.flags
    ensures Referenced(db')
  {
    forall id | HasUser(db, id)
      ensures HasUser(db', id)
    {
      UsersStay(db, db', id);
    }
    assert forall id :: HasLocation(db, id) ==> HasLocation(db', id);
  }

  lemma MigrationKeepsValid(db: Db, h: Identity.Hasher, seed: string)
    requires Valid(db)
    ensures var db' := Identity.Migrate(db, h, seed).0;
            Valid(db') && OnlyAdds(db, db') && db'.config == db.config && db'.permissions == db.permissions
  {
    var (db', ok) := Identity.Migrate(db, h, seed);
    if ok && db.identities.Some? {
      var pending := Identity.PendingOf(h, seed, db.identities.value).value;
      Identity.RehashAllIff(db.users, pending);
      Identity.RehashedStaysUnique(db.users, pending);
      ReferencesSurvive(db, db');
    }
  }

  lemma OpenKeepsValid(db: Db, h: Identity.Hasher, candidate: string)
    requires Valid(db)
    ensures Valid(Identity.Opened(db, h, candidate).0) && OnlyAdds(db, Identity.Opened(db, h, candidate).0)
  {
    var seeded := Identity.EnsureSeed(db, candidate);
    ReferencesSurvive(db, seeded);
    MigrationKeepsValid(seeded, h, seeded.config[Identity.SEED_KEY]);
    var migrated := Identity.Migrate(seeded, h, seeded.config[Identity.SEED_KEY]).0;
    ReferencesSurvive(migrated, migrated.(permissions := migrated.permissions + Identity.DEFAULT_PERMISSIONS));
  }

  lemma ResolveKeepsValid(db: Db, h: Identity.Hasher, subject: string, now: int, db': Db, u: User)
    requires Valid(db) && Identity.Resolves(db, h, subject, now, db', u)
    ensures Valid(db') && OnlyAdds(db, db')
  {
    Identity.UpsertKeepsUsers(db.users, u.opaqueId, now);
    ReferencesSurvive(db, db');
  }

  lemma UserStepKeepsValid(h: Identity.Hasher, db: Db, db': Db)
    requires Valid(db) && UserStep(h, db, db')
    ensures Valid(db') && OnlyAdds(db, db')
  {
    if candidate: string :| db' == Identity.Opened(db, h, candidate).0 {
      OpenKeepsValid(db, h, candidate);
    } else if subject, now, u :| Identity.Resolves(db, h, subject, now, db', u) {
      ResolveKeepsValid(db, h, subject, now, db', u);
    } else if oid, role :| db' == db.(users := Identity.WithRole(db.users, oid, role)) {
      RewriteKeepsValid(db, db');
    } else if id, called :| db' == db.(users := Identity.WithCalled(db.users, id, called)) {
      RewriteKeepsValid(db, db');
    } else {
      RewriteKeepsValid(db, db');
    }
  }

  /** Roles, notes, configuration and permissions may change; ids, opaque ids and registrations may not. */
  lemma RewriteKeepsValid(db: Db, db': Db)
    requires Valid(db) && db' == db.(users := db'.users, config := db'.config, permissions := db'.permissions)
             && |db'.users| == |db.users|
    requires forall i :: 0 <= i < |db.users| ==>
               db'.users[i] == db.users[i].(role := db'.users[i].role, called := db'.users[i].called)
    ensures Valid(db') && OnlyAdds(db, db')
  {
    ReferencesSurvive(db, db');
  }

  lemma ImportRecordKeepsValid(db: Db, job: Import.Job, rec: Import.Record, db': Db)
    requires Valid(db) && Import.Steps(db, job, rec, db')
    ensures Valid(db')
  {
    var mid := Import.EnsureLocation(db, job, rec).value;
    if !Import.Occupied(db, rec) {
      AppendLocationValid(db, rec.lat, rec.lon, job.importer, job.observedAt);
    }
    if Import.Unrecorded(mid, rec) != {} {
      var l :| l in Import.Unrecorded(mid, rec) && db' == AppendSighting(mid, Import.NewSighting(mid, job, rec, l));
      AppendSightingValid(mid, Import.NewSighting(mid, job, rec, l));
    }
  }

  lemma {:induction false} ImportKeepsValid(db: Db, job: Import.Job, recs: seq<Import.Record>, db': Db)
    requires Valid(db) && Import.Applies(db, job, recs, db')
    ensures Valid(db') && OnlyAdds(db, db')
    decreases |recs|
  {
    Import.RunGrows(db, job, recs, db');
    if recs == [] {
    } else {
      var n := |recs| - 1;
      var mid :| Import.Applies(db, job, recs[..n], mid) && Import.Steps(mid, job, recs[n], db');
      ImportKeepsValid(db, job, recs[..n], mid);
      ImportRecordKeepsValid(mid, job, recs[n], db');
    }
  }

  lemma FilingKeepsValid(db: Db, db': Db)
    requires Valid(db) && FilingStep(db, db')
    ensures Valid(db') && OnlyAdds(db, db')
  {
    if req :| Filing.FirstStatement(db, req) == Some(db') {
      if !Filing.CellTaken(db, req.lat, req.lon) {
        AppendLocationValid(db, Rounding.Round7(req.lat), Rounding.Round7(req.lon), req.user, req.observedAt);
      }
    } else {
      var req, reply :| Filing.SecondStatement(db, req, db', reply);
      if db' != db {
        var l :| l in db.locations && Filing.SameCell(l, req.lat, req.lon)
            && db' == AppendSighting(db, Filing.NewSighting(db, req, l));
        AppendSightingValid(db, Filing.NewSighting(db, req, l));
      }
    }
  }

  lemma FlagKeepsValid(db: Db, db': Db)
    requires Valid(db) && FlagStep(db, db')
    ensures Valid(db') && OnlyAdds(db, db')
  {
    var target, insincere, who, now :| HasUser(db, target) && HasUser(db, who)
      && db' == db.(flags := db.flags + [Flags.NewFlag(db.flags, target, insincere, who, now)]);
    AppendFlagReferenced(db, Flags.NewFlag(db.flags, target, insincere, who, now));
    AppendFlagKeyed(db, Flags.NewFlag(db.flags, target, insincere, who, now));
  }

  lemma StepKeepsValid(h: Identity.Hasher, db: Db, db': Db)
    requires Valid(db) && Step(h, db, db')
    ensures Valid(db') && OnlyAdds(db, db')
  {
    if UserStep(h, db, db') {
      UserStepKeepsValid(h, db, db');
    } else if ImportStep(db, db') {
      var job, recs :| Import.Applies(db, job, recs, db');
      ImportKeepsValid(db, job, recs, db');
    } else if FilingStep(db, db') {
      FilingKeepsValid(db, db');
    } else if CanonicalStep(db, db') {
      var lat, lon, user, now :| InRange(lat, lon) && HasUser(db, user)
          && db' == AppendLocation(db, lat, lon, user, now);
      AppendLocationValid(db, lat, lon, user, now);
    } else {
      FlagKeepsValid(db, db');
    }
  }

  lemma OnlyAddsTransitive(a: Db, b: Db, c: Db)
    requires OnlyAdds(a, b) && OnlyAdds(b, c)
    ensures OnlyAdds(a, c)
  {
  }

  lemma NextState(h: Identity.Hasher, trace: seq<Db>, j: nat)
    requires Run(h, trace) && 0 < j < |trace| && Valid(trace[j - 1])
    ensures Valid(trace[j]) && OnlyAdds(trace[j - 1], trace[j])
  {
    assert StepAt(h, trace, j - 1);
    StepKeepsValid(h, trace[j - 1], trace[j]);
  }

  lemma {:induction false} RunIsValid(h: Identity.Hasher, trace: seq<Db>, k: nat)
    requires Run(h, trace) && k < |trace|
    ensures Valid(trace[k])
  {
    if k == 0 {
    } else {
      RunIsValid(h, trace, k - 1);
      NextState(h, trace, k);
    }
  }

  lemma {:induction false} RunOnlyAdds(h: Identity.Hasher, trace: seq<Db>, i: nat, j: nat)
    requires Run(h, trace) && i <= j < |trace|
    ensures OnlyAdds(trace[i], trace[j])
    decreases j - i
  {
    if i == j {
    } else {
      RunOnlyAdds(h, trace, i, j - 1);
      RunIsValid(h, trace, j - 1);
      NextState(h, trace, j);
      OnlyAddsTransitive(trace[i], trace[j - 1], trace[j]);
    }
  }

  /** Over every run, from any database that meets the schema's constraints: they hold in every
      state, and between any two states nothing is removed or changed in the history tables, and
      no user is lost, renumbered or re-registered. */
  lemma HistoryIsAppendOnly(h: Identity.Hasher, trace: seq<Db>, i: nat, j: nat)
    requires Run(h, trace) && i <= j < |trace|
    ensures Valid(trace[i]) && Valid(trace[j])
    ensures trace[i].locations <= trace[j].locations
    ensures trace[i].sightings <= trace[j].sightings
    ensures trace[i].flags <= trace[j].flags
    ensures |trace[i].users| <= |trace[j].users|
    ensures forall k :: 0 <= k < |trace[i].users| ==>
              trace[j].users[k].id == trace[i].users[k].id
              && trace[j].users[k].registeredAt == trace[i].users[k].registeredAt
  {
    RunIsValid(h, trace, i);
    RunIsValid(h, trace, j);
    RunOnlyAdds(h, trace, i, j);
  }
}
