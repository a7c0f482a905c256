/** Users under derived, non-reversible ids: the seed, the upsert on every request, the two
    admin updates, and the one-time migration off the legacy table of real subjects
    (internal/db/db.go and internal/store/users.go). */
module Identity {
  import opened Schema

  const SEED_KEY := "user_id_hash_seed"

  /** base64url decoding of the seed, and HMAC-SHA256 with encoding of the result. Nothing is
      assumed about either; where distinct subjects must hash apart, a lemma says so. */
  datatype Hasher = Hasher(decode: string -> Option<string>, mac: (string, string) -> string)
  {
    /** None for each of the three errors: undecodable seed, empty key, empty subject. */
    function OpaqueUserID(seed: string, subject: string): Option<string> {
      match decode(seed)
      case None => None
      case Some(key) => if key == "" || subject == "" then None else Some(mac(key, subject))
    }
  }

  /** Exactly what makes an id underivable, and otherwise it is the code of the subject itself
      under the decoded key. */
  lemma OpaqueUserIDMeans(h: Hasher, seed: string, subject: string)
    ensures h.OpaqueUserID(seed, subject).None? <==>
            h.decode(seed).None? || h.decode(seed).value == "" || subject == ""
    ensures h.OpaqueUserID(seed, subject).Some? ==>
            h.OpaqueUserID(seed, subject).value == h.mac(h.decode(seed).value, subject)
  {
  }

  // ---------------------------------------------------------------------------
  // The statements on `users`
  // ---------------------------------------------------------------------------

  predicate HasId(users: seq<User>, id: int) {
    exists u :: u in users && u.id == id
  }

  predicate HasOpaque(users: seq<User>, oid: string) {
    exists u :: u in users && u.opaqueId == oid
  }

  function SetOpaque(users: seq<User>, id: int, oid: string): seq<User> {
    seq(|users|, i requires 0 <= i < |users| => if users[i].id == id then users[i].(opaqueId := oid) else users[i])
  }

  /** UPDATE users SET opaque_id = ? WHERE id = ?; None when UNIQUE(opaque_id) stops it. */
  function Rehash(users: seq<User>, id: int, oid: string): Option<seq<User>> {
    if HasId(users, id) && TakenByOther(users, id, oid) then None
    else Some(SetOpaque(users, id, oid))
  }

  /** INSERT ... ON CONFLICT(opaque_id) DO UPDATE SET last_seen_at. */
  function Upsert(users: seq<User>, oid: string, now: int): seq<User> {
    if HasOpaque(users, oid) then
      seq(|users|, i requires 0 <= i < |users| => if users[i].opaqueId == oid then users[i].(lastSeenAt := now)
          else users[i])
    else users + [User(NextUserId(users), oid, "reporter", now, now, "")]
  }

  function WithRole(users: seq<User>, oid: string, role: string): seq<User> {
    seq(|users|, i requires 0 <= i < |users| => if users[i].opaqueId == oid then users[i].(role := role) else users[i])
  }

  function WithCalled(users: seq<User>, id: int, called: string): seq<User> {
    seq(|users|, i requires 0 <= i < |users| => if users[i].id == id then users[i].(called := called) else users[i])
  }

  // ---------------------------------------------------------------------------
  // Migration
  // ---------------------------------------------------------------------------

  datatype Pending = Pending(userId: int, oid: string)

  /** The rows to rewrite, or None when some subject cannot be hashed. */
  function PendingOf(h: Hasher, seed: string, rows: seq<Identity>): Option<seq<Pending>> {
    if rows == [] then Some([])
    else
      var n := |rows| - 1;
      var before, oid := PendingOf(h, seed, rows[..n]), h.OpaqueUserID(seed, rows[n].subject);
      if before.None? || oid.None? then None else Some(before.value + [Pending(rows[n].userId, oid.value)])
  }

  /** The UPDATE loop, row by row; None as soon as one violates UNIQUE. */
  function RehashAll(users: seq<User>, pending: seq<Pending>): Option<seq<User>> {
    if pending == [] then Some(users)
    else
      var n := |pending| - 1;
      var before := RehashAll(users, pending[..n]);
      if before.None? then None else Rehash(before.value, pending[n].userId, pending[n].oid)
  }

  /** dropUserIdentities: the new database and whether it succeeded; a failure is rolled back. */
  function Migrate(db: Db, h: Hasher, seed: string): (Db, bool) {
    match db.identities
    case None => (db, true)
    case Some(rows) =>
      var pending := PendingOf(h, seed, rows);
      var users := if pending.None? then None else RehashAll(db.users, pending.value);
      if users.None? then (db, false) else (db.(users := users.value, identities := None), true)
  }

  lemma {:induction false} PendingFailsEarly(h: Hasher, seed: string, rows: seq<Identity>, k: nat)
    requires k <= |rows| && PendingOf(h, seed, rows[..k]).None?
    ensures PendingOf(h, seed, rows).None?
    decreases |rows| - k
  {
    if k < |rows| {
      assert rows[..k + 1][..k] == rows[..k];
      PendingFailsEarly(h, seed, rows, k + 1);
    } else {
      assert rows[..k] == rows;
    }
  }

  lemma {:induction false} RehashFailsEarly(users: seq<User>, pending: seq<Pending>, k: nat)
    requires k <= |pending| && RehashAll(users, pending[..k]).None?
    ensures RehashAll(users, pending).None?
    decreases |pending| - k
  {
    if k < |pending| {
      assert pending[..k + 1][..k] == pending[..k];
      RehashFailsEarly(users, pending, k + 1);
    } else {
      assert pending[..k] == pending;
    }
  }

  /** The opaque id of u after the rows of `pending`. */
  function Current(u: User, pending: seq<Pending>): string {
    if pending == [] then u.opaqueId
    else
      var n := |pending| - 1;
      if pending[n].userId == u.id then pending[n].oid else Current(u, pending[..n])
  }

  /** Row k, when its turn comes, meets no other user with the id it writes. */
  ghost predicate FreeAt(users: seq<User>, pending: seq<Pending>, k: nat)
    requires k < |pending|
  {
    HasId(users, pending[k].userId) ==>
      forall u :: u in users && u.id != pending[k].userId ==> Current(u, pending[..k]) != pending[k].oid
  }

  ghost predicate Rehashed(users: seq<User>, pending: seq<Pending>, users': seq<User>) {
    && |users'| == |users|
    && forall i :: 0 <= i < |users| ==> users'[i] == users[i].(opaqueId := Current(users[i], pending))
  }

  /** The loop succeeds exactly when every row finds its id free at its turn, and then it has
      rewritten the opaque ids and nothing else. */
  lemma {:induction false} RehashAllIff(users: seq<User>, pending: seq<Pending>)
    ensures RehashAll(users, pending).Some? <==> forall k :: 0 <= k < |pending| ==> FreeAt(users, pending, k)
    ensures RehashAll(users, pending).Some? ==> Rehashed(users, pending, RehashAll(users, pending).value)
    decreases |pending|
  {
    if pending == [] {
    } else {
      var n := |pending| - 1;
      RehashAllIff(users, pending[..n]);
      forall k | 0 <= k < n
        ensures FreeAt(users, pending, k) <==> FreeAt(users, pending[..n], k)
      {
        assert pending[..n][k] == pending[k] && pending[..n][..k] == pending[..k];
      }
      if RehashAll(users, pending[..n]).Some? {
        RehashLast(users, pending, RehashAll(users, pending[..n]).value);
      }
    }
  }

  lemma RehashLast(users: seq<User>, pending: seq<Pending>, mid: seq<User>)
    requires pending != [] && Rehashed(users, pending[..|pending| - 1], mid)
    ensures var last := pending[|pending| - 1];
            var r := Rehash(mid, last.userId, last.oid);
            (r.Some? <==> FreeAt(users, pending, |pending| - 1)) && (r.Some? ==> Rehashed(users, pending, r.value))
  {
    var n := |pending| - 1;
    var id, oid := pending[n].userId, pending[n].oid;
    assert (HasId(mid, id) <==> HasId(users, id))
        && (TakenByOther(mid, id, oid) <==> TakenAfter(users, pending[..n], id, oid)) by {
      RehashedSees(users, pending[..n], mid, id, oid);
    }
  }

  predicate TakenByOther(users: seq<User>, id: int, oid: string) {
    exists u :: u in users && u.id != id && u.opaqueId == oid
  }

  ghost predicate TakenAfter(users: seq<User>, pending: seq<Pending>, id: int, oid: string) {
    exists u :: u in users && u.id != id && Current(u, pending) == oid
  }

  lemma RehashedSees(users: seq<User>, pending: seq<Pending>, mid: seq<User>, id: int, oid: string)
    requires Rehashed(users, pending, mid)
    ensures HasId(mid, id) <==> HasId(users, id)
    ensures TakenByOther(mid, id, oid) <==> TakenAfter(users, pending, id, oid)
  {
    assert forall i :: 0 <= i < |users| ==> users[i] in users && mid[i] in mid && mid[i].id == users[i].id;
    if TakenByOther(mid, id, oid) {
      var u :| u in mid && u.id != id && u.opaqueId == oid;
      var i :| 0 <= i < |mid| && mid[i] == u;
      assert Current(users[i], pending) == oid;
    }
    if TakenAfter(users, pending, id, oid) {
      var w :| w in users && w.id != id && Current(w, pending) == oid;
      var i :| 0 <= i < |users| && users[i] == w;
      assert mid[i].opaqueId == oid;
    }
  }

  /** One row a user, as a legacy table of subjects by user has. */
  ghost predicate OnePerUser(pending: seq<Pending>) {
    forall i, j :: 0 <= i < j < |pending| ==> pending[i].userId != pending[j].userId
  }

  /** The last row of a user is the one that counts. */
  lemma {:induction false} CurrentOfLastRow(u: User, pending: seq<Pending>, k: nat)
    requires k < |pending| && pending[k].userId == u.id
    requires forall j :: k < j < |pending| ==> pending[j].userId != u.id
    ensures Current(u, pending) == pending[k].oid
    decreases |pending|
  {
    var n := |pending| - 1;
    if k == n {
    } else {
      CurrentOfLastRow(u, pending[..n], k);
    }
  }

  lemma CurrentOfRow(u: User, pending: seq<Pending>, k: nat)
    requires OnePerUser(pending) && k < |pending| && pending[k].userId == u.id
    ensures Current(u, pending) == pending[k].oid
  {
    CurrentOfLastRow(u, pending, k);
  }

  lemma {:induction false} CurrentOfNoRow(u: User, pending: seq<Pending>)
    requires forall k :: 0 <= k < |pending| ==> pending[k].userId != u.id
    ensures Current(u, pending) == u.opaqueId
    decreases |pending|
  {
    if pending == [] {
    } else {
      CurrentOfNoRow(u, pending[..|pending| - 1]);
    }
  }

  /** No derived id is another user's old id, and different users' derived ids differ. */
  ghost predicate NoClash(users: seq<User>, pending: seq<Pending>) {
    && (forall p, u :: p in pending && HasId(users, p.userId) && u in users && u.id != p.userId ==> u.opaqueId != p.oid)
    && (forall p, q :: (p in pending && q in pending && HasId(users, p.userId) && HasId(users, q.userId)
                        && p.userId != q.userId) ==>
          p.oid != q.oid)
  }

  /** Without clashes the loop never collides midway, whatever the order of the rows. */
  lemma NoClashSucceeds(users: seq<User>, pending: seq<Pending>)
    requires OnePerUser(pending) && NoClash(users, pending)
    ensures RehashAll(users, pending).Some?
  {
    RehashAllIff(users, pending);
    forall k, u | 0 <= k < |pending| && HasId(users, pending[k].userId) && u in users && u.id != pending[k].userId
      ensures Current(u, pending[..k]) != pending[k].oid
    {
      var pre := pending[..k];
      assert pending[k] in pending;
      if j :| 0 <= j < k && pre[j].userId == u.id {
        CurrentOfRow(u, pre, j);
        assert pending[j] in pending && HasId(users, pending[j].userId);
      } else {
        CurrentOfNoRow(u, pre);
      }
    }
  }

  function Reverse(pending: seq<Pending>): (r: seq<Pending>)
    ensures |r| == |pending|
    ensures forall i :: 0 <= i < |pending| ==> r[i] == pending[|pending| - 1 - i]
  {
    seq(|pending|, i requires 0 <= i < |pending| => pending[|pending| - 1 - i])
  }

  /** Row k is free of user u's old id if u's own row, if any, comes later. */
  lemma OldIdIsNotWritten(users: seq<User>, pending: seq<Pending>, k: nat, u: User)
    requires OnePerUser(pending) && k < |pending| && FreeAt(users, pending, k) && HasId(users, pending[k].userId)
    requires u in users && u.id != pending[k].userId && forall j :: 0 <= j < k ==> pending[j].userId != u.id
    ensures u.opaqueId != pending[k].oid
  {
    CurrentOfNoRow(u, pending[..k]);
  }

  lemma EarlierIdIsNotWritten(users: seq<User>, pending: seq<Pending>, j: nat, k: nat)
    requires OnePerUser(pending) && j < k < |pending| && FreeAt(users, pending, k)
    requires HasId(users, pending[k].userId) && HasId(users, pending[j].userId)
    ensures pending[j].oid != pending[k].oid
  {
    var u :| u in users && u.id == pending[j].userId;
    CurrentOfRow(u, pending[..k], j);
  }

  lemma ReverseHasSameRows(pending: seq<Pending>)
    ensures forall p :: p in Reverse(pending) <==> p in pending
  {
    forall p | p in pending
      ensures p in Reverse(pending)
    {
      var i :| 0 <= i < |pending| && pending[i] == p;
      assert Reverse(pending)[|pending| - 1 - i] == p;
    }
  }

  /** Whichever of the two orders puts p before u's own row meets u under its old id. */
  lemma OldIdsAreFree(users: seq<User>, pending: seq<Pending>, k: nat, u: User)
    requires OnePerUser(pending) && OnePerUser(Reverse(pending)) && k < |pending|
    requires FreeAt(users, pending, k) && FreeAt(users, Reverse(pending), |pending| - 1 - k)
    requires HasId(users, pending[k].userId) && u in users && u.id != pending[k].userId
    ensures u.opaqueId != pending[k].oid
  {
    if j :| 0 <= j < k && pending[j].userId == u.id {
      OldIdIsNotWritten(users, Reverse(pending), |pending| - 1 - k, u);
    } else {
      OldIdIsNotWritten(users, pending, k, u);
    }
  }

  lemma OldIdsDiffer(users: seq<User>, pending: seq<Pending>, p: Pending, u: User)
    requires OnePerUser(pending) && OnePerUser(Reverse(pending))
    requires forall k :: 0 <= k < |pending| ==> FreeAt(users, pending, k) && FreeAt(users, Reverse(pending), k)
    requires p in pending && HasId(users, p.userId) && u in users && u.id != p.userId
    ensures u.opaqueId != p.oid
  {
    var k :| 0 <= k < |pending| && pending[k] == p;
    OldIdsAreFree(users, pending, k, u);
  }

  lemma DerivedIdsDiffer(users: seq<User>, pending: seq<Pending>, p: Pending, q: Pending)
    requires OnePerUser(pending) && forall k :: 0 <= k < |pending| ==> FreeAt(users, pending, k)
    requires p in pending && q in pending && HasId(users, p.userId) && HasId(users, q.userId) && p.userId != q.userId
    ensures p.oid != q.oid
  {
    var k :| 0 <= k < |pending| && pending[k] == p;
    var j :| 0 <= j < |pending| && pending[j] == q;
    EarlierIdIsNotWritten(users, pending, if j < k then j else k, if j < k then k else j);
  }

  lemma BothOrdersMeanNoClash(users: seq<User>, pending: seq<Pending>)
    requires OnePerUser(pending) && RehashAll(users, pending).Some? && RehashAll(users, Reverse(pending)).Some?
    ensures NoClash(users, pending)
  {
    RehashAllIff(users, pending);
    RehashAllIff(users, Reverse(pending));
    forall p, u | p in pending && HasId(users, p.userId) && u in users && u.id != p.userId
      ensures u.opaqueId != p.oid
    {
      OldIdsDiffer(users, pending, p, u);
    }
    forall p, q | p in pending && q in pending && HasId(users, p.userId) && HasId(users, q.userId)
        && p.userId != q.userId
      ensures p.oid != q.oid
    {
      DerivedIdsDiffer(users, pending, p, q);
    }
  }

  /** The exact condition for succeeding whatever the order: the given order and its reverse
      both succeed if and only if there is no clash. */
  lemma BothOrdersSucceedIffNoClash(users: seq<User>, pending: seq<Pending>)
    requires OnePerUser(pending)
    ensures RehashAll(users, pending).Some? && RehashAll(users, Reverse(pending)).Some? <==> NoClash(users, pending)
  {
    if NoClash(users, pending) {
      ReverseHasSameRows(pending);
      NoClashSucceeds(users, pending);
      NoClashSucceeds(users, Reverse(pending));
    } else if RehashAll(users, pending).Some? && RehashAll(users, Reverse(pending)).Some? {
      BothOrdersMeanNoClash(users, pending);
    }
  }

  lemma {:induction false} PendingRows(h: Hasher, seed: string, rows: seq<Identity>)
    requires PendingOf(h, seed, rows).Some?
    ensures |PendingOf(h, seed, rows).value| == |rows|
    ensures forall i :: 0 <= i < |rows| ==>
              var p := PendingOf(h, seed, rows).value;
              p[i].userId == rows[i].userId && h.OpaqueUserID(seed, rows[i].subject) == Some(p[i].oid)
    decreases |rows|
  {
    if rows == [] {
    } else {
      PendingRows(h, seed, rows[..|rows| - 1]);
    }
  }

  lemma SetOpaqueStaysUnique(users: seq<User>, id: int, oid: string)
    requires UsersOk(users) && Rehash(users, id, oid).Some?
    ensures UsersOk(SetOpaque(users, id, oid))
  {
    var users' := SetOpaque(users, id, oid);
    forall i, j | 0 <= i < j < |users|
      ensures users'[i].opaqueId != users'[j].opaqueId && users'[i].id < users'[j].id
    {
      assert users[i] in users && users[j] in users;
    }
  }

  /** Every state of the loop that it lets through has unique opaque ids. */
  lemma {:induction false} RehashedStaysUnique(users: seq<User>, pending: seq<Pending>)
    requires UsersOk(users) && RehashAll(users, pending).Some?
    ensures UsersOk(RehashAll(users, pending).value)
    decreases |pending|
  {
    if pending == [] {
    } else {
      var n := |pending| - 1;
      RehashedStaysUnique(users, pending[..n]);
      SetOpaqueStaysUnique(RehashAll(users, pending[..n]).value, pending[n].userId, pending[n].oid);
    }
  }

  lemma PendingNext(h: Hasher, seed: string, rows: seq<Identity>, row: Identity)
    ensures PendingOf(h, seed, rows + [row]).Some? <==>
            PendingOf(h, seed, rows).Some? && h.decode(seed).Some? && h.decode(seed).value != "" && row.subject != ""
  {
    assert (rows + [row])[..|rows|] == rows;
    OpaqueUserIDMeans(h, seed, row.subject);
  }

  /** The subjects can all be hashed exactly if the seed decodes to a key, unless there is none to
      hash, and none of them is empty. */
  lemma {:induction false} PendingIff(h: Hasher, seed: string, rows: seq<Identity>)
    ensures PendingOf(h, seed, rows).Some? <==>
            || rows == []
            || (h.decode(seed).Some? && h.decode(seed).value != "" && forall r :: r in rows ==> r.subject != "")
    decreases |rows|
  {
    if rows == [] {
    } else {
      var n := |rows| - 1;
      PendingIff(h, seed, rows[..n]);
      PendingNext(h, seed, rows[..n], rows[n]);
      assert rows == rows[..n] + [rows[n]];
    }
  }

  /** When the migration succeeds: there is nothing to migrate, or every subject hashes and every
      row meets its id free at its turn. */
  lemma MigratesIff(db: Db, h: Hasher, seed: string)
    ensures Migrate(db, h, seed).1 <==>
            db.identities.None? || (
              var rows := db.identities.value;
              && (rows == []
                  || (h.decode(seed).Some? && h.decode(seed).value != "" && forall r :: r in rows ==> r.subject != ""))
              && PendingOf(h, seed, rows).Some?
              && forall k :: 0 <= k < |rows| ==>
                  k < |PendingOf(h, seed, rows).value| && FreeAt(db.users, PendingOf(h, seed, rows).value, k))
  {
    if db.identities.Some? {
      PendingIff(h, seed, db.identities.value);
      if PendingOf(h, seed, db.identities.value).Some? {
        PendingRows(h, seed, db.identities.value);
        RehashAllIff(db.users, PendingOf(h, seed, db.identities.value).value);
      }
    }
  }

  /** Row k is the last that the legacy table holds for its user. */
  ghost predicate LastRow(rows: seq<Identity>, k: nat) {
    k < |rows| && forall j :: k < j < |rows| ==> rows[j].userId != rows[k].userId
  }

  lemma MigratedRow(u: User, h: Hasher, seed: string, rows: seq<Identity>, k: nat)
    requires PendingOf(h, seed, rows).Some? && LastRow(rows, k) && rows[k].userId == u.id
    ensures h.OpaqueUserID(seed, rows[k].subject) == Some(Current(u, PendingOf(h, seed, rows).value))
  {
    PendingRows(h, seed, rows);
    CurrentOfLastRow(u, PendingOf(h, seed, rows).value, k);
  }

  lemma UnmigratedUser(u: User, h: Hasher, seed: string, rows: seq<Identity>)
    requires PendingOf(h, seed, rows).Some? && forall r :: r in rows ==> r.userId != u.id
    ensures Current(u, PendingOf(h, seed, rows).value) == u.opaqueId
  {
    PendingRows(h, seed, rows);
    assert forall k :: 0 <= k < |rows| ==> rows[k] in rows;
    CurrentOfNoRow(u, PendingOf(h, seed, rows).value);
  }

  /** The migration either leaves the identical database or ends with the legacy table gone,
      every id, role, registration, heartbeat and note kept, the opaque ids still unique, and
      every identity row's user keyed by the id derived from its subject, that of its last row if
      it has several. */
  lemma MigrationEffect(db: Db, h: Hasher, seed: string, rows: seq<Identity>)
    requires db.identities == Some(rows) && Keyed(db) && UniqueOpaque(db.users)
    ensures var (db', ok) := Migrate(db, h, seed);
            if !ok then db' == db
            else
              && db'.identities == None && db' == db.(users := db'.users, identities := None)
              && |db'.users| == |db.users| && UniqueOpaque(db'.users) && Keyed(db')
              && (forall i :: 0 <= i < |db.users| ==> db'.users[i] == db.users[i].(opaqueId := db'.users[i].opaqueId))
              && (rows != [] ==> h.decode(seed).Some?)
              && (forall i, k :: (0 <= i < |db.users| && 0 <= k && LastRow(rows, k)
                                  && rows[k].userId == db.users[i].id) ==>
                    db'.users[i].opaqueId == h.mac(h.decode(seed).value, rows[k].subject))
              && (forall i :: 0 <= i < |db.users| && (forall r :: r in rows ==> r.userId != db.users[i].id) ==>
                    db'.users[i] == db.users[i])
  {
    var (db', ok) := Migrate(db, h, seed);
    if ok {
      var pending := PendingOf(h, seed, rows).value;
      RehashAllIff(db.users, pending);
      RehashedStaysUnique(db.users, pending);
      PendingIff(h, seed, rows);
      forall i, k | 0 <= i < |db.users| && 0 <= k && LastRow(rows, k) && rows[k].userId == db.users[i].id
        ensures db'.users[i].opaqueId == h.mac(h.decode(seed).value, rows[k].subject)
      {
        OpaqueUserIDMeans(h, seed, rows[k].subject);
        MigratedRow(db.users[i], h, seed, rows, k);
      }
      forall i | 0 <= i < |db.users| && forall r :: r in rows ==> r.userId != db.users[i].id
        ensures db'.users[i] == db.users[i]
      {
        UnmigratedUser(db.users[i], h, seed, rows);
      }
    }
  }

  // ---------------------------------------------------------------------------
  // The operations
  // ---------------------------------------------------------------------------

  const DEFAULT_PERMISSIONS: set<(string, string)> := {
    ("reporter", "sight"), ("reporter", "view"),
    ("editor", "sight"), ("editor", "view"), ("editor", "reconcile"), ("editor", "canonicalize"), ("editor", "gossip"),
    ("administrator", "sight"), ("administrator", "view"), ("administrator", "reconcile"),
    ("administrator", "canonicalize"), ("administrator", "gossip"), ("administrator", "audit"),
    ("administrator", "flag_insincere"), ("administrator", "set-user-flags"),
    ("muted", "view")
  }

  /** INSERT OR IGNORE of a fresh candidate: an existing seed wins. */
  function EnsureSeed(db: Db, candidate: string): Db {
    if SEED_KEY in db.config then db else db.(config := db.config[SEED_KEY := candidate])
  }

  /** db.Open on an existing connection: the seed, the migration, and the default permissions.
      A failing migration ends it early, but the seed has been written by then. */
  function Opened(db: Db, h: Hasher, candidate: string): (Db, bool) {
    var seeded := EnsureSeed(db, candidate);
    var (migrated, ok) := Migrate(seeded, h, seeded.config[SEED_KEY]);
    if ok then (migrated.(permissions := migrated.permissions + DEFAULT_PERMISSIONS), true) else (migrated, false)
  }

  /** Store.ResolveUser succeeds with the row u. */
  ghost predicate Resolves(db: Db, h: Hasher, subject: string, now: int, db': Db, u: User) {
    && SEED_KEY in db.config
    && var oid := h.OpaqueUserID(db.config[SEED_KEY], subject);
       oid.Some? && db' == db.(users := Upsert(db.users, oid.value, now)) && u in db'.users && u.opaqueId == oid.value
  }

  datatype Op =
    | Open(candidate: string)
    | Resolve(subject: string, now: int, user: User)  // `user` is the row it returned
    | SetRole(oid: string, role: string)
    | SetCalled(id: int, called: string)
    | SetConfig(key: string, value: string)
    | Grant(permission: (string, string))             // an operator's edits of role_permissions
    | Revoke(permission: (string, string))
    | Elsewhere                                       // any operation on the other tables

  ghost predicate Does(h: Hasher, db: Db, op: Op, db': Db) {
    match op
    case Open(candidate) => db' == Opened(db, h, candidate).0
    case Resolve(subject, now, user) => Resolves(db, h, subject, now, db', user)
    case SetRole(oid, role) => db' == db.(users := WithRole(db.users, oid, role))
    case SetCalled(id, called) => db' == db.(users := WithCalled(db.users, id, called))
    case SetConfig(key, value) => key != SEED_KEY && db' == db.(config := db.config[key := value])
    case Grant(p) => db' == db.(permissions := db.permissions + {p})
    case Revoke(p) => db' == db.(permissions := db.permissions - {p})
    case Elsewhere =>
      db'.users == db.users && db'.config == db.config && db'.identities == db.identities
          && db'.permissions == db.permissions
  }

  ghost predicate DoesAt(h: Hasher, trace: seq<Db>, ops: seq<Op>, k: nat)
    requires k < |ops| && k + 1 < |trace|
  {
    Does(h, trace[k], ops[k], trace[k + 1])
  }

  /** A run on any database, with or without the legacy table, on which the seed is left alone. */
  ghost predicate Run(h: Hasher, trace: seq<Db>, ops: seq<Op>) {
    && |trace| == |ops| + 1 && UsersOk(trace[0].users)
    && forall k :: 0 <= k < |ops| ==> DoesAt(h, trace, ops, k)
  }

  ghost predicate UsersOk(users: seq<User>) {
    UniqueOpaque(users) && forall i, j :: 0 <= i < j < |users| ==> users[i].id < users[j].id
  }

  // ---------------------------------------------------------------------------
  // What runs keep
  // ---------------------------------------------------------------------------

  /** Nobody is removed, registrations stand, and a seed stands. Once the legacy table is gone
      it stays so, and nobody is re-keyed any more. */
  ghost predicate Extends(db: Db, db': Db) {
    && |db.users| <= |db'.users|
    && (forall i :: 0 <= i < |db.users| ==>
          && db'.users[i].id == db.users[i].id
          && (db.identities.None? ==> db'.users[i].opaqueId == db.users[i].opaqueId)
          && db'.users[i].registeredAt == db.users[i].registeredAt)
    && (SEED_KEY in db.config ==> SEED_KEY in db'.config && db'.config[SEED_KEY] == db.config[SEED_KEY])
    && (db.identities.None? ==> db'.identities.None?)
  }

  lemma UpsertKeepsUsers(users: seq<User>, oid: string, now: int)
    requires UsersOk(users)
    ensures UsersOk(Upsert(users, oid, now)) && |users| <= |Upsert(users, oid, now)|
    ensures forall i :: 0 <= i < |users| ==>
            Upsert(users, oid, now)[i] == users[i].(lastSeenAt := Upsert(users, oid, now)[i].lastSeenAt)
  {
    var users' := Upsert(users, oid, now);
    if HasOpaque(users, oid) {
      assert forall i :: 0 <= i < |users| ==> users'[i].id == users[i].id && users'[i].opaqueId == users[i].opaqueId;
    } else {
      assert forall i :: 0 <= i < |users| ==> users[i] in users && users'[i] == users[i] && users[i].opaqueId != oid;
      assert users'[|users|].opaqueId == oid && users'[|users|].id == NextUserId(users);
    }
  }

  /** The migration rewrites opaque ids and nothing else of a user. */
  lemma MigrationExtends(db: Db, h: Hasher, seed: string)
    requires UsersOk(db.users)
    ensures var db' := Migrate(db, h, seed).0;
            && Extends(db, db') && UsersOk(db'.users) && db' == db.(users := db'.users, identities := db'.identities)
            && |db'.users| == |db.users|
            && forall i :: 0 <= i < |db.users| ==> db'.users[i] == db.users[i].(opaqueId := db'.users[i].opaqueId)
  {
    if db.identities.Some? && Migrate(db, h, seed).1 {
      var pending := PendingOf(h, seed, db.identities.value).value;
      RehashAllIff(db.users, pending);
      RehashedStaysUnique(db.users, pending);
    }
  }

  lemma OpExtends(h: Hasher, db: Db, op: Op, db': Db)
    requires Does(h, db, op, db') && UsersOk(db.users)
    ensures Extends(db, db') && UsersOk(db'.users)
  {
    match op {
      case Open(candidate) =>
        var seeded := EnsureSeed(db, candidate);
        MigrationExtends(seeded, h, seeded.config[SEED_KEY]);
      case Resolve(subject, now, _) =>
        UpsertKeepsUsers(db.users, h.OpaqueUserID(db.config[SEED_KEY], subject).value, now);
      case _ =>
    }
  }

  lemma ExtendsTransitive(a: Db, b: Db, c: Db)
    requires Extends(a, b) && Extends(b, c)
    ensures Extends(a, c)
  {
  }

  lemma {:induction false} RunExtends(h: Hasher, trace: seq<Db>, ops: seq<Op>, i: nat, j: nat)
    requires Run(h, trace, ops) && i <= j < |trace|
    ensures UsersOk(trace[i].users) && UsersOk(trace[j].users) && Extends(trace[i], trace[j])
    decreases j
  {
    if i < j {
      RunExtends(h, trace, ops, i, j - 1);
      assert DoesAt(h, trace, ops, j - 1);
      OpExtends(h, trace[j - 1], ops[j - 1], trace[j]);
      ExtendsTransitive(trace[i], trace[j - 1], trace[j]);
    } else if i == 0 {
    } else {
      RunExtends(h, trace, ops, i - 1, i - 1);
      assert DoesAt(h, trace, ops, i - 1);
      OpExtends(h, trace[i - 1], ops[i - 1], trace[i]);
    }
  }

  /** The seed never changes after its first creation, over any run, also one that migrates. */
  lemma SeedIsForever(h: Hasher, trace: seq<Db>, ops: seq<Op>, i: nat, j: nat)
    requires Run(h, trace, ops) && i <= j < |trace| && "user_id_hash_seed" in trace[i].config
    ensures "user_id_hash_seed" in trace[j].config
    ensures trace[j].config["user_id_hash_seed"] == trace[i].config["user_id_hash_seed"]
  {
    RunExtends(h, trace, ops, i, j);
  }

  /** A resolution returns the user keyed by the code of its subject under the stored seed. */
  lemma ResolvedUserIsKeyed(db: Db, h: Hasher, subject: string, now: int, db': Db, u: User)
    requires Resolves(db, h, subject, now, db', u)
    ensures "user_id_hash_seed" in db.config && h.decode(db.config["user_id_hash_seed"]).Some? && subject != ""
    ensures h.decode(db.config["user_id_hash_seed"]).value != ""
    ensures u in db'.users && u.opaqueId == h.mac(h.decode(db.config["user_id_hash_seed"]).value, subject)
  {
    OpaqueUserIDMeans(h, db.config[SEED_KEY], subject);
  }

  /** Two resolutions anywhere in a run return the same user exactly when their subjects have the
      same code under the one key; in particular a subject always gets the same user. The legacy
      table is gone by the first of them, as every successful Open sees to. */
  lemma SameUserIffSameHash(h: Hasher, trace: seq<Db>, ops: seq<Op>, i: nat, j: nat)
    requires Run(h, trace, ops) && i <= j < |ops| && ops[i].Resolve? && ops[j].Resolve? && trace[i].identities.None?
    ensures SEED_KEY in trace[i].config && h.decode(trace[i].config[SEED_KEY]).Some?
    ensures ops[i].user.id == ops[j].user.id <==>
            var key := h.decode(trace[i].config[SEED_KEY]).value;
            h.mac(key, ops[i].subject) == h.mac(key, ops[j].subject)
    ensures ops[i].subject == ops[j].subject ==> ops[i].user.id == ops[j].user.id
  {
    assert DoesAt(h, trace, ops, i) && DoesAt(h, trace, ops, j);
    SeedIsForever(h, trace, ops, i, j);
    ResolvedUserIsKeyed(trace[i], h, ops[i].subject, ops[i].now, trace[i + 1], ops[i].user);
    ResolvedUserIsKeyed(trace[j], h, ops[j].subject, ops[j].now, trace[j + 1], ops[j].user);
    RunExtends(h, trace, ops, i + 1, j + 1);
    var us := trace[j + 1].users;
    var a :| 0 <= a < |trace[i + 1].users| && trace[i + 1].users[a] == ops[i].user;
    var b :| 0 <= b < |us| && us[b] == ops[j].user;
    assert trace[i + 1].identities.None?;
    assert us[a].id == ops[i].user.id && us[a].opaqueId == ops[i].user.opaqueId;
  }

  /** The heartbeat: a returning user's row changes in last_seen_at alone, a new one starts as a
      reporter, and no other row changes. */
  lemma HeartbeatTouchesLastSeenOnly(db: Db, h: Hasher, subject: string, now: int, db': Db, u: User)
    requires Resolves(db, h, subject, now, db', u) && UniqueOpaque(db.users)
    ensures u.lastSeenAt == now
    ensures forall i :: 0 <= i < |db.users| ==>
              db'.users[i] == (if db.users[i].opaqueId == u.opaqueId then db.users[i].(lastSeenAt := now)
                  else db.users[i])
    ensures HasOpaque(db.users, u.opaqueId) ==> |db'.users| == |db.users|
    ensures !HasOpaque(db.users, u.opaqueId) ==>
              |db'.users| == |db.users| + 1 && u == db'.users[|db.users|] && u.id == NextUserId(db.users)
                  && u.role == "reporter"
                  && u.registeredAt == now && u.called == ""
  {
    var k :| 0 <= k < |db'.users| && db'.users[k] == u;
    assert forall i :: 0 <= i < |db.users| ==> db.users[i] in db.users;
  }

  /** The user in row r, which every later state of a run has as well. */
  ghost predicate Named(trace: seq<Db>, ops: seq<Op>, k: nat, r: nat)
    requires k < |trace| && k < |ops|
  {
    r < |trace[k].users| &&
    match ops[k]
    case SetRole(oid, _) => oid == trace[k].users[r].opaqueId
    case SetCalled(id, _) => id == trace[k].users[r].id
    case _ => false
  }

  lemma OpLeavesOthers(h: Hasher, trace: seq<Db>, ops: seq<Op>, k: nat, r: nat)
    requires Run(h, trace, ops) && k < |ops| && r < |trace[k].users|
    ensures r < |trace[k + 1].users|
    ensures !(ops[k].SetRole? && Named(trace, ops, k, r)) ==> trace[k + 1].users[r].role == trace[k].users[r].role
    ensures !(ops[k].SetCalled? && Named(trace, ops, k, r)) ==> trace[k + 1].users[r].called == trace[k].users[r].called
  {
    var op, db, db' := ops[k], trace[k], trace[k + 1];
    RunExtends(h, trace, ops, k, k);
    assert DoesAt(h, trace, ops, k);
    match op {
      case Open(candidate) =>
        var seeded := EnsureSeed(db, candidate);
        MigrationExtends(seeded, h, seeded.config[SEED_KEY]);
      case Resolve(subject, now, user) =>
        HeartbeatTouchesLastSeenOnly(db, h, subject, now, db', user);
      case _ =>
    }
  }

  /** Over whole runs, a user's role and note change only when SetUserRole or SetUserCalled names
      the user by the id it has then: neither heartbeats nor restarts nor the migration touch
      them. */
  lemma {:induction false} RolesAndNotesStand(h: Hasher, trace: seq<Db>, ops: seq<Op>, i: nat, j: nat, r: nat)
    requires Run(h, trace, ops) && i <= j < |trace| && r < |trace[i].users|
    ensures r < |trace[j].users|
    ensures (forall k :: i <= k < j && ops[k].SetRole? ==> !Named(trace, ops, k, r)) ==>
              trace[j].users[r].role == trace[i].users[r].role
    ensures (forall k :: i <= k < j && ops[k].SetCalled? ==> !Named(trace, ops, k, r)) ==>
              trace[j].users[r].called == trace[i].users[r].called
    decreases j - i
  {
    if i == j {
    } else {
      RolesAndNotesStand(h, trace, ops, i, j - 1, r);
      OpLeavesOthers(h, trace, ops, j - 1, r);
    }
  }

  lemma SetterTakes(h: Hasher, trace: seq<Db>, ops: seq<Op>, k: nat, r: nat)
    requires Run(h, trace, ops) && k < |ops| && Named(trace, ops, k, r)
    ensures r < |trace[k + 1].users|
    ensures ops[k].SetRole? ==> trace[k + 1].users[r].role == ops[k].role
    ensures ops[k].SetCalled? ==> trace[k + 1].users[r].called == ops[k].called
  {
    assert DoesAt(h, trace, ops, k);
  }

  /** The role a user has is the one last given to it, and so is the note. */
  lemma LastSetterStands(h: Hasher, trace: seq<Db>, ops: seq<Op>, i: nat, j: nat, r: nat)
    requires Run(h, trace, ops) && i < j < |trace| && Named(trace, ops, i, r)
    ensures r < |trace[j].users|
    ensures ops[i].SetRole? && (forall k :: i < k < j && ops[k].SetRole? ==> !Named(trace, ops, k, r)) ==>
              trace[j].users[r].role == ops[i].role
    ensures ops[i].SetCalled? && (forall k :: i < k < j && ops[k].SetCalled? ==> !Named(trace, ops, k, r)) ==>
              trace[j].users[r].called == ops[i].called
  {
    SetterTakes(h, trace, ops, i, r);
    RolesAndNotesStand(h, trace, ops, i + 1, j, r);
  }

  // ---------------------------------------------------------------------------
  // Edits of the permissions
  // ---------------------------------------------------------------------------

  /** The defaults are documented as a first-run seed under which operators may edit freely
      without being reset. For any database, a successful Open leaves the permissions as they
      were if and only if no default is missing; otherwise it adds just the missing ones. */
  lemma OpenKeepsPermissionsIff(db: Db, h: Hasher, candidate: string)
    requires Opened(db, h, candidate).1
    ensures Opened(db, h, candidate).0.permissions == db.permissions <==> DEFAULT_PERMISSIONS <= db.permissions
    ensures forall p :: p in Opened(db, h, candidate).0.permissions <==> p in db.permissions || p in DEFAULT_PERMISSIONS
    ensures forall role, p :: (role, p) in DEFAULT_PERMISSIONS <==>
              || (role == "reporter" && p in {"sight", "view"})
              || (role == "editor" && p in {"sight", "view", "reconcile", "canonicalize", "gossip"})
              || (role == "administrator" && p in {"sight", "view", "reconcile", "canonicalize", "gossip", "audit",
                                                   "flag_insincere", "set-user-flags"})
              || (role == "muted" && p == "view")
  {
    var seeded := EnsureSeed(db, candidate);
    assert Migrate(seeded, h, seeded.config[SEED_KEY]).0.permissions == db.permissions;
  }

  /** Step k opens the database successfully. */
  predicate Opens(h: Hasher, trace: seq<Db>, ops: seq<Op>, k: nat)
    requires k < |trace| && k < |ops|
  {
    ops[k].Open? && Opened(trace[k], h, ops[k].candidate).1
  }

  predicate Edits(op: Op, p: (string, string)) {
    op == Grant(p) || op == Revoke(p)
  }

  lemma PermissionAfter(h: Hasher, trace: seq<Db>, ops: seq<Op>, k: nat, p: (string, string))
    requires Run(h, trace, ops) && k < |ops| && !Edits(ops[k], p)
    ensures p in trace[k + 1].permissions <==>
            p in trace[k].permissions || (p in DEFAULT_PERMISSIONS && Opens(h, trace, ops, k))
  {
    var db, op := trace[k], ops[k];
    assert DoesAt(h, trace, ops, k);
    if op.Open? && Opened(db, h, op.candidate).1 {
      OpenKeepsPermissionsIff(db, h, op.candidate);
    }
  }

  /** Some Open has succeeded after step i and before step j. */
  predicate OpenedBetween(h: Hasher, trace: seq<Db>, ops: seq<Op>, i: nat, j: nat)
    requires j < |trace| && j <= |ops|
  {
    exists k :: i < k < j && Opens(h, trace, ops, k)
  }

  lemma OpenedByThen(h: Hasher, trace: seq<Db>, ops: seq<Op>, i: nat, j: nat)
    requires i + 1 < j < |trace| && j <= |ops|
    ensures OpenedBetween(h, trace, ops, i, j) <==>
            OpenedBetween(h, trace, ops, i, j - 1) || Opens(h, trace, ops, j - 1)
  {
    if Opens(h, trace, ops, j - 1) {
      assert i < j - 1 < j;
    }
  }

  lemma EditTakes(h: Hasher, trace: seq<Db>, ops: seq<Op>, i: nat, p: (string, string))
    requires Run(h, trace, ops) && i < |ops| && Edits(ops[i], p)
    ensures p in trace[i + 1].permissions <==> ops[i].Grant?
  {
    assert DoesAt(h, trace, ops, i);
  }

  /** Over every run: after an operator's last edit of a permission, at step i, it is there at
      step j exactly if the edit granted it, or it is a default and some Open in between has
      succeeded. So a revocation stands if and only if no restart follows or it is no default. */
  lemma {:induction false} EditStandsIff(h: Hasher, trace: seq<Db>, ops: seq<Op>, i: nat, j: nat, p: (string, string))
    requires Run(h, trace, ops) && i < j < |trace| && Edits(ops[i], p)
    requires forall k :: i < k < j ==> !Edits(ops[k], p)
    ensures p in trace[j].permissions <==>
            ops[i].Grant? || (p in DEFAULT_PERMISSIONS && OpenedBetween(h, trace, ops, i, j))
    decreases j
  {
    if i + 1 == j {
      EditTakes(h, trace, ops, i, p);
    } else {
      EditStandsIff(h, trace, ops, i, j - 1, p);
      PermissionAfter(h, trace, ops, j - 1, p);
      OpenedByThen(h, trace, ops, i, j);
    }
  }

  /** A new file, its first Open, the revocation of a default, a restart: the default is back. */
  lemma DeletedDefaultReturns(h: Hasher, seed: string) returns (trace: seq<Db>, ops: seq<Op>)
    ensures Run(h, trace, ops) && |trace| == 4 && trace[0] == Db(map[], {}, [], None, [], [], [])
    ensures ops == [Open(seed), Revoke(("reporter", "sight")), Open(seed)]
    ensures ("reporter", "sight") !in trace[2].permissions && ("reporter", "sight") in trace[3].permissions
  {
    var d0 := Db(map[], {}, [], None, [], [], []);
    var d1 := Opened(d0, h, seed).0;
    var d2 := d1.(permissions := d1.permissions - {("reporter", "sight")});
    trace, ops := [d0, d1, d2, Opened(d2, h, seed).0], [Open(seed), Revoke(("reporter", "sight")), Open(seed)];
    assert DoesAt(h, trace, ops, 0) && DoesAt(h, trace, ops, 1) && DoesAt(h, trace, ops, 2);
    assert Opens(h, trace, ops, 2);
    EditStandsIff(h, trace, ops, 1, 3, ("reporter", "sight"));
  }

  /** After a successful migration the subject of each identity row (of a user's last, if it has
      several) resolves to the very user it named before, with role, registration and note as they were. */
  lemma MigratedSubjectFindsItsUser(db: Db, h: Hasher, rows: seq<Identity>, k: nat, i: nat, now: int, db'': Db, u: User)
    requires db.identities == Some(rows) && SEED_KEY in db.config && Keyed(db) && UniqueOpaque(db.users)
    requires Migrate(db, h, db.config[SEED_KEY]).1
    requires LastRow(rows, k) && i < |db.users| && db.users[i].id == rows[k].userId
    requires Resolves(Migrate(db, h, db.config[SEED_KEY]).0, h, rows[k].subject, now, db'', u)
    ensures u == db.users[i].(opaqueId := u.opaqueId, lastSeenAt := now) && |db''.users| == |db.users|
  {
    var db' := Migrate(db, h, db.config[SEED_KEY]).0;
    MigrationEffect(db, h, db.config[SEED_KEY], rows);
    assert rows[k] in rows;
    assert db'.users[i] in db'.users;
    HeartbeatTouchesLastSeenOnly(db', h, rows[k].subject, now, db'', u);
    var j :| 0 <= j < |db''.users| && db''.users[j] == u;
    assert j == i;
  }
}
