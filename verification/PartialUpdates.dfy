/** PATCH on a user as an action: patches compose, and a full one is a PUT. */
module PartialUpdates {
  import opened Tables
  import opened Schema
  import opened Statements
  import opened Constraints
  import opened Api
  import opened Handlers

  // ---- composing --------------------------------------------------------------

  function Later<T>(first: Option<T>, second: Option<T>): Option<T> {
    if second.Some? then second else first
  }

  /** The fields of both bodies, the second winning; an empty password counts as none. */
  function MergeBodies(a: UserUpdate, b: UserUpdate): UserUpdate {
    UserUpdate(Later(a.email, b.email), if b.password == None || b.password == Some("") then a.password else b.password,
               Later(a.role, b.role), Later(a.firstName, b.firstName), Later(a.lastName, b.lastName),
               Later(a.avatarUrl, b.avatarUrl), Later(a.bio, b.bio))
  }

  predicate IsPatch(c: Call, id: Uuid) {
    c.request.UpdateUserRequest? && c.request.id == id && c.request.update.Some?
  }

  /** One PATCH for two: at the time of the second, with the salt of the last password. */
  function MergeCalls(c: Call, d: Call): Call
    requires c.request.UpdateUserRequest? && d.request.UpdateUserRequest?
    requires c.request.update.Some? && d.request.update.Some?
  {
    var i := if HasPassword(d.request.update.value.password) then d.inputs
             else d.inputs.(salt := c.inputs.salt, nonce := c.inputs.nonce, hashFails := c.inputs.hashFails);
    Call(UpdateUserRequest(d.request.id, Some(MergeBodies(c.request.update.value, d.request.update.value))),
         d.identity, i)
  }

  /** The hash a PATCH sends. */
  function SentHash(c: Call): Option<PasswordHash>
    requires c.request.UpdateUserRequest? && c.request.update.Some?
  {
    var password := c.request.update.value.password;
    if HasPassword(password) then HashPassword(password.value, c.inputs) else None
  }

  /** The role a PATCH sends. */
  function SentRole(c: Call, roles: seq<Role>): Option<Uuid>
    requires c.request.UpdateUserRequest? && c.request.update.Some?
  {
    var slug := c.request.update.value.role;
    if slug.None? then None
    else
      var role := Select(roles, With(RoleSlug, slug.value));
      if role == [] then None else Some(role[0].id)
  }

  /** The columns a PATCH sends to the store, unless hashing fails or the role is unknown. */
  function SentPatch(c: Call, roles: seq<Role>): Option<UserPatch>
    requires c.request.UpdateUserRequest? && c.request.update.Some?
  {
    var b := c.request.update.value;
    if (HasPassword(b.password) && c.inputs.hashFails) || (b.role.Some? && SentRole(c, roles).None?) then None
    else Some(PatchOf(b, SentHash(c), c.inputs.salt, SentRole(c, roles)))
  }

  /** A PATCH that is answered 200 is one UPDATE of the row, answered with the row's role. */
  lemma PatchSucceeds(c: Call, id: Uuid, db: Db)
    requires IsPatch(c, id)
    ensures var p := SentPatch(c, db.roles);
            (Atomic(c, db).1.status == 200 <==> p.Some? && UpdateUser(db, id, p.value, c.inputs.now).result.Success?)
            && (Atomic(c, db).1.status == 200 ==>
                  var out := UpdateUser(db, id, p.value, c.inputs.now);
                  Atomic(c, db) == (out.db, Response(200, UserBody(UserWithRole(out.db, out.result.value)))))
  {
    var (db1, pc1) := Step(c, Start, db);
    assert Finish(c, Start, db) == Finish(c, pc1, db1);
    if pc1.RoleKnown? {
      var (db2, pc2) := Step(c, pc1, db1);
      assert Finish(c, pc1, db1) == Finish(c, pc2, db2);
      FinishWritten(c, pc2, db2);
    } else {
      FinishWritten(c, pc1, db1);
    }
  }

  lemma FinishWritten(c: Call, pc: Pc, db: Db)
    requires Fits(c, pc)
    ensures pc.Written? ==> Finish(c, pc, db) == (db, Response(200, UserBody(UserWithRole(db, pc.user))))
    ensures pc.Done? ==> Finish(c, pc, db) == (db, pc.response)
  {
    if pc.Written? {
      assert Finish(c, pc, db) == Finish(c, Step(c, pc, db).1, db);
    }
  }

  function MergePatches(p: UserPatch, q: UserPatch): UserPatch {
    UserPatch(Later(p.email, q.email), Later(p.passwordHash, q.passwordHash), Later(p.passwordSalt, q.passwordSalt),
              Later(p.firstName, q.firstName), Later(p.lastName, q.lastName), Later(p.avatarUrl, q.avatarUrl),
              Later(p.bio, q.bio), Later(p.roleId, q.roleId))
  }

  lemma BodiesMerge(a: UserUpdate, b: UserUpdate, ha: Option<PasswordHash>, hb: Option<PasswordHash>,
                    sa: string, sb: string, ra: Option<Uuid>, rb: Option<Uuid>)
    ensures PatchOf(MergeBodies(a, b), Later(ha, hb), if hb.Some? then sb else sa, Later(ra, rb))
         == MergePatches(PatchOf(a, ha, sa, ra), PatchOf(b, hb, sb, rb))
  {
  }

  /** Merging bodies before they are sent is merging the columns they send. */
  lemma MergedPatch(c: Call, d: Call, id: Uuid, roles: seq<Role>)
    requires IsPatch(c, id) && IsPatch(d, id)
    requires SentPatch(c, roles).Some? && SentPatch(d, roles).Some?
    ensures SentPatch(MergeCalls(c, d), roles)
         == Some(MergePatches(SentPatch(c, roles).value, SentPatch(d, roles).value))
  {
    var m := MergeCalls(c, d);
    BodiesMerge(c.request.update.value, d.request.update.value, SentHash(c), SentHash(d), c.inputs.salt, d.inputs.salt,
                SentRole(c, roles), SentRole(d, roles));
    assert SentHash(m) == Later(SentHash(c), SentHash(d));
    assert SentRole(m, roles) == Later(SentRole(c, roles), SentRole(d, roles));
    assert m.inputs.salt == if SentHash(d).Some? then d.inputs.salt else c.inputs.salt;
  }

  lemma PatchingComposes(p: UserPatch, first: int, q: UserPatch, second: int, u: User)
    ensures Patching(MergePatches(p, q), second)(u) == Patching(q, second)(Patching(p, first)(u))
  {
  }

  lemma UpdatesCompose(db: Db, id: Uuid, p: UserPatch, first: int, q: UserPatch, second: int)
    requires Integrity(db)
    requires UpdateUser(db, id, p, first).result.Success?
    requires UpdateUser(UpdateUser(db, id, p, first).db, id, q, second).result.Success?
    ensures UpdateUser(db, id, MergePatches(p, q), second) == UpdateUser(UpdateUser(db, id, p, first).db, id, q, second)
  {
    forall u
      ensures Patching(MergePatches(p, q), second)(u) == Patching(q, second)(Patching(p, first)(u))
    {
      PatchingComposes(p, first, q, second, u);
    }
    ChangesCompose(db, id, Patching(p, first), Patching(q, second), Patching(MergePatches(p, q), second));
  }

  lemma ChangesCompose(db: Db, id: Uuid, f: User -> User, g: User -> User, both: User -> User)
    requires Integrity(db)
    requires forall u :: f(u).id == u.id && g(u).id == u.id && both(u) == g(f(u))
    requires ChangeUser(db, id, f).result.Success?
    requires ChangeUser(ChangeUser(db, id, f).db, id, g).result.Success?
    ensures ChangeUser(db, id, both) == ChangeUser(ChangeUser(db, id, f).db, id, g)
  {
    Lookup(db.users, UserId, id);
    var i :| 0 <= i < |db.users| && UserId(db.users[i]) == id;
    UniqueReplace(db.users, i, f(db.users[i]), UserId);
    RowChangesCompose(db, i, f, g, both);
  }

  lemma RowChangesCompose(db: Db, i: nat, f: User -> User, g: User -> User, both: User -> User)
    requires i < |db.users| && Unique(db.users, UserId) && Unique(db.users[i := f(db.users[i])], UserId)
    requires forall u :: f(u).id == u.id && g(u).id == u.id && both(u) == g(f(u))
    requires var id := db.users[i].id;
             ChangeUser(db, id, f).result.Success? && ChangeUser(ChangeUser(db, id, f).db, id, g).result.Success?
    ensures var id := db.users[i].id;
            ChangeUser(db, id, both) == ChangeUser(ChangeUser(db, id, f).db, id, g)
  {
    ChangeUserRow(db, i, f);
    var db1 := db.(users := db.users[i := f(db.users[i])]);
    ChangeUserRow(db1, i, g);
    ChangeUserRow(db, i, both);
    forall j | 0 <= j < |db.users| && j != i
      ensures UserEmail(db.users[j]) != both(db.users[i]).email
    {
      assert db1.users[j] == db.users[j];
    }
    assert db1.users[i := g(db1.users[i])] == db.users[i := both(db.users[i])];
  }

  /** Two PATCHes that succeed one after the other do and answer what one PATCH with the later value
      of each field does and answers. */
  lemma PatchesCompose(c: Call, d: Call, id: Uuid, db: Db)
    requires Integrity(db) && IsPatch(c, id) && IsPatch(d, id)
    requires Atomic(c, db).1.status == 200 && Atomic(d, Atomic(c, db).0).1.status == 200
    ensures Atomic(MergeCalls(c, d), db) == Atomic(d, Atomic(c, db).0)
  {
    TwoSent(c, d, id, db);
    MergedPatch(c, d, id, db.roles);
    var p, q := SentPatch(c, db.roles).value, SentPatch(d, db.roles).value;
    UpdatesCompose(db, id, p, c.inputs.now, q, d.inputs.now);
    PatchAnswers(MergeCalls(c, d), id, MergePatches(p, q), db);
  }

  /** What two successful PATCHes sent, and what became of it. */
  lemma TwoSent(c: Call, d: Call, id: Uuid, db: Db)
    requires IsPatch(c, id) && IsPatch(d, id)
    requires Atomic(c, db).1.status == 200 && Atomic(d, Atomic(c, db).0).1.status == 200
    ensures SentPatch(c, db.roles).Some? && SentPatch(d, db.roles).Some?
    ensures var p, q := SentPatch(c, db.roles).value, SentPatch(d, db.roles).value;
            var first := UpdateUser(db, id, p, c.inputs.now); var second := UpdateUser(first.db, id, q, d.inputs.now);
            && first.result.Success? && second.result.Success? && first.db == Atomic(c, db).0
            && Atomic(d, first.db)
               == (second.db, Response(200, UserBody(UserWithRole(second.db, second.result.value))))
  {
    PatchSucceeds(c, id, db);
    PatchSucceeds(d, id, Atomic(c, db).0);
  }

  lemma PatchAnswers(c: Call, id: Uuid, p: UserPatch, db: Db)
    requires IsPatch(c, id) && SentPatch(c, db.roles) == Some(p) && UpdateUser(db, id, p, c.inputs.now).result.Success?
    ensures var out := UpdateUser(db, id, p, c.inputs.now);
            Atomic(c, db) == (out.db, Response(200, UserBody(UserWithRole(out.db, out.result.value))))
  {
    PatchSucceeds(c, id, db);
  }

  function PatchAll(cs: seq<Call>, db: Db): (Db, Response)
    requires cs != []
  {
    var last := cs[|cs| - 1];
    if |cs| == 1 then Atomic(last, db) else Atomic(last, PatchAll(cs[..|cs| - 1], db).0)
  }

  ghost predicate AllSucceed(cs: seq<Call>, db: Db)
    requires cs != []
  {
    PatchAll(cs, db).1.status == 200 && (|cs| > 1 ==> AllSucceed(cs[..|cs| - 1], db))
  }

  function MergeAll(cs: seq<Call>, id: Uuid): (c: Call)
    requires cs != [] && forall k | 0 <= k < |cs| :: IsPatch(cs[k], id)
    ensures IsPatch(c, id)
  {
    assert IsPatch(cs[|cs| - 1], id);
    if |cs| == 1 then cs[0] else MergeCalls(MergeAll(cs[..|cs| - 1], id), cs[|cs| - 1])
  }

  /** Any number of successful PATCHes to a user amount to a single one. */
  lemma {:induction false} PatchSequence(cs: seq<Call>, id: Uuid, db: Db)
    requires Integrity(db) && cs != [] && forall k | 0 <= k < |cs| :: IsPatch(cs[k], id)
    requires AllSucceed(cs, db)
    ensures Atomic(MergeAll(cs, id), db) == PatchAll(cs, db)
  {
    if |cs| > 1 {
      PatchSequence(cs[..|cs| - 1], id, db);
      PatchesCompose(MergeAll(cs[..|cs| - 1], id), cs[|cs| - 1], id, db);
    }
  }

  // ---- the row a PATCH leaves --------------------------------------------------

  /** Every column: the value sent, or the one that was there. An empty password leaves hash and salt. */
  ghost predicate PatchedFrom(v: User, u: User, b: UserUpdate, i: Inputs, roles: seq<Role>) {
    && v.id == u.id && v.createdAt == u.createdAt && v.updatedAt == i.now
    && v.email == (if b.email.Some? then b.email.value else u.email)
    && v.firstName == (if b.firstName.Some? then b.firstName.value else u.firstName)
    && v.lastName == (if b.lastName.Some? then b.lastName.value else u.lastName)
    && v.avatarUrl == (if b.avatarUrl.Some? then b.avatarUrl else u.avatarUrl)
    && v.bio == (if b.bio.Some? then b.bio else u.bio)
    && (if b.password == None || b.password == Some("")
        then v.passwordHash == u.passwordHash && v.passwordSalt == u.passwordSalt
        else v.passwordHash.input == b.password.value + i.salt && v.passwordSalt == i.salt)
    && (if b.role == None then v.roleId == u.roleId
        else exists role :: role in roles && role.slug == b.role.value && role.id == v.roleId)
  }

  lemma PatchedRow(c: Call, k: nat, b: UserUpdate, db: Db)
    requires Integrity(db) && k < |db.users| && c.request == UpdateUserRequest(db.users[k].id, Some(b))
    requires Atomic(c, db).1.status == 200
    ensures var db' := Atomic(c, db).0;
            && |db'.users| == |db.users| && db' == db.(users := db.users[k := db'.users[k]])
            && PatchedFrom(db'.users[k], db.users[k], b, c.inputs, db.roles)
  {
    var u, p, i := db.users[k], SentPatch(c, db.roles), c.inputs;
    PatchSucceeds(c, u.id, db);
    ChangeUserRow(db, k, Patching(p.value, i.now));
    SentColumns(c, u, b, db.roles);
  }

  lemma SentColumns(c: Call, u: User, b: UserUpdate, roles: seq<Role>)
    requires c.request == UpdateUserRequest(u.id, Some(b)) && SentPatch(c, roles).Some?
    ensures PatchedFrom(Patching(SentPatch(c, roles).value, c.inputs.now)(u), u, b, c.inputs, roles)
  {
    if b.role.Some? {
      var found := Select(roles, With(RoleSlug, b.role.value));
      assert found != [] && SentRole(c, roles) == Some(found[0].id);
      SelectHas(roles, With(RoleSlug, b.role.value), found[0]);
      assert RoleSlug(found[0]) == b.role.value;
      assert found[0] in roles && found[0].slug == b.role.value;
    }
  }

  // ---- what a PATCH or PUT leaves alone ---------------------------------------

  predicate SameUser(u: User, v: User) {
    u.id == v.id && u.createdAt == v.createdAt
  }

  ghost predicate KeepsIdentity(db: Db, db': Db, id: Uuid) {
    && db' == db.(users := db'.users) && |db'.users| == |db.users|
    && forall k | 0 <= k < |db.users| ::
         SameUser(db'.users[k], db.users[k]) && (db.users[k].id != id ==> db'.users[k] == db.users[k])
  }

  lemma ChangeKeepsIdentity(db: Db, id: Uuid, change: User -> User)
    requires forall u :: SameUser(change(u), u)
    ensures KeepsIdentity(db, ChangeUser(db, id, change).db, id)
  {
    var users := Rewrite(db.users, With(UserId, id), change);
    assert forall k | 0 <= k < |db.users| ::
        users[k] == if db.users[k].id == id then change(db.users[k]) else db.users[k];
  }

  lemma PatchWriteKeepsIdentity(c: Call, id: Uuid, b: UserUpdate, roleId: Option<Uuid>, db: Db)
    ensures KeepsIdentity(db, PatchUser(c, id, b, roleId, db).0, id)
  {
    var hash := if HasPassword(b.password) then HashPassword(b.password.value, c.inputs) else None;
    ChangeKeepsIdentity(db, id, Patching(PatchOf(b, hash, c.inputs.salt, roleId), c.inputs.now));
  }

  lemma PatchKeepsIdentity(c: Call, id: Uuid, pc: Pc, db: Db)
    requires Fits(c, pc) && c.request.UpdateUserRequest? && c.request.id == id
    ensures KeepsIdentity(db, Step(c, pc, db).0, id)
  {
    if c.request.update.Some? && (pc.Start? || pc.RoleKnown?) {
      PatchWriteKeepsIdentity(c, id, c.request.update.value, if pc.RoleKnown? then Some(pc.role.id) else None, db);
    }
  }

  lemma PutKeepsIdentity(c: Call, id: Uuid, pc: Pc, db: Db)
    requires Fits(c, pc) && c.request.ReplaceUserRequest? && c.request.id == id
    ensures KeepsIdentity(db, Step(c, pc, db).0, id)
  {
    if pc.RoleKnown? {
      var b, i := c.request.newUser.value, c.inputs;
      var hash := HashOf(b.password.GetOr(""), i);
      ChangeKeepsIdentity(db, id, Replacing(UserColumnsOf(b, hash, i.salt, pc.role), i.now));
    }
  }

  /** PATCH and PUT keep every id and creation time, and every other row as it is. */
  lemma UpdateKeepsIdentity(c: Call, id: Uuid, pc: Pc, db: Db)
    requires Fits(c, pc) && (c.request.UpdateUserRequest? || c.request.ReplaceUserRequest?) && c.request.id == id
    ensures KeepsIdentity(db, Finish(c, pc, db).0, id)
    decreases Rank(pc)
  {
    if !pc.Done? {
      StepProgress(c, pc, db);
      if c.request.UpdateUserRequest? {
        PatchKeepsIdentity(c, id, pc, db);
      } else {
        PutKeepsIdentity(c, id, pc, db);
      }
      UpdateKeepsIdentity(c, id, Step(c, pc, db).1, Step(c, pc, db).0);
    }
  }

  // ---- a full PATCH is a PUT --------------------------------------------------

  /** The PATCH body with every field of a PUT body. */
  function FullPatch(b: UserCreate): UserUpdate {
    UserUpdate(Some(b.email), b.password, Some(b.role), Some(b.firstName), Some(b.lastName), b.avatarUrl, b.bio)
  }

  /** With a password, an avatar and a bio in the body, PATCH with every field set is PUT with the same
      salt and hash. They part only when hashing fails and the role is unknown: PATCH hashes first. */
  lemma FullPatchIsPut(c: Call, id: Uuid, b: UserCreate, db: Db)
    requires Integrity(db)
    requires HasPassword(b.password) && b.avatarUrl.Some? && b.bio.Some?
    requires c.request == UpdateUserRequest(id, Some(FullPatch(b)))
    ensures Atomic(c, db) == Atomic(c.(request := ReplaceUserRequest(id, Some(b))), db)
       <==> !(c.inputs.hashFails && GetRoleBySlug(db, b.role).Failure?)
  {
    var put := c.(request := ReplaceUserRequest(id, Some(b)));
    var (db1, pc1) := Step(c, Start, db);
    assert Finish(c, Start, db) == Finish(c, pc1, db1);
    assert Finish(put, Start, db) == Finish(put, Step(put, Start, db).1, db);
    if pc1.RoleKnown? {
      SameWrite(c, put, id, b, pc1.role, db);
    }
  }

  /** From the role on, both do the same. */
  lemma SameWrite(c: Call, put: Call, id: Uuid, b: UserCreate, role: Role, db: Db)
    requires Integrity(db) && GetRoleBySlug(db, b.role) == Success(role)
    requires HasPassword(b.password) && b.avatarUrl.Some? && b.bio.Some? && !c.inputs.hashFails
    requires c.request == UpdateUserRequest(id, Some(FullPatch(b)))
    requires put == c.(request := ReplaceUserRequest(id, Some(b)))
    ensures Finish(c, RoleKnown(role), db) == Finish(put, RoleKnown(role), db)
  {
    var out := ReplaceUser(db, id, UserColumnsOf(b, HashOf(b.password.value, c.inputs), c.inputs.salt, role),
                           c.inputs.now);
    SameStatement(c.inputs, id, b, role, db);
    PatchWrites(c, id, FullPatch(b), role, db);
    PutWrites(put, id, b, role, db);
    KnownRole(out.db, b.role, role);
  }

  lemma PatchWrites(c: Call, id: Uuid, b: UserUpdate, role: Role, db: Db)
    requires c.request == UpdateUserRequest(id, Some(b)) && HasPassword(b.password) && !c.inputs.hashFails
    ensures var i := c.inputs;
            var out := UpdateUser(db, id, PatchOf(b, Some(HashOf(b.password.value, i)), i.salt, Some(role.id)), i.now);
            Finish(c, RoleKnown(role), db)
            == (out.db, match out.result
                        case Success(u) => Response(200, UserBody(UserWithRole(out.db, u)))
                        case Failure(e) => UserWriteError(e))
  {
    var (db', pc') := Step(c, RoleKnown(role), db);
    assert Finish(c, RoleKnown(role), db) == Finish(c, pc', db');
    FinishWritten(c, pc', db');
  }

  lemma PutWrites(c: Call, id: Uuid, b: UserCreate, role: Role, db: Db)
    requires c.request == ReplaceUserRequest(id, Some(b)) && HasPassword(b.password)
    ensures var i := c.inputs;
            var out := ReplaceUser(db, id, UserColumnsOf(b, HashOf(b.password.value, i), i.salt, role), i.now);
            Finish(c, RoleKnown(role), db)
            == (out.db, match out.result
                        case Success(u) => Response(200, UserBody(ToApiUser(u, role)))
                        case Failure(e) => UserWriteError(e))
  {
    var (db', pc') := Step(c, RoleKnown(role), db);
    assert Finish(c, RoleKnown(role), db) == Finish(c, pc', db');
  }

  lemma SameStatement(i: Inputs, id: Uuid, b: UserCreate, role: Role, db: Db)
    requires HasPassword(b.password) && b.avatarUrl.Some? && b.bio.Some?
    ensures var hash := HashOf(b.password.value, i);
            UpdateUser(db, id, PatchOf(FullPatch(b), Some(hash), i.salt, Some(role.id)), i.now)
            == ReplaceUser(db, id, UserColumnsOf(b, hash, i.salt, role), i.now)
  {
    var hash := HashOf(b.password.value, i);
    SameChange(db, id, Patching(PatchOf(FullPatch(b), Some(hash), i.salt, Some(role.id)), i.now),
               Replacing(UserColumnsOf(b, hash, i.salt, role), i.now));
  }

  lemma SameChange(db: Db, id: Uuid, f: User -> User, g: User -> User)
    requires forall u :: f(u) == g(u)
    ensures ChangeUser(db, id, f) == ChangeUser(db, id, g)
  {
    assert Rewrite(db.users, With(UserId, id), f) == Rewrite(db.users, With(UserId, id), g);
  }

  lemma KnownRole(db: Db, slug: string, role: Role)
    requires RolesIntact(db.roles) && GetRoleBySlug(db, slug) == Success(role)
    ensures GetRole(db, role.id) == Success(role)
  {
    SelectHas(db.roles, With(RoleSlug, slug), role);
    Lookup(db.roles, RoleId, role.id);
  }
}
