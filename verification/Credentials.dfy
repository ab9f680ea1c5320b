/** Who can log in: after any run, exactly the credentials that the answered requests last set. */
module Credentials {
  import opened Tables
  import opened Schema
  import opened Statements
  import opened Seeding
  import opened Api
  import opened Handlers
  import opened Runs
  import opened Invariants
  import opened Joins
  import opened Linearizability
  import opened Shown

  datatype Credential = Credential(email: string, password: string)

  /** What an observer of requests and answers knows: each user's email and last password. */
  type Ledger = map<Uuid, Credential>

  /** What a PATCH is known to leave of a credential. */
  function Updated(known: Credential, b: UserUpdate): Credential {
    Credential(if b.email == None then known.email else b.email.value,
               if b.password == None || b.password == Some("") then known.password else b.password.value)
  }

  function Observe(l: Ledger, c: Call, r: Response): Ledger {
    match c.request
    case CreateUserRequest(Some(b)) =>
      if r.status == 201 && r.body.UserBody? then l[r.body.user.id := Credential(b.email, b.password.GetOr(""))] else l
    case UpdateUserRequest(id, Some(b)) =>
      if r.status == 200 && id in l then
        l[id := Updated(l[id], b)]
      else l
    case ReplaceUserRequest(id, Some(b)) =>
      if r.status == 200 then l[id := Credential(b.email, b.password.GetOr(""))] else l
    case DeleteUserRequest(id) => l - {id}
    case _ => l
  }

  /** The observer's knowledge after requests that took effect in the given order. */
  function LedgerAfter(calls: seq<Call>, db0: Db, l0: Ledger, order: seq<nat>): Ledger
    requires forall k | 0 <= k < |order| :: order[k] < |calls|
  {
    if order == [] then l0
    else
      var before, c := order[..|order| - 1], calls[order[|order| - 1]];
      Observe(LedgerAfter(calls, db0, l0, before), c, Atomic(c, OneByOne(calls, db0, before)).1)
  }

  function SeedCredential(slug: string): Credential {
    Credential(slug + "@example.com", slug)
  }

  function SeedLedger(s: Seed): Ledger {
    map[s.admin.id := SeedCredential("admin"), s.editor.id := SeedCredential("editor"),
        s.reader.id := SeedCredential("reader"), s.norole.id := SeedCredential("norole")]
  }

  // ---- the store agrees with the ledger ---------------------------------------

  /** Hash and salt of the row belong to the password the ledger knows. */
  ghost predicate Holds(u: User, l: Ledger) {
    u.id in l && u.email == l[u.id].email && Verifies(u.passwordHash, l[u.id].password, u.passwordSalt)
  }

  ghost predicate Agrees(db: Db, l: Ledger) {
    l.Keys == KeysOf(db.users, UserId) && forall i | 0 <= i < |db.users| :: Holds(db.users[i], l)
  }

  lemma SeedRowHolds(d: Draw, now: int, slug: string, first: string, roleId: Uuid, l: Ledger)
    requires d.id in l && l[d.id] == SeedCredential(slug)
    ensures Holds(SeedUser(d, now, slug, first, roleId), l)
  {
  }

  lemma SeedAgrees(s: Seed)
    requires DistinctIds(s)
    ensures Agrees(SeedDb(s), SeedLedger(s))
  {
    var users, l := SeedUsers(s), SeedLedger(s);
    SeedRowHolds(s.admin, s.now, "admin", "Admin", 1, l);
    SeedRowHolds(s.editor, s.now, "editor", "Editor", 2, l);
    SeedRowHolds(s.reader, s.now, "reader", "Reader", 3, l);
    SeedRowHolds(s.norole, s.now, "norole", "NoRole", 4, l);
    FourKeys(users);
  }

  lemma FourKeys(users: seq<User>)
    requires |users| == 4
    ensures KeysOf(users, UserId) == {users[0].id, users[1].id, users[2].id, users[3].id}
  {
    assert forall i | 0 <= i < 4 :: users[i] in users;
    assert forall u :: u in users ==> u == users[0] || u == users[1] || u == users[2] || u == users[3];
    forall k
      ensures k in KeysOf(users, UserId) <==> k in {users[0].id, users[1].id, users[2].id, users[3].id}
    {
      if i :| 0 <= i < 4 && users[i].id == k {
        assert UserId(users[i]) == k;
      }
    }
  }

  lemma InsertAgrees(db: Db, l: Ledger, u: User, cred: Credential)
    requires Agrees(db, l) && Statements.CreateUser(db, u).result.Success?
    requires u.email == cred.email && Verifies(u.passwordHash, cred.password, u.passwordSalt)
    ensures Agrees(Statements.CreateUser(db, u).db, l[u.id := cred])
  {
    var users := db.users + [u];
    assert users[|db.users|] == u && forall i | 0 <= i < |db.users| :: users[i] == db.users[i];
    forall i | 0 <= i < |db.users|
      ensures Holds(db.users[i], l[u.id := cred])
    {
      assert db.users[i] in db.users;
    }
    assert forall v :: v in users <==> v in db.users || v == u;
  }

  lemma ChangeAgrees(db: Db, l: Ledger, id: Uuid, change: User -> User, cred: Credential)
    requires Integrity(db) && Agrees(db, l) && Statements.ChangeUser(db, id, change).result.Success?
    requires forall v :: change(v).id == v.id
    requires id in l ==> forall u: User | u.id == id && Holds(u, l) ::
               change(u).email == cred.email && Verifies(change(u).passwordHash, cred.password, change(u).passwordSalt)
    ensures id in l && Agrees(Statements.ChangeUser(db, id, change).db, l[id := cred])
  {
    Lookup(db.users, UserId, id);
    var i :| 0 <= i < |db.users| && UserId(db.users[i]) == id;
    assert Holds(db.users[i], l);
    ChangedRowAgrees(db, l, i, change, cred);
  }

  lemma ChangedRowAgrees(db: Db, l: Ledger, i: nat, change: User -> User, cred: Credential)
    requires Unique(db.users, UserId) && Agrees(db, l) && i < |db.users|
    requires Statements.ChangeUser(db, db.users[i].id, change).result.Success?
    requires var u := change(db.users[i]);
             u.id == db.users[i].id && u.email == cred.email && Verifies(u.passwordHash, cred.password, u.passwordSalt)
    ensures Agrees(Statements.ChangeUser(db, db.users[i].id, change).db, l[db.users[i].id := cred])
  {
    RewriteOne(db.users, UserId, i, change);
    ReplacedRowAgrees(db.users, l, i, change(db.users[i]), cred);
  }

  lemma ReplacedRowAgrees(users: seq<User>, l: Ledger, i: nat, u: User, cred: Credential)
    requires Unique(users, UserId) && i < |users| && u.id == users[i].id
    requires l.Keys == KeysOf(users, UserId) && forall j | 0 <= j < |users| :: Holds(users[j], l)
    requires u.email == cred.email && Verifies(u.passwordHash, cred.password, u.passwordSalt)
    ensures var users', l' := users[i := u], l[u.id := cred];
            l'.Keys == KeysOf(users', UserId) && forall j | 0 <= j < |users'| :: Holds(users'[j], l')
  {
    var users' := users[i := u];
    SameIds(users, users');
    forall j | 0 <= j < |users|
      ensures Holds(users'[j], l[u.id := cred])
    {
      if j != i {
        assert UserId(users[j]) != UserId(users[i]);
        assert Holds(users[j], l);
      }
    }
    assert UserId(users[i]) in KeysOf(users, UserId);
  }

  lemma SameIds(users: seq<User>, users': seq<User>)
    requires |users| == |users'| && forall j | 0 <= j < |users| :: users[j].id == users'[j].id
    ensures KeysOf(users, UserId) == KeysOf(users', UserId)
  {
    forall k
      ensures k in KeysOf(users, UserId) <==> k in KeysOf(users', UserId)
    {
      if k in KeysOf(users, UserId) {
        var j :| 0 <= j < |users| && users[j].id == k;
        assert UserId(users'[j]) == k;
      }
      if k in KeysOf(users', UserId) {
        var j :| 0 <= j < |users| && users'[j].id == k;
        assert UserId(users[j]) == k;
      }
    }
  }

  lemma DeleteAgrees(db: Db, l: Ledger, id: Uuid)
    requires Agrees(db, l)
    ensures Agrees(Statements.DeleteUser(db, id), l - {id})
  {
    SelectMembers(db.users, With(UserId, id));
    SelectMembers(db.users, Without(UserId, id));
    var users := Statements.DeleteUser(db, id).users;
    if Select(db.users, With(UserId, id)) == [] {
      forall u | u in db.users
        ensures u.id != id
      {
        SelectHas(db.users, With(UserId, id), u);
      }
    } else {
      forall i | 0 <= i < |users|
        ensures Holds(users[i], l - {id})
      {
        SelectHas(db.users, Without(UserId, id), users[i]);
      }
    }
  }

  // ---- one request ------------------------------------------------------------

  lemma CreateAgrees(c: Call, b: UserCreate, db: Db, l: Ledger)
    requires c.request == CreateUserRequest(Some(b)) && Agrees(db, l)
    ensures Agrees(Atomic(c, db).0, Observe(l, c, Atomic(c, db).1))
  {
    var pc := Step(c, Start, db).1;
    assert Finish(c, Start, db) == Finish(c, pc, db);
    if pc.RoleKnown? {
      assert Finish(c, pc, db) == Finish(c, Step(c, pc, db).1, Step(c, pc, db).0);
      var i, password := c.inputs, b.password.GetOr("");
      var u := NewUser(i.newId, UserColumnsOf(b, HashOf(password, i), i.salt, pc.role), i.now);
      if Statements.CreateUser(db, u).result.Success? {
        InsertAgrees(db, l, u, Credential(b.email, password));
      }
    }
  }

  lemma ReplaceAgrees(c: Call, id: Uuid, b: UserCreate, db: Db, l: Ledger)
    requires c.request == ReplaceUserRequest(id, Some(b)) && Integrity(db) && Agrees(db, l)
    ensures Agrees(Atomic(c, db).0, Observe(l, c, Atomic(c, db).1))
  {
    var pc := Step(c, Start, db).1;
    assert Finish(c, Start, db) == Finish(c, pc, db);
    if pc.RoleKnown? {
      assert Finish(c, pc, db) == Finish(c, Step(c, pc, db).1, Step(c, pc, db).0);
      var i, password := c.inputs, b.password.GetOr("");
      var change := Replacing(UserColumnsOf(b, HashOf(password, i), i.salt, pc.role), i.now);
      if Statements.ChangeUser(db, id, change).result.Success? {
        ChangeAgrees(db, l, id, change, Credential(b.email, password));
      }
    }
  }

  lemma PatchedHolds(b: UserUpdate, hash: Option<PasswordHash>, salt: string, roleId: Option<Uuid>, now: int,
                     u: User, known: Credential)
    requires u.email == known.email && Verifies(u.passwordHash, known.password, u.passwordSalt)
    requires if HasPassword(b.password) then hash.Some? && Verifies(hash.value, b.password.value, salt) else hash.None?
    ensures var v := Patching(PatchOf(b, hash, salt, roleId), now)(u);
            && v.email == b.email.GetOr(known.email)
            && Verifies(v.passwordHash, Updated(known, b).password, v.passwordSalt)
  {
  }

  lemma PatchedRowAgrees(b: UserUpdate, hash: Option<PasswordHash>, salt: string, roleId: Option<Uuid>, now: int,
                         id: Uuid, db: Db, l: Ledger)
    requires Integrity(db) && Agrees(db, l)
    requires if HasPassword(b.password) then hash.Some? && Verifies(hash.value, b.password.value, salt) else hash.None?
    requires Statements.UpdateUser(db, id, PatchOf(b, hash, salt, roleId), now).result.Success?
    ensures id in l
    ensures Agrees(Statements.UpdateUser(db, id, PatchOf(b, hash, salt, roleId), now).db, l[id := Updated(l[id], b)])
  {
    Lookup(db.users, UserId, id);
    var change := Patching(PatchOf(b, hash, salt, roleId), now);
    var cred := Updated(l[id], b);
    forall u: User | u.id == id && Holds(u, l)
      ensures change(u).email == cred.email && Verifies(change(u).passwordHash, cred.password, change(u).passwordSalt)
    {
      PatchedHolds(b, hash, salt, roleId, now, u, l[id]);
    }
    ChangeAgrees(db, l, id, change, cred);
  }

  /** The password a PATCH leaves: hash and salt are written as a pair, or neither is. */
  lemma PatchAgrees(c: Call, id: Uuid, b: UserUpdate, roleId: Option<Uuid>, db: Db, l: Ledger)
    requires c.request == UpdateUserRequest(id, Some(b)) && Integrity(db) && Agrees(db, l)
    requires HasPassword(b.password) ==> !c.inputs.hashFails
    ensures var (db', pc) := PatchUser(c, id, b, roleId, db);
            if pc.Written? then id in l && Agrees(db', l[id := Updated(l[id], b)])
            else db' == db && pc.Done? && pc.response.status != 200
  {
    var i := c.inputs;
    var hash := if HasPassword(b.password) then HashPassword(b.password.value, i) else None;
    if PatchUser(c, id, b, roleId, db).1.Written? {
      PatchedRowAgrees(b, hash, i.salt, roleId, i.now, id, db, l);
    }
  }

  lemma UpdateAgrees(c: Call, id: Uuid, b: UserUpdate, db: Db, l: Ledger)
    requires c.request == UpdateUserRequest(id, Some(b)) && Integrity(db) && Agrees(db, l)
    ensures Agrees(Atomic(c, db).0, Observe(l, c, Atomic(c, db).1))
  {
    var (db1, pc1) := Step(c, Start, db);
    assert Finish(c, Start, db) == Finish(c, pc1, db1);
    if !HasPassword(b.password) || !c.inputs.hashFails {
      if b.role.None? {
        PatchAgrees(c, id, b, None, db, l);
        WrittenFinish(c, pc1, db1);
      } else if pc1.RoleKnown? {
        PatchAgrees(c, id, b, Some(pc1.role.id), db, l);
        var (db2, pc2) := Step(c, pc1, db1);
        assert Finish(c, pc1, db1) == Finish(c, pc2, db2);
        WrittenFinish(c, pc2, db2);
      }
    }
  }

  lemma WrittenFinish(c: Call, pc: Pc, db: Db)
    requires Fits(c, pc) && Decided(pc)
    ensures Finish(c, pc, db).0 == db
    ensures pc.Written? ==> Finish(c, pc, db).1.status == 200
    ensures pc.Done? ==> Finish(c, pc, db).1 == pc.response
  {
    if pc.Written? {
      assert Finish(c, pc, db) == Finish(c, Step(c, pc, db).1, db);
    }
  }

  lemma StepKeepsUsers(c: Call, pc: Pc, db: Db)
    requires Fits(c, pc)
    requires !c.request.CreateUserRequest? && !c.request.UpdateUserRequest? && !c.request.ReplaceUserRequest?
    requires !c.request.DeleteUserRequest?
    ensures Step(c, pc, db).0.users == db.users
  {
  }

  lemma OthersKeepUsers(c: Call, pc: Pc, db: Db)
    requires Fits(c, pc)
    requires !c.request.CreateUserRequest? && !c.request.UpdateUserRequest? && !c.request.ReplaceUserRequest?
    requires !c.request.DeleteUserRequest?
    ensures Finish(c, pc, db).0.users == db.users
    decreases Rank(pc)
  {
    if !pc.Done? {
      StepProgress(c, pc, db);
      StepKeepsUsers(c, pc, db);
      OthersKeepUsers(c, Step(c, pc, db).1, Step(c, pc, db).0);
    }
  }

  lemma NoBodyAgrees(c: Call, db: Db, l: Ledger)
    requires Agrees(db, l)
    requires match c.request
             case CreateUserRequest(b) => b.None?
             case ReplaceUserRequest(_, b) => b.None?
             case UpdateUserRequest(_, b) => b.None?
             case _ => false
    ensures Agrees(Atomic(c, db).0, Observe(l, c, Atomic(c, db).1))
  {
    assert Finish(c, Start, db) == Finish(c, Step(c, Start, db).1, db);
  }

  /** One request, alone, changes the store's credentials as its answer says. */
  lemma AtomicAgrees(c: Call, db: Db, l: Ledger)
    requires Integrity(db) && Agrees(db, l)
    ensures Agrees(Atomic(c, db).0, Observe(l, c, Atomic(c, db).1))
  {
    match c.request
    case CreateUserRequest(Some(b)) => CreateAgrees(c, b, db, l);
    case UpdateUserRequest(id, Some(b)) => UpdateAgrees(c, id, b, db, l);
    case ReplaceUserRequest(id, Some(b)) => ReplaceAgrees(c, id, b, db, l);
    case DeleteUserRequest(id) => DeleteAgrees(db, l, id);
    case CreateUserRequest(None) => NoBodyAgrees(c, db, l);
    case UpdateUserRequest(_, None) => NoBodyAgrees(c, db, l);
    case ReplaceUserRequest(_, None) => NoBodyAgrees(c, db, l);
    case _ => OthersKeepUsers(c, Start, db);
  }

  lemma {:induction false} OrderAgrees(calls: seq<Call>, db0: Db, l0: Ledger, order: seq<nat>)
    requires forall k | 0 <= k < |order| :: order[k] < |calls|
    requires Integrity(db0) && Agrees(db0, l0)
    ensures Agrees(OneByOne(calls, db0, order), LedgerAfter(calls, db0, l0, order))
  {
    if order != [] {
      var before, c := order[..|order| - 1], calls[order[|order| - 1]];
      OrderAgrees(calls, db0, l0, before);
      OneByOneIntact(calls, db0, before);
      AtomicAgrees(c, OneByOne(calls, db0, before), LedgerAfter(calls, db0, l0, before));
    }
  }

  // ---- login ------------------------------------------------------------------

  ghost predicate Known(l: Ledger, email: string, password: string) {
    exists id :: id in l && l[id] == Credential(email, password)
  }

  /** The answer to a log-in with an email and a password, as the ledger decides it: a 401 when no user has
      the pair, a 500 when one has it and signing fails, and else a token for that user. */
  ghost predicate LoginAnswer(c: Call, email: string, password: string, l: Ledger, r: Response) {
    if !Known(l, email, password) then r == Response(401, Message("invalid credentials"))
    else if c.inputs.signFails then r == Response(500, Fault(Signing))
    else
      && r.status == 200 && r.body.TokenBody? && r.body.claims.sub in l
      && l[r.body.claims.sub] == Credential(email, password)
  }

  lemma LoginMatchesLedger(c: Call, email: string, password: string, db: Db, l: Ledger)
    requires Integrity(db) && Agrees(db, l)
    ensures LoginAnswer(c, email, password, l, Login(c, Some(LoginBody(email, Some(password))), db))
  {
    JoinedLookup(db, UserEmail, email);
    if Known(l, email, password) {
      KnownEmail(db, l, email, password);
    }
    if Statements.GetUserByEmail(db, email).Success? {
      FoundMatchesLedger(db, l, email, password, Statements.GetUserByEmail(db, email).value.0);
    }
  }

  /** The token of a login names the user and carries the slug and scopes of the user's role, for an
      hour; the answer shows the user as a GET would. */
  lemma LoginToken(c: Call, body: LoginBody, db: Db)
    requires Integrity(db) && Login(c, Some(body), db).status == 200
    ensures var r := Login(c, Some(body), db);
            && r.body.TokenBody? && r.body.claims.iat == c.inputs.now && r.body.claims.exp == c.inputs.now + 3600
            && r.body.expiresAt == r.body.claims.exp
            && r.body.claims.iss == "sample-api" && r.body.claims.jti == c.inputs.tokenId
            && (exists u, role :: u in db.users && role in db.roles && role.id == u.roleId && u.email == body.email
                                  && r.body.claims.sub == u.id && ShowsUser(r.body.user, u, role)
                                  && r.body.claims.role == role.slug && r.body.claims.scopes == role.scopes)
  {
    JoinedLookup(db, UserEmail, body.email);
  }

  lemma KnownEmail(db: Db, l: Ledger, email: string, password: string)
    requires Agrees(db, l) && Known(l, email, password)
    ensures email in KeysOf(db.users, UserEmail)
  {
    var id :| id in l && l[id] == Credential(email, password);
    var i :| 0 <= i < |db.users| && UserId(db.users[i]) == id;
    assert Holds(db.users[i], l);
    assert UserEmail(db.users[i]) == email;
  }

  /** The user with the email: its row verifies the password exactly when the ledger has the pair. */
  lemma FoundMatchesLedger(db: Db, l: Ledger, email: string, password: string, u: User)
    requires Integrity(db) && Agrees(db, l) && u in db.users && u.email == email
    ensures u.id in l
    ensures Verifies(u.passwordHash, password, u.passwordSalt) <==> l[u.id] == Credential(email, password)
    ensures Known(l, email, password) <==> l[u.id] == Credential(email, password)
  {
    var i :| 0 <= i < |db.users| && db.users[i] == u;
    assert Holds(u, l);
    if Verifies(u.passwordHash, password, u.passwordSalt) {
      SaltCancels(password, l[u.id].password, u.passwordSalt);
    }
    if id :| id in l && l[id] == Credential(email, password) {
      var j :| 0 <= j < |db.users| && UserId(db.users[j]) == id;
      assert Holds(db.users[j], l);
      assert UserEmail(db.users[j]) == UserEmail(u);
      OneRowPerKey(db.users, UserEmail, u);
    }
  }

  lemma SaltCancels(a: string, b: string, salt: string)
    requires a + salt == b + salt
    ensures a == b
  {
    assert |a| == |b|;
    assert a == (a + salt)[..|a|] && b == (b + salt)[..|b|];
  }

  /** Credentials over whole runs: at any moment of any interleaving from the seed, a login with an
      email and a password is answered 200, for the user concerned, exactly when the requests that
      have taken effect, by their answers, left some user with that email and that password. */
  lemma LoginAfterAnyRun(seed: Seed, calls: seq<Call>, sched: seq<nat>, c: Call, email: string, password: string)
    requires DistinctIds(seed) && Schedule(calls, sched)
    requires c.request == LoginRequest(Some(LoginBody(email, Some(password))))
    ensures var db0 := SeedDb(seed);
            var l := LedgerAfter(calls, db0, SeedLedger(seed), Decisions(calls, db0, sched));
            var r := Atomic(c, Run(calls, db0, sched).db).1;
            && LoginAnswer(c, email, password, l, r)
            && (r.status == 200 <==> Known(l, email, password) && !c.inputs.signFails)
            && (r.status == 401 <==> !Known(l, email, password))
  {
    var db0 := SeedDb(seed);
    var order := Decisions(calls, db0, sched);
    Linearizable(calls, db0, sched);
    SeededOrderAgrees(seed, calls, order);
    LoginAtomic(c, email, password, Run(calls, db0, sched).db, LedgerAfter(calls, db0, SeedLedger(seed), order));
  }

  function SeedName(slug: string): string {
    if slug == "admin" then "Admin" else if slug == "editor" then "Editor" else if slug == "reader" then "Reader"
    else "NoRole"
  }

  lemma SeedPairKnown(seed: Seed, slug: string)
    requires DistinctIds(seed) && slug in {"admin", "editor", "reader", "norole"}
    ensures Known(SeedLedger(seed), slug + "@example.com", slug)
  {
    var id := if slug == "admin" then seed.admin.id else if slug == "editor" then seed.editor.id
              else if slug == "reader" then seed.reader.id else seed.norole.id;
    assert SeedLedger(seed)[id] == Credential(slug + "@example.com", slug);
  }

  /** The users the migration makes: each logs in with its own role's slug as password, and the token
      carries that role. */
  lemma SeededToken(seed: Seed, c: Call, slug: string)
    requires DistinctIds(seed) && slug in {"admin", "editor", "reader", "norole"} && !c.inputs.signFails
    requires c.request == LoginRequest(Some(LoginBody(slug + "@example.com", Some(slug))))
    ensures var r := Atomic(c, SeedDb(seed)).1;
            && r.status == 200 && r.body.TokenBody? && r.body.claims.role == slug
            && r.body.user.firstName == SeedName(slug) && r.body.user.lastName == "User"
  {
    var db, body := SeedDb(seed), LoginBody(slug + "@example.com", Some(slug));
    SeedIntact(seed);
    SeedAgrees(seed);
    SeedPairKnown(seed, slug);
    LoginAtomic(c, body.email, slug, db, SeedLedger(seed));
    assert Finish(c, Start, db) == Finish(c, Step(c, Start, db).1, db);
    LoginToken(c, body, db);
    var r := Login(c, Some(body), db);
    var u, role :| u in db.users && role in db.roles && role.id == u.roleId && u.email == body.email
                   && r.body.claims.sub == u.id && ShowsUser(r.body.user, u, role)
                   && r.body.claims.role == role.slug && r.body.claims.scopes == role.scopes;
    SeedRoleOf(seed, u, role, slug);
  }

  lemma SeedRoleOf(seed: Seed, u: User, role: Role, slug: string)
    requires u in SeedUsers(seed) && role in SeedRoles() && role.id == u.roleId && u.email == slug + "@example.com"
    requires slug in {"admin", "editor", "reader", "norole"}
    ensures role.slug == slug && u.firstName == SeedName(slug) && u.lastName == "User"
  {
    assert u.email[0] == slug[0];
  }

  // ---- the same, seen from outside --------------------------------------------

  /** The ledger kept from the answers actually given, in the order of `order`. */
  function LedgerSeen(calls: seq<Call>, pcs: seq<Pc>, l0: Ledger, order: seq<nat>): Ledger
    requires |pcs| == |calls| && forall k | 0 <= k < |order| :: order[k] < |calls|
  {
    if order == [] then l0
    else
      var i := order[|order| - 1];
      var l := LedgerSeen(calls, pcs, l0, order[..|order| - 1]);
      if pcs[i].Done? then Observe(l, calls[i], pcs[i].response) else l
  }

  /** The k-th request to take effect has been answered as it is when run alone at its turn. */
  ghost predicate AnsweredAlone(calls: seq<Call>, pcs: seq<Pc>, db0: Db, order: seq<nat>, k: nat)
    requires |pcs| == |calls| && k < |order| && forall k | 0 <= k < |order| :: order[k] < |calls|
  {
    var i := order[k];
    && pcs[i].Done?
    && (IsList(calls[i].request) || pcs[i].response == Atomic(calls[i], OneByOne(calls, db0, order[..k])).1)
  }

  lemma ListsTeachNothing(l: Ledger, c: Call, r: Response)
    requires IsList(c.request)
    ensures Observe(l, c, r) == l
  {
  }

  lemma {:induction false} SeenPrefix(calls: seq<Call>, pcs: seq<Pc>, db0: Db, l0: Ledger, order: seq<nat>, n: nat)
    requires |pcs| == |calls| && n <= |order| && forall k | 0 <= k < |order| :: order[k] < |calls|
    requires forall k | 0 <= k < |order| :: AnsweredAlone(calls, pcs, db0, order, k)
    ensures LedgerSeen(calls, pcs, l0, order[..n]) == LedgerAfter(calls, db0, l0, order[..n])
  {
    if n > 0 {
      var i := order[n - 1];
      SeenPrefix(calls, pcs, db0, l0, order, n - 1);
      assert order[..n][..n - 1] == order[..n - 1];
      assert AnsweredAlone(calls, pcs, db0, order, n - 1);
      if IsList(calls[i].request) {
        var l := LedgerSeen(calls, pcs, l0, order[..n - 1]);
        ListsTeachNothing(l, calls[i], pcs[i].response);
        ListsTeachNothing(l, calls[i], Atomic(calls[i], OneByOne(calls, db0, order[..n - 1])).1);
      }
    }
  }

  /** When every request that has taken effect has also been answered, the answers given decide who
      can log in. */
  lemma LoginAfterAnswers(seed: Seed, calls: seq<Call>, sched: seq<nat>, c: Call, email: string, password: string)
    requires DistinctIds(seed) && Schedule(calls, sched)
    requires c.request == LoginRequest(Some(LoginBody(email, Some(password))))
    requires forall i | 0 <= i < |calls| :: !Run(calls, SeedDb(seed), sched).pcs[i].Written?
    ensures var db0 := SeedDb(seed); var s := Run(calls, db0, sched);
            var l := LedgerSeen(calls, s.pcs, SeedLedger(seed), Decisions(calls, db0, sched));
            LoginAnswer(c, email, password, l, Atomic(c, s.db).1)
  {
    var db0 := SeedDb(seed);
    var s, order := Run(calls, db0, sched), Decisions(calls, db0, sched);
    Linearizable(calls, db0, sched);
    assert order[..|order|] == order;
    forall k | 0 <= k < |order|
      ensures AnsweredAlone(calls, s.pcs, db0, order, k)
    {
      assert order[k] in order;
    }
    SeenPrefix(calls, s.pcs, db0, SeedLedger(seed), order, |order|);
    LoginAfterAnyRun(seed, calls, sched, c, email, password);
  }

  /** A log-in that is itself one of the interleaved requests is decided by what took effect before it. */
  lemma LoginDuringRun(seed: Seed, calls: seq<Call>, sched: seq<nat>, k: nat, email: string, password: string)
    requires DistinctIds(seed) && Schedule(calls, sched)
    requires k < |Decisions(calls, SeedDb(seed), sched)|
    requires var i := Decisions(calls, SeedDb(seed), sched)[k];
             calls[i].request == LoginRequest(Some(LoginBody(email, Some(password))))
             && Run(calls, SeedDb(seed), sched).pcs[i].Done?
    ensures var db0 := SeedDb(seed); var order := Decisions(calls, db0, sched);
            var l := LedgerAfter(calls, db0, SeedLedger(seed), order[..k]);
            LoginAnswer(calls[order[k]], email, password, l, Run(calls, db0, sched).pcs[order[k]].response)
  {
    var db0 := SeedDb(seed);
    var order := Decisions(calls, db0, sched);
    var c, db := calls[order[k]], OneByOne(calls, db0, order[..k]);
    var l := LedgerAfter(calls, db0, SeedLedger(seed), order[..k]);
    assert Run(calls, db0, sched).pcs[order[k]].response == Atomic(c, db).1 by {
      Linearizable(calls, db0, sched);
    }
    SeededOrderAgrees(seed, calls, order[..k]);
    LoginAtomic(c, email, password, db, l);
  }

  lemma SeededOrderAgrees(seed: Seed, calls: seq<Call>, order: seq<nat>)
    requires DistinctIds(seed) && forall k | 0 <= k < |order| :: order[k] < |calls|
    ensures Integrity(OneByOne(calls, SeedDb(seed), order))
    ensures Agrees(OneByOne(calls, SeedDb(seed), order), LedgerAfter(calls, SeedDb(seed), SeedLedger(seed), order))
  {
    SeedIntact(seed);
    SeedAgrees(seed);
    OneByOneIntact(calls, SeedDb(seed), order);
    OrderAgrees(calls, SeedDb(seed), SeedLedger(seed), order);
  }

  /** Without a body or without a password a log-in is a 422, in every store. */
  lemma LoginIncomplete(c: Call, db: Db)
    requires c.request.LoginRequest? && (c.request.login == None || c.request.login.value.password == None)
    ensures Atomic(c, db) == (db, Response(422, Message("email and password are required")))
  {
    assert Finish(c, Start, db) == Finish(c, Step(c, Start, db).1, db);
  }

  /** Every status of POST /v1/login, at any moment of any run from the seed. */
  lemma LoginStatus(seed: Seed, calls: seq<Call>, sched: seq<nat>, c: Call)
    requires DistinctIds(seed) && Schedule(calls, sched) && c.request.LoginRequest?
    ensures var db0, login := SeedDb(seed), c.request.login;
            var l := LedgerAfter(calls, db0, SeedLedger(seed), Decisions(calls, db0, sched));
            Atomic(c, Run(calls, db0, sched).db).1.status ==
              if login == None || login.value.password == None then 422
              else if !Known(l, login.value.email, login.value.password.value) then 401
              else if c.inputs.signFails then 500
              else 200
  {
    var login := c.request.login;
    if login == None || login.value.password == None {
      LoginIncomplete(c, Run(calls, SeedDb(seed), sched).db);
    } else {
      LoginAfterAnyRun(seed, calls, sched, c, login.value.email, login.value.password.value);
    }
  }

  lemma LoginAtomic(c: Call, email: string, password: string, db: Db, l: Ledger)
    requires Integrity(db) && Agrees(db, l) && c.request == LoginRequest(Some(LoginBody(email, Some(password))))
    ensures LoginAnswer(c, email, password, l, Atomic(c, db).1)
  {
    LoginMatchesLedger(c, email, password, db, l);
    assert Finish(c, Start, db) == Finish(c, Step(c, Start, db).1, db);
  }
}
