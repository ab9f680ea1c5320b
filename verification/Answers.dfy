/** What a request is answered, compared with the rows it left and with what a client reads next. */
module Answers {
  import opened Tables
  import opened Schema
  import opened Statements
  import opened Constraints
  import opened Slugs
  import opened Api
  import opened Handlers
  import opened Runs
  import opened Linearizability
  import opened Invariants
  import opened PartialUpdates
  import opened RoleResolution
  import opened Joins
  import opened Paging
  import opened Shown
  import opened Tokens

  // ---- users ------------------------------------------------------------------

  /** The same call, as a GET of the user. */
  function GetUserCall(c: Call, id: Uuid): Call {
    c.(request := GetUserRequest(id))
  }

  lemma GetSeesRow(c: Call, db: Db, u: User, role: Role)
    requires Integrity(db) && u in db.users && role in db.roles && role.id == u.roleId
    ensures Atomic(GetUserCall(c, u.id), db) == (db, Response(200, UserBody(ToApiUser(u, role))))
  {
    Lookup(db.users, UserId, u.id);
    Lookup(db.roles, RoleId, role.id);
    assert [u][..0] == [];
    assert Select(db.users, With(UserId, u.id)) == [u];
    assert JoinRoles([u], db.roles) == [(u, role)];
    var pc := Step(GetUserCall(c, u.id), Start, db).1;
    assert Finish(GetUserCall(c, u.id), Start, db) == Finish(GetUserCall(c, u.id), pc, db);
  }

  /** POST /v1/users answers 201 exactly when a password is given, the role exists, hashing works and
      neither the email nor the drawn id is in use; the answer then repeats the body, and is what a
      GET of the new user returns. */
  lemma CreatedUser(c: Call, b: UserCreate, db: Db)
    requires Integrity(db) && c.request == CreateUserRequest(Some(b))
    ensures var (db', r) := Atomic(c, db); var i := c.inputs;
            && (r.status == 201 <==>
                  && b.password != None && b.password != Some("")
                  && b.role in KeysOf(db.roles, RoleSlug) && !i.hashFails
                  && b.email !in KeysOf(db.users, UserEmail) && i.newId !in KeysOf(db.users, UserId))
            && (r.status == 409 <==>
                  && b.password != None && b.password != Some("")
                  && b.role in KeysOf(db.roles, RoleSlug) && !i.hashFails
                  && (b.email in KeysOf(db.users, UserEmail) || i.newId in KeysOf(db.users, UserId)))
            && (r.status != 201 ==> db' == db)
            && (r.status == 201 ==>
                  && r.body.UserBody? && r.body.user.id == i.newId && r.body.user.email == b.email
                  && r.body.user.firstName == b.firstName && r.body.user.lastName == b.lastName
                  && r.body.user.avatarUrl == b.avatarUrl && r.body.user.bio == b.bio
                  && r.body.user.role.slug == b.role
                  && r.body.user.createdAt == i.now && r.body.user.updatedAt == i.now
                  && Atomic(GetUserCall(c, i.newId), db') == (db', Response(200, r.body)))
  {
    var pc := Step(c, Start, db).1;
    assert Finish(c, Start, db) == Finish(c, pc, db);
    Lookup(db.roles, RoleSlug, b.role);
    if pc.RoleKnown? {
      assert Finish(c, pc, db) == Finish(c, Step(c, pc, db).1, Step(c, pc, db).0);
      FoundRole(db, b.role, pc.role);
      var u := NewUser(c.inputs.newId,
                       UserColumnsOf(b, HashOf(b.password.value, c.inputs), c.inputs.salt, pc.role),
                       c.inputs.now);
      InsertedUser(c, db, u, pc.role);
    }
  }

  /** Every answer of POST /v1/users, and when it is given. */
  lemma CreateStatus(c: Call, b: UserCreate, db: Db)
    requires Integrity(db) && c.request == CreateUserRequest(Some(b))
    ensures var r, i := Atomic(c, db).1, c.inputs;
            if b.password == None || b.password == Some("") then r == Response(422, Message("password is required"))
            else if b.role !in KeysOf(db.roles, RoleSlug) then r == Response(422, Message("unknown role"))
            else if i.hashFails then r == Response(500, Fault(Hashing))
            else if b.email in KeysOf(db.users, UserEmail) || i.newId in KeysOf(db.users, UserId)
            then r == Response(409, Message("email already exists"))
            else r.status == 201
  {
    var pc := Step(c, Start, db).1;
    assert Finish(c, Start, db) == Finish(c, pc, db);
    Lookup(db.roles, RoleSlug, b.role);
    if pc.RoleKnown? {
      assert Finish(c, pc, db) == Finish(c, Step(c, pc, db).1, Step(c, pc, db).0);
      FoundRole(db, b.role, pc.role);
      var u := NewUser(c.inputs.newId,
                       UserColumnsOf(b, HashOf(b.password.value, c.inputs), c.inputs.salt, pc.role),
                       c.inputs.now);
      InsertedUser(c, db, u, pc.role);
    }
  }

  lemma InsertedUser(c: Call, db: Db, u: User, role: Role)
    requires Integrity(db) && role in db.roles && role.id == u.roleId
    ensures var out := Statements.CreateUser(db, u);
            if u.email in KeysOf(db.users, UserEmail) || u.id in KeysOf(db.users, UserId)
            then out == Outcome(db, Failure(PgError(UNIQUE_VIOLATION)))
            else out.result == Success(u)
                 && Atomic(GetUserCall(c, u.id), out.db) == (out.db, Response(200, UserBody(ToApiUser(u, role))))
  {
    CreateUserIffIntact(db, u);
    if u.email !in KeysOf(db.users, UserEmail) && u.id !in KeysOf(db.users, UserId) {
      GetSeesRow(c, Statements.CreateUser(db, u).db, u, role);
    }
  }

  lemma ChangedUserRow(db: Db, id: Uuid, change: User -> User)
    requires Integrity(db) && ChangeUser(db, id, change).result.Success?
    requires forall v :: change(v).id == v.id
    ensures var out := ChangeUser(db, id, change);
            && Integrity(out.db) && out.result.value in out.db.users && out.result.value.id == id
            && exists role :: role in out.db.roles && role.id == out.result.value.roleId
  {
    ChangeUserIffIntact(db, id, change);
    Lookup(db.users, UserId, id);
    var i :| 0 <= i < |db.users| && UserId(db.users[i]) == id;
    ChangeUserRow(db, i, change);
    RewriteOne(db.users, UserId, i, change);
    assert db.users[i := change(db.users[i])][i] == change(db.users[i]);
  }

  /** PATCH answers what a GET of the same user then returns. */
  lemma PatchedUser(c: Call, id: Uuid, db: Db)
    requires Integrity(db) && IsPatch(c, id) && Atomic(c, db).1.status == 200
    ensures var (db', r) := Atomic(c, db); Atomic(GetUserCall(c, id), db') == (db', r)
  {
    PatchSucceeds(c, id, db);
    var p := SentPatch(c, db.roles).value;
    ChangedUserRow(db, id, Patching(p, c.inputs.now));
    var out := UpdateUser(db, id, p, c.inputs.now);
    var role :| role in out.db.roles && role.id == out.result.value.roleId;
    GetSeesRow(c, out.db, out.result.value, role);
    Lookup(out.db.roles, RoleId, role.id);
  }

  /** So does PUT, and it answers the body it was sent. */
  lemma ReplacedUser(c: Call, id: Uuid, b: UserCreate, db: Db)
    requires Integrity(db) && c.request == ReplaceUserRequest(id, Some(b)) && Atomic(c, db).1.status == 200
    ensures var (db', r) := Atomic(c, db);
            && Atomic(GetUserCall(c, id), db') == (db', r)
            && r.body.UserBody? && r.body.user.email == b.email
            && r.body.user.firstName == b.firstName && r.body.user.lastName == b.lastName
            && r.body.user.avatarUrl == b.avatarUrl && r.body.user.bio == b.bio
            && r.body.user.role.slug == b.role && r.body.user.updatedAt == c.inputs.now
  {
    var pc := Step(c, Start, db).1;
    assert Finish(c, Start, db) == Finish(c, pc, db);
    assert pc.RoleKnown?;
    assert Finish(c, pc, db) == Finish(c, Step(c, pc, db).1, Step(c, pc, db).0);
    FoundRole(db, b.role, pc.role);
    var change := Replacing(UserColumnsOf(b, HashOf(b.password.value, c.inputs), c.inputs.salt, pc.role),
                            c.inputs.now);
    ChangedUserRow(db, id, change);
    var out := ChangeUser(db, id, change);
    GetSeesRow(c, out.db, out.result.value, pc.role);
  }

  lemma ChangeError(db: Db, id: Uuid, change: User -> User)
    requires Integrity(db) && forall v :: change(v).id == v.id
    requires forall u | u in db.users && u.id == id :: change(u).roleId in KeysOf(db.roles, RoleId)
    ensures var r := ChangeUser(db, id, change).result;
            r.Failure? ==> r.error == NoRows || r.error == PgError(UNIQUE_VIOLATION)
    ensures ChangeUser(db, id, change).result == Failure(NoRows) <==> id !in KeysOf(db.users, UserId)
    ensures ChangeUser(db, id, change).result == Failure(PgError(UNIQUE_VIOLATION)) <==>
              exists u, v :: u in db.users && u.id == id && v in db.users && v.id != id && v.email == change(u).email
  {
    Lookup(db.users, UserId, id);
    if i :| 0 <= i < |db.users| && UserId(db.users[i]) == id {
      ChangeUserRow(db, i, change);
      OneRowPerKey(db.users, UserId, db.users[i]);
      EmailFree(db.users, i, change(db.users[i]).email);
    }
  }

  /** Another user holds the email. */
  ghost predicate EmailHeld(db: Db, id: Uuid, email: string) {
    exists v :: v in db.users && v.id != id && v.email == email
  }

  /** Every answer of PUT /v1/users/{id}, and when it is given. */
  lemma PutStatus(c: Call, id: Uuid, b: UserCreate, db: Db)
    requires Integrity(db) && c.request == ReplaceUserRequest(id, Some(b))
    ensures var r := Atomic(c, db).1;
            if b.password == None || b.password == Some("") then r == Response(422, Message("password is required"))
            else if b.role !in KeysOf(db.roles, RoleSlug) then r == Response(422, Message("unknown role"))
            else if c.inputs.hashFails then r == Response(500, Fault(Hashing))
            else if id !in KeysOf(db.users, UserId) then r == Response(404, Message("user not found"))
            else if EmailHeld(db, id, b.email) then r == Response(409, Message("email already exists"))
            else r.status == 200
  {
    var pc := Step(c, Start, db).1;
    assert Finish(c, Start, db) == Finish(c, pc, db);
    Lookup(db.roles, RoleSlug, b.role);
    if pc.RoleKnown? {
      assert Finish(c, pc, db) == Finish(c, Step(c, pc, db).1, Step(c, pc, db).0);
      FoundRole(db, b.role, pc.role);
      var hash := HashOf(b.password.value, c.inputs);
      ChangeError(db, id, Replacing(UserColumnsOf(b, hash, c.inputs.salt, pc.role), c.inputs.now));
    }
  }

  /** Every answer of PATCH /v1/users/{id}, and when it is given. */
  lemma PatchStatus(c: Call, id: Uuid, b: UserUpdate, db: Db)
    requires Integrity(db) && c.request == UpdateUserRequest(id, Some(b))
    ensures var r := Atomic(c, db).1;
            if b.password != None && b.password != Some("") && c.inputs.hashFails
            then r == Response(500, Fault(Hashing))
            else if b.role.Some? && b.role.value !in KeysOf(db.roles, RoleSlug)
            then r == Response(422, Message("unknown role"))
            else if id !in KeysOf(db.users, UserId) then r == Response(404, Message("user not found"))
            else if b.email.Some? && EmailHeld(db, id, b.email.value)
            then r == Response(409, Message("email already exists"))
            else r.status == 200
  {
    var (db1, pc1) := Step(c, Start, db);
    assert Finish(c, Start, db) == Finish(c, pc1, db1);
    if !HasPassword(b.password) || !c.inputs.hashFails {
      if b.role.None? {
        PatchUserStatus(c, id, b, None, db);
        FinishWritten(c, pc1, db1);
      } else {
        Lookup(db.roles, RoleSlug, b.role.value);
        if pc1.RoleKnown? {
          FoundRole(db, b.role.value, pc1.role);
          var (db2, pc2) := Step(c, pc1, db1);
          assert Finish(c, pc1, db1) == Finish(c, pc2, db2);
          PatchUserStatus(c, id, b, Some(pc1.role), db);
          FinishWritten(c, pc2, db2);
        }
      }
    }
  }

  /** Hashing fails and the role is unknown: a 500 for PATCH, a 422 for the same values in a PUT. */
  lemma DoubleFailureDiffers(inputs: Inputs)
    requires inputs.hashFails
    ensures var b := UserCreate("a@example.com", Some("secret"), "guest", "A", "B", Some("url"), Some("bio"));
            var db := Db([], [], [], []);
            && Atomic(Call(UpdateUserRequest(7, Some(FullPatch(b))), None, inputs), db).1.status == 500
            && Atomic(Call(ReplaceUserRequest(7, Some(b)), None, inputs), db).1.status == 422
  {
    var b := UserCreate("a@example.com", Some("secret"), "guest", "A", "B", Some("url"), Some("bio"));
    var db := Db([], [], [], []);
    PatchStatus(Call(UpdateUserRequest(7, Some(FullPatch(b))), None, inputs), 7, FullPatch(b), db);
    PutStatus(Call(ReplaceUserRequest(7, Some(b)), None, inputs), 7, b, db);
  }

  lemma PatchUserStatus(c: Call, id: Uuid, b: UserUpdate, role: Option<Role>, db: Db)
    requires Integrity(db) && c.request == UpdateUserRequest(id, Some(b))
    requires HasPassword(b.password) ==> !c.inputs.hashFails
    requires role.Some? ==> role.value in db.roles
    ensures var pc := PatchUser(c, id, b, if role.Some? then Some(role.value.id) else None, db).1;
            if id !in KeysOf(db.users, UserId) then pc == Done(Response(404, Message("user not found")))
            else if b.email.Some? && EmailHeld(db, id, b.email.value)
            then pc == Done(Response(409, Message("email already exists")))
            else pc.Written?
  {
    var i := c.inputs;
    var hash := if HasPassword(b.password) then HashPassword(b.password.value, i) else None;
    var patch := PatchOf(b, hash, i.salt, if role.Some? then Some(role.value.id) else None);
    forall u | u in db.users && u.id == id
      ensures Patching(patch, i.now)(u).roleId in KeysOf(db.roles, RoleId)
      ensures EmailHeld(db, id, Patching(patch, i.now)(u).email) <==> b.email.Some? && EmailHeld(db, id, b.email.value)
    {
      var k :| 0 <= k < |db.users| && db.users[k] == u;
      assert UserRoleId(db.users[k]) in KeysOf(db.roles, RoleId);
      OneRowPerKey(db.users, UserEmail, u);
    }
    ChangeError(db, id, Patching(patch, i.now));
  }

  // ---- the answer shows the row -----------------------------------------------

  lemma StepUserBody(c: Call, pc: Pc, db: Db)
    requires WritesUser(c.request) && Fits(c, pc) && !pc.Done?
    ensures var pc' := Step(c, pc, db).1;
            pc'.Done? && pc'.response.body.UserBody? ==>
              pc'.response.status == (if c.request.CreateUserRequest? then 201 else 200)
  {
  }

  lemma FinishUserBody(c: Call, pc: Pc, db: Db)
    requires WritesUser(c.request) && Fits(c, pc)
    requires pc.Done? && pc.response.body.UserBody? ==>
               pc.response.status == (if c.request.CreateUserRequest? then 201 else 200)
    ensures var r := Finish(c, pc, db).1;
            r.body.UserBody? ==> r.status == (if c.request.CreateUserRequest? then 201 else 200)
    decreases Rank(pc)
  {
    if !pc.Done? {
      StepProgress(c, pc, db);
      StepUserBody(c, pc, db);
      FinishUserBody(c, Step(c, pc, db).1, Step(c, pc, db).0);
    }
  }

  lemma WriteShowsRow(c: Call, db: Db)
    requires Integrity(db) && WritesUser(c.request) && Atomic(c, db).1.body.UserBody?
    ensures IsStoredUser(Atomic(c, db).1.body.user, Atomic(c, db).0)
  {
    var (db', r) := Atomic(c, db);
    FinishUserBody(c, Start, db);
    FinishIntact(c, Start, db);
    match c.request
    case CreateUserRequest(Some(b)) =>
      CreatedUser(c, b, db);
      GetUserShows(GetUserCall(c, c.inputs.newId), c.inputs.newId, db');
    case UpdateUserRequest(id, Some(_)) =>
      PatchedUser(c, id, db);
      GetUserShows(GetUserCall(c, id), id, db');
    case ReplaceUserRequest(id, Some(b)) =>
      ReplacedUser(c, id, b, db);
      GetUserShows(GetUserCall(c, id), id, db');
    case _ =>
  }

  /** In every run, a request that has written a user and answers with it shows the row it left in the
      store at its turn, with the very role that row names: the one asked for, or, for a PATCH that
      names none, the one the row already had. */
  lemma RoleShown(calls: seq<Call>, db0: Db, sched: seq<nat>, k: nat)
    requires Integrity(db0) && Schedule(calls, sched) && k < |Decisions(calls, db0, sched)|
    requires var i := Decisions(calls, db0, sched)[k]; var pc := Run(calls, db0, sched).pcs[i];
             WritesUser(calls[i].request) && pc.Done? && pc.response.body.UserBody?
    ensures var order := Decisions(calls, db0, sched);
            IsStoredUser(Run(calls, db0, sched).pcs[order[k]].response.body.user, OneByOne(calls, db0, order[..k + 1]))
  {
    var order := Decisions(calls, db0, sched);
    var c, db := calls[order[k]], OneByOne(calls, db0, order[..k]);
    assert Run(calls, db0, sched).pcs[order[k]].response == Atomic(c, db).1 by {
      Linearizable(calls, db0, sched);
    }
    OneByOneIntact(calls, db0, order[..k]);
    OneMore(calls, db0, order, k);
    WriteShowsRow(c, db);
  }

  lemma OneMore(calls: seq<Call>, db0: Db, order: seq<nat>, k: nat)
    requires k < |order| && forall j | 0 <= j < |order| :: order[j] < |calls|
    ensures OneByOne(calls, db0, order[..k + 1]) == Atomic(calls[order[k]], OneByOne(calls, db0, order[..k])).0
  {
    assert order[..k + 1][..k] == order[..k];
  }

  // ---- posts ------------------------------------------------------------------

  /** The reads: 404 exactly for an absent user or post, and a list of comments only of a post that is
      there. */
  lemma ReadUserStatus(c: Call, id: Uuid, db: Db)
    requires Integrity(db) && c.request == GetUserRequest(id)
    ensures Atomic(c, db).1.status == if id in KeysOf(db.users, UserId) then 200 else 404
  {
    assert Finish(c, Start, db) == Finish(c, Step(c, Start, db).1, db);
    JoinedLookup(db, UserId, id);
  }

  lemma ReadPostStatus(c: Call, id: Uuid, db: Db)
    requires Integrity(db) && c.request == GetPostRequest(id)
    ensures Atomic(c, db).1.status == if id in KeysOf(db.posts, PostId) then 200 else 404
  {
    assert Finish(c, Start, db) == Finish(c, Step(c, Start, db).1, db);
    Lookup(db.posts, PostId, id);
  }

  lemma ListCommentsStatus(c: Call, db: Db)
    requires Integrity(db) && c.request.ListCommentsRequest?
    ensures Atomic(c, db).1.status == 404 <==> c.request.postId !in KeysOf(db.posts, PostId)
    ensures Atomic(c, db).1.status == 404 <==> Atomic(c, db).1 == Response(404, Message("post not found"))
  {
    Lookup(db.posts, PostId, c.request.postId);
    if c.request.postId in KeysOf(db.posts, PostId) {
      CommentsPageSteps(c, db);
    } else {
      assert Finish(c, Start, db) == Finish(c, Step(c, Start, db).1, db);
    }
  }

  /** The same call, as a GET of the post. */
  function GetPostCall(c: Call, id: Uuid): Call {
    c.(request := GetPostRequest(id))
  }

  lemma GetSeesPost(c: Call, db: Db, p: Post)
    requires Integrity(db) && p in db.posts
    ensures Atomic(GetPostCall(c, p.id), db) == (db, Response(200, PostBody(ToApiPost(p, CountComments(db, p.id)))))
  {
    Lookup(db.posts, PostId, p.id);
    var pc := Step(GetPostCall(c, p.id), Start, db).1;
    assert Finish(GetPostCall(c, p.id), Start, db) == Finish(GetPostCall(c, p.id), pc, db);
  }

  lemma NoCommentsYet(db: Db, id: Uuid)
    requires Integrity(db) && id !in KeysOf(db.posts, PostId)
    ensures CountComments(db, id) == 0
  {
    forall c | c in db.comments
      ensures c.postId != id
    {
      var i :| 0 <= i < |db.comments| && db.comments[i] == c;
      assert CommentPost(db.comments[i]) in KeysOf(db.posts, PostId);
    }
    SelectNone(db.comments, With(CommentPost, id));
  }

  /** POST /v1/posts answers 201 exactly when the caller is a user, the status is one of the three,
      and neither the drawn id nor the slug is in use: a collision of suffixes is a 500. The answer
      is what a GET of the new post returns. */
  lemma CreatedPost(c: Call, b: PostCreate, author: Uuid, db: Db)
    requires Integrity(db) && c.request == CreatePostRequest(Some(b)) && c.identity == Some(author)
    ensures var (db', r) := Atomic(c, db); var i := c.inputs;
            && (r.status == 201 <==>
                  && author in KeysOf(db.users, UserId)
                  && (b.status == None || b.status.value in {"draft", "published", "archived"})
                  && i.newId !in KeysOf(db.posts, PostId) && Slug(b.title, i.suffix) !in KeysOf(db.posts, PostSlug))
            && (r.status != 201 ==> r.status == 500 && db' == db)
            && (r.status == 201 ==>
                  && r.body.PostBody? && r.body.post.authorId == author && r.body.post.title == b.title
                  && r.body.post.content == b.content && r.body.post.excerpt == b.excerpt
                  && r.body.post.tags == b.tags.GetOr([]) && r.body.post.categories == b.categories.GetOr([])
                  && r.body.post.status == b.status.GetOr("draft") && r.body.post.slug == Slug(b.title, i.suffix)
                  && r.body.post.createdAt == i.now && r.body.post.updatedAt == i.now
                  && Atomic(GetPostCall(c, i.newId), db') == (db', Response(200, r.body)))
  {
    var (db1, pc) := Step(c, Start, db);
    assert Finish(c, Start, db) == Finish(c, pc, db1);
    var p := NewPost(c.inputs.newId, author, PostColumnsOf(b, c.inputs.suffix), c.inputs.now);
    InsertedPost(db, p);
    if pc.Done? && pc.response.status == 201 {
      CreatePostIffIntact(db, p);
      NoCommentsYet(db, p.id);
      GetSeesPost(c, db1, p);
    }
  }

  lemma OneUserIntact(u: User, role: Role)
    requires u.roleId == role.id
    ensures Integrity(Db([role], [u], [], []))
  {
    assert role in [role];
    assert UserRoleId(u) in KeysOf([role], RoleId);
  }

  /** The same title and suffix twice: the second post is a 500. */
  lemma SameSlugIs500(inputs: Inputs, newId: Uuid, u: User, role: Role)
    requires u.roleId == role.id && inputs.newId != newId
    ensures var b := PostCreate("Hello", "text", None, None, None, None); var db := Db([role], [u], [], []);
            var first := Call(CreatePostRequest(Some(b)), Some(u.id), inputs);
            var second := first.(inputs := inputs.(newId := newId));
            Atomic(first, db).1.status == 201 && Atomic(second, Atomic(first, db).0).1.status == 500
  {
    var b := PostCreate("Hello", "text", None, None, None, None);
    var db := Db([role], [u], [], []);
    var first := Call(CreatePostRequest(Some(b)), Some(u.id), inputs);
    OneUserIntact(u, role);
    assert u in [u];
    assert UserId(u) in KeysOf(db.users, UserId);
    CreatedPost(first, b, u.id, db);
    SecondPostRefused(first, b, u.id, newId, db);
  }

  /** Whatever the store: after a successful post, the same title and suffix are refused. */
  lemma SecondPostRefused(first: Call, b: PostCreate, author: Uuid, newId: Uuid, db: Db)
    requires Integrity(db) && first.request == CreatePostRequest(Some(b)) && first.identity == Some(author)
    requires Atomic(first, db).1.status == 201
    ensures Atomic(first.(inputs := first.inputs.(newId := newId)), Atomic(first, db).0).1.status == 500
  {
    FinishIntact(first, Start, db);
    CreatedPost(first.(inputs := first.inputs.(newId := newId)), b, author, Atomic(first, db).0);
    PostInserted(first, b, author, db);
  }

  lemma PostInserted(c: Call, b: PostCreate, author: Uuid, db: Db)
    requires c.request == CreatePostRequest(Some(b)) && c.identity == Some(author) && Atomic(c, db).1.status == 201
    ensures Slug(b.title, c.inputs.suffix) in KeysOf(Atomic(c, db).0.posts, PostSlug)
  {
    var (db1, pc) := Step(c, Start, db);
    assert Finish(c, Start, db) == Finish(c, pc, db1);
    var p := NewPost(c.inputs.newId, author, PostColumnsOf(b, c.inputs.suffix), c.inputs.now);
    assert p in db.posts + [p];
    assert PostSlug(p) == Slug(b.title, c.inputs.suffix);
  }

  lemma InsertedPost(db: Db, p: Post)
    ensures Statements.CreatePost(db, p).result.Success? <==>
              && IsPostStatus(p.status) && p.authorId in KeysOf(db.users, UserId)
              && p.id !in KeysOf(db.posts, PostId) && p.slug !in KeysOf(db.posts, PostSlug)
  {
    assert (exists q | q in db.posts :: q.id == p.id || q.slug == p.slug)
      <==> p.id in KeysOf(db.posts, PostId) || p.slug in KeysOf(db.posts, PostSlug);
    assert (exists u | u in db.users :: u.id == p.authorId) <==> p.authorId in KeysOf(db.users, UserId);
  }

  /** PUT /v1/posts/{id} reports no comments. That is what a GET then reports exactly when the post
      has none; everything else it reports agrees. */
  lemma ReplacedPost(c: Call, id: Uuid, b: PostCreate, db: Db)
    requires Integrity(db) && c.request == ReplacePostRequest(id, Some(b)) && Atomic(c, db).1.status == 200
    ensures var (db', r) := Atomic(c, db); var read := Atomic(GetPostCall(c, id), db').1;
            && r.body.PostBody? && r.body.post.commentCount == 0 && read.body.PostBody?
            && read == Response(200, PostBody(r.body.post.(commentCount := CountComments(db, id))))
            && (read == r <==> CountComments(db, id) == 0)
            && r.body.post.title == b.title && r.body.post.slug == Slug(b.title, c.inputs.suffix)
            && r.body.post.content == b.content && r.body.post.excerpt == b.excerpt
            && r.body.post.status == b.status.GetOr("draft") && r.body.post.updatedAt == c.inputs.now
            && r.body.post.tags == b.tags.GetOr([]) && r.body.post.categories == b.categories.GetOr([])
  {
    var (db1, pc) := Step(c, Start, db);
    assert Finish(c, Start, db) == Finish(c, pc, db1);
    var columns := PostColumnsOf(b, c.inputs.suffix);
    ReplacePostIffIntact(db, id, columns, c.inputs.now);
    Lookup(db.posts, PostId, id);
    var k :| 0 <= k < |db.posts| && PostId(db.posts[k]) == id;
    SelectOne(db.posts, PostId, k);
    RewriteOne(db.posts, PostId, k, ReplacingPost(columns, c.inputs.now));
    var p := ReplacingPost(columns, c.inputs.now)(db.posts[k]);
    assert db.posts[k := p][k] == p;
    GetSeesPost(c, db1, p);
  }

  ghost predicate SlugHeld(db: Db, id: Uuid, slug: string) {
    exists q :: q in db.posts && q.id != id && q.slug == slug
  }

  /** Every answer of PUT /v1/posts/{id}, and when it is given: a slug in use is no 409, and a bad status is
      reported even for a post that is not there. */
  lemma PutPostStatus(c: Call, id: Uuid, b: PostCreate, db: Db)
    requires Integrity(db) && c.request == ReplacePostRequest(id, Some(b))
    ensures var (db', r) := Atomic(c, db);
            && (if b.status.Some? && b.status.value !in {"draft", "published", "archived"}
                then r == InternalError(PgError(INVALID_TEXT_REPRESENTATION))
                else if id !in KeysOf(db.posts, PostId) then r == Response(404, Message("post not found"))
                else if SlugHeld(db, id, Slug(b.title, c.inputs.suffix))
                then r == InternalError(PgError(UNIQUE_VIOLATION))
                else r.status == 200)
            && (r.status != 200 ==> db' == db)
  {
    var (db1, pc) := Step(c, Start, db);
    assert Finish(c, Start, db) == Finish(c, pc, db1);
    ReplaceOutcome(db, id, PostColumnsOf(b, c.inputs.suffix), c.inputs.now);
  }

  lemma ReplaceOutcome(db: Db, id: Uuid, columns: PostColumns, now: int)
    requires Unique(db.posts, PostId)
    ensures var out := Statements.ReplacePost(db, id, columns, now);
            && (out.result.Failure? ==> out.db == db)
            && if !IsPostStatus(columns.status) then out.result == Failure(PgError(INVALID_TEXT_REPRESENTATION))
               else if id !in KeysOf(db.posts, PostId) then out.result == Failure(NoRows)
               else if SlugHeld(db, id, columns.slug) then out.result == Failure(PgError(UNIQUE_VIOLATION))
               else out.result.Success?
  {
    Lookup(db.posts, PostId, id);
  }

  /** A post with one comment: PUT reports none, the GET after it reports one. */
  lemma PutHidesComment(inputs: Inputs, u: User, role: Role, p: Post, m: Comment)
    requires u.roleId == role.id && p.authorId == u.id && m.authorId == u.id && m.postId == p.id
    requires IsPostStatus(p.status)
    ensures var b := PostCreate("Hello", "text", None, None, None, None); var db := Db([role], [u], [p], [m]);
            var c := Call(ReplacePostRequest(p.id, Some(b)), None, inputs);
            var (db', r) := Atomic(c, db); var read := Atomic(GetPostCall(c, p.id), db').1;
            && r.status == 200 && r.body.PostBody? && r.body.post.commentCount == 0
            && read.status == 200 && read.body.PostBody? && read.body.post.commentCount == 1
  {
    var b := PostCreate("Hello", "text", None, None, None, None);
    var db := Db([role], [u], [p], [m]);
    var c := Call(ReplacePostRequest(p.id, Some(b)), None, inputs);
    OneOfEachIntact(role, u, p, m);
    assert p in [p];
    assert PostId(p) in KeysOf(db.posts, PostId);
    PutPostStatus(c, p.id, b, db);
    ReplacedPost(c, p.id, b, db);
    SelectSingle(m, With(CommentPost, p.id));
  }

  lemma OneOfEachIntact(role: Role, u: User, p: Post, m: Comment)
    requires u.roleId == role.id && p.authorId == u.id && m.authorId == u.id && m.postId == p.id
    requires IsPostStatus(p.status)
    ensures Integrity(Db([role], [u], [p], [m]))
  {
    OneUserIntact(u, role);
    assert u in [u] && p in [p];
    assert PostAuthor(p) in KeysOf([u], UserId) && CommentAuthor(m) in KeysOf([u], UserId);
    assert CommentPost(m) in KeysOf([p], PostId);
  }

  // ---- comments ---------------------------------------------------------------

  /** POST of a comment: the branch meant for a missing post is taken exactly when the drawn comment
      id is in use, whether or not the post exists; a missing post is a foreign-key error, a 500. */
  lemma CreatedComment(c: Call, postId: Uuid, content: string, author: Uuid, db: Db)
    requires Integrity(db) && c.request == CreateCommentRequest(postId, Some(content)) && c.identity == Some(author)
    ensures var (db', r) := Atomic(c, db);
            && (r.status == 404 <==> c.inputs.newId in KeysOf(db.comments, CommentId))
            && (r.status == 404 ==> r == Response(404, Message("post not found")))
            && (r.status == 201 <==>
                  && c.inputs.newId !in KeysOf(db.comments, CommentId)
                  && postId in KeysOf(db.posts, PostId) && author in KeysOf(db.users, UserId))
            && (r.status != 201 ==> db' == db)
            && (r.status == 201 ==>
                  && CountComments(db', postId) == CountComments(db, postId) + 1
                  && r.body.CommentBody? && r.body.comment.id == c.inputs.newId
                  && r.body.comment.postId == postId && r.body.comment.authorId == author
                  && r.body.comment.content == content
                  && r.body.comment.createdAt == r.body.comment.updatedAt == c.inputs.now)
            && (r.status !in {201, 404} ==> r == InternalError(PgError(FOREIGN_KEY_VIOLATION)))
  {
    var (db1, pc) := Step(c, Start, db);
    assert Finish(c, Start, db) == Finish(c, pc, db1);
    var m := Comment(c.inputs.newId, postId, author, content, c.inputs.now, c.inputs.now);
    InsertedComment(db, m);
    OneMoreComment(db, m);
  }

  lemma InsertedComment(db: Db, m: Comment)
    ensures Statements.CreateComment(db, m) ==
              if m.id in KeysOf(db.comments, CommentId) then Outcome(db, Failure(PgError(UNIQUE_VIOLATION)))
              else if m.postId !in KeysOf(db.posts, PostId) || m.authorId !in KeysOf(db.users, UserId) then
                Outcome(db, Failure(PgError(FOREIGN_KEY_VIOLATION)))
              else Outcome(db.(comments := db.comments + [m]), Success(m))
  {
    assert (exists d | d in db.comments :: d.id == m.id) <==> m.id in KeysOf(db.comments, CommentId);
    assert (exists p | p in db.posts :: p.id == m.postId) <==> m.postId in KeysOf(db.posts, PostId);
    assert (exists u | u in db.users :: u.id == m.authorId) <==> m.authorId in KeysOf(db.users, UserId);
  }

  lemma OneMoreComment(db: Db, m: Comment)
    ensures CountComments(db.(comments := db.comments + [m]), m.postId) == CountComments(db, m.postId) + 1
  {
    var on := With(CommentPost, m.postId);
    assert CommentPost(m) == m.postId;
    SelectAppend(db.comments, [m], on);
    SelectSingle(m, on);
    assert Select(db.comments + [m], on) == Select(db.comments, on) + [m];
  }

  /** A missing post, a fresh comment id: 500, not 404. */
  lemma MissingPostIsNot404(inputs: Inputs, author: Uuid, u: User, role: Role)
    requires u.id == author && u.roleId == role.id
    ensures var c := Call(CreateCommentRequest(7, Some("hello")), Some(author), inputs);
            Atomic(c, Db([role], [u], [], [])).1.status == 500
  {
    var c := Call(CreateCommentRequest(7, Some("hello")), Some(author), inputs);
    var db := Db([role], [u], [], []);
    OneUserIntact(u, role);
    CreatedComment(c, 7, "hello", author, db);
  }

  /** PUT of a comment answers 200 exactly when the comment exists, whatever post the path names; it
      changes the content and time of that comment and nothing else. */
  lemma UpdatedComment(c: Call, postId: Uuid, id: Uuid, content: string, db: Db)
    requires Integrity(db) && c.request == UpdateCommentRequest(postId, id, Some(content))
    ensures var (db', r) := Atomic(c, db);
            && (if id in KeysOf(db.comments, CommentId) then r.status == 200
                else (db', r) == (db, Response(404, Message("comment not found"))))
            && db' == db.(comments := db'.comments) && |db'.comments| == |db.comments|
            && (forall k | 0 <= k < |db.comments| ::
                  db'.comments[k] == if db.comments[k].id != id then db.comments[k]
                                     else db.comments[k].(content := content, updatedAt := c.inputs.now))
            && (r.status == 200 ==>
                  exists m :: m in db'.comments && m.id == id && r.body.CommentBody? && ShowsComment(r.body.comment, m))
  {
    var (db1, pc) := Step(c, Start, db);
    assert Finish(c, Start, db) == Finish(c, pc, db1);
    EditedComment(db, id, content, c.inputs.now);
  }

  lemma EditedComment(db: Db, id: Uuid, content: string, now: int)
    requires Unique(db.comments, CommentId)
    ensures var out := Statements.UpdateComment(db, id, content, now);
            && (if id in KeysOf(db.comments, CommentId)
                then out.result.Success? && out.result.value in out.db.comments && out.result.value.id == id
                else out == Outcome(db, Failure(NoRows)))
            && out.db == db.(comments := out.db.comments) && |out.db.comments| == |db.comments|
            && (forall k | 0 <= k < |db.comments| ::
                  out.db.comments[k] == if db.comments[k].id != id then db.comments[k]
                                        else db.comments[k].(content := content, updatedAt := now))
  {
    Lookup(db.comments, CommentId, id);
    var edit := Editing(content, now);
    if k :| 0 <= k < |db.comments| && CommentId(db.comments[k]) == id {
      SelectOne(db.comments, CommentId, k);
      RewriteOne(db.comments, CommentId, k, edit);
      var edited := db.comments[k := edit(db.comments[k])];
      assert Statements.UpdateComment(db, id, content, now) == Outcome(db.(comments := edited), Success(edited[k]));
      forall j | 0 <= j < |db.comments| && j != k
        ensures db.comments[j].id != id
      {
        assert CommentId(db.comments[j]) != CommentId(db.comments[k]);
      }
      assert edited[k] in edited;
    } else {
      forall j | 0 <= j < |db.comments|
        ensures db.comments[j].id != id
      {
        assert CommentId(db.comments[j]) != id;
      }
      assert Statements.UpdateComment(db, id, content, now) == Outcome(db, Failure(NoRows));
    }
  }

  // ---- requests without a body --------------------------------------------------

  /** What a write without a body is answered, a post or comment once the caller is known; nothing changes. */
  lemma NoBody(c: Call, db: Db)
    requires c.request.CreatePostRequest? || c.request.CreateCommentRequest? ==> c.identity.Some?
    requires match c.request
             case CreateUserRequest(b) => b.None?
             case ReplaceUserRequest(_, b) => b.None?
             case UpdateUserRequest(_, b) => b.None?
             case CreatePostRequest(b) => b.None?
             case ReplacePostRequest(_, b) => b.None?
             case CreateCommentRequest(_, b) => b.None?
             case UpdateCommentRequest(_, _, b) => b.None?
             case _ => false
    ensures Atomic(c, db) == (db, if c.request.CreateUserRequest? || c.request.ReplaceUserRequest?
                                  then Response(422, Message("password is required"))
                                  else Response(400, Message("empty body")))
  {
    assert Finish(c, Start, db) == Finish(c, Step(c, Start, db).1, db);
  }

  // ---- who may write ----------------------------------------------------------

  /** The header carries a token of three parts whose first two decode and name a subject; its signature
      is not looked at. */
  predicate Usable(authorization: string, subject: (seq<Byte>, seq<Byte>) -> Option<Uuid>) {
    && "Bearer " <= authorization
    && var parts := Split(TrimSpace(authorization[7..]));
       && |parts| == 3 && Decode(parts[0]).Some? && Decode(parts[1]).Some?
       && subject(Decode(parts[0]).value, Decode(parts[1]).value).Some?
  }

  /** Posts and comments are refused with a 401, and nothing changes, exactly when the header has no usable
      token: no Bearer prefix, not three parts, undecodable parts or no subject. */
  lemma Unauthenticated(c: Call, authorization: string, subject: (seq<Byte>, seq<Byte>) -> Option<Uuid>, db: Db)
    requires c.request.CreatePostRequest? || c.request.CreateCommentRequest?
    requires c.identity == IdentityOf(authorization, subject)
    ensures if Usable(authorization, subject) then Atomic(c, db).1.status != 401
            else Atomic(c, db) == (db, Response(401, Message("authentication required")))
  {
    var (db1, pc) := Step(c, Start, db);
    assert Finish(c, Start, db) == Finish(c, pc, db1);
    assert Split("") == [""];
  }

  /** From a minted token to the row: the post is by the subject of the token's payload. */
  lemma PostedBySubject(c: Call, b: PostCreate, header: seq<Byte>, payload: seq<Byte>, sign: string -> seq<Byte>,
                        subject: (seq<Byte>, seq<Byte>) -> Option<Uuid>, db: Db)
    requires Integrity(db) && c.request == CreatePostRequest(Some(b))
    requires c.identity == IdentityOf("Bearer " + Mint(header, payload, sign), subject)
    ensures var (db', r) := Atomic(c, db);
            if subject(header, payload).None? then r.status == 401
            else r.status == 201 ==>
              exists p :: p in db'.posts && p.id == c.inputs.newId && Some(p.authorId) == subject(header, payload)
  {
    IdentityOfMinted(header, payload, sign, subject, "");
    var (db1, pc) := Step(c, Start, db);
    assert Finish(c, Start, db) == Finish(c, pc, db1);
    if subject(header, payload).Some? && pc.Done? && pc.response.status == 201 {
      var p := NewPost(c.inputs.newId, c.identity.value, PostColumnsOf(b, c.inputs.suffix), c.inputs.now);
      assert p in db.posts + [p];
    }
  }

  // ---- deletes ----------------------------------------------------------------

  /** DELETE answers 204 whether or not the row was there, and leaves it absent; a second DELETE, or
      one of an absent row, changes nothing. */
  lemma DeletedUser(c: Call, id: Uuid, db: Db)
    requires c.request == DeleteUserRequest(id)
    ensures var (db', r) := Atomic(c, db);
            && r == Response(204, Empty) && id !in KeysOf(db'.users, UserId) && Atomic(c, db').0 == db'
  {
    var (db1, pc) := Step(c, Start, db);
    assert Finish(c, Start, db) == Finish(c, pc, db1);
    assert Finish(c, Start, db1) == Finish(c, Step(c, Start, db1).1, Step(c, Start, db1).0);
    Absent(db.users, UserId, id);
    Absent(db1.users, UserId, id);
  }

  lemma DeletedPost(c: Call, id: Uuid, db: Db)
    requires c.request == DeletePostRequest(id)
    ensures var (db', r) := Atomic(c, db);
            && r == Response(204, Empty) && id !in KeysOf(db'.posts, PostId) && Atomic(c, db').0 == db'
  {
    var (db1, pc) := Step(c, Start, db);
    assert Finish(c, Start, db) == Finish(c, pc, db1);
    assert Finish(c, Start, db1) == Finish(c, Step(c, Start, db1).1, Step(c, Start, db1).0);
    Absent(db.posts, PostId, id);
    Absent(db1.posts, PostId, id);
  }

  /** For a comment, whatever post the path names; all other rows stay. */
  lemma DeletedComment(c: Call, postId: Uuid, id: Uuid, db: Db)
    requires c.request == DeleteCommentRequest(postId, id)
    ensures var (db', r) := Atomic(c, db);
            && r == Response(204, Empty) && db' == db.(comments := db'.comments)
            && (forall m :: m in db'.comments <==> m in db.comments && m.id != id)
            && Atomic(c, db').0 == db'
  {
    var (db1, pc) := Step(c, Start, db);
    assert Finish(c, Start, db) == Finish(c, pc, db1);
    assert Finish(c, Start, db1) == Finish(c, Step(c, Start, db1).1, Step(c, Start, db1).0);
    var keep := Without(CommentId, id);
    assert db1.comments == Select(db.comments, keep);
    forall m
      ensures m in db1.comments <==> m in db.comments && m.id != id
    {
      SelectHas(db.comments, keep, m);
      assert keep(m) <==> CommentId(m) != id;
    }
    SelectIdempotent(db.comments, keep);
  }

  lemma Absent<T, K>(rows: seq<T>, key: T -> K, k: K)
    ensures k !in KeysOf(Select(rows, Without(key, k)), key)
    ensures Select(Select(rows, Without(key, k)), With(key, k)) == []
    ensures Select(rows, With(key, k)) == [] ==> k !in KeysOf(rows, key)
  {
    SelectMembers(rows, Without(key, k));
    forall r | r in Select(rows, Without(key, k))
      ensures !With(key, k)(r)
    {
      SelectHas(rows, Without(key, k), r);
    }
    SelectNone(Select(rows, Without(key, k)), With(key, k));
    if r :| r in rows && key(r) == k {
      SelectHas(rows, With(key, k), r);
    }
  }
}
