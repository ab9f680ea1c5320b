/** Each handler as a short program. One step runs up to and including one SQL statement; between two
    steps of a request, steps of other requests may run. */
module Handlers {
  import opened Tables
  import opened Schema
  import opened Statements
  import opened Pagination
  import opened Api

  const TOKEN_TTL := 3600
  const ISSUER := "sample-api"

  /** Where a request stands between two statements, with what it carries over. */
  datatype Pc =
    | Start
    | RoleKnown(role: Role)
    | Written(user: User)
    | PostSeen
    | UsersRead(userRows: seq<(User, Role)>)
    | PostsRead(postRows: seq<(Post, nat)>)
    | CommentsRead(commentRows: seq<Comment>)
    | Done(response: Response)

  function Step(c: Call, pc: Pc, db: Db): (Db, Pc) {
    match pc
    case Start => FirstStep(c, db)
    case RoleKnown(role) =>
      (match c.request
       case CreateUserRequest(Some(b)) => InsertUser(c, b, role, db)
       case UpdateUserRequest(id, Some(b)) => PatchUser(c, id, b, Some(role.id), db)
       case ReplaceUserRequest(id, Some(b)) => PutUser(c, id, b, role, db)
       case _ => (db, pc))
    case Written(u) => (db, Done(Response(200, UserBody(UserWithRole(db, u)))))
    case PostSeen =>
      (match c.request
       case ListCommentsRequest(postId, page, perPage) =>
         var w := WindowOf(page, perPage);
         (match Statements.ListComments(db, postId, w.limit, w.offset)
          case Success(rows) => (db, CommentsRead(rows))
          case Failure(e) => (db, Done(InternalError(e))))
       case _ => (db, pc))
    case UsersRead(rows) =>
      (match c.request
       case ListUsersRequest(page, perPage) =>
         var w := WindowOf(page, perPage);
         (db, Done(Response(200, UsersBody(ToApiUsers(rows), Meta(CountUsers(db), w.page, w.perPage)))))
       case _ => (db, pc))
    case PostsRead(rows) =>
      (match c.request
       case ListPostsRequest(filter, page, perPage) =>
         var w := WindowOf(page, perPage);
         (match Statements.CountPosts(db, filter)
          case Success(n) => (db, Done(Response(200, PostsBody(ToApiPosts(rows), Meta(n, w.page, w.perPage)))))
          case Failure(e) => (db, Done(InternalError(e))))
       case _ => (db, pc))
    case CommentsRead(rows) =>
      (match c.request
       case ListCommentsRequest(postId, page, perPage) =>
         var w := WindowOf(page, perPage);
         var n := Statements.CountComments(db, postId);
         (db, Done(Response(200, CommentsBody(ToApiComments(rows), Meta(n, w.page, w.perPage)))))
       case _ => (db, pc))
    case Done(_) => (db, pc)
  }

  function FirstStep(c: Call, db: Db): (Db, Pc) {
    match c.request
    case LoginRequest(login) => (db, Done(Login(c, login, db)))
    case ListUsersRequest(page, perPage) =>
      var w := WindowOf(page, perPage);
      (match Statements.ListUsers(db, w.limit, w.offset)
       case Success(rows) => (db, UsersRead(rows))
       case Failure(e) => (db, Done(InternalError(e))))
    case CreateUserRequest(body) => (db, ResolveRole(c, body, db))
    case GetUserRequest(id) => (db, Done(GetUser(id, db)))
    case UpdateUserRequest(id, body) => BeginUpdate(c, id, body, db)
    case ReplaceUserRequest(_, body) => (db, ResolveRole(c, body, db))
    case DeleteUserRequest(id) => (Statements.DeleteUser(db, id), Done(Response(204, Empty)))
    case ListPostsRequest(filter, page, perPage) =>
      var w := WindowOf(page, perPage);
      (match Statements.ListPosts(db, filter, w.limit, w.offset)
       case Success(rows) => (db, PostsRead(rows))
       case Failure(e) => (db, Done(InternalError(e))))
    case CreatePostRequest(body) => CreatePost(c, body, db)
    case GetPostRequest(id) => (db, Done(GetPost(id, db)))
    case ReplacePostRequest(id, body) => ReplacePost(c, id, body, db)
    case DeletePostRequest(id) => (Statements.DeletePost(db, id), Done(Response(204, Empty)))
    case ListCommentsRequest(postId, _, _) => (db, CheckPost(postId, db))
    case CreateCommentRequest(postId, content) => CreateComment(c, postId, content, db)
    case UpdateCommentRequest(_, id, content) => UpdateComment(c, id, content, db)
    case DeleteCommentRequest(_, id) => (Statements.DeleteComment(db, id), Done(Response(204, Empty)))
  }

  // ---- login ------------------------------------------------------------------

  function Login(c: Call, body: Option<LoginBody>, db: Db): Response {
    if body.None? || body.value.password.None? then Response(422, Message("email and password are required"))
    else
      match Statements.GetUserByEmail(db, body.value.email)
      case Failure(e) =>
        if IsNotFound(e) then Response(401, Message("invalid credentials")) else InternalError(e)
      case Success((u, role)) =>
        if !Verifies(u.passwordHash, body.value.password.value, u.passwordSalt) then
          Response(401, Message("invalid credentials"))
        else if c.inputs.signFails then Response(500, Fault(Signing))
        else
          var exp := c.inputs.now + TOKEN_TTL;
          var claims := Claims(ISSUER, u.id, role.slug, role.scopes, c.inputs.now, exp, c.inputs.tokenId);
          Response(200, TokenBody(claims, exp, ToApiUser(u, role)))
  }

  // ---- users ------------------------------------------------------------------

  /** The opening of CreateUser and ReplaceUser: a password is required, the role must exist. */
  function ResolveRole(c: Call, body: Option<UserCreate>, db: Db): Pc {
    if body.None? || !HasPassword(body.value.password) then Done(Response(422, Message("password is required")))
    else
      match Statements.GetRoleBySlug(db, body.value.role)
      case Failure(e) =>
        Done(if IsNotFound(e) then Response(422, Message("unknown role")) else InternalError(e))
      case Success(role) =>
        if c.inputs.hashFails then Done(Response(500, Fault(Hashing))) else RoleKnown(role)
  }

  /** The write of CreateUser; hashing has succeeded. */
  function InsertUser(c: Call, b: UserCreate, role: Role, db: Db): (Db, Pc) {
    var columns := UserColumnsOf(b, HashOf(b.password.GetOr(""), c.inputs), c.inputs.salt, role);
    var out := Statements.CreateUser(db, NewUser(c.inputs.newId, columns, c.inputs.now));
    match out.result
    case Success(u) => (out.db, Done(Response(201, UserBody(ToApiUser(u, role)))))
    case Failure(e) =>
      (out.db, Done(if IsUniqueViolation(e) then Response(409, Message("email already exists"))
                    else InternalError(e)))
  }

  /** The opening of UpdateUser: the hash comes before any statement; without a role in the body the
      first statement is the UPDATE itself. */
  function BeginUpdate(c: Call, id: Uuid, body: Option<UserUpdate>, db: Db): (Db, Pc) {
    if body.None? then (db, Done(Response(400, Message("empty body"))))
    else
      var b := body.value;
      if HasPassword(b.password) && c.inputs.hashFails then (db, Done(Response(500, Fault(Hashing))))
      else if b.role.None? then PatchUser(c, id, b, None, db)
      else
        match Statements.GetRoleBySlug(db, b.role.value)
        case Success(role) => (db, RoleKnown(role))
        case Failure(e) =>
          (db, Done(if IsNotFound(e) then Response(422, Message("unknown role")) else InternalError(e)))
  }

  function PatchUser(c: Call, id: Uuid, b: UserUpdate, roleId: Option<Uuid>, db: Db): (Db, Pc) {
    var hash := if HasPassword(b.password) then HashPassword(b.password.value, c.inputs) else None;
    var out := Statements.UpdateUser(db, id, PatchOf(b, hash, c.inputs.salt, roleId), c.inputs.now);
    match out.result
    case Success(u) => (out.db, Written(u))
    case Failure(e) => (out.db, Done(UserWriteError(e)))
  }

  /** The write of ReplaceUser; hashing has succeeded. */
  function PutUser(c: Call, id: Uuid, b: UserCreate, role: Role, db: Db): (Db, Pc) {
    var columns := UserColumnsOf(b, HashOf(b.password.GetOr(""), c.inputs), c.inputs.salt, role);
    var out := Statements.ReplaceUser(db, id, columns, c.inputs.now);
    match out.result
    case Success(u) => (out.db, Done(Response(200, UserBody(ToApiUser(u, role)))))
    case Failure(e) => (out.db, Done(UserWriteError(e)))
  }

  function UserWriteError(e: DbError): Response {
    if IsNotFound(e) then Response(404, Message("user not found"))
    else if IsUniqueViolation(e) then Response(409, Message("email already exists"))
    else InternalError(e)
  }

  /** The role of a written row; if it cannot be read, a role with nothing but its id. */
  function UserWithRole(db: Db, u: User): ApiUser {
    match Statements.GetRole(db, u.roleId)
    case Success(role) => ToApiUser(u, role)
    case Failure(_) => ToApiUser(u, Role(u.roleId, "", []))
  }

  function GetUser(id: Uuid, db: Db): Response {
    match Statements.GetUser(db, id)
    case Success((u, role)) => Response(200, UserBody(ToApiUser(u, role)))
    case Failure(e) => if IsNotFound(e) then Response(404, Message("user not found")) else InternalError(e)
  }

  // ---- posts ------------------------------------------------------------------

  function CreatePost(c: Call, body: Option<PostCreate>, db: Db): (Db, Pc) {
    if c.identity.None? then (db, Done(Response(401, Message("authentication required"))))
    else if body.None? then (db, Done(Response(400, Message("empty body"))))
    else
      var columns := PostColumnsOf(body.value, c.inputs.suffix);
      var out := Statements.CreatePost(db, NewPost(c.inputs.newId, c.identity.value, columns, c.inputs.now));
      match out.result
      case Success(p) => (out.db, Done(Response(201, PostBody(ToApiPost(p, 0)))))
      case Failure(e) => (out.db, Done(InternalError(e)))
  }

  function GetPost(id: Uuid, db: Db): Response {
    match Statements.GetPost(db, id)
    case Success((p, n)) => Response(200, PostBody(ToApiPost(p, n)))
    case Failure(e) => if IsNotFound(e) then Response(404, Message("post not found")) else InternalError(e)
  }

  function ReplacePost(c: Call, id: Uuid, body: Option<PostCreate>, db: Db): (Db, Pc) {
    if body.None? then (db, Done(Response(400, Message("empty body"))))
    else
      var out := Statements.ReplacePost(db, id, PostColumnsOf(body.value, c.inputs.suffix), c.inputs.now);
      match out.result
      case Success(p) => (out.db, Done(Response(200, PostBody(ToApiPost(p, 0)))))
      case Failure(e) =>
        (out.db, Done(if IsNotFound(e) then Response(404, Message("post not found")) else InternalError(e)))
  }

  // ---- comments ---------------------------------------------------------------

  function CheckPost(postId: Uuid, db: Db): Pc {
    match Statements.GetPost(db, postId)
    case Success(_) => PostSeen
    case Failure(e) => Done(if IsNotFound(e) then Response(404, Message("post not found")) else InternalError(e))
  }

  function CreateComment(c: Call, postId: Uuid, content: Option<string>, db: Db): (Db, Pc) {
    if c.identity.None? then (db, Done(Response(401, Message("authentication required"))))
    else if content.None? then (db, Done(Response(400, Message("empty body"))))
    else
      var row := Comment(c.inputs.newId, postId, c.identity.value, content.value, c.inputs.now, c.inputs.now);
      var out := Statements.CreateComment(db, row);
      match out.result
      case Success(m) => (out.db, Done(Response(201, CommentBody(ToApiComment(m)))))
      case Failure(e) =>
        (out.db, Done(if IsUniqueViolation(e) then Response(404, Message("post not found")) else InternalError(e)))
  }

  function UpdateComment(c: Call, id: Uuid, content: Option<string>, db: Db): (Db, Pc) {
    if content.None? then (db, Done(Response(400, Message("empty body"))))
    else
      var out := Statements.UpdateComment(db, id, content.value, c.inputs.now);
      match out.result
      case Success(m) => (out.db, Done(Response(200, CommentBody(ToApiComment(m)))))
      case Failure(e) =>
        (out.db, Done(if IsNotFound(e) then Response(404, Message("comment not found")) else InternalError(e)))
  }

  // ---- a request on its own ---------------------------------------------------

  /** How many statements a request may still run. */
  function Rank(pc: Pc): nat {
    match pc
    case Start => 3
    case RoleKnown(_) | PostSeen => 2
    case Written(_) | UsersRead(_) | PostsRead(_) | CommentsRead(_) => 1
    case Done(_) => 0
  }

  /** The program counters a request of this kind can have. */
  predicate Fits(c: Call, pc: Pc) {
    match pc
    case Start | Done(_) => true
    case RoleKnown(_) =>
      || (c.request.CreateUserRequest? && c.request.newUser.Some?)
      || (c.request.UpdateUserRequest? && c.request.update.Some?)
      || (c.request.ReplaceUserRequest? && c.request.newUser.Some?)
    case Written(_) => c.request.UpdateUserRequest? && c.request.update.Some?
    case PostSeen | CommentsRead(_) => c.request.ListCommentsRequest?
    case UsersRead(_) => c.request.ListUsersRequest?
    case PostsRead(_) => c.request.ListPostsRequest?
  }

  predicate OnUsers(r: Request) {
    || r.CreateUserRequest? || r.GetUserRequest? || r.UpdateUserRequest? || r.ReplaceUserRequest?
    || r.DeleteUserRequest?
  }

  predicate OnPosts(r: Request) {
    r.CreatePostRequest? || r.GetPostRequest? || r.ReplacePostRequest? || r.DeletePostRequest?
  }

  lemma UsersFirstStep(c: Call, db: Db)
    requires OnUsers(c.request)
    ensures Fits(c, FirstStep(c, db).1) && Rank(FirstStep(c, db).1) < 3
  {
  }

  lemma PostsFirstStep(c: Call, db: Db)
    requires OnPosts(c.request)
    ensures Fits(c, FirstStep(c, db).1) && Rank(FirstStep(c, db).1) < 3
  {
  }

  lemma FirstStepProgress(c: Call, db: Db)
    ensures Fits(c, FirstStep(c, db).1) && Rank(FirstStep(c, db).1) < 3
  {
    if OnUsers(c.request) {
      UsersFirstStep(c, db);
    } else if OnPosts(c.request) {
      PostsFirstStep(c, db);
    }
  }

  /** No request waits for another: each of its steps brings it nearer to its response, so that three
      statements are the most it runs. */
  lemma StepProgress(c: Call, pc: Pc, db: Db)
    requires Fits(c, pc) && !pc.Done?
    ensures Fits(c, Step(c, pc, db).1) && Rank(Step(c, pc, db).1) < Rank(pc)
  {
    if pc.Start? {
      FirstStepProgress(c, db);
    }
  }

  /** The rest of a request, run without interruption. */
  function Finish(c: Call, pc: Pc, db: Db): (Db, Response)
    requires Fits(c, pc)
    decreases Rank(pc)
  {
    if pc.Done? then (db, pc.response)
    else
      StepProgress(c, pc, db);
      var (db', pc') := Step(c, pc, db);
      Finish(c, pc', db')
  }

  function Atomic(c: Call, db: Db): (Db, Response) {
    Finish(c, Start, db)
  }
}
