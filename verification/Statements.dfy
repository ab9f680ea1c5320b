/** What each SQL statement of the API does to the store and what it returns. A statement is
    atomic: it takes effect as a whole, or fails and leaves the store as it was. */
module Statements {
  import opened Tables
  import opened Schema

  /** The two kinds of error a handler can tell apart: no row, or a PostgreSQL error code. */
  datatype DbError = NoRows | PgError(code: string)

  const UNIQUE_VIOLATION := "23505"
  const FOREIGN_KEY_VIOLATION := "23503"
  const INVALID_TEXT_REPRESENTATION := "22P02"
  const INVALID_OFFSET := "2201X"

  datatype Outcome<+T> = Outcome(db: Db, result: Result<T, DbError>)

  // ---- parameters -------------------------------------------------------------

  /** The columns a CREATE or a PUT writes. */
  datatype UserColumns = UserColumns(email: string, passwordHash: PasswordHash, passwordSalt: string,
                                     firstName: string, lastName: string, avatarUrl: Option<string>,
                                     bio: Option<string>, roleId: Uuid)

  /** The columns a PATCH may write; None is SQL NULL. */
  datatype UserPatch = UserPatch(email: Option<string>, passwordHash: Option<PasswordHash>,
                                 passwordSalt: Option<string>, firstName: Option<string>,
                                 lastName: Option<string>, avatarUrl: Option<string>,
                                 bio: Option<string>, roleId: Option<Uuid>)

  datatype PostColumns = PostColumns(title: string, slug: string, content: string, excerpt: Option<string>,
                                     status: string, categories: seq<string>, tags: seq<string>)

  function NewUser(id: Uuid, c: UserColumns, now: int): User {
    User(id, c.email, c.passwordHash, c.passwordSalt, c.firstName, c.lastName, c.avatarUrl, c.bio, c.roleId,
         now, now)
  }

  function Replacing(c: UserColumns, now: int): User -> User {
    (u: User) => u.(email := c.email, passwordHash := c.passwordHash, passwordSalt := c.passwordSalt,
                    firstName := c.firstName, lastName := c.lastName, avatarUrl := c.avatarUrl,
                    bio := c.bio, roleId := c.roleId, updatedAt := now)
  }

  function Coalesce<T>(arg: Option<T>, column: T): T {
    if arg.Some? then arg.value else column
  }

  function CoalesceNullable<T>(arg: Option<T>, column: Option<T>): Option<T> {
    if arg.Some? then arg else column
  }

  function Patching(p: UserPatch, now: int): User -> User {
    (u: User) => u.(email := Coalesce(p.email, u.email),
                    passwordHash := Coalesce(p.passwordHash, u.passwordHash),
                    passwordSalt := Coalesce(p.passwordSalt, u.passwordSalt),
                    firstName := Coalesce(p.firstName, u.firstName),
                    lastName := Coalesce(p.lastName, u.lastName),
                    avatarUrl := CoalesceNullable(p.avatarUrl, u.avatarUrl),
                    bio := CoalesceNullable(p.bio, u.bio),
                    roleId := Coalesce(p.roleId, u.roleId),
                    updatedAt := now)
  }

  function NewPost(id: Uuid, author: Uuid, c: PostColumns, now: int): Post {
    Post(id, author, c.title, c.slug, c.content, c.excerpt, c.status, c.categories, c.tags, now, now)
  }

  function ReplacingPost(c: PostColumns, now: int): Post -> Post {
    (p: Post) => p.(title := c.title, slug := c.slug, content := c.content, excerpt := c.excerpt,
                    status := c.status, categories := c.categories, tags := c.tags, updatedAt := now)
  }

  function Editing(content: string, now: int): Comment -> Comment {
    (c: Comment) => c.(content := content, updatedAt := now)
  }

  // ---- reads ------------------------------------------------------------------

  /** A `:one` query: the first row, or pgx.ErrNoRows. */
  function One<T>(rows: seq<T>): Result<T, DbError> {
    if rows == [] then Failure(NoRows) else Success(rows[0])
  }

  function GetRole(db: Db, id: Uuid): Result<Role, DbError> {
    One(Select(db.roles, With(RoleId, id)))
  }

  function GetRoleBySlug(db: Db, slug: string): Result<Role, DbError> {
    One(Select(db.roles, With(RoleSlug, slug)))
  }

  /** `users JOIN user_roles ON user_roles.id = users.role_id`, in the order of `users`. */
  function JoinRoles(users: seq<User>, roles: seq<Role>): seq<(User, Role)> {
    if users == [] then []
    else
      var n := |users| - 1;
      JoinRoles(users[..n], roles) + Paired(users[n], Select(roles, With(RoleId, users[n].roleId)))
  }

  function Paired(u: User, roles: seq<Role>): seq<(User, Role)> {
    seq(|roles|, i requires 0 <= i < |roles| => (u, roles[i]))
  }

  function GetUser(db: Db, id: Uuid): Result<(User, Role), DbError> {
    One(JoinRoles(Select(db.users, With(UserId, id)), db.roles))
  }

  function GetUserByEmail(db: Db, email: string): Result<(User, Role), DbError> {
    One(JoinRoles(Select(db.users, With(UserEmail, email)), db.roles))
  }

  /** `SELECT count(*) FROM comments WHERE post_id = $1`, also the derived column comment_count. */
  function CountComments(db: Db, postId: Uuid): nat {
    |Select(db.comments, With(CommentPost, postId))|
  }

  function WithCount(db: Db, p: Post): (Post, nat) {
    (p, CountComments(db, p.id))
  }

  function GetPost(db: Db, id: Uuid): Result<(Post, nat), DbError> {
    var rows := Select(db.posts, With(PostId, id));
    if rows == [] then Failure(NoRows) else Success(WithCount(db, rows[0]))
  }

  // ---- ordered pages ----------------------------------------------------------

  /** ORDER BY created_at, ties in table order: the row goes after every row that may precede it. */
  function Place<T>(sorted: seq<T>, r: T, before: (T, T) -> bool): seq<T> {
    if sorted == [] || before(sorted[|sorted| - 1], r) then sorted + [r]
    else Place(sorted[..|sorted| - 1], r, before) + [sorted[|sorted| - 1]]
  }

  function OrderBy<T>(rows: seq<T>, before: (T, T) -> bool): seq<T> {
    if rows == [] then []
    else Place(OrderBy(rows[..|rows| - 1], before), rows[|rows| - 1], before)
  }

  function NewestPost(a: Post, b: Post): bool { a.createdAt >= b.createdAt }
  function NewestUser(a: (User, Role), b: (User, Role)): bool { a.0.createdAt >= b.0.createdAt }
  function OldestComment(a: Comment, b: Comment): bool { a.createdAt <= b.createdAt }

  /** LIMIT and OFFSET; PostgreSQL refuses a negative offset. */
  function Window<T>(rows: seq<T>, limit: nat, offset: int): Result<seq<T>, DbError> {
    if offset < 0 then Failure(PgError(INVALID_OFFSET))
    else
      var lo := if offset < |rows| then offset else |rows|;
      var hi := if lo + limit < |rows| then lo + limit else |rows|;
      Success(rows[lo..hi])
  }

  datatype PostFilter = PostFilter(status: Option<string>, tag: Option<string>, category: Option<string>)

  predicate IsFilter(f: PostFilter) {
    f.status.Some? ==> IsPostStatus(f.status.value)
  }

  function Matches(f: PostFilter): Post -> bool {
    (p: Post) =>
      && (f.status.None? || p.status == f.status.value)
      && (f.tag.None? || f.tag.value in p.tags)
      && (f.category.None? || f.category.value in p.categories)
  }

  function WithCounts(db: Db, posts: seq<Post>): seq<(Post, nat)> {
    seq(|posts|, i requires 0 <= i < |posts| => WithCount(db, posts[i]))
  }

  function ListPosts(db: Db, f: PostFilter, limit: nat, offset: int): Result<seq<(Post, nat)>, DbError> {
    if !IsFilter(f) then Failure(PgError(INVALID_TEXT_REPRESENTATION))
    else
      match Window(OrderBy(Select(db.posts, Matches(f)), NewestPost), limit, offset)
      case Success(posts) => Success(WithCounts(db, posts))
      case Failure(e) => Failure(e)
  }

  function CountPosts(db: Db, f: PostFilter): Result<nat, DbError> {
    if !IsFilter(f) then Failure(PgError(INVALID_TEXT_REPRESENTATION))
    else Success(|Select(db.posts, Matches(f))|)
  }

  function ListUsers(db: Db, limit: nat, offset: int): Result<seq<(User, Role)>, DbError> {
    Window(OrderBy(JoinRoles(db.users, db.roles), NewestUser), limit, offset)
  }

  function CountUsers(db: Db): nat {
    |db.users|
  }

  function ListComments(db: Db, postId: Uuid, limit: nat, offset: int): Result<seq<Comment>, DbError> {
    Window(OrderBy(Select(db.comments, With(CommentPost, postId)), OldestComment), limit, offset)
  }

  // ---- writes -----------------------------------------------------------------

  function CreateUser(db: Db, u: User): Outcome<User> {
    if (exists v | v in db.users :: v.id == u.id || v.email == u.email) then
      Outcome(db, Failure(PgError(UNIQUE_VIOLATION)))
    else if !(exists r | r in db.roles :: r.id == u.roleId) then
      Outcome(db, Failure(PgError(FOREIGN_KEY_VIOLATION)))
    else
      Outcome(db.(users := db.users + [u]), Success(u))
  }

  /** `UPDATE users SET ... WHERE id = $1 RETURNING *`, for a change that keeps the id. */
  function ChangeUser(db: Db, id: Uuid, change: User -> User): Outcome<User> {
    var hit := Select(db.users, With(UserId, id));
    if hit == [] then Outcome(db, Failure(NoRows))
    else
      var u := change(hit[0]);
      if (exists v | v in db.users :: v.id != id && v.email == u.email) then
        Outcome(db, Failure(PgError(UNIQUE_VIOLATION)))
      else if !(exists r | r in db.roles :: r.id == u.roleId) then
        Outcome(db, Failure(PgError(FOREIGN_KEY_VIOLATION)))
      else
        Outcome(db.(users := Rewrite(db.users, With(UserId, id), change)), Success(u))
  }

  function UpdateUser(db: Db, id: Uuid, p: UserPatch, now: int): Outcome<User> {
    ChangeUser(db, id, Patching(p, now))
  }

  function ReplaceUser(db: Db, id: Uuid, c: UserColumns, now: int): Outcome<User> {
    ChangeUser(db, id, Replacing(c, now))
  }

  function CreatePost(db: Db, p: Post): Outcome<Post> {
    if !IsPostStatus(p.status) then
      Outcome(db, Failure(PgError(INVALID_TEXT_REPRESENTATION)))
    else if (exists q | q in db.posts :: q.id == p.id || q.slug == p.slug) then
      Outcome(db, Failure(PgError(UNIQUE_VIOLATION)))
    else if !(exists u | u in db.users :: u.id == p.authorId) then
      Outcome(db, Failure(PgError(FOREIGN_KEY_VIOLATION)))
    else
      Outcome(db.(posts := db.posts + [p]), Success(p))
  }

  function ReplacePost(db: Db, id: Uuid, c: PostColumns, now: int): Outcome<Post> {
    var hit := Select(db.posts, With(PostId, id));
    if !IsPostStatus(c.status) then
      Outcome(db, Failure(PgError(INVALID_TEXT_REPRESENTATION)))
    else if hit == [] then
      Outcome(db, Failure(NoRows))
    else if (exists q | q in db.posts :: q.id != id && q.slug == c.slug) then
      Outcome(db, Failure(PgError(UNIQUE_VIOLATION)))
    else
      Outcome(db.(posts := Rewrite(db.posts, With(PostId, id), ReplacingPost(c, now))),
              Success(ReplacingPost(c, now)(hit[0])))
  }

  function CreateComment(db: Db, c: Comment): Outcome<Comment> {
    if (exists d | d in db.comments :: d.id == c.id) then
      Outcome(db, Failure(PgError(UNIQUE_VIOLATION)))
    else if !(exists p | p in db.posts :: p.id == c.postId) || !(exists u | u in db.users :: u.id == c.authorId) then
      Outcome(db, Failure(PgError(FOREIGN_KEY_VIOLATION)))
    else
      Outcome(db.(comments := db.comments + [c]), Success(c))
  }

  function UpdateComment(db: Db, id: Uuid, content: string, now: int): Outcome<Comment> {
    var hit := Select(db.comments, With(CommentId, id));
    if hit == [] then Outcome(db, Failure(NoRows))
    else
      Outcome(db.(comments := Rewrite(db.comments, With(CommentId, id), Editing(content, now))),
              Success(Editing(content, now)(hit[0])))
  }

  function DeleteComment(db: Db, id: Uuid): Db {
    db.(comments := Select(db.comments, Without(CommentId, id)))
  }

  /** `DELETE FROM posts WHERE id = $1`, with the cascade to comments. */
  function DeletePost(db: Db, id: Uuid): Db {
    if Select(db.posts, With(PostId, id)) == [] then db
    else
      db.(posts := Select(db.posts, Without(PostId, id)),
          comments := Select(db.comments, Without(CommentPost, id)))
  }

  function Ids(posts: seq<Post>): set<Uuid> {
    set p | p in posts :: p.id
  }

  /** `DELETE FROM users WHERE id = $1`, with the cascades to posts and to comments. */
  function DeleteUser(db: Db, id: Uuid): Db {
    if Select(db.users, With(UserId, id)) == [] then db
    else
      var gone := Ids(Select(db.posts, With(PostAuthor, id)));
      db.(users := Select(db.users, Without(UserId, id)),
          posts := Select(db.posts, Without(PostAuthor, id)),
          comments := Select(Select(db.comments, Outside(CommentPost, gone)), Without(CommentAuthor, id)))
  }
}
