/** Requests, responses and the mapping between rows and their API form. */
module Api {
  import opened Tables
  import opened Schema
  import opened Statements
  import opened Pagination
  import opened Slugs

  // ---- requests ---------------------------------------------------------------

  datatype UserCreate = UserCreate(email: string, password: Option<string>, role: string, firstName: string,
                                   lastName: string, avatarUrl: Option<string>, bio: Option<string>)

  datatype UserUpdate = UserUpdate(email: Option<string>, password: Option<string>, role: Option<string>,
                                   firstName: Option<string>, lastName: Option<string>,
                                   avatarUrl: Option<string>, bio: Option<string>)

  datatype PostCreate = PostCreate(title: string, content: string, excerpt: Option<string>, status: Option<string>,
                                   categories: Option<seq<string>>, tags: Option<seq<string>>)

  datatype LoginBody = LoginBody(email: string, password: Option<string>)

  datatype Request =
    | LoginRequest(login: Option<LoginBody>)
    | ListUsersRequest(page: Option<Int32>, perPage: Option<Int32>)
    | CreateUserRequest(newUser: Option<UserCreate>)
    | GetUserRequest(id: Uuid)
    | UpdateUserRequest(id: Uuid, update: Option<UserUpdate>)
    | ReplaceUserRequest(id: Uuid, newUser: Option<UserCreate>)
    | DeleteUserRequest(id: Uuid)
    | ListPostsRequest(filter: PostFilter, page: Option<Int32>, perPage: Option<Int32>)
    | CreatePostRequest(newPost: Option<PostCreate>)
    | GetPostRequest(id: Uuid)
    | ReplacePostRequest(id: Uuid, newPost: Option<PostCreate>)
    | DeletePostRequest(id: Uuid)
    | ListCommentsRequest(postId: Uuid, page: Option<Int32>, perPage: Option<Int32>)
    | CreateCommentRequest(postId: Uuid, content: Option<string>)
    | UpdateCommentRequest(postId: Uuid, commentId: Uuid, content: Option<string>)
    | DeleteCommentRequest(postId: Uuid, commentId: Uuid)

  /** What one request draws from outside: a fresh UUID, the clock, a salt, bcrypt's nonce and whether
      bcrypt or the token signer fails, the id of a token, and the slug suffix. */
  datatype Inputs = Inputs(newId: Uuid, now: int, salt: string, nonce: nat, hashFails: bool, signFails: bool,
                           tokenId: Uuid, suffix: Suffix)

  /** A request as it reaches its handler, with the identity the middleware found. */
  datatype Call = Call(request: Request, identity: Option<Uuid>, inputs: Inputs)

  // ---- responses --------------------------------------------------------------

  datatype ApiRole = ApiRole(id: Uuid, slug: string, scopes: seq<string>)

  datatype ApiUser = ApiUser(id: Uuid, email: string, firstName: string, lastName: string,
                             avatarUrl: Option<string>, bio: Option<string>, role: ApiRole,
                             createdAt: int, updatedAt: int)

  datatype ApiPost = ApiPost(id: Uuid, authorId: Uuid, title: string, slug: string, content: string,
                             excerpt: Option<string>, status: string, categories: seq<string>,
                             tags: seq<string>, commentCount: nat, createdAt: int, updatedAt: int)

  datatype ApiComment = ApiComment(id: Uuid, postId: Uuid, authorId: Uuid, content: string,
                                   createdAt: int, updatedAt: int)

  datatype Meta = Meta(total: nat, page: Int32, perPage: Int32)

  /** The claims of an issued token. */
  datatype Claims = Claims(iss: string, sub: Uuid, role: string, scopes: seq<string>, iat: int, exp: int, jti: Uuid)

  datatype HandlerError = Database(error: DbError) | Hashing | Signing

  datatype Body =
    | Empty
    | Message(message: string)
    | Fault(cause: HandlerError)
    | UserBody(user: ApiUser)
    | PostBody(post: ApiPost)
    | CommentBody(comment: ApiComment)
    | UsersBody(users: seq<ApiUser>, meta: Meta)
    | PostsBody(posts: seq<ApiPost>, meta: Meta)
    | CommentsBody(comments: seq<ApiComment>, meta: Meta)
    | TokenBody(claims: Claims, expiresAt: int, user: ApiUser)

  datatype Response = Response(status: nat, body: Body)

  /** An error a handler returns instead of a response. */
  function InternalError(e: DbError): Response { Response(500, Fault(Database(e))) }

  predicate IsNotFound(e: DbError) { e == NoRows }
  predicate IsUniqueViolation(e: DbError) { e.PgError? && e.code == "23505" }

  // ---- rows to API ------------------------------------------------------------

  function ToApiRole(r: Role): ApiRole { ApiRole(r.id, r.slug, r.scopes) }

  function ToApiUser(u: User, r: Role): ApiUser {
    ApiUser(u.id, u.email, u.firstName, u.lastName, u.avatarUrl, u.bio, ToApiRole(r), u.createdAt, u.updatedAt)
  }

  function ToApiPost(p: Post, commentCount: nat): ApiPost {
    ApiPost(p.id, p.authorId, p.title, p.slug, p.content, p.excerpt, p.status, p.categories, p.tags,
            commentCount, p.createdAt, p.updatedAt)
  }

  function ToApiComment(c: Comment): ApiComment {
    ApiComment(c.id, c.postId, c.authorId, c.content, c.createdAt, c.updatedAt)
  }

  function ToApiUsers(rows: seq<(User, Role)>): seq<ApiUser> {
    seq(|rows|, i requires 0 <= i < |rows| => ToApiUser(rows[i].0, rows[i].1))
  }

  function ToApiPosts(rows: seq<(Post, nat)>): seq<ApiPost> {
    seq(|rows|, i requires 0 <= i < |rows| => ToApiPost(rows[i].0, rows[i].1))
  }

  function ToApiComments(rows: seq<Comment>): seq<ApiComment> {
    seq(|rows|, i requires 0 <= i < |rows| => ToApiComment(rows[i]))
  }

  // ---- API to columns ---------------------------------------------------------

  /** bcrypt of the password followed by the salt. */
  function HashOf(password: string, inputs: Inputs): PasswordHash {
    Bcrypt(password + inputs.salt, inputs.nonce)
  }

  /** The same, or a failure. */
  function HashPassword(password: string, inputs: Inputs): Option<PasswordHash> {
    if inputs.hashFails then None else Some(HashOf(password, inputs))
  }

  predicate Verifies(hash: PasswordHash, password: string, salt: string) {
    hash.input == password + salt
  }

  /** A password that is absent or empty is no password. */
  predicate HasPassword(password: Option<string>) {
    password.Some? && password.value != ""
  }

  function UserColumnsOf(b: UserCreate, hash: PasswordHash, salt: string, role: Role): UserColumns {
    UserColumns(b.email, hash, salt, b.firstName, b.lastName, b.avatarUrl, b.bio, role.id)
  }

  function PatchOf(b: UserUpdate, hash: Option<PasswordHash>, salt: string, roleId: Option<Uuid>): UserPatch {
    UserPatch(b.email, hash, if hash.Some? then Some(salt) else None, b.firstName, b.lastName, b.avatarUrl,
              b.bio, roleId)
  }

  /** The columns of a post; status and lists have defaults, the slug comes from the title. */
  function PostColumnsOf(b: PostCreate, suffix: Suffix): PostColumns {
    PostColumns(b.title, Slug(b.title, suffix), b.content, b.excerpt, b.status.GetOr("draft"),
                b.categories.GetOr([]), b.tags.GetOr([]))
  }
}
