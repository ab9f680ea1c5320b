/** The four tables of the blog and the constraints the migration declares on them. */
module Schema {
  import opened Tables

  type Uuid = nat

  /** A bcrypt hash, kept symbolic: equal hashes come from equal inputs, and `nonce` is the
      salt bcrypt draws for itself. */
  datatype PasswordHash = Bcrypt(input: string, nonce: nat)

  datatype Role = Role(id: Uuid, slug: string, scopes: seq<string>)

  datatype User = User(id: Uuid, email: string, passwordHash: PasswordHash, passwordSalt: string,
                       firstName: string, lastName: string, avatarUrl: Option<string>, bio: Option<string>,
                       roleId: Uuid, createdAt: int, updatedAt: int)

  datatype Post = Post(id: Uuid, authorId: Uuid, title: string, slug: string, content: string,
                       excerpt: Option<string>, status: string, categories: seq<string>, tags: seq<string>,
                       createdAt: int, updatedAt: int)

  datatype Comment = Comment(id: Uuid, postId: Uuid, authorId: Uuid, content: string,
                             createdAt: int, updatedAt: int)

  datatype Db = Db(roles: seq<Role>, users: seq<User>, posts: seq<Post>, comments: seq<Comment>)

  // Columns that constraints and WHERE clauses look at.
  function RoleId(r: Role): Uuid { r.id }
  function RoleSlug(r: Role): string { r.slug }
  function UserId(u: User): Uuid { u.id }
  function UserEmail(u: User): string { u.email }
  function UserRoleId(u: User): Uuid { u.roleId }
  function PostId(p: Post): Uuid { p.id }
  function PostSlug(p: Post): string { p.slug }
  function PostAuthor(p: Post): Uuid { p.authorId }
  function CommentId(c: Comment): Uuid { c.id }
  function CommentPost(c: Comment): Uuid { c.postId }
  function CommentAuthor(c: Comment): Uuid { c.authorId }

  /** The values of the enum type `post_status`. */
  predicate IsPostStatus(s: string) {
    s == "draft" || s == "published" || s == "archived"
  }

  ghost predicate RolesIntact(roles: seq<Role>) {
    Unique(roles, RoleId) && Unique(roles, RoleSlug)
  }

  ghost predicate UsersIntact(users: seq<User>, roles: seq<Role>) {
    && Unique(users, UserId)
    && Unique(users, UserEmail)
    && Refers(users, UserRoleId, KeysOf(roles, RoleId))
  }

  ghost predicate PostsIntact(posts: seq<Post>, users: seq<User>) {
    && Unique(posts, PostId)
    && Unique(posts, PostSlug)
    && Refers(posts, PostAuthor, KeysOf(users, UserId))
    && forall i | 0 <= i < |posts| :: IsPostStatus(posts[i].status)
  }

  ghost predicate CommentsIntact(comments: seq<Comment>, posts: seq<Post>, users: seq<User>) {
    && Unique(comments, CommentId)
    && Refers(comments, CommentPost, KeysOf(posts, PostId))
    && Refers(comments, CommentAuthor, KeysOf(users, UserId))
  }

  /** Every PRIMARY KEY, UNIQUE, REFERENCES and enum constraint of the schema. */
  ghost predicate Integrity(db: Db) {
    && RolesIntact(db.roles)
    && UsersIntact(db.users, db.roles)
    && PostsIntact(db.posts, db.users)
    && CommentsIntact(db.comments, db.posts, db.users)
  }
}
