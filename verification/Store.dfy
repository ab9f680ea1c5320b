/** The tables as mutable state. Each method carries out one SQL statement by searching and rewriting
    rows; its contract is the meaning given to that statement in `Statements`. */
module Stores {
  import opened Tables
  import opened Schema
  import opened Statements
  import opened Constraints
  import opened Seeding
  import opened Sorting

  // ---- table scans ------------------------------------------------------------

  /** The row with the given key, by scanning. */
  method Find<T, K(==)>(rows: seq<T>, key: T -> K, k: K) returns (i: int)
    ensures -1 <= i < |rows|
    ensures i >= 0 ==> key(rows[i]) == k
    ensures i < 0 <==> k !in KeysOf(rows, key)
  {
    i := 0;
    while i < |rows|
      invariant 0 <= i <= |rows|
      invariant forall j | 0 <= j < i :: key(rows[j]) != k
    {
      if key(rows[i]) == k {
        return;
      }
      i := i + 1;
    }
    i := -1;
  }

  /** Whether a row other than row `except` has the given key. */
  method Taken<T, K(==)>(rows: seq<T>, key: T -> K, k: K, except: int) returns (taken: bool)
    ensures taken <==> exists j :: 0 <= j < |rows| && j != except && key(rows[j]) == k
  {
    for i := 0 to |rows|
      invariant forall j | 0 <= j < i && j != except :: key(rows[j]) != k
    {
      if i != except && key(rows[i]) == k {
        return true;
      }
    }
    taken := false;
  }

  method Scan<T>(rows: seq<T>, p: T -> bool) returns (kept: seq<T>)
    ensures kept == Select(rows, p)
  {
    kept := [];
    for i := 0 to |rows|
      invariant kept == Select(rows[..i], p)
    {
      assert rows[..i + 1][..i] == rows[..i];
      if p(rows[i]) {
        kept := kept + [rows[i]];
      }
    }
    assert rows[..|rows|] == rows;
  }

  method Count<T>(rows: seq<T>, p: T -> bool) returns (n: nat)
    ensures n == |Select(rows, p)|
  {
    n := 0;
    for i := 0 to |rows|
      invariant n == |Select(rows[..i], p)|
    {
      assert rows[..i + 1][..i] == rows[..i];
      if p(rows[i]) {
        n := n + 1;
      }
    }
    assert rows[..|rows|] == rows;
  }

  /** The row is moved forward past the rows it must precede. */
  method Insert<T>(sorted: seq<T>, r: T, before: (T, T) -> bool) returns (next: seq<T>)
    ensures next == Place(sorted, r, before)
  {
    var k := |sorted|;
    assert sorted[..k] == sorted && sorted[k..] == [];
    while k > 0 && !before(sorted[k - 1], r)
      invariant 0 <= k <= |sorted|
      invariant Place(sorted, r, before) == Place(sorted[..k], r, before) + sorted[k..]
    {
      assert sorted[..k][..k - 1] == sorted[..k - 1];
      assert [sorted[k - 1]] + sorted[k..] == sorted[k - 1..];
      k := k - 1;
    }
    next := sorted[..k] + [r] + sorted[k..];
  }

  /** ORDER BY, by insertion. */
  method Sort<T>(rows: seq<T>, before: (T, T) -> bool) returns (sorted: seq<T>)
    ensures sorted == OrderBy(rows, before)
  {
    sorted := [];
    for i := 0 to |rows|
      invariant sorted == OrderBy(rows[..i], before)
    {
      assert rows[..i + 1][..i] == rows[..i];
      sorted := Insert(sorted, rows[i], before);
    }
    assert rows[..|rows|] == rows;
  }

  /** Reading a result set row by row, after OFFSET rows and up to LIMIT of them. */
  method Fetch<T>(rows: seq<T>, limit: nat, offset: int) returns (page: Result<seq<T>, DbError>)
    ensures page == Window(rows, limit, offset)
  {
    if offset < 0 {
      return Failure(PgError(INVALID_OFFSET));
    }
    var items := [];
    var i := if offset < |rows| then offset else |rows|;
    ghost var lo := i;
    ghost var hi := if lo + limit < |rows| then lo + limit else |rows|;
    while i < |rows| && |items| < limit
      invariant lo <= i <= hi
      invariant |items| == i - lo
      invariant items == rows[lo..i]
    {
      items := items + [rows[i]];
      i := i + 1;
    }
    assert i == hi;
    page := Success(items);
  }

  // ---- the store --------------------------------------------------------------

  class Store {
    var roles: seq<Role>
    var users: seq<User>
    var posts: seq<Post>
    var comments: seq<Comment>

    function Contents(): Db
      reads this
    {
      Db(roles, users, posts, comments)
    }

    ghost predicate Valid()
      reads this
    {
      Integrity(Contents())
    }

    /** The migration: tables created empty, roles seeded, one user inserted per role. */
    constructor (seed: Seed)
      requires DistinctIds(seed)
      ensures Valid() && Contents() == SeedDb(seed)
    {
      roles := SeedRoles();
      users := SeedUsers(seed);
      posts := [];
      comments := [];
      SeedIntact(seed);
    }

    // ---- roles ----

    method GetRole(id: Uuid) returns (r: Result<Role, DbError>)
      requires Valid()
      ensures r == Statements.GetRole(Contents(), id)
    {
      var i := Find(roles, RoleId, id);
      Lookup(roles, RoleId, id);
      r := if i < 0 then Failure(NoRows) else Success(roles[i]);
    }

    method GetRoleBySlug(slug: string) returns (r: Result<Role, DbError>)
      requires Valid()
      ensures r == Statements.GetRoleBySlug(Contents(), slug)
    {
      var i := Find(roles, RoleSlug, slug);
      Lookup(roles, RoleSlug, slug);
      r := if i < 0 then Failure(NoRows) else Success(roles[i]);
    }

    // ---- users ----

    method CreateUser(u: User) returns (r: Result<User, DbError>)
      requires Valid()
      modifies this
      ensures Valid()
      ensures Statements.CreateUser(old(Contents()), u) == Outcome(Contents(), r)
    {
      CreateUserIffIntact(Contents(), u);
      var sameId := Find(users, UserId, u.id);
      var sameEmail := Find(users, UserEmail, u.email);
      if sameId >= 0 || sameEmail >= 0 {
        return Failure(PgError(UNIQUE_VIOLATION));
      }
      var role := Find(roles, RoleId, u.roleId);
      if role < 0 {
        return Failure(PgError(FOREIGN_KEY_VIOLATION));
      }
      users := users + [u];
      r := Success(u);
    }

    method ChangeUser(id: Uuid, change: User -> User) returns (r: Result<User, DbError>)
      requires Valid()
      requires forall v :: change(v).id == v.id
      modifies this
      ensures Valid()
      ensures Statements.ChangeUser(old(Contents()), id, change) == Outcome(Contents(), r)
    {
      ChangeUserIffIntact(Contents(), id, change);
      r := WriteUser(id, change);
    }

    /** The statement itself, on tables whose ids are unique. */
    method WriteUser(id: Uuid, change: User -> User) returns (r: Result<User, DbError>)
      requires Unique(users, UserId)
      requires forall v :: change(v).id == v.id
      modifies `users
      ensures Statements.ChangeUser(old(Contents()), id, change) == Outcome(Contents(), r)
    {
      Lookup(users, UserId, id);
      var i := Find(users, UserId, id);
      if i < 0 {
        return Failure(NoRows);
      }
      var u := change(users[i]);
      ChangeUserRow(Contents(), i, change);
      var taken := Taken(users, UserEmail, u.email, i);
      if taken {
        return Failure(PgError(UNIQUE_VIOLATION));
      }
      var role := Find(roles, RoleId, u.roleId);
      if role < 0 {
        return Failure(PgError(FOREIGN_KEY_VIOLATION));
      }
      users := users[i := u];
      r := Success(u);
    }

    method UpdateUser(id: Uuid, p: UserPatch, now: int) returns (r: Result<User, DbError>)
      requires Valid()
      modifies this
      ensures Valid()
      ensures Statements.UpdateUser(old(Contents()), id, p, now) == Outcome(Contents(), r)
    {
      r := ChangeUser(id, Patching(p, now));
    }

    method ReplaceUser(id: Uuid, c: UserColumns, now: int) returns (r: Result<User, DbError>)
      requires Valid()
      modifies this
      ensures Valid()
      ensures Statements.ReplaceUser(old(Contents()), id, c, now) == Outcome(Contents(), r)
    {
      r := ChangeUser(id, Replacing(c, now));
    }

    method DeleteUser(id: Uuid)
      requires Valid()
      modifies this
      ensures Valid()
      ensures Contents() == Statements.DeleteUser(old(Contents()), id)
    {
      DeleteUserIntact(Contents(), id);
      RemoveUser(id);
    }

    /** The users row goes first, then what refers to it, then what refers to that. */
    method RemoveUser(id: Uuid)
      requires Unique(users, UserId)
      modifies `users, `posts, `comments
      ensures Contents() == Statements.DeleteUser(old(Contents()), id)
    {
      Lookup(users, UserId, id);
      var i := Find(users, UserId, id);
      if i < 0 {
        return;
      }
      var authored := Scan(posts, With(PostAuthor, id));
      var gone := Ids(authored);
      users := Scan(users, Without(UserId, id));
      posts := Scan(posts, Without(PostAuthor, id));
      comments := Scan(comments, Outside(CommentPost, gone));
      comments := Scan(comments, Without(CommentAuthor, id));
    }

    /** The join is computed row by row; `JoinRoles` says what the rows are. */
    method Join(rows: seq<User>) returns (joined: seq<(User, Role)>)
      requires Valid()
      ensures joined == JoinRoles(rows, roles)
    {
      joined := [];
      for i := 0 to |rows|
        invariant joined == JoinRoles(rows[..i], roles)
      {
        assert rows[..i + 1][..i] == rows[..i];
        var role := GetRole(rows[i].roleId);
        Lookup(roles, RoleId, rows[i].roleId);
        if role.Success? {
          joined := joined + [(rows[i], role.value)];
        }
      }
      assert rows[..|rows|] == rows;
    }

    method GetUser(id: Uuid) returns (r: Result<(User, Role), DbError>)
      requires Valid()
      ensures r == Statements.GetUser(Contents(), id)
    {
      var rows := Scan(users, With(UserId, id));
      var joined := Join(rows);
      r := if joined == [] then Failure(NoRows) else Success(joined[0]);
    }

    method GetUserByEmail(email: string) returns (r: Result<(User, Role), DbError>)
      requires Valid()
      ensures r == Statements.GetUserByEmail(Contents(), email)
    {
      var rows := Scan(users, With(UserEmail, email));
      var joined := Join(rows);
      r := if joined == [] then Failure(NoRows) else Success(joined[0]);
    }

    method CountUsers() returns (n: nat)
      ensures n == Statements.CountUsers(Contents())
    {
      n := |users|;
    }

    method ListUsers(limit: nat, offset: int) returns (r: Result<seq<(User, Role)>, DbError>)
      requires Valid()
      ensures r == Statements.ListUsers(Contents(), limit, offset)
      ensures r.Success? ==>
                forall i, j | 0 <= i < j < |r.value| :: r.value[i].0.createdAt >= r.value[j].0.createdAt
    {
      var joined := Join(users);
      var sorted := Sort(joined, NewestUser);
      r := Fetch(sorted, limit, offset);
      if r.Success? {
        UsersNewestFirst(joined, limit, offset);
      }
    }

    // ---- posts ----

    method CreatePost(p: Post) returns (r: Result<Post, DbError>)
      requires Valid()
      modifies this
      ensures Valid()
      ensures Statements.CreatePost(old(Contents()), p) == Outcome(Contents(), r)
    {
      CreatePostIffIntact(Contents(), p);
      if !IsPostStatus(p.status) {
        return Failure(PgError(INVALID_TEXT_REPRESENTATION));
      }
      var sameId := Find(posts, PostId, p.id);
      var sameSlug := Find(posts, PostSlug, p.slug);
      if sameId >= 0 || sameSlug >= 0 {
        return Failure(PgError(UNIQUE_VIOLATION));
      }
      var author := Find(users, UserId, p.authorId);
      if author < 0 {
        return Failure(PgError(FOREIGN_KEY_VIOLATION));
      }
      posts := posts + [p];
      r := Success(p);
    }

    method ReplacePost(id: Uuid, c: PostColumns, now: int) returns (r: Result<Post, DbError>)
      requires Valid()
      modifies this
      ensures Valid()
      ensures Statements.ReplacePost(old(Contents()), id, c, now) == Outcome(Contents(), r)
    {
      ReplacePostIffIntact(Contents(), id, c, now);
      if !IsPostStatus(c.status) {
        return Failure(PgError(INVALID_TEXT_REPRESENTATION));
      }
      Lookup(posts, PostId, id);
      var i := Find(posts, PostId, id);
      if i < 0 {
        return Failure(NoRows);
      }
      SelectOne(posts, PostId, i);
      SlugFree(posts, i, c.slug);
      var taken := Taken(posts, PostSlug, c.slug, i);
      if taken {
        return Failure(PgError(UNIQUE_VIOLATION));
      }
      RewriteOne(posts, PostId, i, ReplacingPost(c, now));
      var p := ReplacingPost(c, now)(posts[i]);
      posts := posts[i := p];
      r := Success(p);
    }

    method DeletePost(id: Uuid)
      requires Valid()
      modifies this
      ensures Valid()
      ensures Contents() == Statements.DeletePost(old(Contents()), id)
    {
      DeletePostIntact(Contents(), id);
      RemovePost(id);
    }

    method RemovePost(id: Uuid)
      requires Unique(posts, PostId)
      modifies `posts, `comments
      ensures Contents() == Statements.DeletePost(old(Contents()), id)
    {
      Lookup(posts, PostId, id);
      var i := Find(posts, PostId, id);
      if i < 0 {
        return;
      }
      posts := Scan(posts, Without(PostId, id));
      comments := Scan(comments, Without(CommentPost, id));
    }

    method CountComments(postId: Uuid) returns (n: nat)
      ensures n == Statements.CountComments(Contents(), postId)
    {
      n := Count(comments, With(CommentPost, postId));
    }

    method GetPost(id: Uuid) returns (r: Result<(Post, nat), DbError>)
      requires Valid()
      ensures r == Statements.GetPost(Contents(), id)
    {
      Lookup(posts, PostId, id);
      var i := Find(posts, PostId, id);
      if i < 0 {
        return Failure(NoRows);
      }
      var n := CountComments(posts[i].id);
      r := Success((posts[i], n));
    }

    method ListPosts(f: PostFilter, limit: nat, offset: int) returns (r: Result<seq<(Post, nat)>, DbError>)
      requires Valid()
      ensures r == Statements.ListPosts(Contents(), f, limit, offset)
      ensures r.Success? ==>
                forall i, j | 0 <= i < j < |r.value| :: r.value[i].0.createdAt >= r.value[j].0.createdAt
    {
      if !IsFilter(f) {
        return Failure(PgError(INVALID_TEXT_REPRESENTATION));
      }
      var matching := Scan(posts, Matches(f));
      var sorted := Sort(matching, NewestPost);
      var page := Fetch(sorted, limit, offset);
      if page.Failure? {
        return Failure(page.error);
      }
      var items := [];
      for i := 0 to |page.value|
        invariant items == WithCounts(Contents(), page.value[..i])
      {
        var n := CountComments(page.value[i].id);
        items := items + [(page.value[i], n)];
      }
      assert page.value[..|page.value|] == page.value;
      r := Success(items);
      ListedNewestFirst(Contents(), f, limit, offset);
    }

    method CountPosts(f: PostFilter) returns (r: Result<nat, DbError>)
      ensures r == Statements.CountPosts(Contents(), f)
    {
      if !IsFilter(f) {
        return Failure(PgError(INVALID_TEXT_REPRESENTATION));
      }
      var n := Count(posts, Matches(f));
      r := Success(n);
    }

    // ---- comments ----

    method CreateComment(c: Comment) returns (r: Result<Comment, DbError>)
      requires Valid()
      modifies this
      ensures Valid()
      ensures Statements.CreateComment(old(Contents()), c) == Outcome(Contents(), r)
    {
      CreateCommentIffIntact(Contents(), c);
      var same := Find(comments, CommentId, c.id);
      if same >= 0 {
        return Failure(PgError(UNIQUE_VIOLATION));
      }
      var post := Find(posts, PostId, c.postId);
      var author := Find(users, UserId, c.authorId);
      if post < 0 || author < 0 {
        return Failure(PgError(FOREIGN_KEY_VIOLATION));
      }
      comments := comments + [c];
      r := Success(c);
    }

    method UpdateComment(id: Uuid, content: string, now: int) returns (r: Result<Comment, DbError>)
      requires Valid()
      modifies this
      ensures Valid()
      ensures Statements.UpdateComment(old(Contents()), id, content, now) == Outcome(Contents(), r)
    {
      UpdateCommentIntact(Contents(), id, content, now);
      Lookup(comments, CommentId, id);
      var i := Find(comments, CommentId, id);
      if i < 0 {
        return Failure(NoRows);
      }
      SelectOne(comments, CommentId, i);
      RewriteOne(comments, CommentId, i, Editing(content, now));
      var c := Editing(content, now)(comments[i]);
      comments := comments[i := c];
      r := Success(c);
    }

    method DeleteComment(id: Uuid)
      requires Valid()
      modifies this
      ensures Valid()
      ensures Contents() == Statements.DeleteComment(old(Contents()), id)
    {
      DeleteCommentIntact(Contents(), id);
      comments := Scan(comments, Without(CommentId, id));
    }

    method ListComments(postId: Uuid, limit: nat, offset: int) returns (r: Result<seq<Comment>, DbError>)
      ensures r == Statements.ListComments(Contents(), postId, limit, offset)
      ensures r.Success? ==> forall i, j | 0 <= i < j < |r.value| :: r.value[i].createdAt <= r.value[j].createdAt
    {
      var rows := Scan(comments, With(CommentPost, postId));
      var sorted := Sort(rows, OldestComment);
      r := Fetch(sorted, limit, offset);
      if r.Success? {
        CommentsOldestFirst(rows, limit, offset);
      }
    }
  }
}
