/** What an answer shows, field by field, of the rows that are in the store, and in which order. */
module Shown {
  import opened Tables
  import opened Schema
  import opened Statements
  import opened Pagination
  import opened Api
  import opened Handlers
  import opened Joins
  import opened Sorting
  import opened Paging

  // ---- rows and what is shown of them -----------------------------------------

  predicate ShowsRole(a: ApiRole, role: Role) {
    a.id == role.id && a.slug == role.slug && a.scopes == role.scopes
  }

  predicate ShowsUser(a: ApiUser, u: User, role: Role) {
    && a.id == u.id && a.email == u.email && a.firstName == u.firstName && a.lastName == u.lastName
    && a.avatarUrl == u.avatarUrl && a.bio == u.bio && ShowsRole(a.role, role)
    && a.createdAt == u.createdAt && a.updatedAt == u.updatedAt
  }

  predicate ShowsPost(a: ApiPost, p: Post) {
    && a.id == p.id && a.authorId == p.authorId && a.title == p.title && a.slug == p.slug
    && a.content == p.content && a.excerpt == p.excerpt && a.status == p.status
    && a.categories == p.categories && a.tags == p.tags
    && a.createdAt == p.createdAt && a.updatedAt == p.updatedAt
  }

  predicate ShowsComment(a: ApiComment, m: Comment) {
    && a.id == m.id && a.postId == m.postId && a.authorId == m.authorId && a.content == m.content
    && a.createdAt == m.createdAt && a.updatedAt == m.updatedAt
  }

  /** A row of `users` with the row of `user_roles` it refers to. */
  ghost predicate IsStoredUser(a: ApiUser, db: Db) {
    exists u, role :: u in db.users && role in db.roles && role.id == u.roleId && ShowsUser(a, u, role)
  }

  /** Where the comments on a post are. */
  function CommentsOn(comments: seq<Comment>, postId: Uuid): set<nat> {
    set k: nat | k < |comments| && comments[k].postId == postId
  }

  /** A row of `posts`, with the number of comments on it. */
  ghost predicate IsStoredPost(a: ApiPost, db: Db) {
    exists p :: p in db.posts && ShowsPost(a, p) && a.commentCount == |CommentsOn(db.comments, p.id)|
  }

  ghost predicate IsStoredComment(a: ApiComment, db: Db) {
    exists m :: m in db.comments && ShowsComment(a, m)
  }

  lemma {:induction false} CountIsPositions(comments: seq<Comment>, postId: Uuid)
    ensures |Select(comments, With(CommentPost, postId))| == |CommentsOn(comments, postId)|
  {
    if comments == [] {
      assert CommentsOn(comments, postId) == {};
    } else {
      var n := |comments| - 1;
      CountIsPositions(comments[..n], postId);
      var before := CommentsOn(comments[..n], postId);
      assert CommentPost(comments[n]) == comments[n].postId;
      if comments[n].postId == postId {
        assert CommentsOn(comments, postId) == before + {n} && n !in before;
      } else {
        assert CommentsOn(comments, postId) == before;
      }
    }
  }

  // ---- one row ----------------------------------------------------------------

  /** GET /v1/users/{id}: the row with the id and its role, every field, or a 404. */
  lemma GetUserShows(c: Call, id: Uuid, db: Db)
    requires Integrity(db) && c.request == GetUserRequest(id)
    ensures var r := Atomic(c, db).1;
            if id in KeysOf(db.users, UserId)
            then r.status == 200 && r.body.UserBody? && r.body.user.id == id && IsStoredUser(r.body.user, db)
            else r == Response(404, Message("user not found"))
  {
    assert Finish(c, Start, db) == Finish(c, Step(c, Start, db).1, db);
    JoinedLookup(db, UserId, id);
    if id in KeysOf(db.users, UserId) {
      var (u, role) := Statements.GetUser(db, id).value;
      assert ShowsUser(Atomic(c, db).1.body.user, u, role);
    }
  }

  /** GET /v1/posts/{id}: the row with the id, every field, and the number of its comments, or a 404. */
  lemma GetPostShows(c: Call, id: Uuid, db: Db)
    requires Integrity(db) && c.request == GetPostRequest(id)
    ensures var r := Atomic(c, db).1;
            if id in KeysOf(db.posts, PostId)
            then r.status == 200 && r.body.PostBody? && r.body.post.id == id && IsStoredPost(r.body.post, db)
            else r == Response(404, Message("post not found"))
  {
    assert Finish(c, Start, db) == Finish(c, Step(c, Start, db).1, db);
    Lookup(db.posts, PostId, id);
    if p :| p in db.posts && PostId(p) == id {
      CountIsPositions(db.comments, id);
      assert Select(db.posts, With(PostId, id)) == [p];
      assert ShowsPost(Atomic(c, db).1.body.post, p);
    }
  }

  // ---- pages ------------------------------------------------------------------

  /** Stored users with their roles, the newest first. */
  ghost predicate ShowsUsers(shown: seq<ApiUser>, db: Db) {
    && (forall i | 0 <= i < |shown| :: IsStoredUser(shown[i], db))
    && (forall i, j | 0 <= i < j < |shown| :: shown[i].createdAt >= shown[j].createdAt)
  }

  /** Any page of users. */
  lemma UsersPageShows(c: Call, db: Db)
    requires Integrity(db) && c.request.ListUsersRequest? && Atomic(c, db).1.status == 200
    ensures Atomic(c, db).1.body.UsersBody? && ShowsUsers(Atomic(c, db).1.body.users, db)
  {
    UsersPageSteps(c, db);
    var w := WindowOf(c.request.page, c.request.perPage);
    assert Preorder(NewestUser);
    WindowSorted(JoinRoles(db.users, db.roles), NewestUser, w.limit, w.offset);
    UsersShown(Statements.ListUsers(db, w.limit, w.offset).value, db);
  }

  lemma UsersShown(page: seq<(User, Role)>, db: Db)
    requires Integrity(db) && Ordered(page, NewestUser)
    requires forall row | row in page :: row in JoinRoles(db.users, db.roles)
    ensures ShowsUsers(ToApiUsers(page), db)
  {
    var rows, shown := JoinRoles(db.users, db.roles), ToApiUsers(page);
    JoinTotal(db.users, db.roles);
    forall i | 0 <= i < |shown|
      ensures IsStoredUser(shown[i], db)
    {
      assert page[i] in rows;
      var k :| 0 <= k < |rows| && rows[k] == page[i];
      assert Joined(rows[k], db.users[k], db.roles);
      assert ShowsUser(shown[i], page[i].0, page[i].1);
    }
    assert forall i, j | 0 <= i < j < |page| :: NewestUser(page[i], page[j]);
  }

  /** Stored posts that match the filter, the newest first. */
  ghost predicate ShowsPosts(shown: seq<ApiPost>, f: PostFilter, db: Db) {
    && (forall i | 0 <= i < |shown| ::
          && IsStoredPost(shown[i], db)
          && (f.status.Some? ==> shown[i].status == f.status.value)
          && (f.tag.Some? ==> f.tag.value in shown[i].tags)
          && (f.category.Some? ==> f.category.value in shown[i].categories))
    && (forall i, j | 0 <= i < j < |shown| :: shown[i].createdAt >= shown[j].createdAt)
  }

  /** Any page of posts. */
  lemma PostsPageShows(c: Call, db: Db)
    requires c.request.ListPostsRequest? && Atomic(c, db).1.status == 200
    ensures Atomic(c, db).1.body.PostsBody? && ShowsPosts(Atomic(c, db).1.body.posts, c.request.filter, db)
  {
    FilterAccepted(c, db);
    PostsPageSteps(c, db);
    var f, w := c.request.filter, WindowOf(c.request.page, c.request.perPage);
    var rows := Select(db.posts, Matches(f));
    NewestPostPreorder();
    WindowSorted(rows, NewestPost, w.limit, w.offset);
    PostsShown(Window(OrderBy(rows, NewestPost), w.limit, w.offset).value, f, db);
  }

  lemma PostsShown(page: seq<Post>, f: PostFilter, db: Db)
    requires Ordered(page, NewestPost) && forall p | p in page :: p in Select(db.posts, Matches(f))
    ensures ShowsPosts(ApiPosts(db, page), f, db)
  {
    var shown := ApiPosts(db, page);
    forall i | 0 <= i < |shown|
      ensures IsStoredPost(shown[i], db) && ShowsPost(shown[i], page[i]) && Matches(f)(page[i])
    {
      assert page[i] in page;
      SelectHas(db.posts, Matches(f), page[i]);
      CountIsPositions(db.comments, page[i].id);
      assert ShowsPost(shown[i], page[i]);
    }
    assert forall i, j | 0 <= i < j < |page| :: NewestPost(page[i], page[j]);
  }

  /** Only a status of the enum is accepted in a filter. */
  lemma FilterAccepted(c: Call, db: Db)
    requires c.request.ListPostsRequest?
    ensures var f := c.request.filter;
            f.status.Some? && f.status.value !in {"draft", "published", "archived"} ==>
              Atomic(c, db) == (db, InternalError(PgError(INVALID_TEXT_REPRESENTATION)))
    ensures Atomic(c, db).1.status == 200 ==> IsFilter(c.request.filter)
  {
    if !IsFilter(c.request.filter) {
      assert Finish(c, Start, db) == Finish(c, Step(c, Start, db).1, db);
    }
  }

  /** A status of the enum, and a page in range: a 200. */
  lemma EnumAccepted(c: Call, db: Db)
    requires c.request.ListPostsRequest? && InRange(c.request.page, c.request.perPage)
    requires c.request.filter.status.Some? ==> c.request.filter.status.value in {"draft", "published", "archived"}
    ensures Atomic(c, db).1.status == 200
  {
    PostsPageSteps(c, db);
    KeptWindow(c.request.page, c.request.perPage);
  }

  /** Stored comments on the post, the oldest first. */
  ghost predicate ShowsComments(shown: seq<ApiComment>, postId: Uuid, db: Db) {
    && (forall i | 0 <= i < |shown| :: IsStoredComment(shown[i], db) && shown[i].postId == postId)
    && (forall i, j | 0 <= i < j < |shown| :: shown[i].createdAt <= shown[j].createdAt)
  }

  /** Any page of comments. */
  lemma CommentsPageShows(c: Call, db: Db)
    requires Integrity(db) && c.request.ListCommentsRequest? && Atomic(c, db).1.status == 200
    ensures Atomic(c, db).1.body.CommentsBody?
    ensures ShowsComments(Atomic(c, db).1.body.comments, c.request.postId, db)
  {
    var id, w := c.request.postId, WindowOf(c.request.page, c.request.perPage);
    assert Finish(c, Start, db) == Finish(c, Step(c, Start, db).1, db);
    CommentsPageSteps(c, db);
    var rows := Select(db.comments, With(CommentPost, id));
    assert Preorder(OldestComment);
    WindowSorted(rows, OldestComment, w.limit, w.offset);
    CommentsShown(Statements.ListComments(db, id, w.limit, w.offset).value, id, db);
  }

  lemma CommentsShown(page: seq<Comment>, id: Uuid, db: Db)
    requires Ordered(page, OldestComment) && forall m | m in page :: m in Select(db.comments, With(CommentPost, id))
    ensures ShowsComments(ToApiComments(page), id, db)
  {
    var shown := ToApiComments(page);
    forall i | 0 <= i < |shown|
      ensures IsStoredComment(shown[i], db) && shown[i].postId == id
    {
      assert page[i] in page;
      SelectHas(db.comments, With(CommentPost, id), page[i]);
      assert CommentPost(page[i]) == id;
      assert ShowsComment(shown[i], page[i]);
    }
    assert forall i, j | 0 <= i < j < |page| :: OldestComment(page[i], page[j]);
  }
}
