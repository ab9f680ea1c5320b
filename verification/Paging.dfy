/** The pages of a list endpoint, over a store that does not change between them. */
module Paging {
  import opened Tables
  import opened Schema
  import opened Statements
  import opened Pagination
  import opened Api
  import opened Handlers
  import opened Joins
  import opened Sorting

  /** Page numbers whose offset fits in 32 bits. */
  predicate Fitting(page: Int32, perPage: Option<Int32>) {
    page >= 1 && InRange(Some(page), perPage)
  }

  /** How many rows the first `pages` pages hold at most, added up page by page: their product. */
  function Rows(pages: nat, perPage: nat): nat {
    if pages == 0 then 0 else Rows(pages - 1, perPage) + perPage
  }

  lemma {:induction false} RowsProduct(pages: nat, perPage: nat)
    ensures Rows(pages, perPage) == pages * perPage
  {
    if pages > 0 {
      RowsProduct(pages - 1, perPage);
    }
  }

  lemma FittingBelow(page: Int32, perPage: Option<Int32>)
    requires Fitting(page, perPage) && page > 1
    ensures Fitting(page - 1, perPage)
  {
  }

  lemma FittingWindow(page: Int32, perPage: Option<Int32>)
    requires Fitting(page, perPage)
    ensures var w := WindowOf(Some(page), perPage);
            && w.limit == w.perPage == EffectivePerPage(perPage) && w.page == page
            && w.offset == Rows(page - 1, EffectivePerPage(perPage))
  {
    OffsetExact(Some(page), perPage);
    RowsProduct(page - 1, EffectivePerPage(perPage));
  }

  // ---- posts ------------------------------------------------------------------

  function PostsPage(c: Call, f: PostFilter, page: Int32, perPage: Option<Int32>): Call {
    c.(request := ListPostsRequest(f, Some(page), perPage))
  }

  /** The posts a filter selects, newest first. */
  function MatchingPosts(db: Db, f: PostFilter): seq<Post> {
    OrderBy(Select(db.posts, Matches(f)), NewestPost)
  }

  function ApiPosts(db: Db, posts: seq<Post>): seq<ApiPost> {
    ToApiPosts(WithCounts(db, posts))
  }

  lemma PostsPageSteps(d: Call, db: Db)
    requires d.request.ListPostsRequest? && IsFilter(d.request.filter)
    ensures var w := WindowOf(d.request.page, d.request.perPage); var f := d.request.filter;
            var rows := Statements.ListPosts(db, f, w.limit, w.offset);
            var meta := Meta(|Select(db.posts, Matches(f))|, w.page, w.perPage);
            Atomic(d, db) == (db, if rows.Failure? then InternalError(rows.error)
                                  else Response(200, PostsBody(ToApiPosts(rows.value), meta)))
  {
    var pc := Step(d, Start, db).1;
    assert Finish(d, Start, db) == Finish(d, pc, db);
    if pc.PostsRead? {
      assert Finish(d, pc, db) == Finish(d, Step(d, pc, db).1, db);
    }
  }

  lemma PostsPageAnswer(c: Call, f: PostFilter, page: Int32, perPage: Option<Int32>, db: Db)
    requires IsFilter(f) && Fitting(page, perPage)
    ensures var n := EffectivePerPage(perPage); var all := MatchingPosts(db, f);
            var lo, hi := Least(Rows(page - 1, n), |all|), Least(Rows(page, n), |all|);
            var meta := Meta(|Select(db.posts, Matches(f))|, page, n);
            && lo <= hi
            && Atomic(PostsPage(c, f, page, perPage), db)
               == (db, Response(200, PostsBody(ApiPosts(db, all[lo..hi]), meta)))
  {
    var n := EffectivePerPage(perPage);
    FittingWindow(page, perPage);
    WindowIsSlice(MatchingPosts(db, f), n, Rows(page - 1, n));
    PostsPageSteps(PostsPage(c, f, page, perPage), db);
  }

  /** The posts of pages 1 to m, one after the other. */
  function PostsUpTo(c: Call, f: PostFilter, m: Int32, perPage: Option<Int32>, db: Db): seq<ApiPost>
    requires m >= 0
    decreases m
  {
    if m == 0 then []
    else
      var r := Atomic(PostsPage(c, f, m, perPage), db).1;
      PostsUpTo(c, f, m - 1, perPage, db) + (if r.body.PostsBody? then r.body.posts else [])
  }

  lemma PostsUpToStep(c: Call, f: PostFilter, m: Int32, perPage: Option<Int32>, db: Db)
    requires IsFilter(f) && m > 0 && Fitting(m, perPage)
    ensures var all := MatchingPosts(db, f); var n := EffectivePerPage(perPage);
            var lo, hi := Least(Rows(m - 1, n), |all|), Least(Rows(m, n), |all|);
            && lo <= hi
            && PostsUpTo(c, f, m, perPage, db) == PostsUpTo(c, f, m - 1, perPage, db) + ApiPosts(db, all[lo..hi])
  {
    PostsPageAnswer(c, f, m, perPage, db);
  }

  lemma PostsJoin(db: Db, all: seq<Post>, lo: nat, hi: nat)
    requires lo <= hi <= |all|
    ensures ApiPosts(db, all[..lo]) + ApiPosts(db, all[lo..hi]) == ApiPosts(db, all[..hi])
  {
  }

  lemma PostsUpToNext(c: Call, f: PostFilter, m: Int32, perPage: Option<Int32>, db: Db)
    requires IsFilter(f) && m > 0 && Fitting(m, perPage)
    requires var all := MatchingPosts(db, f);
             PostsUpTo(c, f, m - 1, perPage, db)
             == ApiPosts(db, all[..Least(Rows(m - 1, EffectivePerPage(perPage)), |all|)])
    ensures var all := MatchingPosts(db, f);
            PostsUpTo(c, f, m, perPage, db) == ApiPosts(db, all[..Least(Rows(m, EffectivePerPage(perPage)), |all|)])
  {
    var all, n := MatchingPosts(db, f), EffectivePerPage(perPage);
    PostsUpToStep(c, f, m, perPage, db);
    PostsJoin(db, all, Least(Rows(m - 1, n), |all|), Least(Rows(m, n), |all|));
  }

  lemma {:induction false} PostsUpToPrefix(c: Call, f: PostFilter, m: Int32, perPage: Option<Int32>, db: Db)
    requires IsFilter(f) && m >= 0 && (m > 0 ==> Fitting(m, perPage))
    ensures var all := MatchingPosts(db, f);
            PostsUpTo(c, f, m, perPage, db) == ApiPosts(db, all[..Least(Rows(m, EffectivePerPage(perPage)), |all|)])
    decreases m
  {
    if m > 0 {
      if m > 1 {
        FittingBelow(m, perPage);
      }
      PostsUpToPrefix(c, f, m - 1, perPage, db);
      PostsUpToNext(c, f, m, perPage, db);
    }
  }

  lemma NewestPostPreorder()
    ensures Preorder(NewestPost)
  {
  }

  /** ListPosts pages partition the result: for any filter and page size, pages 1 to m that together
      hold `total` rows give every matching post exactly once, newest first, each with its comment
      count. */
  lemma PostPagesPartition(c: Call, f: PostFilter, m: Int32, perPage: Option<Int32>, db: Db)
    requires IsFilter(f) && Fitting(m, perPage)
    requires |Select(db.posts, Matches(f))| <= Rows(m, EffectivePerPage(perPage))
    ensures var all := MatchingPosts(db, f);
            && PostsUpTo(c, f, m, perPage, db) == ApiPosts(db, all)
            && multiset(all) == multiset(Select(db.posts, Matches(f))) && Ordered(all, NewestPost)
            && (forall p :: p in all <==>
                  && p in db.posts
                  && (f.status.Some? ==> p.status == f.status.value)
                  && (f.tag.Some? ==> f.tag.value in p.tags)
                  && (f.category.Some? ==> f.category.value in p.categories))
            && |PostsUpTo(c, f, m, perPage, db)| == |Select(db.posts, Matches(f))|
    ensures var shown := PostsUpTo(c, f, m, perPage, db);
            forall i, j | 0 <= i < j < |shown| :: shown[i].createdAt >= shown[j].createdAt
  {
    var all := MatchingPosts(db, f);
    OrderByKeeps(Select(db.posts, Matches(f)), NewestPost);
    NewestPostPreorder();
    OrderByOrdered(Select(db.posts, Matches(f)), NewestPost);
    PostsUpToPrefix(c, f, m, perPage, db);
    assert all[..|all|] == all;
    SameMembers(all, Select(db.posts, Matches(f)));
    SelectMembers(db.posts, Matches(f));
    PostsDescend(db, all);
  }

  lemma PostsDescend(db: Db, all: seq<Post>)
    requires Ordered(all, NewestPost)
    ensures forall i, j | 0 <= i < j < |all| :: ApiPosts(db, all)[i].createdAt >= ApiPosts(db, all)[j].createdAt
  {
    assert forall i, j | 0 <= i < j < |all| :: NewestPost(all[i], all[j]);
  }

  /** Every page reports the same total, the number of matching posts; pages past it are empty. */
  lemma PostPageTotal(c: Call, f: PostFilter, page: Int32, perPage: Option<Int32>, db: Db)
    requires IsFilter(f) && Fitting(page, perPage)
    ensures var total := |Select(db.posts, Matches(f))|; var n := EffectivePerPage(perPage);
            var r := Atomic(PostsPage(c, f, page, perPage), db).1;
            && r.status == 200 && r.body.PostsBody? && r.body.meta == Meta(total, page, n) && |r.body.posts| <= n
            && (r.body.posts == [] <==> total <= Rows(page - 1, n))
  {
    var n := EffectivePerPage(perPage);
    PostsPageAnswer(c, f, page, perPage, db);
    OrderByKeeps(Select(db.posts, Matches(f)), NewestPost);
    assert Rows(page, n) == Rows(page - 1, n) + n;
  }

  // ---- users ------------------------------------------------------------------

  function UsersPage(c: Call, page: Int32, perPage: Option<Int32>): Call {
    c.(request := ListUsersRequest(Some(page), perPage))
  }

  function JoinedUsers(db: Db): seq<(User, Role)> {
    OrderBy(JoinRoles(db.users, db.roles), NewestUser)
  }

  function UsersUpTo(c: Call, m: Int32, perPage: Option<Int32>, db: Db): seq<ApiUser>
    requires m >= 0
    decreases m
  {
    if m == 0 then []
    else
      var r := Atomic(UsersPage(c, m, perPage), db).1;
      UsersUpTo(c, m - 1, perPage, db) + (if r.body.UsersBody? then r.body.users else [])
  }

  lemma UsersPageSteps(d: Call, db: Db)
    requires d.request.ListUsersRequest?
    ensures var w := WindowOf(d.request.page, d.request.perPage);
            var rows := Statements.ListUsers(db, w.limit, w.offset);
            var meta := Meta(CountUsers(db), w.page, w.perPage);
            Atomic(d, db) == (db, if rows.Failure? then InternalError(rows.error)
                                  else Response(200, UsersBody(ToApiUsers(rows.value), meta)))
  {
    var pc := Step(d, Start, db).1;
    assert Finish(d, Start, db) == Finish(d, pc, db);
    if pc.UsersRead? {
      assert Finish(d, pc, db) == Finish(d, Step(d, pc, db).1, db);
    }
  }

  lemma UsersPageAnswer(c: Call, page: Int32, perPage: Option<Int32>, db: Db)
    requires Fitting(page, perPage)
    ensures var n := EffectivePerPage(perPage); var all := JoinedUsers(db);
            var lo, hi := Least(Rows(page - 1, n), |all|), Least(Rows(page, n), |all|);
            && lo <= hi
            && Atomic(UsersPage(c, page, perPage), db)
               == (db, Response(200, UsersBody(ToApiUsers(all[lo..hi]), Meta(CountUsers(db), page, n))))
  {
    var n := EffectivePerPage(perPage);
    FittingWindow(page, perPage);
    WindowIsSlice(JoinedUsers(db), n, Rows(page - 1, n));
    UsersPageSteps(UsersPage(c, page, perPage), db);
  }

  lemma UsersUpToStep(c: Call, m: Int32, perPage: Option<Int32>, db: Db)
    requires m > 0 && Fitting(m, perPage)
    ensures var all := JoinedUsers(db); var n := EffectivePerPage(perPage);
            var lo, hi := Least(Rows(m - 1, n), |all|), Least(Rows(m, n), |all|);
            && lo <= hi
            && UsersUpTo(c, m, perPage, db) == UsersUpTo(c, m - 1, perPage, db) + ToApiUsers(all[lo..hi])
  {
    UsersPageAnswer(c, m, perPage, db);
  }

  lemma UsersJoin(all: seq<(User, Role)>, lo: nat, hi: nat)
    requires lo <= hi <= |all|
    ensures ToApiUsers(all[..lo]) + ToApiUsers(all[lo..hi]) == ToApiUsers(all[..hi])
  {
  }

  lemma UsersUpToNext(c: Call, m: Int32, perPage: Option<Int32>, db: Db)
    requires m > 0 && Fitting(m, perPage)
    requires var all := JoinedUsers(db);
             UsersUpTo(c, m - 1, perPage, db) == ToApiUsers(all[..Least(Rows(m - 1, EffectivePerPage(perPage)), |all|)])
    ensures var all := JoinedUsers(db);
            UsersUpTo(c, m, perPage, db) == ToApiUsers(all[..Least(Rows(m, EffectivePerPage(perPage)), |all|)])
  {
    var all, n := JoinedUsers(db), EffectivePerPage(perPage);
    UsersUpToStep(c, m, perPage, db);
    UsersJoin(all, Least(Rows(m - 1, n), |all|), Least(Rows(m, n), |all|));
  }

  lemma {:induction false} UsersUpToPrefix(c: Call, m: Int32, perPage: Option<Int32>, db: Db)
    requires m >= 0 && (m > 0 ==> Fitting(m, perPage))
    ensures var all := JoinedUsers(db);
            UsersUpTo(c, m, perPage, db) == ToApiUsers(all[..Least(Rows(m, EffectivePerPage(perPage)), |all|)])
    decreases m
  {
    if m > 0 {
      if m > 1 {
        FittingBelow(m, perPage);
      }
      UsersUpToPrefix(c, m - 1, perPage, db);
      UsersUpToNext(c, m, perPage, db);
    }
  }

  /** ListUsers joins with roles and CountUsers does not, yet they agree: pages that hold `total` rows
      give every user exactly once, newest first, each with its own role, `total` of them in all. */
  lemma UserPagesPartition(c: Call, m: Int32, perPage: Option<Int32>, db: Db)
    requires Integrity(db) && Fitting(m, perPage) && CountUsers(db) <= Rows(m, EffectivePerPage(perPage))
    ensures var rows, all := JoinRoles(db.users, db.roles), JoinedUsers(db);
            && UsersUpTo(c, m, perPage, db) == ToApiUsers(all)
            && multiset(all) == multiset(rows) && Ordered(all, NewestUser)
            && |UsersUpTo(c, m, perPage, db)| == CountUsers(db) == |rows|
            && (forall i | 0 <= i < |rows| :: Joined(rows[i], db.users[i], db.roles))
    ensures var shown := UsersUpTo(c, m, perPage, db);
            forall i, j | 0 <= i < j < |shown| :: shown[i].createdAt >= shown[j].createdAt
  {
    JoinTotal(db.users, db.roles);
    UsersUpToAll(c, m, perPage, db);
    UsersDescend(JoinedUsers(db));
  }

  lemma UsersDescend(all: seq<(User, Role)>)
    requires Ordered(all, NewestUser)
    ensures forall i, j | 0 <= i < j < |all| :: ToApiUsers(all)[i].createdAt >= ToApiUsers(all)[j].createdAt
  {
    assert forall i, j | 0 <= i < j < |all| :: NewestUser(all[i], all[j]);
  }

  lemma UsersUpToAll(c: Call, m: Int32, perPage: Option<Int32>, db: Db)
    requires Fitting(m, perPage) && |JoinRoles(db.users, db.roles)| <= Rows(m, EffectivePerPage(perPage))
    ensures var rows, all := JoinRoles(db.users, db.roles), JoinedUsers(db);
            && UsersUpTo(c, m, perPage, db) == ToApiUsers(all)
            && multiset(all) == multiset(rows) && Ordered(all, NewestUser) && |all| == |rows|
  {
    var rows, all := JoinRoles(db.users, db.roles), JoinedUsers(db);
    OrderByKeeps(rows, NewestUser);
    assert Preorder(NewestUser);
    OrderByOrdered(rows, NewestUser);
    UsersUpToPrefix(c, m, perPage, db);
    assert all[..|all|] == all;
  }

  // ---- comments ---------------------------------------------------------------

  function CommentsPage(c: Call, postId: Uuid, page: Int32, perPage: Option<Int32>): Call {
    c.(request := ListCommentsRequest(postId, Some(page), perPage))
  }

  function PostComments(db: Db, postId: Uuid): seq<Comment> {
    OrderBy(Select(db.comments, With(CommentPost, postId)), OldestComment)
  }

  function CommentsUpTo(c: Call, postId: Uuid, m: Int32, perPage: Option<Int32>, db: Db): seq<ApiComment>
    requires m >= 0
    decreases m
  {
    if m == 0 then []
    else
      var r := Atomic(CommentsPage(c, postId, m, perPage), db).1;
      CommentsUpTo(c, postId, m - 1, perPage, db) + (if r.body.CommentsBody? then r.body.comments else [])
  }

  lemma CommentsPageSteps(d: Call, db: Db)
    requires d.request.ListCommentsRequest? && Statements.GetPost(db, d.request.postId).Success?
    ensures var w := WindowOf(d.request.page, d.request.perPage); var postId := d.request.postId;
            var rows := Statements.ListComments(db, postId, w.limit, w.offset);
            Atomic(d, db) == (db, if rows.Failure? then InternalError(rows.error)
                                  else Response(200, CommentsBody(ToApiComments(rows.value),
                                                                  Meta(CountComments(db, postId), w.page, w.perPage))))
  {
    assert Finish(d, Start, db) == Finish(d, PostSeen, db);
    var pc := Step(d, PostSeen, db).1;
    assert Finish(d, PostSeen, db) == Finish(d, pc, db);
    if pc.CommentsRead? {
      assert Finish(d, pc, db) == Finish(d, Step(d, pc, db).1, db);
    }
  }

  lemma CommentsPageAnswer(c: Call, postId: Uuid, page: Int32, perPage: Option<Int32>, db: Db)
    requires Fitting(page, perPage) && Statements.GetPost(db, postId).Success?
    ensures var n := EffectivePerPage(perPage); var all := PostComments(db, postId);
            var lo, hi := Least(Rows(page - 1, n), |all|), Least(Rows(page, n), |all|);
            var meta := Meta(CountComments(db, postId), page, n);
            && lo <= hi
            && Atomic(CommentsPage(c, postId, page, perPage), db)
               == (db, Response(200, CommentsBody(ToApiComments(all[lo..hi]), meta)))
  {
    var n := EffectivePerPage(perPage);
    FittingWindow(page, perPage);
    WindowIsSlice(PostComments(db, postId), n, Rows(page - 1, n));
    CommentsPageSteps(CommentsPage(c, postId, page, perPage), db);
  }

  lemma CommentsUpToStep(c: Call, postId: Uuid, m: Int32, perPage: Option<Int32>, db: Db)
    requires Statements.GetPost(db, postId).Success? && m > 0 && Fitting(m, perPage)
    ensures var all := PostComments(db, postId); var n := EffectivePerPage(perPage);
            var lo, hi := Least(Rows(m - 1, n), |all|), Least(Rows(m, n), |all|);
            && lo <= hi
            && CommentsUpTo(c, postId, m, perPage, db)
               == CommentsUpTo(c, postId, m - 1, perPage, db) + ToApiComments(all[lo..hi])
  {
    CommentsPageAnswer(c, postId, m, perPage, db);
  }

  lemma CommentsJoin(all: seq<Comment>, lo: nat, hi: nat)
    requires lo <= hi <= |all|
    ensures ToApiComments(all[..lo]) + ToApiComments(all[lo..hi]) == ToApiComments(all[..hi])
  {
  }

  lemma CommentsUpToNext(c: Call, postId: Uuid, m: Int32, perPage: Option<Int32>, db: Db)
    requires Statements.GetPost(db, postId).Success? && m > 0 && Fitting(m, perPage)
    requires var all := PostComments(db, postId);
             CommentsUpTo(c, postId, m - 1, perPage, db)
             == ToApiComments(all[..Least(Rows(m - 1, EffectivePerPage(perPage)), |all|)])
    ensures var all := PostComments(db, postId);
            CommentsUpTo(c, postId, m, perPage, db)
            == ToApiComments(all[..Least(Rows(m, EffectivePerPage(perPage)), |all|)])
  {
    var all, n := PostComments(db, postId), EffectivePerPage(perPage);
    CommentsUpToStep(c, postId, m, perPage, db);
    CommentsJoin(all, Least(Rows(m - 1, n), |all|), Least(Rows(m, n), |all|));
  }

  lemma {:induction false} CommentsUpToPrefix(c: Call, postId: Uuid, m: Int32, perPage: Option<Int32>, db: Db)
    requires m >= 0 && (m > 0 ==> Fitting(m, perPage)) && Statements.GetPost(db, postId).Success?
    ensures var all := PostComments(db, postId);
            CommentsUpTo(c, postId, m, perPage, db)
              == ToApiComments(all[..Least(Rows(m, EffectivePerPage(perPage)), |all|)])
    decreases m
  {
    if m > 0 {
      if m > 1 {
        FittingBelow(m, perPage);
      }
      CommentsUpToPrefix(c, postId, m - 1, perPage, db);
      CommentsUpToNext(c, postId, m, perPage, db);
    }
  }

  /** The comment pages of a post give each of its comments exactly once, oldest first, and their
      combined length is the count the post reports. */
  lemma CommentPagesPartition(c: Call, postId: Uuid, m: Int32, perPage: Option<Int32>, db: Db)
    requires Fitting(m, perPage) && Statements.GetPost(db, postId).Success?
    requires CountComments(db, postId) <= Rows(m, EffectivePerPage(perPage))
    ensures var all := PostComments(db, postId);
            && CommentsUpTo(c, postId, m, perPage, db) == ToApiComments(all)
            && multiset(all) == multiset(Select(db.comments, With(CommentPost, postId))) && Ordered(all, OldestComment)
            && |CommentsUpTo(c, postId, m, perPage, db)| == CountComments(db, postId)
            && Statements.GetPost(db, postId).value.1 == CountComments(db, postId)
    ensures var shown := CommentsUpTo(c, postId, m, perPage, db);
            forall i, j | 0 <= i < j < |shown| :: shown[i].createdAt <= shown[j].createdAt
  {
    var rows, all := Select(db.comments, With(CommentPost, postId)), PostComments(db, postId);
    SelectHas(db.posts, With(PostId, postId), Statements.GetPost(db, postId).value.0);
    OrderByKeeps(rows, OldestComment);
    assert Preorder(OldestComment);
    OrderByOrdered(rows, OldestComment);
    CommentsUpToPrefix(c, postId, m, perPage, db);
    assert all[..|all|] == all;
    CommentsAscend(all);
  }

  lemma CommentsAscend(all: seq<Comment>)
    requires Ordered(all, OldestComment)
    ensures forall i, j | 0 <= i < j < |all| :: ToApiComments(all)[i].createdAt <= ToApiComments(all)[j].createdAt
  {
    assert forall i, j | 0 <= i < j < |all| :: OldestComment(all[i], all[j]);
  }
}
