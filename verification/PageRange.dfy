/** Every page of a list, whatever its number and size: the page asked for, a refusal, or some other
    page, as 32 bits keep the offset. */
module PageRange {
  import opened Tables
  import opened Schema
  import opened Statements
  import opened Pagination
  import opened Api
  import opened Handlers
  import opened Joins
  import opened Sorting
  import opened Paging

  /** The rows of a page that starts at `offset`. */
  function Slice<T>(all: seq<T>, limit: nat, offset: nat): seq<T> {
    all[Least(offset, |all|)..Least(offset + limit, |all|)]
  }

  lemma SliceStart<T>(all: seq<T>, limit: nat, offset: nat)
    requires limit > 0
    ensures if offset < |all| then Slice(all, limit, offset) != [] && Slice(all, limit, offset)[0] == all[offset]
            else Slice(all, limit, offset) == []
  {
  }

  lemma {:induction false} OnceCounted<T, K>(b: seq<T>, key: T -> K, x: T)
    requires Unique(b, key)
    ensures multiset(b)[x] <= 1
  {
    if b != [] {
      var n := |b| - 1;
      OnceCounted(b[..n], key, x);
      assert b == b[..n] + [b[n]];
      assert forall i | 0 <= i < n :: key(b[i]) != key(b[n]);
    }
  }

  lemma TwiceCounted<T>(a: seq<T>, i: nat, j: nat)
    requires i < j < |a| && a[i] == a[j]
    ensures multiset(a)[a[i]] >= 2
  {
    assert a == a[..j] + a[j..];
    assert a[i] in multiset(a[..j]) by {
      assert a[..j][i] == a[i];
    }
    assert a[j] in multiset(a[j..]) by {
      assert a[j..][0] == a[j];
    }
  }

  lemma PermutationUnique<T, K>(a: seq<T>, b: seq<T>, key: T -> K)
    requires multiset(a) == multiset(b) && Unique(b, key)
    ensures Unique(a, key)
  {
    forall i, j | 0 <= i < j < |a|
      ensures key(a[i]) != key(a[j])
    {
      assert a[i] in multiset(b) && a[j] in multiset(b);
      OneRowPerKey(b, key, a[i]);
      if a[i] == a[j] {
        TwiceCounted(a, i, j);
        OnceCounted(b, key, a[i]);
      }
    }
  }

  /** What a list answers: a page from the kept offset, or the database's refusal. */
  function Kept(page: Option<Int32>, perPage: Option<Int32>, from: nat -> Response): Response {
    if KeptOffset(page, perPage) <= MAX_INT32 then from(KeptOffset(page, perPage))
    else InternalError(PgError(INVALID_OFFSET))
  }

  /** Pages that start at different offsets agree only when both lie past the end. */
  ghost predicate Distinct(from: nat -> Response, total: nat) {
    && (forall a: nat, b: nat | a != b :: from(a) == from(b) <==> total <= a && total <= b)
    && (forall a: nat :: from(a).status == 200)
  }

  /** A page is the one asked for exactly in range, or when the kept offset, read as not negative, lies
      past the end like the one asked for. */
  lemma RightPage(page: Option<Int32>, perPage: Option<Int32>, from: nat -> Response, total: nat)
    requires Distinct(from, total)
    ensures Kept(page, perPage, from) == from(TrueOffset(page, perPage)) <==>
              InRange(page, perPage) || total <= KeptOffset(page, perPage) <= MAX_INT32
  {
    KeptWindow(page, perPage);
    assert from(TrueOffset(page, perPage)).status == 200;
    KeptBelow(TrueOffset(page, perPage));
  }

  /** The rows the database gives for a page: those from the kept offset on, or none for a negative one. */
  lemma KeptRows<T>(all: seq<T>, page: Option<Int32>, perPage: Option<Int32>)
    ensures var w, kept := WindowOf(page, perPage), KeptOffset(page, perPage);
            && w.page == EffectivePage(page) && w.limit == w.perPage == EffectivePerPage(perPage)
            && Window(all, w.limit, w.offset) == if kept <= MAX_INT32 then Success(Slice(all, w.limit, kept))
                                                 else Failure(PgError(INVALID_OFFSET))
  {
    KeptWindow(page, perPage);
    if KeptOffset(page, perPage) <= MAX_INT32 {
      WindowIsSlice(all, EffectivePerPage(perPage), KeptOffset(page, perPage));
    }
  }

  lemma KeptBelow(x: nat)
    ensures x % 0x1_0000_0000 <= x
  {
  }

  // ---- posts ------------------------------------------------------------------

  /** The posts page of the list from `offset` on. */
  function PostsFrom(c: Call, db: Db): nat -> Response
    requires c.request.ListPostsRequest?
  {
    var n, all := EffectivePerPage(c.request.perPage), MatchingPosts(db, c.request.filter);
    var meta := Meta(|all|, EffectivePage(c.request.page), n);
    (offset: nat) => Response(200, PostsBody(ApiPosts(db, Slice(all, n, offset)), meta))
  }

  lemma PostsDistinct(c: Call, db: Db)
    requires Integrity(db) && c.request.ListPostsRequest?
    ensures Distinct(PostsFrom(c, db), |MatchingPosts(db, c.request.filter)|)
  {
    var n, all := EffectivePerPage(c.request.perPage), MatchingPosts(db, c.request.filter);
    var rows := Select(db.posts, Matches(c.request.filter));
    SelectUnique(db.posts, Matches(c.request.filter), PostId);
    OrderByKeeps(rows, NewestPost);
    PermutationUnique(all, rows, PostId);
    forall a: nat, b: nat | a != b
      ensures PostsFrom(c, db)(a) == PostsFrom(c, db)(b) <==> |all| <= a && |all| <= b
    {
      SliceStart(all, n, a);
      SliceStart(all, n, b);
      PostsDiffer(db, all, Slice(all, n, a), Slice(all, n, b));
      assert a < |all| && b < |all| ==> PostId(all[a]) != PostId(all[b]);
    }
  }

  lemma PostsDiffer(db: Db, all: seq<Post>, rows: seq<Post>, rows': seq<Post>)
    ensures |rows| == 0 == |rows'| ==> ApiPosts(db, rows) == ApiPosts(db, rows')
    ensures |rows| != |rows'| ==> ApiPosts(db, rows) != ApiPosts(db, rows')
    ensures |rows| > 0 && |rows'| > 0 && rows[0].id != rows'[0].id ==> ApiPosts(db, rows) != ApiPosts(db, rows')
  {
    assert |ApiPosts(db, rows)| == |rows| && |ApiPosts(db, rows')| == |rows'|;
    assert |rows| > 0 ==> ApiPosts(db, rows)[0].id == rows[0].id;
    assert |rows'| > 0 ==> ApiPosts(db, rows')[0].id == rows'[0].id;
  }

  /** GET /v1/posts, every page number and size: in range it is the page asked for; past the range it is
      a 500 when the kept offset reads as negative, and otherwise the page from the kept offset on,
      wherever that is. So it is right exactly in range, or when the kept offset, not being
      negative, also lies past every matching post. */
  lemma EveryPostsPage(c: Call, db: Db)
    requires Integrity(db) && c.request.ListPostsRequest? && IsFilter(c.request.filter)
    ensures var page, perPage := c.request.page, c.request.perPage; var total := |MatchingPosts(db, c.request.filter)|;
            && Atomic(c, db) == (db, Kept(page, perPage, PostsFrom(c, db)))
            && (InRange(page, perPage) ==> Atomic(c, db).1 == PostsFrom(c, db)(TrueOffset(page, perPage)))
            && (Atomic(c, db).1 == PostsFrom(c, db)(TrueOffset(page, perPage)) <==>
                  InRange(page, perPage) || total <= KeptOffset(page, perPage) <= MAX_INT32)
  {
    PostsPageKept(c, db);
    PostsDistinct(c, db);
    RightPage(c.request.page, c.request.perPage, PostsFrom(c, db), |MatchingPosts(db, c.request.filter)|);
  }

  lemma PostsPageKept(c: Call, db: Db)
    requires c.request.ListPostsRequest? && IsFilter(c.request.filter)
    ensures Atomic(c, db) == (db, Kept(c.request.page, c.request.perPage, PostsFrom(c, db)))
  {
    PostsPageSteps(c, db);
    KeptRows(MatchingPosts(db, c.request.filter), c.request.page, c.request.perPage);
    OrderByKeeps(Select(db.posts, Matches(c.request.filter)), NewestPost);
  }

  /** Page 1073741825 of four posts each: 32 bits keep an offset of 0, so it is answered with the posts of
      page 1. */
  lemma FarPageIsFirst(c: Call, f: PostFilter, db: Db)
    requires Integrity(db) && IsFilter(f)
    ensures var far := c.(request := ListPostsRequest(f, Some(1073741825), Some(4)));
            var first := c.(request := ListPostsRequest(f, Some(1), Some(4)));
            var r, r1 := Atomic(far, db).1, Atomic(first, db).1;
            && r.status == 200 && r.body.PostsBody? && r1.body.PostsBody? && r.body.posts == r1.body.posts
            && r.body.meta == Meta(|MatchingPosts(db, f)|, 1073741825, 4)
            && (r == PostsFrom(far, db)(TrueOffset(Some(1073741825), Some(4))) <==> MatchingPosts(db, f) == [])
  {
    var far := c.(request := ListPostsRequest(f, Some(1073741825), Some(4)));
    assert KeptOffset(Some(1073741825), Some(4)) == 0 == KeptOffset(Some(1), Some(4));
    assert !InRange(Some(1073741825), Some(4));
    EveryPostsPage(far, db);
    EveryPostsPage(c.(request := ListPostsRequest(f, Some(1), Some(4))), db);
  }

  // ---- users ------------------------------------------------------------------

  function UsersFrom(c: Call, db: Db): nat -> Response
    requires c.request.ListUsersRequest?
  {
    var n, all := EffectivePerPage(c.request.perPage), JoinedUsers(db);
    var meta := Meta(CountUsers(db), EffectivePage(c.request.page), n);
    (offset: nat) => Response(200, UsersBody(ToApiUsers(Slice(all, n, offset)), meta))
  }

  function RowUserId(row: (User, Role)): Uuid { row.0.id }

  lemma UsersDistinct(c: Call, db: Db)
    requires Integrity(db) && c.request.ListUsersRequest?
    ensures Distinct(UsersFrom(c, db), CountUsers(db))
  {
    var n, all, rows := EffectivePerPage(c.request.perPage), JoinedUsers(db), JoinRoles(db.users, db.roles);
    JoinTotal(db.users, db.roles);
    assert Unique(rows, RowUserId) by {
      forall i, j | 0 <= i < j < |rows|
        ensures RowUserId(rows[i]) != RowUserId(rows[j])
      {
        assert Joined(rows[i], db.users[i], db.roles) && Joined(rows[j], db.users[j], db.roles);
        assert UserId(db.users[i]) != UserId(db.users[j]);
      }
    }
    OrderByKeeps(rows, NewestUser);
    PermutationUnique(all, rows, RowUserId);
    forall a: nat, b: nat | a != b
      ensures UsersFrom(c, db)(a) == UsersFrom(c, db)(b) <==> |all| <= a && |all| <= b
    {
      SliceStart(all, n, a);
      SliceStart(all, n, b);
      UsersDiffer(Slice(all, n, a), Slice(all, n, b));
      assert a < |all| && b < |all| ==> RowUserId(all[a]) != RowUserId(all[b]);
    }
  }

  lemma UsersDiffer(rows: seq<(User, Role)>, rows': seq<(User, Role)>)
    ensures |rows| == 0 == |rows'| ==> ToApiUsers(rows) == ToApiUsers(rows')
    ensures |rows| != |rows'| ==> ToApiUsers(rows) != ToApiUsers(rows')
    ensures |rows| > 0 && |rows'| > 0 && rows[0].0.id != rows'[0].0.id ==> ToApiUsers(rows) != ToApiUsers(rows')
  {
    assert |ToApiUsers(rows)| == |rows| && |ToApiUsers(rows')| == |rows'|;
    assert |rows| > 0 ==> ToApiUsers(rows)[0].id == rows[0].0.id;
    assert |rows'| > 0 ==> ToApiUsers(rows')[0].id == rows'[0].0.id;
  }

  /** GET /v1/users, every page number and size: the same. */
  lemma EveryUsersPage(c: Call, db: Db)
    requires Integrity(db) && c.request.ListUsersRequest?
    ensures var page, perPage := c.request.page, c.request.perPage;
            && Atomic(c, db) == (db, Kept(page, perPage, UsersFrom(c, db)))
            && (InRange(page, perPage) ==> Atomic(c, db).1 == UsersFrom(c, db)(TrueOffset(page, perPage)))
            && (Atomic(c, db).1 == UsersFrom(c, db)(TrueOffset(page, perPage)) <==>
                  InRange(page, perPage) || CountUsers(db) <= KeptOffset(page, perPage) <= MAX_INT32)
  {
    UsersPageKept(c, db);
    UsersDistinct(c, db);
    RightPage(c.request.page, c.request.perPage, UsersFrom(c, db), CountUsers(db));
  }

  lemma UsersPageKept(c: Call, db: Db)
    requires c.request.ListUsersRequest?
    ensures Atomic(c, db) == (db, Kept(c.request.page, c.request.perPage, UsersFrom(c, db)))
  {
    UsersPageSteps(c, db);
    KeptRows(JoinedUsers(db), c.request.page, c.request.perPage);
  }

  // ---- comments ---------------------------------------------------------------

  function CommentsFrom(c: Call, db: Db): nat -> Response
    requires c.request.ListCommentsRequest?
  {
    var n, all := EffectivePerPage(c.request.perPage), PostComments(db, c.request.postId);
    var meta := Meta(|all|, EffectivePage(c.request.page), n);
    (offset: nat) => Response(200, CommentsBody(ToApiComments(Slice(all, n, offset)), meta))
  }

  lemma CommentsDistinct(c: Call, db: Db)
    requires Integrity(db) && c.request.ListCommentsRequest?
    ensures Distinct(CommentsFrom(c, db), |PostComments(db, c.request.postId)|)
  {
    var n, all := EffectivePerPage(c.request.perPage), PostComments(db, c.request.postId);
    var rows := Select(db.comments, With(CommentPost, c.request.postId));
    SelectUnique(db.comments, With(CommentPost, c.request.postId), CommentId);
    OrderByKeeps(rows, OldestComment);
    PermutationUnique(all, rows, CommentId);
    forall a: nat, b: nat | a != b
      ensures CommentsFrom(c, db)(a) == CommentsFrom(c, db)(b) <==> |all| <= a && |all| <= b
    {
      SliceStart(all, n, a);
      SliceStart(all, n, b);
      CommentsDiffer(Slice(all, n, a), Slice(all, n, b));
      assert a < |all| && b < |all| ==> CommentId(all[a]) != CommentId(all[b]);
    }
  }

  lemma CommentsDiffer(rows: seq<Comment>, rows': seq<Comment>)
    ensures |rows| == 0 == |rows'| ==> ToApiComments(rows) == ToApiComments(rows')
    ensures |rows| != |rows'| ==> ToApiComments(rows) != ToApiComments(rows')
    ensures |rows| > 0 && |rows'| > 0 && rows[0].id != rows'[0].id ==> ToApiComments(rows) != ToApiComments(rows')
  {
    assert |ToApiComments(rows)| == |rows| && |ToApiComments(rows')| == |rows'|;
    assert |rows| > 0 ==> ToApiComments(rows)[0].id == rows[0].id;
    assert |rows'| > 0 ==> ToApiComments(rows')[0].id == rows'[0].id;
  }

  /** GET /v1/posts/{id}/comments, every page number and size, of a post that is there: the same. */
  lemma EveryCommentsPage(c: Call, db: Db)
    requires Integrity(db) && c.request.ListCommentsRequest? && c.request.postId in KeysOf(db.posts, PostId)
    ensures var page, perPage := c.request.page, c.request.perPage; var total := |PostComments(db, c.request.postId)|;
            && Atomic(c, db) == (db, Kept(page, perPage, CommentsFrom(c, db)))
            && (InRange(page, perPage) ==> Atomic(c, db).1 == CommentsFrom(c, db)(TrueOffset(page, perPage)))
            && (Atomic(c, db).1 == CommentsFrom(c, db)(TrueOffset(page, perPage)) <==>
                  InRange(page, perPage) || total <= KeptOffset(page, perPage) <= MAX_INT32)
  {
    Lookup(db.posts, PostId, c.request.postId);
    CommentsPageKept(c, db);
    CommentsDistinct(c, db);
    RightPage(c.request.page, c.request.perPage, CommentsFrom(c, db), |PostComments(db, c.request.postId)|);
  }

  lemma CommentsPageKept(c: Call, db: Db)
    requires c.request.ListCommentsRequest? && Statements.GetPost(db, c.request.postId).Success?
    ensures Atomic(c, db) == (db, Kept(c.request.page, c.request.perPage, CommentsFrom(c, db)))
  {
    CommentsPageSteps(c, db);
    KeptRows(PostComments(db, c.request.postId), c.request.page, c.request.perPage);
    OrderByKeeps(Select(db.comments, With(CommentPost, c.request.postId)), OldestComment);
  }
}
