/** A list answer put together from several reads, compared with the answers of single moments: of the
    count's read, of any store between the reads, of any store of the run. */
module ListMoments {
  import opened Tables
  import opened Schema
  import opened Statements
  import opened Pagination
  import opened Api
  import opened Handlers
  import opened Runs
  import opened Paging
  import opened ListReads

  // ---- users ------------------------------------------------------------------

  /** The rows of the page in this store. */
  function UsersRows(c: Call, db: Db): seq<ApiUser>
    requires c.request.ListUsersRequest?
  {
    var w := WindowOf(c.request.page, c.request.perPage);
    match Statements.ListUsers(db, w.limit, w.offset)
    case Success(rows) => ToApiUsers(rows)
    case Failure(_) => []
  }

  /** The store has the rows of the one and the count of the other. */
  ghost predicate UsersAgree(c: Call, db: Db, rows: Db, count: Db)
    requires c.request.ListUsersRequest?
  {
    UsersRows(c, db) == UsersRows(c, rows) && CountUsers(db) == CountUsers(count)
  }

  lemma UsersMoment(c: Call, rows: Db, count: Db, db: Db)
    requires c.request.ListUsersRequest? && WindowOf(c.request.page, c.request.perPage).offset >= 0
    ensures WithTotal(Atomic(c, rows).1, CountUsers(count)) == Atomic(c, db).1 <==> UsersAgree(c, db, rows, count)
  {
    UsersPageSteps(c, rows);
    UsersPageSteps(c, db);
  }

  /** GET /v1/users, in any interleaving: the answer is that of a moment of the run, whichever, if and only
      if the page's rows were then what they were at the first read and the count what it was at the
      second. So it is that of the second read if and only if the rows were the same at both, and it
      is that of some moment between the reads if and only if one of them had both. A refused
      offset is the answer of every moment. */
  lemma UsersPageMoments(calls: seq<Call>, db0: Db, sched: seq<nat>, i: nat)
    requires Schedule(calls, sched) && i < |calls| && calls[i].request.ListUsersRequest?
    requires Run(calls, db0, sched).pcs[i].Done?
    ensures var c, turns, r := calls[i], Turns(sched, i), Run(calls, db0, sched).pcs[i].response;
            if WindowOf(c.request.page, c.request.perPage).offset < 0
            then forall n | 0 <= n <= |sched| :: r == Atomic(c, StoreAt(calls, db0, sched, n)).1
            else
              && |turns| >= 2 && turns[0] < turns[1] < |sched|
              && var rows, count := StoreAt(calls, db0, sched, turns[0]), StoreAt(calls, db0, sched, turns[1]);
                 && (forall n | 0 <= n <= |sched| ::
                       r == Atomic(c, StoreAt(calls, db0, sched, n)).1 <==>
                         UsersAgree(c, StoreAt(calls, db0, sched, n), rows, count))
                 && (r == Atomic(c, count).1 <==> UsersRows(c, rows) == UsersRows(c, count))
                 && ((exists n | turns[0] <= n <= turns[1] :: r == Atomic(c, StoreAt(calls, db0, sched, n)).1) <==>
                       exists n | turns[0] <= n <= turns[1] ::
                         UsersAgree(c, StoreAt(calls, db0, sched, n), rows, count))
  {
    var c, turns, r := calls[i], Turns(sched, i), Run(calls, db0, sched).pcs[i].response;
    UsersPageExact(calls, db0, sched, i);
    TurnsRise(sched, i);
    TurnsSeen(calls, db0, sched, i);
    if WindowOf(c.request.page, c.request.perPage).offset < 0 {
      forall n | 0 <= n <= |sched|
        ensures r == Atomic(c, StoreAt(calls, db0, sched, n)).1
      {
        UsersPageSteps(c, StoreAt(calls, db0, sched, n));
        UsersPageSteps(c, Seen(calls, db0, sched, i)[0]);
      }
    } else {
      var rows, count := StoreAt(calls, db0, sched, turns[0]), StoreAt(calls, db0, sched, turns[1]);
      forall n | 0 <= n <= |sched|
        ensures r == Atomic(c, StoreAt(calls, db0, sched, n)).1 <==>
                  UsersAgree(c, StoreAt(calls, db0, sched, n), rows, count)
      {
        UsersMoment(c, rows, count, StoreAt(calls, db0, sched, n));
      }
    }
  }

  // ---- posts ------------------------------------------------------------------

  function PostsRows(c: Call, db: Db): seq<ApiPost>
    requires c.request.ListPostsRequest?
  {
    var w := WindowOf(c.request.page, c.request.perPage);
    match Statements.ListPosts(db, c.request.filter, w.limit, w.offset)
    case Success(rows) => ToApiPosts(rows)
    case Failure(_) => []
  }

  ghost predicate PostsAgree(c: Call, db: Db, rows: Db, count: Db)
    requires c.request.ListPostsRequest?
  {
    && PostsRows(c, db) == PostsRows(c, rows)
    && |Select(db.posts, Matches(c.request.filter))| == |Select(count.posts, Matches(c.request.filter))|
  }

  predicate PostsRefused(c: Call)
    requires c.request.ListPostsRequest?
  {
    !IsFilter(c.request.filter) || WindowOf(c.request.page, c.request.perPage).offset < 0
  }

  lemma PostsMoment(c: Call, rows: Db, count: Db, db: Db)
    requires c.request.ListPostsRequest? && !PostsRefused(c)
    ensures WithTotal(Atomic(c, rows).1, |Select(count.posts, Matches(c.request.filter))|) == Atomic(c, db).1
            <==> PostsAgree(c, db, rows, count)
  {
    PostsPageSteps(c, rows);
    PostsPageSteps(c, db);
  }

  lemma PostsRefusedAlike(c: Call, db: Db, db': Db)
    requires c.request.ListPostsRequest? && PostsRefused(c)
    ensures Atomic(c, db).1 == Atomic(c, db').1
  {
    if IsFilter(c.request.filter) {
      PostsPageSteps(c, db);
      PostsPageSteps(c, db');
    } else {
      BadFilterReads(c, db);
      BadFilterReads(c, db');
    }
  }

  /** GET /v1/posts: the same, with the posts the filter selects. */
  lemma PostsPageMoments(calls: seq<Call>, db0: Db, sched: seq<nat>, i: nat)
    requires Schedule(calls, sched) && i < |calls| && calls[i].request.ListPostsRequest?
    requires Run(calls, db0, sched).pcs[i].Done?
    ensures var c, turns, r := calls[i], Turns(sched, i), Run(calls, db0, sched).pcs[i].response;
            if PostsRefused(c)
            then forall n | 0 <= n <= |sched| :: r == Atomic(c, StoreAt(calls, db0, sched, n)).1
            else
              && |turns| >= 2 && turns[0] < turns[1] < |sched|
              && var rows, count := StoreAt(calls, db0, sched, turns[0]), StoreAt(calls, db0, sched, turns[1]);
                 && (forall n | 0 <= n <= |sched| ::
                       r == Atomic(c, StoreAt(calls, db0, sched, n)).1 <==>
                         PostsAgree(c, StoreAt(calls, db0, sched, n), rows, count))
                 && (r == Atomic(c, count).1 <==> PostsRows(c, rows) == PostsRows(c, count))
                 && ((exists n | turns[0] <= n <= turns[1] :: r == Atomic(c, StoreAt(calls, db0, sched, n)).1) <==>
                       exists n | turns[0] <= n <= turns[1] ::
                         PostsAgree(c, StoreAt(calls, db0, sched, n), rows, count))
  {
    var c, turns, r := calls[i], Turns(sched, i), Run(calls, db0, sched).pcs[i].response;
    PostsPageExact(calls, db0, sched, i);
    TurnsRise(sched, i);
    TurnsSeen(calls, db0, sched, i);
    if PostsRefused(c) {
      forall n | 0 <= n <= |sched|
        ensures r == Atomic(c, StoreAt(calls, db0, sched, n)).1
      {
        PostsRefusedAlike(c, StoreAt(calls, db0, sched, n), Seen(calls, db0, sched, i)[0]);
      }
    } else {
      var rows, count := StoreAt(calls, db0, sched, turns[0]), StoreAt(calls, db0, sched, turns[1]);
      forall n | 0 <= n <= |sched|
        ensures r == Atomic(c, StoreAt(calls, db0, sched, n)).1 <==>
                  PostsAgree(c, StoreAt(calls, db0, sched, n), rows, count)
      {
        PostsMoment(c, rows, count, StoreAt(calls, db0, sched, n));
      }
    }
  }

  // ---- comments ---------------------------------------------------------------

  function CommentsRows(c: Call, db: Db): seq<ApiComment>
    requires c.request.ListCommentsRequest?
  {
    var w := WindowOf(c.request.page, c.request.perPage);
    match Statements.ListComments(db, c.request.postId, w.limit, w.offset)
    case Success(rows) => ToApiComments(rows)
    case Failure(_) => []
  }

  ghost predicate CommentsAgree(c: Call, db: Db, rows: Db, count: Db)
    requires c.request.ListCommentsRequest?
  {
    && Statements.GetPost(db, c.request.postId).Success?
    && CommentsRows(c, db) == CommentsRows(c, rows)
    && CountComments(db, c.request.postId) == CountComments(count, c.request.postId)
  }

  lemma CommentsMoment(c: Call, rows: Db, count: Db, db: Db)
    requires c.request.ListCommentsRequest? && WindowOf(c.request.page, c.request.perPage).offset >= 0
    ensures CommentsAnswer(c, rows, CountComments(count, c.request.postId)) == Atomic(c, db).1
            <==> CommentsAgree(c, db, rows, count)
  {
    CommentsAlone(c, db);
  }

  /** GET /v1/posts/{id}/comments, when the post was there at the first read and the offset is not refused:
      the answer is that of a moment of the run if and only if the post was there then, the page's
      rows were what they were at the second read and the count what it was at the third. */
  lemma CommentsPageMoments(calls: seq<Call>, db0: Db, sched: seq<nat>, i: nat)
    requires Schedule(calls, sched) && i < |calls| && calls[i].request.ListCommentsRequest?
    requires Run(calls, db0, sched).pcs[i].Done?
    ensures var c, turns, r := calls[i], Turns(sched, i), Run(calls, db0, sched).pcs[i].response;
            var id := c.request.postId;
            && turns != [] && turns[0] < |sched|
            && if Statements.GetPost(StoreAt(calls, db0, sched, turns[0]), id).Failure?
               then forall n | 0 <= n <= |sched| ::
                      var db := StoreAt(calls, db0, sched, n);
                      r == Atomic(c, db).1 <==> Statements.GetPost(db, id).Failure?
               else if WindowOf(c.request.page, c.request.perPage).offset < 0
               then forall n | 0 <= n <= |sched| ::
                      var db := StoreAt(calls, db0, sched, n);
                      r == Atomic(c, db).1 <==> Statements.GetPost(db, id).Success?
               else
                 && |turns| >= 3 && turns[0] < turns[1] < turns[2] < |sched|
                 && var rows, count := StoreAt(calls, db0, sched, turns[1]), StoreAt(calls, db0, sched, turns[2]);
                    && (forall n | 0 <= n <= |sched| ::
                          r == Atomic(c, StoreAt(calls, db0, sched, n)).1 <==>
                            CommentsAgree(c, StoreAt(calls, db0, sched, n), rows, count))
                    && (r == Atomic(c, count).1 <==>
                          Statements.GetPost(count, id).Success? && CommentsRows(c, rows) == CommentsRows(c, count))
                    && ((exists n | turns[0] <= n <= turns[2] :: r == Atomic(c, StoreAt(calls, db0, sched, n)).1) <==>
                          exists n | turns[0] <= n <= turns[2] ::
                            CommentsAgree(c, StoreAt(calls, db0, sched, n), rows, count))
  {
    var c, turns, r := calls[i], Turns(sched, i), Run(calls, db0, sched).pcs[i].response;
    CommentsPageExact(calls, db0, sched, i);
    TurnsRise(sched, i);
    TurnsSeen(calls, db0, sched, i);
    var checked := StoreAt(calls, db0, sched, turns[0]);
    CommentsAlone(c, checked);
    if || Statements.GetPost(checked, c.request.postId).Failure?
       || WindowOf(c.request.page, c.request.perPage).offset < 0 {
      forall n | 0 <= n <= |sched|
        ensures r == Atomic(c, StoreAt(calls, db0, sched, n)).1 <==>
                  (Statements.GetPost(StoreAt(calls, db0, sched, n), c.request.postId).Success? <==>
                   Statements.GetPost(checked, c.request.postId).Success?)
      {
        CommentsAlone(c, StoreAt(calls, db0, sched, n));
      }
    } else {
      var rows, count := StoreAt(calls, db0, sched, turns[1]), StoreAt(calls, db0, sched, turns[2]);
      forall n | 0 <= n <= |sched|
        ensures r == Atomic(c, StoreAt(calls, db0, sched, n)).1 <==>
                  CommentsAgree(c, StoreAt(calls, db0, sched, n), rows, count)
      {
        CommentsMoment(c, rows, count, StoreAt(calls, db0, sched, n));
      }
    }
  }
}
