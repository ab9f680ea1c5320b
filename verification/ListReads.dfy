/** The list endpoints read their rows in one statement and their total in a later one. What an answer
    is in any run, exactly when it is the answer of one moment, and runs in which it is not. */
module ListReads {
  import opened Tables
  import opened Schema
  import opened Statements
  import opened Pagination
  import opened Api
  import opened Handlers
  import opened Runs
  import opened Paging

  /** The same page with another total. */
  function WithTotal(r: Response, n: nat): Response {
    match r.body
    case UsersBody(users, meta) => r.(body := UsersBody(users, meta.(total := n)))
    case PostsBody(posts, meta) => r.(body := PostsBody(posts, meta.(total := n)))
    case CommentsBody(comments, meta) => r.(body := CommentsBody(comments, meta.(total := n)))
    case _ => r
  }

  // ---- read after read --------------------------------------------------------

  /** A request not yet answered goes on in the next store it sees. */
  lemma NextRead(c: Call, dbs: seq<Db>, n: nat)
    requires Progress(c, dbs).Done? && n <= |dbs| && !Progress(c, dbs[..n]).Done?
    ensures n < |dbs|
    ensures Progress(c, dbs[..n + 1]) == Step(c, Progress(c, dbs[..n]), dbs[n]).1
    ensures Progress(c, dbs[..n + 1]).Done? ==> Progress(c, dbs) == Progress(c, dbs[..n + 1])
  {
    assert dbs[..|dbs|] == dbs;
    ProgressStep(c, dbs, n);
    if Progress(c, dbs[..n + 1]).Done? {
      DoneStays(c, dbs, n + 1);
    }
  }

  /** A request that answers at its first read, or else at its second. */
  lemma FirstTwo(c: Call, dbs: seq<Db>)
    requires Progress(c, dbs).Done?
    ensures dbs != [] && Progress(c, dbs[..1]) == Step(c, Start, dbs[0]).1
    ensures var pc := Step(c, Start, dbs[0]).1;
            if pc.Done? then Progress(c, dbs) == pc
            else |dbs| >= 2 && (Step(c, pc, dbs[1]).1.Done? ==> Progress(c, dbs) == Step(c, pc, dbs[1]).1)
  {
    assert dbs[..0] == [];
    NextRead(c, dbs, 0);
    if !Progress(c, dbs[..1]).Done? {
      NextRead(c, dbs, 1);
    }
  }

  /** A request that passes its first step answers at its second, or else at its third. */
  lemma NextTwo(c: Call, dbs: seq<Db>)
    requires Progress(c, dbs).Done? && |dbs| >= 2 && !Step(c, Start, dbs[0]).1.Done?
    ensures var pc := Step(c, Step(c, Start, dbs[0]).1, dbs[1]).1;
            if pc.Done? then Progress(c, dbs) == pc
            else |dbs| >= 3 && (Step(c, pc, dbs[2]).1.Done? ==> Progress(c, dbs) == Step(c, pc, dbs[2]).1)
  {
    FirstTwo(c, dbs);
    NextRead(c, dbs, 1);
    if !Progress(c, dbs[..2]).Done? {
      NextRead(c, dbs, 2);
    }
  }

  // ---- users ------------------------------------------------------------------

  /** A users page is the page of the store its rows were read in, with the total of the store its
      count was read in. */
  lemma UsersReads(c: Call, rows: Db, count: Db)
    requires c.request.ListUsersRequest?
    ensures var pc, alone := Step(c, Start, rows).1, Atomic(c, rows).1;
            if WindowOf(c.request.page, c.request.perPage).offset < 0 then pc == Done(alone)
            else !pc.Done? && Step(c, pc, count).1 == Done(WithTotal(alone, CountUsers(count)))
                 && alone.body.UsersBody? && alone.body.meta.total == CountUsers(rows)
  {
    UsersPageSteps(c, rows);
  }

  /** GET /v1/users, in any interleaving: the answer is the page of the moment its rows were read, with
      the total of the moment of its second read. It is the one the request gets alone, at the first of
      them, if and only if the count was the same at both (or the offset was refused). */
  lemma UsersPageExact(calls: seq<Call>, db0: Db, sched: seq<nat>, i: nat)
    requires Schedule(calls, sched) && i < |calls| && calls[i].request.ListUsersRequest?
    requires Run(calls, db0, sched).pcs[i].Done?
    ensures var c, seen := calls[i], Seen(calls, db0, sched, i);
            var refused := WindowOf(c.request.page, c.request.perPage).offset < 0;
            var r := Run(calls, db0, sched).pcs[i].response;
            && seen != []
            && (!refused ==> |seen| >= 2 && r == WithTotal(Atomic(c, seen[0]).1, CountUsers(seen[1])))
            && (r == Atomic(c, seen[0]).1 <==> refused || CountUsers(seen[0]) == CountUsers(seen[1]))
  {
    RunProgress(calls, db0, sched, i);
    FirstTwo(calls[i], Seen(calls, db0, sched, i));
    var seen := Seen(calls, db0, sched, i);
    UsersReads(calls[i], seen[0], if |seen| >= 2 then seen[1] else seen[0]);
  }

  // ---- posts ------------------------------------------------------------------

  lemma PostsReads(c: Call, rows: Db, count: Db)
    requires c.request.ListPostsRequest? && IsFilter(c.request.filter)
    ensures var pc, alone, f := Step(c, Start, rows).1, Atomic(c, rows).1, Matches(c.request.filter);
            if WindowOf(c.request.page, c.request.perPage).offset < 0 then pc == Done(alone)
            else !pc.Done? && Step(c, pc, count).1 == Done(WithTotal(alone, |Select(count.posts, f)|))
                 && alone.body.PostsBody? && alone.body.meta.total == |Select(rows.posts, f)|
  {
    PostsPageSteps(c, rows);
  }

  lemma BadFilterReads(c: Call, db: Db)
    requires c.request.ListPostsRequest? && !IsFilter(c.request.filter)
    ensures Step(c, Start, db).1 == Done(Atomic(c, db).1) && Atomic(c, db).1.status == 500
  {
    assert Finish(c, Start, db) == Finish(c, Step(c, Start, db).1, db);
  }

  /** GET /v1/posts: the same, with the number of posts the filter selects; a filter with a bad status
      is refused at the first read. */
  lemma PostsPageExact(calls: seq<Call>, db0: Db, sched: seq<nat>, i: nat)
    requires Schedule(calls, sched) && i < |calls| && calls[i].request.ListPostsRequest?
    requires Run(calls, db0, sched).pcs[i].Done?
    ensures var c, seen := calls[i], Seen(calls, db0, sched, i);
            var f, r := c.request.filter, Run(calls, db0, sched).pcs[i].response;
            var refused := !IsFilter(f) || WindowOf(c.request.page, c.request.perPage).offset < 0;
            && seen != []
            && (!refused ==>
                  && |seen| >= 2 && r == WithTotal(Atomic(c, seen[0]).1, |Select(seen[1].posts, Matches(f))|))
            && (r == Atomic(c, seen[0]).1 <==>
                  refused || |Select(seen[0].posts, Matches(f))| == |Select(seen[1].posts, Matches(f))|)
  {
    RunProgress(calls, db0, sched, i);
    PostsSeen(calls[i], Seen(calls, db0, sched, i));
  }

  lemma PostsSeen(c: Call, seen: seq<Db>)
    requires c.request.ListPostsRequest? && Progress(c, seen).Done?
    ensures var f, r := c.request.filter, Progress(c, seen).response;
            var refused := !IsFilter(f) || WindowOf(c.request.page, c.request.perPage).offset < 0;
            && seen != []
            && (!refused ==>
                  && |seen| >= 2 && r == WithTotal(Atomic(c, seen[0]).1, |Select(seen[1].posts, Matches(f))|))
            && (r == Atomic(c, seen[0]).1 <==>
                  refused || |Select(seen[0].posts, Matches(f))| == |Select(seen[1].posts, Matches(f))|)
  {
    FirstTwo(c, seen);
    if IsFilter(c.request.filter) {
      PostsReads(c, seen[0], if |seen| >= 2 then seen[1] else seen[0]);
    } else {
      BadFilterReads(c, seen[0]);
    }
  }

  // ---- comments ---------------------------------------------------------------

  /** What a comments page says of the store `rows` its comments were read in, in case the post is there,
      with a total of its own. */
  function CommentsAnswer(c: Call, rows: Db, total: nat): Response
    requires c.request.ListCommentsRequest?
  {
    var w := WindowOf(c.request.page, c.request.perPage);
    match Statements.ListComments(rows, c.request.postId, w.limit, w.offset)
    case Failure(e) => InternalError(e)
    case Success(comments) => Response(200, CommentsBody(ToApiComments(comments), Meta(total, w.page, w.perPage)))
  }

  lemma CommentsReads(c: Call, rows: Db, count: Db)
    requires c.request.ListCommentsRequest?
    ensures var pc := Step(c, PostSeen, rows).1;
            if WindowOf(c.request.page, c.request.perPage).offset < 0 then pc == Done(CommentsAnswer(c, rows, 0))
            else !pc.Done? && Step(c, pc, count).1
                              == Done(CommentsAnswer(c, rows, CountComments(count, c.request.postId)))
  {
  }

  lemma CommentsChecked(c: Call, db: Db)
    requires c.request.ListCommentsRequest?
    ensures Step(c, Start, db).1 ==
              if Statements.GetPost(db, c.request.postId).Success? then PostSeen else Done(Atomic(c, db).1)
  {
    CommentsAlone(c, db);
  }

  lemma CommentsAlone(c: Call, db: Db)
    requires c.request.ListCommentsRequest?
    ensures Atomic(c, db).1 ==
              match Statements.GetPost(db, c.request.postId)
              case Success(_) => CommentsAnswer(c, db, CountComments(db, c.request.postId))
              case Failure(_) => Response(404, Message("post not found"))
  {
    if Statements.GetPost(db, c.request.postId).Success? {
      CommentsPageSteps(c, db);
    } else {
      assert Finish(c, Start, db) == Finish(c, Step(c, Start, db).1, db);
    }
  }

  /** GET /v1/posts/{id}/comments: without the post at the first read, the answer is that of the moment.
      Otherwise it has the rows of the second read and the total of the third, and it is the one the
      request gets alone when its rows were read if and only if the post was still there then, and the
      count the same at the last read (or the offset refused). */
  lemma CommentsPageExact(calls: seq<Call>, db0: Db, sched: seq<nat>, i: nat)
    requires Schedule(calls, sched) && i < |calls| && calls[i].request.ListCommentsRequest?
    requires Run(calls, db0, sched).pcs[i].Done?
    ensures var c, seen, r := calls[i], Seen(calls, db0, sched, i), Run(calls, db0, sched).pcs[i].response;
            var refused := WindowOf(c.request.page, c.request.perPage).offset < 0; var id := c.request.postId;
            && seen != []
            && if Statements.GetPost(seen[0], id).Failure? then r == Atomic(c, seen[0]).1
               else
                 && |seen| >= 2
                 && (if refused then r == InternalError(PgError(INVALID_OFFSET))
                     else |seen| >= 3 && r == CommentsAnswer(c, seen[1], CountComments(seen[2], id)))
                 && (r == Atomic(c, seen[1]).1 <==>
                       && Statements.GetPost(seen[1], id).Success?
                       && (refused || CountComments(seen[1], id) == CountComments(seen[2], id)))
  {
    var c, seen := calls[i], Seen(calls, db0, sched, i);
    RunProgress(calls, db0, sched, i);
    FirstTwo(c, seen);
    CommentsChecked(c, seen[0]);
    if Statements.GetPost(seen[0], c.request.postId).Success? {
      NextTwo(c, seen);
      CommentsReads(c, seen[1], if |seen| >= 3 then seen[2] else seen[1]);
      CommentsAlone(c, seen[1]);
    }
  }

  // ---- torn answers -----------------------------------------------------------

  /** The seed of the runs below: a role, a user with it, and perhaps the user's post and a comment. */
  function Small(role: Role, u: User, posts: seq<Post>, comments: seq<Comment>): Db {
    Db([role], [u], posts, comments)
  }

  lemma RunNext(calls: seq<Call>, db0: Db, sched: seq<nat>, i: nat, s: Sys)
    requires Schedule(calls, sched) && i < |calls| && Run(calls, db0, sched) == s
    ensures Schedule(calls, sched + [i])
    ensures Run(calls, db0, sched + [i]) == Move(calls, s, i)
  {
    assert (sched + [i])[..|sched|] == sched;
  }

  lemma Moved(calls: seq<Call>, db: Db, pcs: seq<Pc>, i: nat, db': Db, pc: Pc)
    requires |pcs| == |calls| && i < |calls| && Step(calls[i], pcs[i], db) == (db', pc)
    ensures Move(calls, Sys(db, pcs), i) == Sys(db', pcs[i := pc])
  {
  }

  /** Request 0 moves from `pc` to `pc'`. */
  lemma ListMoves(calls: seq<Call>, db0: Db, sched: seq<nat>, db: Db, pc: Pc, other: Pc, pc': Pc)
    requires |calls| == 2 && Schedule(calls, sched) && Run(calls, db0, sched) == Sys(db, [pc, other])
    requires Step(calls[0], pc, db) == (db, pc')
    ensures Schedule(calls, sched + [0]) && Run(calls, db0, sched + [0]) == Sys(db, [pc', other])
  {
    RunNext(calls, db0, sched, 0, Sys(db, [pc, other]));
    Moved(calls, db, [pc, other], 0, db, pc');
    assert [pc, other][0 := pc'] == [pc', other];
  }

  /** Request 1 takes its one step. */
  lemma OtherMoves(calls: seq<Call>, db0: Db, sched: seq<nat>, db: Db, pc: Pc, db': Db, done: Pc)
    requires |calls| == 2 && Schedule(calls, sched) && Run(calls, db0, sched) == Sys(db, [pc, Start])
    requires Step(calls[1], Start, db) == (db', done)
    ensures Schedule(calls, sched + [1]) && Run(calls, db0, sched + [1]) == Sys(db', [pc, done])
  {
    RunNext(calls, db0, sched, 1, Sys(db, [pc, Start]));
    Moved(calls, db, [pc, Start], 1, db', done);
    assert [pc, Start][1 := done] == [pc, done];
  }

  lemma BothStart(calls: seq<Call>, db: Db)
    requires |calls| == 2
    ensures Run(calls, db, []) == Sys(db, [Start, Start])
  {
  }

  /** The request reads, the other takes its one step, the request reads again. */
  lemma Interrupted(calls: seq<Call>, db: Db, pc: Pc, db': Db, gone: Pc, done: Pc)
    requires |calls| == 2 && Step(calls[0], Start, db) == (db, pc) && Step(calls[1], Start, db) == (db', gone)
    requires Step(calls[0], pc, db') == (db', done)
    ensures Run(calls, db, [0, 1, 0]).pcs[0] == done
  {
    BothStart(calls, db);
    ListMoves(calls, db, [], db, Start, Start, pc);
    assert [] + [0] == [0] && [0] + [1] == [0, 1] && [0, 1] + [0] == [0, 1, 0];
    OtherMoves(calls, db, [0], db, pc, db', gone);
    ListMoves(calls, db, [0, 1], db', pc, gone, done);
  }

  lemma OneRow<T>(row: T, before: (T, T) -> bool)
    ensures OrderBy([row], before) == [row]
  {
    assert [row][..0] == [];
  }

  /** A page of one row out of a total of none is no answer of any store. */
  predicate IsTorn(r: Response) {
    match r.body
    case UsersBody(users, meta) => users != [] && meta.total == 0
    case PostsBody(posts, meta) => posts != [] && meta.total == 0
    case CommentsBody(comments, meta) => comments != [] && meta.total == 0
    case _ => false
  }

  lemma NeverTornAlone(c: Call, db: Db)
    requires c.request.ListUsersRequest? || c.request.ListPostsRequest? || c.request.ListCommentsRequest?
    ensures !IsTorn(Atomic(c, db).1)
  {
    match c.request
    case ListUsersRequest(_, _) =>
      UsersPageSteps(c, db);
      if CountUsers(db) == 0 {
        assert JoinRoles(db.users, db.roles) == [];
      }
    case ListPostsRequest(f, _, _) =>
      if IsFilter(f) {
        PostsPageSteps(c, db);
      } else {
        BadFilterReads(c, db);
      }
    case ListCommentsRequest(_, _, _) => CommentsAlone(c, db);
    case _ =>
  }

  /** A user is deleted between the two reads. */
  lemma UsersPageTorn(inputs: Inputs, u: User, role: Role)
    requires u.roleId == role.id
    ensures var list := Call(ListUsersRequest(None, None), None, inputs);
            var delete := Call(DeleteUserRequest(u.id), None, inputs);
            var r := Run([list, delete], Small(role, u, [], []), [0, 1, 0]).pcs[0];
            && r == Done(Response(200, UsersBody([ToApiUser(u, role)], Meta(0, 1, 20))))
            && forall db :: Atomic(list, db).1 != r.response
  {
    var list, delete := Call(ListUsersRequest(None, None), None, inputs), Call(DeleteUserRequest(u.id), None, inputs);
    var torn := Response(200, UsersBody([ToApiUser(u, role)], Meta(0, 1, 20)));
    ReadsOneUser(list, u, role);
    CountsNoUser(list, Db([role], [], [], []), u, role);
    DeletesOneUser(delete, u, role);
    Interrupted([list, delete], Small(role, u, [], []), UsersRead([(u, role)]), Db([role], [], [], []),
                Done(Response(204, Empty)), Done(torn));
    NeverTorn(list, torn);
  }

  lemma NeverTorn(list: Call, torn: Response)
    requires list.request.ListUsersRequest? || list.request.ListPostsRequest? || list.request.ListCommentsRequest?
    requires IsTorn(torn)
    ensures forall db :: Atomic(list, db).1 != torn
  {
    forall db
      ensures Atomic(list, db).1 != torn
    {
      NeverTornAlone(list, db);
    }
  }

  lemma CountsNoUser(list: Call, db: Db, u: User, role: Role)
    requires list.request == ListUsersRequest(None, None) && db.users == []
    ensures Step(list, UsersRead([(u, role)]), db)
            == (db, Done(Response(200, UsersBody([ToApiUser(u, role)], Meta(0, 1, 20)))))
  {
    assert ToApiUsers([(u, role)]) == [ToApiUser(u, role)];
  }

  lemma DeletesOneUser(delete: Call, u: User, role: Role)
    requires delete.request == DeleteUserRequest(u.id)
    ensures Step(delete, Start, Small(role, u, [], [])) == (Db([role], [], [], []), Done(Response(204, Empty)))
  {
    SelectSingle(u, With(UserId, u.id));
    SelectSingle(u, Without(UserId, u.id));
  }

  lemma ReadsOneUser(list: Call, u: User, role: Role)
    requires list.request == ListUsersRequest(None, None) && u.roleId == role.id
    ensures var db := Small(role, u, [], []); Step(list, Start, db) == (db, UsersRead([(u, role)]))
  {
    OneUserRow(Small(role, u, [], []), u, role);
  }

  lemma OneUserRow(db: Db, u: User, role: Role)
    requires db.roles == [role] && db.users == [u] && u.roleId == role.id
    ensures Statements.ListUsers(db, 20, 0) == Success([(u, role)])
  {
    OneJoined(db.users, db.roles, u, role);
    OneRow((u, role), NewestUser);
    assert [(u, role)][0..1] == [(u, role)];
  }

  lemma OneJoined(users: seq<User>, roles: seq<Role>, u: User, role: Role)
    requires users == [u] && roles == [role] && u.roleId == role.id
    ensures JoinRoles(users, roles) == [(u, role)]
  {
    SelectSingle(role, With(RoleId, u.roleId));
    assert RoleId(role) == u.roleId;
    assert Select(roles, With(RoleId, u.roleId)) == [role];
    assert Paired(u, [role]) == [(u, role)];
    assert users[..0] == [] && JoinRoles([], roles) == [];
  }

  /** A post is deleted between the two reads. */
  lemma PostsPageTorn(inputs: Inputs, u: User, role: Role, p: Post)
    ensures var list := Call(ListPostsRequest(PostFilter(None, None, None), None, None), None, inputs);
            var delete := Call(DeletePostRequest(p.id), None, inputs);
            var r := Run([list, delete], Small(role, u, [p], []), [0, 1, 0]).pcs[0];
            && r == Done(Response(200, PostsBody([ToApiPost(p, 0)], Meta(0, 1, 20))))
            && forall db :: Atomic(list, db).1 != r.response
  {
    var list := Call(ListPostsRequest(PostFilter(None, None, None), None, None), None, inputs);
    var delete := Call(DeletePostRequest(p.id), None, inputs);
    var torn := Response(200, PostsBody([ToApiPost(p, 0)], Meta(0, 1, 20)));
    var before, after := Small(role, u, [p], []), Small(role, u, [], []);
    ReadsOnePost(list, before, p);
    CountsNoPost(list, after, p);
    DeletesOnePost(delete, before, p);
    Interrupted([list, delete], before, PostsRead([(p, 0)]), after, Done(Response(204, Empty)), Done(torn));
    NeverTorn(list, torn);
  }

  lemma ReadsOnePost(list: Call, db: Db, p: Post)
    requires list.request == ListPostsRequest(PostFilter(None, None, None), None, None)
    requires db.posts == [p] && db.comments == []
    ensures Step(list, Start, db) == (db, PostsRead([(p, 0)]))
  {
    OnePostRow(db, p, PostFilter(None, None, None));
  }

  lemma OnePostRow(db: Db, p: Post, f: PostFilter)
    requires f == PostFilter(None, None, None) && db.posts == [p] && db.comments == []
    ensures Statements.ListPosts(db, f, 20, 0) == Success([(p, 0)])
  {
    SelectSingle(p, Matches(f));
    OneRow(p, NewestPost);
    assert [p][0..1] == [p];
    assert WithCounts(db, [p]) == [(p, 0)];
  }

  lemma CountsNoPost(list: Call, db: Db, p: Post)
    requires list.request == ListPostsRequest(PostFilter(None, None, None), None, None) && db.posts == []
    ensures Step(list, PostsRead([(p, 0)]), db)
            == (db, Done(Response(200, PostsBody([ToApiPost(p, 0)], Meta(0, 1, 20)))))
  {
    assert ToApiPosts([(p, 0)]) == [ToApiPost(p, 0)];
  }

  lemma DeletesOnePost(delete: Call, db: Db, p: Post)
    requires delete.request == DeletePostRequest(p.id) && db.posts == [p]
    requires forall m | m in db.comments :: m.postId == p.id
    ensures Step(delete, Start, db) == (db.(posts := [], comments := []), Done(Response(204, Empty)))
  {
    SelectSingle(p, With(PostId, p.id));
    SelectSingle(p, Without(PostId, p.id));
    var keep := Without(CommentPost, p.id);
    forall m | m in db.comments
      ensures !keep(m)
    {
      assert CommentPost(m) == p.id;
    }
    SelectNone(db.comments, keep);
  }

  /** The post check passes, then: the comments are read, the other request takes its one step, and the
      comments are counted. */
  lemma InterruptedLate(calls: seq<Call>, db: Db, pc: Pc, db': Db, gone: Pc, done: Pc)
    requires |calls| == 2 && Step(calls[0], Start, db) == (db, PostSeen) && Step(calls[0], PostSeen, db) == (db, pc)
    requires Step(calls[1], Start, db) == (db', gone) && Step(calls[0], pc, db') == (db', done)
    ensures Run(calls, db, [0, 0, 1, 0]).pcs[0] == done
  {
    BothStart(calls, db);
    assert [] + [0] == [0] && [0] + [0] == [0, 0] && [0, 0] + [1] == [0, 0, 1] && [0, 0, 1] + [0] == [0, 0, 1, 0];
    ListMoves(calls, db, [], db, Start, Start, PostSeen);
    ListMoves(calls, db, [0], db, PostSeen, Start, pc);
    OtherMoves(calls, db, [0, 0], db, pc, db', gone);
    ListMoves(calls, db, [0, 0, 1], db', pc, gone, done);
  }

  /** A comment is deleted between the reads of the rows and of the count. */
  lemma CommentsPageTorn(inputs: Inputs, u: User, role: Role, p: Post, m: Comment)
    requires m.postId == p.id
    ensures var list := Call(ListCommentsRequest(p.id, None, None), None, inputs);
            var delete := Call(DeleteCommentRequest(p.id, m.id), None, inputs);
            var r := Run([list, delete], Small(role, u, [p], [m]), [0, 0, 1, 0]).pcs[0];
            && r == Done(Response(200, CommentsBody([ToApiComment(m)], Meta(0, 1, 20))))
            && forall db :: Atomic(list, db).1 != r.response
  {
    var list := Call(ListCommentsRequest(p.id, None, None), None, inputs);
    var delete := Call(DeleteCommentRequest(p.id, m.id), None, inputs);
    var torn := Response(200, CommentsBody([ToApiComment(m)], Meta(0, 1, 20)));
    var before, after := Small(role, u, [p], [m]), Small(role, u, [p], []);
    ReadsOneComment(list, before, p, m);
    CountsNoComment(list, after, p, [m]);
    assert ToApiComments([m]) == [ToApiComment(m)];
    DeletesOneComment(delete, before, p, m);
    InterruptedLate([list, delete], before, CommentsRead([m]), after, Done(Response(204, Empty)), Done(torn));
    NeverTorn(list, torn);
  }

  lemma ReadsOneComment(list: Call, db: Db, p: Post, m: Comment)
    requires list.request == ListCommentsRequest(p.id, None, None)
    requires db.posts == [p] && db.comments == [m] && m.postId == p.id
    ensures Step(list, Start, db) == (db, PostSeen) && Step(list, PostSeen, db) == (db, CommentsRead([m]))
  {
    OnePostThere(db, p);
    OneCommentRow(db, p.id, m);
  }

  lemma OnePostThere(db: Db, p: Post)
    requires db.posts == [p]
    ensures Statements.GetPost(db, p.id).Success?
  {
    SelectSingle(p, With(PostId, p.id));
    assert PostId(p) == p.id;
  }

  lemma OneCommentRow(db: Db, postId: Uuid, m: Comment)
    requires db.comments == [m] && m.postId == postId
    ensures Statements.ListComments(db, postId, 20, 0) == Success([m])
  {
    SelectSingle(m, With(CommentPost, postId));
    OneRow(m, OldestComment);
    assert [m][0..1] == [m];
  }

  lemma CountsNoComment(list: Call, db: Db, p: Post, rows: seq<Comment>)
    requires list.request == ListCommentsRequest(p.id, None, None) && db.comments == []
    ensures Step(list, CommentsRead(rows), db)
            == (db, Done(Response(200, CommentsBody(ToApiComments(rows), Meta(0, 1, 20)))))
  {
  }

  lemma DeletesOneComment(delete: Call, db: Db, p: Post, m: Comment)
    requires delete.request == DeleteCommentRequest(p.id, m.id) && db.comments == [m]
    ensures Step(delete, Start, db) == (db.(comments := []), Done(Response(204, Empty)))
  {
    SelectSingle(m, Without(CommentId, m.id));
  }

  /** The post is deleted after the first read: an empty page, which the request alone gets in no store
      of the run, neither before the delete nor after. */
  lemma DeletedPostListed(inputs: Inputs, u: User, role: Role, p: Post, m: Comment)
    requires m.postId == p.id
    ensures var list := Call(ListCommentsRequest(p.id, None, None), None, inputs);
            var delete := Call(DeletePostRequest(p.id), None, inputs);
            var db0, sched := Small(role, u, [p], [m]), [0, 1, 0, 0];
            var r := Run([list, delete], db0, sched).pcs[0];
            && r == Done(Response(200, CommentsBody([], Meta(0, 1, 20))))
            && forall n | 0 <= n <= 4 :: Atomic(list, Run([list, delete], db0, sched[..n]).db).1 != r.response
  {
    var list := Call(ListCommentsRequest(p.id, None, None), None, inputs);
    var delete := Call(DeletePostRequest(p.id), None, inputs);
    var before, after := Small(role, u, [p], [m]), Small(role, u, [], []);
    DeletedPostRun(list, delete, before, after, p, m);
  }

  lemma DeletedPostRun(list: Call, delete: Call, before: Db, after: Db, p: Post, m: Comment)
    requires list.request == ListCommentsRequest(p.id, None, None) && delete.request == DeletePostRequest(p.id)
    requires before.posts == [p] && before.comments == [m] && m.postId == p.id
    requires after == before.(posts := [], comments := [])
    ensures var sched := [0, 1, 0, 0];
            var r := Run([list, delete], before, sched).pcs[0];
            && r == Done(Response(200, CommentsBody([], Meta(0, 1, 20))))
            && forall n | 0 <= n <= 4 :: Atomic(list, Run([list, delete], before, sched[..n]).db).1 != r.response
  {
    ReadsOneComment(list, before, p, m);
    DeletesOnePost(delete, before, p);
    ReadsNoComment(list, after, p);
    CountsNoComment(list, after, p, []);
    assert ToApiComments([]) == [];
    InterruptedEarly([list, delete], before, after, Done(Response(204, Empty)), CommentsRead([]),
                     Done(Response(200, CommentsBody([], Meta(0, 1, 20)))));
    CommentsAlone(list, after);
    ReadsOneAnswer(list, before, p, m);
    NoStoreAnswers([list, delete], before, after, Response(200, CommentsBody([], Meta(0, 1, 20))));
  }

  lemma NoStoreAnswers(calls: seq<Call>, db: Db, db': Db, r: Response)
    requires |calls| == 2 && Atomic(calls[0], db).1 != r && Atomic(calls[0], db').1 != r
    requires Run(calls, db, []).db == db && Run(calls, db, [0]).db == db && Run(calls, db, [0, 1]).db == db'
    requires Run(calls, db, [0, 1, 0]).db == db' && Run(calls, db, [0, 1, 0, 0]).db == db'
    ensures forall n | 0 <= n <= 4 :: Atomic(calls[0], Run(calls, db, [0, 1, 0, 0][..n]).db).1 != r
  {
    var sched := [0, 1, 0, 0];
    assert sched[..0] == [] && sched[..1] == [0] && sched[..2] == [0, 1] && sched[..3] == [0, 1, 0];
    assert sched[..4] == sched;
    forall n | 0 <= n <= 4
      ensures Run(calls, db, sched[..n]).db == db || Run(calls, db, sched[..n]).db == db'
    {
      assert n == 0 || n == 1 || n == 2 || n == 3 || n == 4;
    }
  }

  lemma ReadsNoComment(list: Call, db: Db, p: Post)
    requires list.request == ListCommentsRequest(p.id, None, None) && db.comments == []
    ensures Step(list, PostSeen, db) == (db, CommentsRead([]))
  {
  }

  lemma ReadsOneAnswer(list: Call, db: Db, p: Post, m: Comment)
    requires list.request == ListCommentsRequest(p.id, None, None)
    requires db.posts == [p] && db.comments == [m] && m.postId == p.id
    ensures Atomic(list, db).1.body.CommentsBody? && |Atomic(list, db).1.body.comments| == 1
  {
    ReadsOneComment(list, db, p, m);
    assert Finish(list, Start, db) == Finish(list, PostSeen, db);
    assert Finish(list, PostSeen, db) == Finish(list, CommentsRead([m]), db);
    assert Finish(list, CommentsRead([m]), db) == Finish(list, Step(list, CommentsRead([m]), db).1, db);
  }

  /** The other request takes its one step between the post check and the two reads. */
  lemma InterruptedEarly(calls: seq<Call>, db: Db, db': Db, gone: Pc, pc: Pc, done: Pc)
    requires |calls| == 2 && Step(calls[0], Start, db) == (db, PostSeen) && Step(calls[1], Start, db) == (db', gone)
    requires Step(calls[0], PostSeen, db') == (db', pc) && Step(calls[0], pc, db') == (db', done)
    ensures Run(calls, db, []).db == db && Run(calls, db, [0]).db == db && Run(calls, db, [0, 1]).db == db'
    ensures Run(calls, db, [0, 1, 0]).db == db' && Run(calls, db, [0, 1, 0, 0]) == Sys(db', [done, gone])
  {
    BothStart(calls, db);
    assert [] + [0] == [0] && [0] + [1] == [0, 1] && [0, 1] + [0] == [0, 1, 0] && [0, 1, 0] + [0] == [0, 1, 0, 0];
    ListMoves(calls, db, [], db, Start, Start, PostSeen);
    OtherMoves(calls, db, [0], db, PostSeen, db', gone);
    ListMoves(calls, db, [0, 1], db', PostSeen, gone, pc);
    ListMoves(calls, db, [0, 1, 0], db', pc, gone, done);
  }
}
