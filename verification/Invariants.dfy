/** What every reachable store satisfies, whatever the interleaving. */
module Invariants {
  import opened Tables
  import opened Schema
  import opened Statements
  import opened Constraints
  import opened Seeding
  import opened Slugs
  import opened Api
  import opened Handlers
  import opened Runs

  // ---- constraints ------------------------------------------------------------

  lemma StepIntact(c: Call, pc: Pc, db: Db)
    requires Integrity(db)
    ensures Integrity(Step(c, pc, db).0)
  {
    if pc.Start? {
      FirstStepIntact(c, db);
    } else if pc.RoleKnown? {
      var i := c.inputs;
      match c.request
      case CreateUserRequest(Some(b)) =>
        var hash := HashOf(b.password.GetOr(""), i);
        CreateUserIffIntact(db, NewUser(i.newId, UserColumnsOf(b, hash, i.salt, pc.role), i.now));
      case UpdateUserRequest(id, Some(b)) =>
        PatchIntact(c, id, b, Some(pc.role.id), db);
      case ReplaceUserRequest(id, Some(b)) =>
        var hash := HashOf(b.password.GetOr(""), i);
        ChangeUserIffIntact(db, id, Replacing(UserColumnsOf(b, hash, i.salt, pc.role), i.now));
      case _ =>
    }
  }

  lemma PatchIntact(c: Call, id: Uuid, b: UserUpdate, roleId: Option<Uuid>, db: Db)
    requires Integrity(db)
    ensures Integrity(PatchUser(c, id, b, roleId, db).0)
  {
    var hash := if HasPassword(b.password) then HashPassword(b.password.value, c.inputs) else None;
    ChangeUserIffIntact(db, id, Patching(PatchOf(b, hash, c.inputs.salt, roleId), c.inputs.now));
  }

  lemma PostStepIntact(c: Call, db: Db)
    requires Integrity(db) && (c.request.CreatePostRequest? || c.request.ReplacePostRequest?)
    ensures Integrity(FirstStep(c, db).0)
  {
    var i := c.inputs;
    match c.request
    case CreatePostRequest(Some(b)) =>
      if c.identity.Some? {
        CreatePostIffIntact(db, NewPost(i.newId, c.identity.value, PostColumnsOf(b, i.suffix), i.now));
      }
    case ReplacePostRequest(id, Some(b)) => ReplacePostIffIntact(db, id, PostColumnsOf(b, i.suffix), i.now);
    case _ =>
  }

  lemma CommentStepIntact(c: Call, db: Db)
    requires Integrity(db) && (c.request.CreateCommentRequest? || c.request.UpdateCommentRequest?)
    ensures Integrity(FirstStep(c, db).0)
  {
    var i := c.inputs;
    match c.request
    case CreateCommentRequest(postId, Some(content)) =>
      if c.identity.Some? {
        CreateCommentIffIntact(db, Comment(i.newId, postId, c.identity.value, content, i.now, i.now));
      }
    case UpdateCommentRequest(_, id, Some(content)) => UpdateCommentIntact(db, id, content, i.now);
    case _ =>
  }

  lemma FirstStepIntact(c: Call, db: Db)
    requires Integrity(db)
    ensures Integrity(FirstStep(c, db).0)
  {
    if FirstStep(c, db).0 == db {
      return;
    }
    match c.request
    case UpdateUserRequest(id, Some(b)) => PatchIntact(c, id, b, None, db);
    case DeleteUserRequest(id) => DeleteUserIntact(db, id);
    case CreatePostRequest(_) => PostStepIntact(c, db);
    case ReplacePostRequest(_, _) => PostStepIntact(c, db);
    case DeletePostRequest(id) => DeletePostIntact(db, id);
    case CreateCommentRequest(_, _) => CommentStepIntact(c, db);
    case UpdateCommentRequest(_, _, _) => CommentStepIntact(c, db);
    case DeleteCommentRequest(_, id) => DeleteCommentIntact(db, id);
    case _ =>
  }

  /** Every constraint of the schema holds at every moment of every interleaving. */
  lemma {:induction false} RunIntact(calls: seq<Call>, db0: Db, sched: seq<nat>)
    requires Integrity(db0) && Schedule(calls, sched)
    ensures Integrity(Run(calls, db0, sched).db)
  {
    if sched != [] {
      RunIntact(calls, db0, sched[..|sched| - 1]);
      var s, i := Run(calls, db0, sched[..|sched| - 1]), sched[|sched| - 1];
      StepIntact(calls[i], s.pcs[i], s.db);
    }
  }

  lemma FinishIntact(c: Call, pc: Pc, db: Db)
    requires Integrity(db) && Fits(c, pc)
    ensures Integrity(Finish(c, pc, db).0)
    decreases Rank(pc)
  {
    if !pc.Done? {
      StepProgress(c, pc, db);
      StepIntact(c, pc, db);
      FinishIntact(c, Step(c, pc, db).1, Step(c, pc, db).0);
    }
  }

  lemma {:induction false} OneByOneIntact(calls: seq<Call>, db0: Db, order: seq<nat>)
    requires Integrity(db0) && forall k | 0 <= k < |order| :: order[k] < |calls|
    ensures Integrity(OneByOne(calls, db0, order))
  {
    if order != [] {
      OneByOneIntact(calls, db0, order[..|order| - 1]);
      FinishIntact(calls[order[|order| - 1]], Start, OneByOne(calls, db0, order[..|order| - 1]));
    }
  }

  lemma SeededRunIntact(seed: Seed, calls: seq<Call>, sched: seq<nat>)
    requires DistinctIds(seed) && Schedule(calls, sched)
    ensures Integrity(Run(calls, SeedDb(seed), sched).db)
  {
    SeedIntact(seed);
    RunIntact(calls, SeedDb(seed), sched);
  }

  // ---- where posts and comments come from -------------------------------------

  /** The request is the POST that made this row, under the author's identity. */
  predicate MadePost(c: Call, p: Post) {
    c.request.CreatePostRequest? && c.identity == Some(p.authorId) &&
    c.inputs.newId == p.id && c.inputs.now == p.createdAt
  }

  predicate MadeComment(c: Call, m: Comment) {
    c.request.CreateCommentRequest? && c.request.postId == m.postId && c.identity == Some(m.authorId) &&
    c.inputs.newId == m.id && c.inputs.now == m.createdAt
  }

  predicate SamePost(p: Post, q: Post) {
    p.id == q.id && p.authorId == q.authorId && p.createdAt == q.createdAt
  }

  predicate SameComment(m: Comment, n: Comment) {
    m.id == n.id && m.postId == n.postId && m.authorId == n.authorId && m.createdAt == n.createdAt
  }

  lemma RewriteHas<T>(rows: seq<T>, p: T -> bool, f: T -> T, r: T)
    requires r in Rewrite(rows, p, f)
    ensures exists x :: x in rows && (r == x || (p(x) && r == f(x)))
  {
    var next := Rewrite(rows, p, f);
    var i :| 0 <= i < |next| && next[i] == r;
    assert rows[i] in rows;
  }

  predicate WritesPosts(r: Request) {
    r.CreatePostRequest? || r.ReplacePostRequest? || r.DeletePostRequest? || r.DeleteUserRequest?
  }

  predicate WritesComments(r: Request) {
    r.CreateCommentRequest? || r.UpdateCommentRequest? || r.DeleteCommentRequest? || r.DeletePostRequest? ||
    r.DeleteUserRequest?
  }

  /** Which requests write posts and comments, and that they do so in their only step. */
  lemma PostsScope(c: Call, pc: Pc, db: Db)
    requires !WritesPosts(c.request) || !pc.Start?
    ensures Step(c, pc, db).0.posts == db.posts
  {
  }

  lemma CommentsScope(c: Call, pc: Pc, db: Db)
    requires !WritesComments(c.request) || !pc.Start?
    ensures Step(c, pc, db).0.comments == db.comments
  {
  }

  lemma PostMade(c: Call, db: Db, p: Post)
    requires c.request.CreatePostRequest? && p in FirstStep(c, db).0.posts && p !in db.posts
    ensures MadePost(c, p) && Decided(FirstStep(c, db).1) && SlugFits(p)
  {
    assert p.slug == Slug(p.title, c.inputs.suffix);
  }

  lemma PostEdited(c: Call, db: Db, p: Post)
    requires c.request.ReplacePostRequest? && p in FirstStep(c, db).0.posts && p !in db.posts
    ensures exists q :: q in db.posts && SamePost(p, q)
    ensures SlugFits(p)
  {
    match c.request
    case ReplacePostRequest(id, Some(b)) =>
      RewriteHas(db.posts, With(PostId, id), ReplacingPost(PostColumnsOf(b, c.inputs.suffix), c.inputs.now), p);
      assert p.slug == Slug(p.title, c.inputs.suffix);
    case _ =>
  }

  /** What a delete leaves was there. */
  lemma PostLeft(c: Call, db: Db, p: Post)
    requires c.request.DeletePostRequest? || c.request.DeleteUserRequest?
    requires p in FirstStep(c, db).0.posts
    ensures p in db.posts
  {
    match c.request
    case DeletePostRequest(id) => SelectHas(db.posts, Without(PostId, id), p);
    case DeleteUserRequest(id) => SelectHas(db.posts, Without(PostAuthor, id), p);
  }

  /** A post after a step was there before with the same id, author and creation time, or is being
      made by this step. */
  lemma PostOrigin(c: Call, pc: Pc, db: Db, p: Post)
    requires p in Step(c, pc, db).0.posts
    ensures (exists q :: q in db.posts && SamePost(p, q))
         || (pc.Start? && Decided(Step(c, pc, db).1) && MadePost(c, p))
  {
    if p in db.posts {
      assert SamePost(p, p);
    } else if !WritesPosts(c.request) || !pc.Start? {
      PostsScope(c, pc, db);
    } else if c.request.CreatePostRequest? {
      PostMade(c, db, p);
    } else if c.request.ReplacePostRequest? {
      PostEdited(c, db, p);
    } else {
      PostLeft(c, db, p);
    }
  }

  lemma CommentMade(c: Call, db: Db, m: Comment)
    requires c.request.CreateCommentRequest? && m in FirstStep(c, db).0.comments && m !in db.comments
    ensures MadeComment(c, m) && Decided(FirstStep(c, db).1)
  {
  }

  lemma CommentEdited(c: Call, db: Db, m: Comment)
    requires c.request.UpdateCommentRequest? && m in FirstStep(c, db).0.comments && m !in db.comments
    ensures exists n :: n in db.comments && SameComment(m, n)
  {
    match c.request
    case UpdateCommentRequest(_, id, Some(content)) =>
      RewriteHas(db.comments, With(CommentId, id), Editing(content, c.inputs.now), m);
    case _ =>
  }

  /** What a delete leaves was there. */
  lemma CommentLeft(c: Call, db: Db, m: Comment)
    requires c.request.DeleteCommentRequest? || c.request.DeletePostRequest? || c.request.DeleteUserRequest?
    requires m in FirstStep(c, db).0.comments
    ensures m in db.comments
  {
    match c.request
    case DeleteCommentRequest(_, id) => SelectHas(db.comments, Without(CommentId, id), m);
    case DeletePostRequest(id) => SelectHas(db.comments, Without(CommentPost, id), m);
    case DeleteUserRequest(id) =>
      var gone := Ids(Select(db.posts, With(PostAuthor, id)));
      SelectHas(Select(db.comments, Outside(CommentPost, gone)), Without(CommentAuthor, id), m);
      SelectHas(db.comments, Outside(CommentPost, gone), m);
  }

  lemma CommentOrigin(c: Call, pc: Pc, db: Db, m: Comment)
    requires m in Step(c, pc, db).0.comments
    ensures (exists n :: n in db.comments && SameComment(m, n))
         || (pc.Start? && Decided(Step(c, pc, db).1) && MadeComment(c, m))
  {
    if m in db.comments {
      assert SameComment(m, m);
    } else if !WritesComments(c.request) || !pc.Start? {
      CommentsScope(c, pc, db);
    } else if c.request.CreateCommentRequest? {
      CommentMade(c, db, m);
    } else if c.request.UpdateCommentRequest? {
      CommentEdited(c, db, m);
    } else {
      CommentLeft(c, db, m);
    }
  }

  ghost predicate PostKnown(calls: seq<Call>, db0: Db, s: Sys, p: Post)
    requires |s.pcs| == |calls|
  {
    (exists q :: q in db0.posts && SamePost(p, q)) ||
    (exists i :: 0 <= i < |calls| && Decided(s.pcs[i]) && MadePost(calls[i], p))
  }

  ghost predicate CommentKnown(calls: seq<Call>, db0: Db, s: Sys, m: Comment)
    requires |s.pcs| == |calls|
  {
    (exists n :: n in db0.comments && SameComment(m, n)) ||
    (exists i :: 0 <= i < |calls| && Decided(s.pcs[i]) && MadeComment(calls[i], m))
  }

  lemma StaysDecided(c: Call, pc: Pc, db: Db)
    requires Decided(pc)
    ensures Decided(Step(c, pc, db).1)
  {
  }

  ghost predicate AllKnown(calls: seq<Call>, db0: Db, s: Sys)
    requires |s.pcs| == |calls|
  {
    && (forall p | p in s.db.posts :: PostKnown(calls, db0, s, p))
    && (forall m | m in s.db.comments :: CommentKnown(calls, db0, s, m))
  }

  lemma MoveKeepsDecided(calls: seq<Call>, s: Sys, i: nat)
    requires |s.pcs| == |calls| && i < |calls|
    ensures forall j | 0 <= j < |calls| && Decided(s.pcs[j]) :: Decided(Move(calls, s, i).pcs[j])
  {
    if Decided(s.pcs[i]) {
      StaysDecided(calls[i], s.pcs[i], s.db);
    }
  }

  lemma PostStaysKnown(calls: seq<Call>, db0: Db, s: Sys, i: nat, p: Post)
    requires |s.pcs| == |calls| && i < |calls| && AllKnown(calls, db0, s)
    requires p in Move(calls, s, i).db.posts
    ensures PostKnown(calls, db0, Move(calls, s, i), p)
  {
    var s' := Move(calls, s, i);
    PostOrigin(calls[i], s.pcs[i], s.db, p);
    if q :| q in s.db.posts && SamePost(p, q) {
      assert PostKnown(calls, db0, s, q);
      MoveKeepsDecided(calls, s, i);
      if q0 :| q0 in db0.posts && SamePost(q, q0) {
        assert SamePost(p, q0);
      } else {
        var j :| 0 <= j < |calls| && Decided(s.pcs[j]) && MadePost(calls[j], q);
        assert Decided(s'.pcs[j]) && MadePost(calls[j], p);
      }
    } else {
      assert Decided(s'.pcs[i]) && MadePost(calls[i], p);
    }
  }

  lemma CommentStaysKnown(calls: seq<Call>, db0: Db, s: Sys, i: nat, m: Comment)
    requires |s.pcs| == |calls| && i < |calls| && AllKnown(calls, db0, s)
    requires m in Move(calls, s, i).db.comments
    ensures CommentKnown(calls, db0, Move(calls, s, i), m)
  {
    var s' := Move(calls, s, i);
    CommentOrigin(calls[i], s.pcs[i], s.db, m);
    if n :| n in s.db.comments && SameComment(m, n) {
      assert CommentKnown(calls, db0, s, n);
      MoveKeepsDecided(calls, s, i);
      if n0 :| n0 in db0.comments && SameComment(n, n0) {
        assert SameComment(m, n0);
      } else {
        var j :| 0 <= j < |calls| && Decided(s.pcs[j]) && MadeComment(calls[j], n);
        assert Decided(s'.pcs[j]) && MadeComment(calls[j], m);
      }
    } else {
      assert Decided(s'.pcs[i]) && MadeComment(calls[i], m);
    }
  }

  /** Authorship over whole runs: every post and comment in the store was there at the start or was
      made by a request that carried its author's identity, and no later request changed its id,
      author, post or creation time. */
  lemma {:induction false} AuthorshipPermanent(calls: seq<Call>, db0: Db, sched: seq<nat>)
    requires Schedule(calls, sched)
    ensures AllKnown(calls, db0, Run(calls, db0, sched))
  {
    if sched == [] {
      assert forall p: Post :: SamePost(p, p);
      assert forall m: Comment :: SameComment(m, m);
    } else {
      AuthorshipPermanent(calls, db0, sched[..|sched| - 1]);
      var s, i := Run(calls, db0, sched[..|sched| - 1]), sched[|sched| - 1];
      forall p | p in Move(calls, s, i).db.posts
        ensures PostKnown(calls, db0, Move(calls, s, i), p)
      {
        PostStaysKnown(calls, db0, s, i, p);
      }
      forall m | m in Move(calls, s, i).db.comments
        ensures CommentKnown(calls, db0, Move(calls, s, i), m)
      {
        CommentStaysKnown(calls, db0, s, i, m);
      }
    }
  }

  lemma PostKept(c: Call, pc: Pc, db: Db, p: Post, p': Post)
    requires Integrity(db) && p in db.posts && p' in Step(c, pc, db).0.posts && p.id == p'.id
    ensures SamePost(p', p)
  {
    PostOrigin(c, pc, db, p');
    OneRowPerKey(db.posts, PostId, p);
    if p' in db.posts {
      assert PostId(p') == PostId(p);
    } else if q :| q in db.posts && SamePost(p', q) {
      assert PostId(q) == PostId(p);
    }
  }

  lemma CommentKept(c: Call, pc: Pc, db: Db, m: Comment, m': Comment)
    requires Integrity(db) && m in db.comments && m' in Step(c, pc, db).0.comments && m.id == m'.id
    ensures SameComment(m', m)
  {
    CommentOrigin(c, pc, db, m');
    OneRowPerKey(db.comments, CommentId, m);
    if m' in db.comments {
      assert CommentId(m') == CommentId(m);
    } else if n :| n in db.comments && SameComment(m', n) {
      assert CommentId(n) == CommentId(m);
    }
  }

  /** From any moment of a run on, as long as a post stays in the store its author and creation time
      are the ones it had. */
  lemma {:induction false} PostLife(calls: seq<Call>, db0: Db, sched: seq<nat>, n: nat, p: Post, p': Post)
    requires Integrity(db0) && Schedule(calls, sched) && n <= |sched|
    requires p in Run(calls, db0, sched[..n]).db.posts && p' in Run(calls, db0, sched).db.posts && p.id == p'.id
    requires forall k | n <= k <= |sched| :: p.id in KeysOf(Run(calls, db0, sched[..k]).db.posts, PostId)
    ensures SamePost(p', p)
    decreases |sched|
  {
    RunIntact(calls, db0, sched[..n]);
    if n == |sched| {
      assert sched[..n] == sched;
      OneRowPerKey(Run(calls, db0, sched).db.posts, PostId, p);
      assert PostId(p') == PostId(p);
    } else {
      var before := sched[..|sched| - 1];
      var s, i := Run(calls, db0, before), sched[|sched| - 1];
      var q :| q in s.db.posts && q.id == p.id;
      assert before[..n] == sched[..n];
      forall k | n <= k <= |before|
        ensures p.id in KeysOf(Run(calls, db0, before[..k]).db.posts, PostId)
      {
        assert before[..k] == sched[..k];
      }
      PostLife(calls, db0, before, n, p, q);
      RunIntact(calls, db0, before);
      PostKept(calls[i], s.pcs[i], s.db, q, p');
    }
  }

  lemma {:induction false} CommentLife(calls: seq<Call>, db0: Db, sched: seq<nat>, n: nat, m: Comment, m': Comment)
    requires Integrity(db0) && Schedule(calls, sched) && n <= |sched|
    requires m in Run(calls, db0, sched[..n]).db.comments && m' in Run(calls, db0, sched).db.comments && m.id == m'.id
    requires forall k | n <= k <= |sched| :: m.id in KeysOf(Run(calls, db0, sched[..k]).db.comments, CommentId)
    ensures SameComment(m', m)
    decreases |sched|
  {
    RunIntact(calls, db0, sched[..n]);
    if n == |sched| {
      assert sched[..n] == sched;
      OneRowPerKey(Run(calls, db0, sched).db.comments, CommentId, m);
      assert CommentId(m') == CommentId(m);
    } else {
      var before := sched[..|sched| - 1];
      var s, i := Run(calls, db0, before), sched[|sched| - 1];
      var q :| q in s.db.comments && q.id == m.id;
      assert before[..n] == sched[..n];
      forall k | n <= k <= |before|
        ensures m.id in KeysOf(Run(calls, db0, before[..k]).db.comments, CommentId)
      {
        assert before[..k] == sched[..k];
      }
      CommentLife(calls, db0, before, n, m, q);
      RunIntact(calls, db0, before);
      CommentKept(calls[i], s.pcs[i], s.db, q, m');
    }
  }

  // ---- slugs ------------------------------------------------------------------

  /** The slug is that of the post's current title. */
  ghost predicate SlugFits(p: Post) {
    exists suffix: Suffix :: p.slug == Slug(p.title, suffix)
  }

  lemma SlugOrigin(c: Call, pc: Pc, db: Db, p: Post)
    requires forall q | q in db.posts :: SlugFits(q)
    requires p in Step(c, pc, db).0.posts
    ensures SlugFits(p)
  {
    if p !in db.posts {
      if !WritesPosts(c.request) || !pc.Start? {
        PostsScope(c, pc, db);
      } else if c.request.CreatePostRequest? {
        PostMade(c, db, p);
      } else if c.request.ReplacePostRequest? {
        PostEdited(c, db, p);
      } else {
        PostLeft(c, db, p);
      }
    }
  }

  lemma {:induction false} SlugsFit(calls: seq<Call>, db0: Db, sched: seq<nat>)
    requires Schedule(calls, sched)
    requires forall p | p in db0.posts :: SlugFits(p)
    ensures forall p | p in Run(calls, db0, sched).db.posts :: SlugFits(p)
  {
    if sched != [] {
      SlugsFit(calls, db0, sched[..|sched| - 1]);
      var s, i := Run(calls, db0, sched[..|sched| - 1]), sched[|sched| - 1];
      forall p | p in Run(calls, db0, sched).db.posts
        ensures SlugFits(p)
      {
        SlugOrigin(calls[i], s.pcs[i], s.db, p);
      }
    }
  }

  /** Every slug in a store reached from the seed is hyphen-joined words, the last of them eight hex
      digits, and is the base of the post's title once nine characters are dropped; no two agree. */
  lemma StoredSlugs(seed: Seed, calls: seq<Call>, sched: seq<nat>)
    requires DistinctIds(seed) && Schedule(calls, sched)
    ensures var db := Run(calls, SeedDb(seed), sched).db;
            && Unique(db.posts, PostSlug)
            && forall p | p in db.posts ::
                 var ws := Words(p.slug);
                 && p.slug == Join(ws)
                 && |ws| >= 2 && IsSuffix(ws[|ws| - 1])
                 && |p.slug| >= 9 && p.slug[..|p.slug| - 9] == Base(p.title)
  {
    SeededRunIntact(seed, calls, sched);
    SlugsFit(calls, SeedDb(seed), sched);
    var db := Run(calls, SeedDb(seed), sched).db;
    forall p | p in db.posts
      ensures var ws := Words(p.slug);
              && p.slug == Join(ws)
              && |ws| >= 2 && IsSuffix(ws[|ws| - 1])
              && |p.slug| >= 9 && p.slug[..|p.slug| - 9] == Base(p.title)
    {
      assert SlugFits(p);
      var suffix: Suffix :| p.slug == Slug(p.title, suffix);
      SlugWords(p.title, suffix);
      SlugInjective(p.title, suffix, p.title, suffix);
    }
  }
}
