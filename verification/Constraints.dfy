/** The checks a write performs are exactly the constraints of the schema: on an intact store an
    INSERT or UPDATE succeeds if and only if the table it would leave satisfies every constraint. */
module Constraints {
  import opened Tables
  import opened Schema
  import opened Statements

  lemma WiderTargets<T, K>(rows: seq<T>, key: T -> K, ks: set<K>, wider: set<K>)
    requires Refers(rows, key, ks) && ks <= wider
    ensures Refers(rows, key, wider)
  {
  }

  // ---- users ------------------------------------------------------------------

  lemma CreateUserIffIntact(db: Db, u: User)
    requires Integrity(db)
    ensures CreateUser(db, u).result.Success? <==> Integrity(db.(users := db.users + [u]))
    ensures Integrity(CreateUser(db, u).db)
  {
    var users := db.users + [u];
    UniqueInsert(db.users, u, UserId);
    UniqueInsert(db.users, u, UserEmail);
    assert users[|db.users|] == u && forall i | 0 <= i < |db.users| :: users[i] == db.users[i];
    assert Refers(users, UserRoleId, KeysOf(db.roles, RoleId)) <==> u.roleId in KeysOf(db.roles, RoleId);
    assert (exists v | v in db.users :: v.id == u.id || v.email == u.email)
      <==> u.id in KeysOf(db.users, UserId) || u.email in KeysOf(db.users, UserEmail);
  }

  lemma ChangeUserIffIntact(db: Db, id: Uuid, change: User -> User)
    requires Integrity(db)
    requires forall v :: change(v).id == v.id
    ensures ChangeUser(db, id, change).result.Success?
       <==> id in KeysOf(db.users, UserId)
            && Integrity(db.(users := Rewrite(db.users, With(UserId, id), change)))
    ensures Integrity(ChangeUser(db, id, change).db)
  {
    Lookup(db.users, UserId, id);
    if i :| 0 <= i < |db.users| && db.users[i].id == id {
      RewriteOne(db.users, UserId, i, change);
      ChangeUserRow(db, i, change);
      ChangeUserAt(db, i, change);
    }
  }

  lemma EmailFree(users: seq<User>, i: nat, email: string)
    requires i < |users| && Unique(users, UserId)
    ensures (exists v | v in users :: v.id != users[i].id && v.email == email)
       <==> !(forall j | 0 <= j < |users| && j != i :: users[j].email != email)
  {
    if j :| 0 <= j < |users| && j != i && users[j].email == email {
      assert UserId(users[j]) != UserId(users[i]);
      assert users[j] in users;
    }
  }

  /** The same statement by position: what it does to row `i` of `users`. */
  lemma ChangeUserRow(db: Db, i: nat, change: User -> User)
    requires Unique(db.users, UserId) && i < |db.users|
    requires forall v :: change(v).id == v.id
    ensures var u := change(db.users[i]);
            ChangeUser(db, db.users[i].id, change) ==
              if exists j :: 0 <= j < |db.users| && j != i && UserEmail(db.users[j]) == u.email then
                Outcome(db, Failure(PgError(UNIQUE_VIOLATION)))
              else if u.roleId !in KeysOf(db.roles, RoleId) then
                Outcome(db, Failure(PgError(FOREIGN_KEY_VIOLATION)))
              else
                Outcome(db.(users := db.users[i := u]), Success(u))
  {
    var u := change(db.users[i]);
    SelectOne(db.users, UserId, i);
    RewriteOne(db.users, UserId, i, change);
    EmailFree(db.users, i, u.email);
    assert (exists r | r in db.roles :: r.id == u.roleId) <==> u.roleId in KeysOf(db.roles, RoleId);
  }

  lemma ChangeUserAt(db: Db, i: nat, change: User -> User)
    requires Integrity(db) && i < |db.users|
    requires forall v :: change(v).id == v.id
    ensures var u := change(db.users[i]);
            Integrity(db.(users := db.users[i := u])) <==>
              (forall j | 0 <= j < |db.users| && j != i :: db.users[j].email != u.email)
              && u.roleId in KeysOf(db.roles, RoleId)
  {
    var u := change(db.users[i]);
    var users := db.users[i := u];
    UniqueReplace(db.users, i, u, UserId);
    UniqueReplace(db.users, i, u, UserEmail);
    assert users[i] == u && forall j | 0 <= j < |users| && j != i :: users[j] == db.users[j];
    SameKeys(db.users, i, u, UserId);
  }

  lemma SameKeys<T, K>(rows: seq<T>, i: nat, r: T, key: T -> K)
    requires i < |rows| && key(r) == key(rows[i])
    ensures KeysOf(rows[i := r], key) == KeysOf(rows, key)
  {
    var next := rows[i := r];
    assert next[i] == r && forall j | 0 <= j < |rows| && j != i :: next[j] == rows[j];
    forall k
      ensures k in KeysOf(next, key) <==> k in KeysOf(rows, key)
    {
      if k in KeysOf(next, key) {
        var j :| 0 <= j < |next| && key(next[j]) == k;
        assert key(rows[j]) == k;
      }
      if k in KeysOf(rows, key) {
        var j :| 0 <= j < |rows| && key(rows[j]) == k;
        assert key(next[j]) == k;
      }
    }
  }

  // ---- posts ------------------------------------------------------------------

  lemma PostsIntactInsert(posts: seq<Post>, p: Post, users: seq<User>)
    requires PostsIntact(posts, users)
    ensures PostsIntact(posts + [p], users) <==>
              p.id !in KeysOf(posts, PostId) && p.slug !in KeysOf(posts, PostSlug)
              && p.authorId in KeysOf(users, UserId) && IsPostStatus(p.status)
    ensures KeysOf(posts + [p], PostId) == KeysOf(posts, PostId) + {p.id}
  {
    var next := posts + [p];
    UniqueInsert(posts, p, PostId);
    UniqueInsert(posts, p, PostSlug);
    assert next[|posts|] == p && forall i | 0 <= i < |posts| :: next[i] == posts[i];
    assert Refers(next, PostAuthor, KeysOf(users, UserId)) <==> p.authorId in KeysOf(users, UserId);
  }

  lemma CreatePostIffIntact(db: Db, p: Post)
    requires Integrity(db)
    ensures CreatePost(db, p).result.Success? <==> Integrity(db.(posts := db.posts + [p]))
    ensures Integrity(CreatePost(db, p).db)
  {
    PostsIntactInsert(db.posts, p, db.users);
    WiderTargets(db.comments, CommentPost, KeysOf(db.posts, PostId), KeysOf(db.posts + [p], PostId));
    assert (exists q | q in db.posts :: q.id == p.id || q.slug == p.slug)
      <==> p.id in KeysOf(db.posts, PostId) || p.slug in KeysOf(db.posts, PostSlug);
  }

  lemma SlugFree(posts: seq<Post>, i: nat, slug: string)
    requires i < |posts| && Unique(posts, PostId)
    ensures (exists q | q in posts :: q.id != posts[i].id && q.slug == slug)
       <==> !(forall j | 0 <= j < |posts| && j != i :: posts[j].slug != slug)
  {
    if j :| 0 <= j < |posts| && j != i && posts[j].slug == slug {
      assert PostId(posts[j]) != PostId(posts[i]);
      assert posts[j] in posts;
    }
  }

  lemma ReplacePostIffIntact(db: Db, id: Uuid, c: PostColumns, now: int)
    requires Integrity(db)
    ensures ReplacePost(db, id, c, now).result.Success?
       <==> id in KeysOf(db.posts, PostId)
            && Integrity(db.(posts := Rewrite(db.posts, With(PostId, id), ReplacingPost(c, now))))
    ensures Integrity(ReplacePost(db, id, c, now).db)
  {
    Lookup(db.posts, PostId, id);
    if i :| 0 <= i < |db.posts| && db.posts[i].id == id {
      var p := ReplacingPost(c, now)(db.posts[i]);
      SelectOne(db.posts, PostId, i);
      RewriteOne(db.posts, PostId, i, ReplacingPost(c, now));
      ReplacePostAt(db, i, p);
      SlugFree(db.posts, i, p.slug);
    }
  }

  lemma ReplacePostAt(db: Db, i: nat, p: Post)
    requires Integrity(db) && i < |db.posts|
    requires p.id == db.posts[i].id && p.authorId == db.posts[i].authorId
    ensures Integrity(db.(posts := db.posts[i := p])) <==>
              (forall j | 0 <= j < |db.posts| && j != i :: db.posts[j].slug != p.slug) && IsPostStatus(p.status)
  {
    var posts := db.posts[i := p];
    UniqueReplace(db.posts, i, p, PostId);
    UniqueReplace(db.posts, i, p, PostSlug);
    assert posts[i] == p && forall j | 0 <= j < |posts| && j != i :: posts[j] == db.posts[j];
    SameKeys(db.posts, i, p, PostId);
  }

  // ---- comments ---------------------------------------------------------------

  lemma CommentsIntactInsert(comments: seq<Comment>, c: Comment, posts: seq<Post>, users: seq<User>)
    requires CommentsIntact(comments, posts, users)
    ensures CommentsIntact(comments + [c], posts, users) <==>
              && c.id !in KeysOf(comments, CommentId)
              && c.postId in KeysOf(posts, PostId) && c.authorId in KeysOf(users, UserId)
  {
    var next := comments + [c];
    UniqueInsert(comments, c, CommentId);
    assert next[|comments|] == c && forall i | 0 <= i < |comments| :: next[i] == comments[i];
    assert Refers(next, CommentPost, KeysOf(posts, PostId)) <==> c.postId in KeysOf(posts, PostId);
    assert Refers(next, CommentAuthor, KeysOf(users, UserId)) <==> c.authorId in KeysOf(users, UserId);
  }

  lemma CreateCommentIffIntact(db: Db, c: Comment)
    requires Integrity(db)
    ensures CreateComment(db, c).result.Success? <==> Integrity(db.(comments := db.comments + [c]))
    ensures Integrity(CreateComment(db, c).db)
  {
    CommentsIntactInsert(db.comments, c, db.posts, db.users);
    assert (exists d | d in db.comments :: d.id == c.id) <==> c.id in KeysOf(db.comments, CommentId);
    assert (exists p | p in db.posts :: p.id == c.postId) <==> c.postId in KeysOf(db.posts, PostId);
    assert (exists u | u in db.users :: u.id == c.authorId) <==> c.authorId in KeysOf(db.users, UserId);
  }

  lemma UpdateCommentIntact(db: Db, id: Uuid, content: string, now: int)
    requires Integrity(db)
    ensures UpdateComment(db, id, content, now).result.Success? <==> id in KeysOf(db.comments, CommentId)
    ensures Integrity(UpdateComment(db, id, content, now).db)
  {
    Lookup(db.comments, CommentId, id);
    if i :| 0 <= i < |db.comments| && db.comments[i].id == id {
      SelectOne(db.comments, CommentId, i);
      RewriteOne(db.comments, CommentId, i, Editing(content, now));
      UniqueReplace(db.comments, i, Editing(content, now)(db.comments[i]), CommentId);
    }
  }

  // ---- deletes and their cascades ---------------------------------------------

  lemma DeleteCommentIntact(db: Db, id: Uuid)
    requires Integrity(db)
    ensures Integrity(DeleteComment(db, id))
  {
    var keep := Without(CommentId, id);
    SelectUnique(db.comments, keep, CommentId);
    SelectRefers(db.comments, keep, CommentPost, KeysOf(db.posts, PostId), KeysOf(db.posts, PostId));
    SelectRefers(db.comments, keep, CommentAuthor, KeysOf(db.users, UserId), KeysOf(db.users, UserId));
  }

  lemma SelectedKey<T, K>(rows: seq<T>, p: T -> bool, key: T -> K, r: T)
    requires r in rows && p(r)
    ensures key(r) in KeysOf(Select(rows, p), key)
  {
    SelectHas(rows, p, r);
  }

  /** What a delete keeps of a table of posts, when every author of a kept post is kept. */
  lemma PostsSurvive(posts: seq<Post>, keep: Post -> bool, users: seq<User>, users': seq<User>)
    requires PostsIntact(posts, users)
    requires forall p | p in posts && keep(p) && p.authorId in KeysOf(users, UserId) ::
               p.authorId in KeysOf(users', UserId)
    ensures PostsIntact(Select(posts, keep), users')
  {
    SelectUnique(posts, keep, PostId);
    SelectUnique(posts, keep, PostSlug);
    SelectRefers(posts, keep, PostAuthor, KeysOf(users, UserId), KeysOf(users', UserId));
    var s := Select(posts, keep);
    forall i | 0 <= i < |s|
      ensures IsPostStatus(s[i].status)
    {
      SelectHas(posts, keep, s[i]);
    }
  }

  lemma DeletePostIntact(db: Db, id: Uuid)
    requires Integrity(db)
    ensures Integrity(DeletePost(db, id))
  {
    var keep := Without(PostId, id);
    var posts := Select(db.posts, keep);
    PostsSurvive(db.posts, keep, db.users, db.users);
    var kept := Without(CommentPost, id);
    SelectUnique(db.comments, kept, CommentId);
    forall k | k in KeysOf(db.posts, PostId) && k != id
      ensures k in KeysOf(posts, PostId)
    {
      var p :| p in db.posts && p.id == k;
      SelectedKey(db.posts, keep, PostId, p);
    }
    SelectRefers(db.comments, kept, CommentPost, KeysOf(db.posts, PostId), KeysOf(posts, PostId));
    SelectRefers(db.comments, kept, CommentAuthor, KeysOf(db.users, UserId), KeysOf(db.users, UserId));
  }

  lemma UsersSurvive(users: seq<User>, id: Uuid, roles: seq<Role>)
    requires UsersIntact(users, roles)
    ensures UsersIntact(Select(users, Without(UserId, id)), roles)
    ensures KeysOf(users, UserId) - {id} <= KeysOf(Select(users, Without(UserId, id)), UserId)
  {
    var keep := Without(UserId, id);
    SelectUnique(users, keep, UserId);
    SelectUnique(users, keep, UserEmail);
    SelectRefers(users, keep, UserRoleId, KeysOf(roles, RoleId), KeysOf(roles, RoleId));
    forall k | k in KeysOf(users, UserId) && k != id
      ensures k in KeysOf(Select(users, keep), UserId)
    {
      var u :| u in users && u.id == k;
      SelectedKey(users, keep, UserId, u);
    }
  }

  lemma OtherPostsKept(posts: seq<Post>, id: Uuid)
    ensures KeysOf(posts, PostId) - Ids(Select(posts, With(PostAuthor, id)))
         <= KeysOf(Select(posts, Without(PostAuthor, id)), PostId)
  {
    var gone := Ids(Select(posts, With(PostAuthor, id)));
    forall k | k in KeysOf(posts, PostId) && k !in gone
      ensures k in KeysOf(Select(posts, Without(PostAuthor, id)), PostId)
    {
      var p :| p in posts && p.id == k;
      SelectHas(posts, With(PostAuthor, id), p);
      SelectedKey(posts, Without(PostAuthor, id), PostId, p);
    }
  }

  lemma DeleteUserIntact(db: Db, id: Uuid)
    requires Integrity(db)
    ensures Integrity(DeleteUser(db, id))
  {
    var gone := Ids(Select(db.posts, With(PostAuthor, id)));
    var users := Select(db.users, Without(UserId, id));
    var posts := Select(db.posts, Without(PostAuthor, id));
    UsersSurvive(db.users, id, db.roles);
    PostsSurvive(db.posts, Without(PostAuthor, id), db.users, users);
    OtherPostsKept(db.posts, id);
    CommentsSurvive(db.comments, gone, id, KeysOf(db.posts, PostId), KeysOf(posts, PostId),
                    KeysOf(db.users, UserId), KeysOf(users, UserId));
  }

  lemma CommentsSurvive(comments: seq<Comment>, gone: set<Uuid>, id: Uuid, posts: set<Uuid>, posts': set<Uuid>,
                        users: set<Uuid>, users': set<Uuid>)
    requires Unique(comments, CommentId)
    requires Refers(comments, CommentPost, posts) && Refers(comments, CommentAuthor, users)
    requires posts - gone <= posts' && users - {id} <= users'
    ensures var s := Select(Select(comments, Outside(CommentPost, gone)), Without(CommentAuthor, id));
            Unique(s, CommentId) && Refers(s, CommentPost, posts') && Refers(s, CommentAuthor, users')
  {
    var t := Select(comments, Outside(CommentPost, gone));
    SelectUnique(comments, Outside(CommentPost, gone), CommentId);
    SelectRefers(comments, Outside(CommentPost, gone), CommentPost, posts, posts');
    SelectRefers(comments, Outside(CommentPost, gone), CommentAuthor, users, users);
    SelectUnique(t, Without(CommentAuthor, id), CommentId);
    SelectRefers(t, Without(CommentAuthor, id), CommentPost, posts', posts');
    SelectRefers(t, Without(CommentAuthor, id), CommentAuthor, users, users');
  }
}
