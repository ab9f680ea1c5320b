/** Deleting a user: which rows go, and why the order in which dependents go does not matter. */
module Cascade {
  import opened Tables
  import opened Schema
  import opened Statements

  // ---- exactness --------------------------------------------------------------

  /** The comment is neither by the user nor on one of the user's posts. */
  ghost function IndependentComment(db: Db, id: Uuid): Comment -> bool {
    (c: Comment) => c.authorId != id && forall p | p in db.posts && p.authorId == id :: p.id != c.postId
  }

  lemma {:induction false} SelectTwice<T>(rows: seq<T>, p: T -> bool, q: T -> bool, both: T -> bool)
    requires forall r | r in rows :: both(r) <==> p(r) && q(r)
    ensures Select(Select(rows, p), q) == Select(rows, both)
  {
    if rows != [] {
      var n := |rows| - 1;
      SelectTwice(rows[..n], p, q, both);
      SelectAppend(Select(rows[..n], p), if p(rows[n]) then [rows[n]] else [], q);
      assert Select([rows[n]], q) == if q(rows[n]) then [rows[n]] else [];
      assert both(rows[n]) <==> p(rows[n]) && q(rows[n]);
    }
  }

  /** DELETE leaves, unchanged and in order, exactly the rows that do not depend on the user. */
  lemma DeleteUserExact(db: Db, id: Uuid)
    requires Integrity(db)
    ensures DeleteUser(db, id).roles == db.roles
    ensures DeleteUser(db, id).users == Select(db.users, Without(UserId, id))
    ensures DeleteUser(db, id).posts == Select(db.posts, Without(PostAuthor, id))
    ensures DeleteUser(db, id).comments == Select(db.comments, IndependentComment(db, id))
  {
    var gone := Ids(Select(db.posts, With(PostAuthor, id)));
    SelectMembers(db.posts, With(PostAuthor, id));
    SelectTwice(db.comments, Outside(CommentPost, gone), Without(CommentAuthor, id), IndependentComment(db, id));
    Lookup(db.users, UserId, id);
    if id !in KeysOf(db.users, UserId) {
      SelectAll(db.users, Without(UserId, id));
      SelectAll(db.posts, Without(PostAuthor, id));
      SelectAll(db.comments, IndependentComment(db, id));
    }
  }

  // ---- confluence -------------------------------------------------------------

  /** Removal of one row of `posts` or `comments`. */
  datatype Removal = PostAt(i: nat) | CommentAt(i: nat)

  /** The row exists and a row it refers to does not. */
  ghost predicate Dangling(db: Db, r: Removal) {
    match r
    case PostAt(i) => i < |db.posts| && db.posts[i].authorId !in KeysOf(db.users, UserId)
    case CommentAt(i) =>
      && i < |db.comments|
      && (db.comments[i].postId !in KeysOf(db.posts, PostId) || db.comments[i].authorId !in KeysOf(db.users, UserId))
  }

  function Remove(db: Db, r: Removal): Db {
    match r
    case PostAt(i) => if i < |db.posts| then db.(posts := db.posts[..i] + db.posts[i + 1..]) else db
    case CommentAt(i) => if i < |db.comments| then db.(comments := db.comments[..i] + db.comments[i + 1..]) else db
  }

  function RemoveAll(db: Db, rs: seq<Removal>): Db {
    if rs == [] then db else Remove(RemoveAll(db, rs[..|rs| - 1]), rs[|rs| - 1])
  }

  /** Every removal of the sequence hits a row that is dangling at that moment. */
  ghost predicate Legal(db: Db, rs: seq<Removal>) {
    rs != [] ==> Legal(db, rs[..|rs| - 1]) && Dangling(RemoveAll(db, rs[..|rs| - 1]), rs[|rs| - 1])
  }

  ghost function AuthorIn(users: set<Uuid>): Post -> bool {
    (p: Post) => p.authorId in users
  }

  ghost function BothIn(posts: set<Uuid>, users: set<Uuid>): Comment -> bool {
    (c: Comment) => c.postId in posts && c.authorId in users
  }

  /** The rows that depend, directly or not, only on rows that exist. */
  ghost function Purge(db: Db): Db {
    var users := KeysOf(db.users, UserId);
    var posts := Select(db.posts, AuthorIn(users));
    db.(posts := posts, comments := Select(db.comments, BothIn(KeysOf(posts, PostId), users)))
  }

  lemma RemovePostKeepsPurge(db: Db, i: nat)
    requires Dangling(db, PostAt(i))
    ensures Purge(Remove(db, PostAt(i))) == Purge(db)
  {
    SelectDrop(db.posts, AuthorIn(KeysOf(db.users, UserId)), i);
  }

  lemma RemoveCommentKeepsPurge(db: Db, i: nat)
    requires Dangling(db, CommentAt(i))
    ensures Purge(Remove(db, CommentAt(i))) == Purge(db)
  {
    var users := KeysOf(db.users, UserId);
    var kept := KeysOf(Purge(db).posts, PostId);
    assert kept <= KeysOf(db.posts, PostId) by {
      SelectMembers(db.posts, AuthorIn(users));
    }
    assert !BothIn(kept, users)(db.comments[i]);
    SelectDrop(db.comments, BothIn(kept, users), i);
  }

  lemma RemoveKeepsPurge(db: Db, r: Removal)
    requires Dangling(db, r)
    ensures Purge(Remove(db, r)) == Purge(db)
  {
    match r
    case PostAt(i) => RemovePostKeepsPurge(db, i);
    case CommentAt(i) => RemoveCommentKeepsPurge(db, i);
  }

  lemma {:induction false} RemoveAllKeepsPurge(db: Db, rs: seq<Removal>)
    requires Legal(db, rs)
    ensures Purge(RemoveAll(db, rs)) == Purge(db)
    ensures RemoveAll(db, rs).users == db.users && RemoveAll(db, rs).roles == db.roles
  {
    if rs != [] {
      RemoveAllKeepsPurge(db, rs[..|rs| - 1]);
      RemoveKeepsPurge(RemoveAll(db, rs[..|rs| - 1]), rs[|rs| - 1]);
    }
  }

  lemma NoPostDangling(db: Db)
    requires forall i :: !Dangling(db, PostAt(i))
    ensures Select(db.posts, AuthorIn(KeysOf(db.users, UserId))) == db.posts
  {
    var users := KeysOf(db.users, UserId);
    forall p | p in db.posts
      ensures AuthorIn(users)(p)
    {
      var i :| 0 <= i < |db.posts| && db.posts[i] == p;
      assert !Dangling(db, PostAt(i));
    }
    SelectAll(db.posts, AuthorIn(users));
  }

  lemma NoCommentDangling(db: Db)
    requires forall i :: !Dangling(db, CommentAt(i))
    ensures Select(db.comments, BothIn(KeysOf(db.posts, PostId), KeysOf(db.users, UserId))) == db.comments
  {
    var both := BothIn(KeysOf(db.posts, PostId), KeysOf(db.users, UserId));
    forall c | c in db.comments
      ensures both(c)
    {
      var i :| 0 <= i < |db.comments| && db.comments[i] == c;
      assert !Dangling(db, CommentAt(i));
    }
    SelectAll(db.comments, both);
  }

  lemma NothingDanglingPurge(db: Db)
    requires forall r :: !Dangling(db, r)
    ensures Purge(db) == db
  {
    NoPostDangling(db);
    NoCommentDangling(db);
  }

  /** The user row alone is taken out; rows that refer to it are left dangling. */
  function WithoutUserRow(db: Db, id: Uuid): Db {
    db.(users := Select(db.users, Without(UserId, id)))
  }

  lemma SurvivingComment(db: Db, id: Uuid, c: Comment)
    requires Integrity(db) && c in db.comments
    ensures (c.postId in KeysOf(Select(db.posts, Without(PostAuthor, id)), PostId)
             && c.authorId in KeysOf(db.users, UserId) - {id})
       <==> IndependentComment(db, id)(c)
  {
    var i :| 0 <= i < |db.comments| && db.comments[i] == c;
    assert CommentPost(db.comments[i]) in KeysOf(db.posts, PostId);
    assert CommentAuthor(db.comments[i]) in KeysOf(db.users, UserId);
    var p :| p in db.posts && p.id == c.postId;
    OneRowPerKey(db.posts, PostId, p);
    SelectMembers(db.posts, Without(PostAuthor, id));
  }

  lemma RemainingUsers(users: seq<User>, id: Uuid)
    ensures KeysOf(Select(users, Without(UserId, id)), UserId) == KeysOf(users, UserId) - {id}
  {
    SelectMembers(users, Without(UserId, id));
  }

  lemma PurgeIsDelete(db: Db, id: Uuid)
    requires Integrity(db)
    ensures Purge(WithoutUserRow(db, id)) == DeleteUser(db, id)
  {
    var ids := KeysOf(Select(db.users, Without(UserId, id)), UserId);
    var posts := Select(db.posts, Without(PostAuthor, id));
    DeleteUserExact(db, id);
    RemainingUsers(db.users, id);
    forall p | p in db.posts
      ensures AuthorIn(ids)(p) == Without(PostAuthor, id)(p)
    {
      var i :| 0 <= i < |db.posts| && db.posts[i] == p;
      assert PostAuthor(db.posts[i]) in KeysOf(db.users, UserId);
    }
    SelectCongruence(db.posts, AuthorIn(ids), Without(PostAuthor, id));
    forall c | c in db.comments
      ensures BothIn(KeysOf(posts, PostId), ids)(c) == IndependentComment(db, id)(c)
    {
      SurvivingComment(db, id, c);
    }
    SelectCongruence(db.comments, BothIn(KeysOf(posts, PostId), ids), IndependentComment(db, id));
  }

  /** However the dangling rows are picked, once none is left the store is the one DELETE gives. */
  lemma CascadeConfluence(db: Db, id: Uuid, rs: seq<Removal>)
    requires Integrity(db)
    requires Legal(WithoutUserRow(db, id), rs)
    requires forall r :: !Dangling(RemoveAll(WithoutUserRow(db, id), rs), r)
    ensures RemoveAll(WithoutUserRow(db, id), rs) == DeleteUser(db, id)
  {
    RemoveAllKeepsPurge(WithoutUserRow(db, id), rs);
    NothingDanglingPurge(RemoveAll(WithoutUserRow(db, id), rs));
    PurgeIsDelete(db, id);
  }

  /** The same for a post: the post row alone taken out, then its comments in any order. */
  function WithoutPostRow(db: Db, id: Uuid): Db {
    db.(posts := Select(db.posts, Without(PostId, id)))
  }

  lemma PurgedPosts(db: Db, id: Uuid)
    requires Integrity(db)
    ensures var posts := Select(db.posts, Without(PostId, id)); var users := KeysOf(db.users, UserId);
            Select(posts, AuthorIn(users)) == posts
  {
    var users := KeysOf(db.users, UserId);
    var posts := Select(db.posts, Without(PostId, id));
    forall p | p in posts
      ensures AuthorIn(users)(p)
    {
      SelectHas(db.posts, Without(PostId, id), p);
      var i :| 0 <= i < |db.posts| && db.posts[i] == p;
      assert PostAuthor(db.posts[i]) in users;
    }
    SelectAll(posts, AuthorIn(users));
  }

  lemma PurgedComments(db: Db, id: Uuid)
    requires Integrity(db)
    ensures var posts := Select(db.posts, Without(PostId, id)); var users := KeysOf(db.users, UserId);
            Select(db.comments, BothIn(KeysOf(posts, PostId), users)) == Select(db.comments, Without(CommentPost, id))
  {
    var users := KeysOf(db.users, UserId);
    var posts := Select(db.posts, Without(PostId, id));
    RemainingPosts(db.posts, id);
    forall c | c in db.comments
      ensures BothIn(KeysOf(posts, PostId), users)(c) == Without(CommentPost, id)(c)
    {
      var i :| 0 <= i < |db.comments| && db.comments[i] == c;
      assert CommentPost(db.comments[i]) in KeysOf(db.posts, PostId) && CommentAuthor(db.comments[i]) in users;
    }
    SelectCongruence(db.comments, BothIn(KeysOf(posts, PostId), users), Without(CommentPost, id));
  }

  lemma PostPurgeIsDelete(db: Db, id: Uuid)
    requires Integrity(db)
    ensures Purge(WithoutPostRow(db, id)) == DeletePost(db, id)
  {
    Lookup(db.posts, PostId, id);
    PurgedPosts(db, id);
    PurgedComments(db, id);
    if id !in KeysOf(db.posts, PostId) {
      NoPostNoComments(db, id);
    }
  }

  lemma RemainingPosts(posts: seq<Post>, id: Uuid)
    ensures KeysOf(Select(posts, Without(PostId, id)), PostId) == KeysOf(posts, PostId) - {id}
  {
    SelectMembers(posts, Without(PostId, id));
  }

  lemma NoPostNoComments(db: Db, id: Uuid)
    requires Integrity(db) && id !in KeysOf(db.posts, PostId)
    ensures Select(db.posts, Without(PostId, id)) == db.posts
    ensures Select(db.comments, Without(CommentPost, id)) == db.comments
  {
    SelectAll(db.posts, Without(PostId, id));
    forall c | c in db.comments
      ensures c.postId != id
    {
      var i :| 0 <= i < |db.comments| && db.comments[i] == c;
      assert CommentPost(db.comments[i]) in KeysOf(db.posts, PostId);
    }
    SelectAll(db.comments, Without(CommentPost, id));
  }

  lemma PostCascadeConfluence(db: Db, id: Uuid, rs: seq<Removal>)
    requires Integrity(db)
    requires Legal(WithoutPostRow(db, id), rs)
    requires forall r :: !Dangling(RemoveAll(WithoutPostRow(db, id), rs), r)
    ensures RemoveAll(WithoutPostRow(db, id), rs) == DeletePost(db, id)
  {
    RemoveAllKeepsPurge(WithoutPostRow(db, id), rs);
    NothingDanglingPurge(RemoveAll(WithoutPostRow(db, id), rs));
    PostPurgeIsDelete(db, id);
  }

  function Dependents(db: Db): nat {
    |db.posts| + |db.comments|
  }

  lemma {:induction false} RemoveAllCounts(db: Db, rs: seq<Removal>)
    requires Legal(db, rs)
    ensures Dependents(RemoveAll(db, rs)) == Dependents(db) - |rs|
  {
    if rs != [] {
      RemoveAllCounts(db, rs[..|rs| - 1]);
    }
  }

  /** Removal in any order comes to an end, after exactly as many steps as there are dependents. */
  lemma CascadeLength(db: Db, id: Uuid, rs: seq<Removal>)
    requires Integrity(db)
    requires Legal(WithoutUserRow(db, id), rs)
    ensures |rs| <= Dependents(db) - Dependents(DeleteUser(db, id))
    ensures |rs| == Dependents(db) - Dependents(DeleteUser(db, id))
       <==> forall r :: !Dangling(RemoveAll(WithoutUserRow(db, id), rs), r)
  {
    RemoveAllCounts(WithoutUserRow(db, id), rs);
    RemoveAllKeepsPurge(WithoutUserRow(db, id), rs);
    PurgeIsDelete(db, id);
    FullyPurged(RemoveAll(WithoutUserRow(db, id), rs));
  }

  lemma FullyPurged(db: Db)
    ensures Dependents(Purge(db)) <= Dependents(db)
    ensures Dependents(Purge(db)) == Dependents(db) <==> forall r :: !Dangling(db, r)
  {
    PurgeShrinks(db);
    if r :| Dangling(db, r) {
      RemoveKeepsPurge(db, r);
      PurgeShrinks(Remove(db, r));
    } else {
      NothingDanglingPurge(db);
    }
  }

  lemma {:induction false} SelectShrinks<T>(rows: seq<T>, p: T -> bool)
    ensures |Select(rows, p)| <= |rows|
  {
    if rows != [] {
      SelectShrinks(rows[..|rows| - 1], p);
    }
  }

  lemma PurgeShrinks(db: Db)
    ensures Dependents(Purge(db)) <= Dependents(db)
  {
    var users := KeysOf(db.users, UserId);
    SelectShrinks(db.posts, AuthorIn(users));
    SelectShrinks(db.comments, BothIn(KeysOf(Purge(db).posts, PostId), users));
  }
}
