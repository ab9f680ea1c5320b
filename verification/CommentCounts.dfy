/** Comments are conserved: the derived counts of all posts add up to the number of comments. */
module CommentCounts {
  import opened Tables
  import opened Schema
  import opened Statements
  import opened Seeding
  import opened Api
  import opened Runs
  import opened Invariants

  function Sum(posts: seq<Post>, db: Db): nat {
    if posts == [] then 0
    else Sum(posts[..|posts| - 1], db) + WithCount(db, posts[|posts| - 1]).1
  }

  ghost function On(ids: set<Uuid>): Comment -> bool {
    (c: Comment) => c.postId in ids
  }

  lemma {:induction false} CountsAdd(comments: seq<Comment>, ids: set<Uuid>, id: Uuid)
    requires id !in ids
    ensures |Select(comments, On(ids + {id}))|
         == |Select(comments, On(ids))| + |Select(comments, With(CommentPost, id))|
  {
    if comments != [] {
      var n := |comments| - 1;
      CountsAdd(comments[..n], ids, id);
      var c := comments[n];
      assert c.postId in ids + {id} <==> c.postId in ids || c.postId == id;
      assert On(ids + {id})(c) == (c.postId in ids + {id}) && On(ids)(c) == (c.postId in ids);
      assert With(CommentPost, id)(c) == (CommentPost(c) == id);
    }
  }

  lemma {:induction false} SumCounts(posts: seq<Post>, db: Db)
    requires Unique(posts, PostId)
    ensures Sum(posts, db) == |Select(db.comments, On(KeysOf(posts, PostId)))|
  {
    if posts == [] {
      SelectNone(db.comments, On(KeysOf(posts, PostId)));
    } else {
      var n := |posts| - 1;
      SumCounts(posts[..n], db);
      assert posts == posts[..n] + [posts[n]];
      UniqueInsert(posts[..n], posts[n], PostId);
      CountsAdd(db.comments, KeysOf(posts[..n], PostId), posts[n].id);
    }
  }

  lemma IntactCounts(db: Db)
    requires Integrity(db)
    ensures Sum(db.posts, db) == |db.comments|
  {
    SumCounts(db.posts, db);
    forall c | c in db.comments
      ensures On(KeysOf(db.posts, PostId))(c)
    {
      var i :| 0 <= i < |db.comments| && db.comments[i] == c;
      assert CommentPost(db.comments[i]) in KeysOf(db.posts, PostId);
    }
    SelectAll(db.comments, On(KeysOf(db.posts, PostId)));
  }

  /** In every reachable store the comment counts of the posts sum to the number of comments,
      whatever creates and cascading deletes the run contained. */
  lemma CommentsConserved(seed: Seed, calls: seq<Call>, sched: seq<nat>)
    requires DistinctIds(seed) && Schedule(calls, sched)
    ensures var db := Run(calls, SeedDb(seed), sched).db; Sum(db.posts, db) == |db.comments|
  {
    SeededRunIntact(seed, calls, sched);
    IntactCounts(Run(calls, SeedDb(seed), sched).db);
  }
}
