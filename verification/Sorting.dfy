/** ORDER BY and LIMIT/OFFSET: sorted, nothing lost, and pages that fit together. */
module Sorting {
  import opened Tables
  import opened Schema
  import opened Statements

  ghost predicate Ordered<T>(rows: seq<T>, before: (T, T) -> bool) {
    forall i, j | 0 <= i < j < |rows| :: before(rows[i], rows[j])
  }

  /** A total preorder, as every comparison of creation times is. */
  ghost predicate Preorder<T(!new)>(before: (T, T) -> bool) {
    (forall a, b :: before(a, b) || before(b, a)) && (forall a, b, c :: before(a, b) && before(b, c) ==> before(a, c))
  }

  lemma {:induction false} PlaceKeeps<T>(sorted: seq<T>, r: T, before: (T, T) -> bool)
    ensures multiset(Place(sorted, r, before)) == multiset(sorted) + multiset{r}
  {
    if !(sorted == [] || before(sorted[|sorted| - 1], r)) {
      var n := |sorted| - 1;
      PlaceKeeps(sorted[..n], r, before);
      assert sorted == sorted[..n] + [sorted[n]];
    }
  }

  lemma {:induction false} PlaceOrdered<T(!new)>(sorted: seq<T>, r: T, before: (T, T) -> bool)
    requires Preorder(before) && Ordered(sorted, before)
    ensures Ordered(Place(sorted, r, before), before)
  {
    if sorted == [] || before(sorted[|sorted| - 1], r) {
      var next := sorted + [r];
      forall i, j | 0 <= i < j < |next|
        ensures before(next[i], next[j])
      {
        if j == |sorted| && i < |sorted| - 1 {
          assert before(sorted[i], sorted[|sorted| - 1]);
        }
      }
    } else {
      var n := |sorted| - 1;
      var init := Place(sorted[..n], r, before);
      PlaceOrdered(sorted[..n], r, before);
      PlaceKeeps(sorted[..n], r, before);
      forall i | 0 <= i < |init|
        ensures before(init[i], sorted[n])
      {
        assert init[i] in multiset(init);
        if init[i] != r {
          assert init[i] in multiset(sorted[..n]);
          var k :| 0 <= k < n && sorted[k] == init[i];
        }
      }
    }
  }

  lemma {:induction false} OrderByKeeps<T>(rows: seq<T>, before: (T, T) -> bool)
    ensures multiset(OrderBy(rows, before)) == multiset(rows)
    ensures |OrderBy(rows, before)| == |rows|
  {
    if rows != [] {
      var n := |rows| - 1;
      OrderByKeeps(rows[..n], before);
      PlaceKeeps(OrderBy(rows[..n], before), rows[n], before);
      assert rows == rows[..n] + [rows[n]];
      assert |multiset(OrderBy(rows, before))| == |multiset(rows)|;
    }
  }

  lemma {:induction false} OrderByOrdered<T(!new)>(rows: seq<T>, before: (T, T) -> bool)
    requires Preorder(before)
    ensures Ordered(OrderBy(rows, before), before)
  {
    if rows != [] {
      var n := |rows| - 1;
      OrderByOrdered(rows[..n], before);
      PlaceOrdered(OrderBy(rows[..n], before), rows[n], before);
    }
  }

  // ---- windows ----------------------------------------------------------------

  function Least(a: nat, b: nat): nat {
    if a < b then a else b
  }

  lemma WindowIsSlice<T>(rows: seq<T>, limit: nat, offset: nat)
    ensures Least(offset, |rows|) <= Least(offset + limit, |rows|)
    ensures Window(rows, limit, offset) == Success(rows[Least(offset, |rows|)..Least(offset + limit, |rows|)])
  {
  }

  lemma SameMembers<T>(a: seq<T>, b: seq<T>)
    requires multiset(a) == multiset(b)
    ensures forall x :: x in a <==> x in b
  {
    assert forall x :: (x in a <==> x in multiset(a)) && (x in b <==> x in multiset(b));
  }

  lemma SliceOrdered<T>(sorted: seq<T>, before: (T, T) -> bool, lo: nat, hi: nat)
    requires Ordered(sorted, before) && lo <= hi <= |sorted|
    ensures Ordered(sorted[lo..hi], before)
  {
    var page := sorted[lo..hi];
    forall i, j | 0 <= i < j < |page|
      ensures before(page[i], page[j])
    {
      assert page[i] == sorted[lo + i] && page[j] == sorted[lo + j];
    }
  }

  /** A page of sorted rows is sorted and has rows of the table only. */
  lemma WindowSorted<T(!new)>(rows: seq<T>, before: (T, T) -> bool, limit: nat, offset: int)
    requires Preorder(before) && Window(OrderBy(rows, before), limit, offset).Success?
    ensures var page := Window(OrderBy(rows, before), limit, offset).value;
            Ordered(page, before) && forall x | x in page :: x in rows
  {
    var sorted := OrderBy(rows, before);
    var lo, hi := Least(offset, |sorted|), Least(offset + limit, |sorted|);
    OrderByOrdered(rows, before);
    OrderByKeeps(rows, before);
    WindowIsSlice(sorted, limit, offset);
    SliceOrdered(sorted, before, lo, hi);
    SameMembers(sorted, rows);
  }

  /** The same by creation time, for the three lists. */
  lemma PostsNewestFirst(rows: seq<Post>, limit: nat, offset: int)
    requires Window(OrderBy(rows, NewestPost), limit, offset).Success?
    ensures var page := Window(OrderBy(rows, NewestPost), limit, offset).value;
            forall i, j | 0 <= i < j < |page| :: page[i].createdAt >= page[j].createdAt
  {
    assert Preorder(NewestPost);
    WindowSorted(rows, NewestPost, limit, offset);
    var page := Window(OrderBy(rows, NewestPost), limit, offset).value;
    assert forall i, j | 0 <= i < j < |page| :: NewestPost(page[i], page[j]);
  }

  lemma ListedNewestFirst(db: Db, f: PostFilter, limit: nat, offset: int)
    requires ListPosts(db, f, limit, offset).Success?
    ensures var page := ListPosts(db, f, limit, offset).value;
            forall i, j | 0 <= i < j < |page| :: page[i].0.createdAt >= page[j].0.createdAt
  {
    PostsNewestFirst(Select(db.posts, Matches(f)), limit, offset);
  }

  lemma UsersNewestFirst(rows: seq<(User, Role)>, limit: nat, offset: int)
    requires Window(OrderBy(rows, NewestUser), limit, offset).Success?
    ensures var page := Window(OrderBy(rows, NewestUser), limit, offset).value;
            forall i, j | 0 <= i < j < |page| :: page[i].0.createdAt >= page[j].0.createdAt
  {
    assert Preorder(NewestUser);
    WindowSorted(rows, NewestUser, limit, offset);
    var page := Window(OrderBy(rows, NewestUser), limit, offset).value;
    assert forall i, j | 0 <= i < j < |page| :: NewestUser(page[i], page[j]);
  }

  lemma CommentsOldestFirst(rows: seq<Comment>, limit: nat, offset: int)
    requires Window(OrderBy(rows, OldestComment), limit, offset).Success?
    ensures var page := Window(OrderBy(rows, OldestComment), limit, offset).value;
            forall i, j | 0 <= i < j < |page| :: page[i].createdAt <= page[j].createdAt
  {
    assert Preorder(OldestComment);
    WindowSorted(rows, OldestComment, limit, offset);
    var page := Window(OrderBy(rows, OldestComment), limit, offset).value;
    assert forall i, j | 0 <= i < j < |page| :: OldestComment(page[i], page[j]);
  }
}
