/** Tables as sequences of rows in insertion order, with the parts of SQL the API uses on them:
    WHERE (`Select`), UPDATE (`Rewrite`), unique keys and foreign keys. Recursion takes the last
    row first, so that an appended row and a loop over a prefix unfold in one step. */
module Tables {

  datatype Option<+T> = None | Some(value: T) {
    function GetOr(default: T): T {
      if Some? then value else default
    }
  }

  datatype Result<+T, +E> = Success(value: T) | Failure(error: E)

  function Select<T>(rows: seq<T>, p: T -> bool): seq<T> {
    if rows == [] then []
    else
      var n := |rows| - 1;
      Select(rows[..n], p) + (if p(rows[n]) then [rows[n]] else [])
  }

  function Rewrite<T>(rows: seq<T>, p: T -> bool, f: T -> T): seq<T> {
    seq(|rows|, i requires 0 <= i < |rows| => if p(rows[i]) then f(rows[i]) else rows[i])
  }

  function With<T, K(==)>(key: T -> K, k: K): T -> bool {
    (r: T) => key(r) == k
  }

  function Without<T, K(==)>(key: T -> K, k: K): T -> bool {
    (r: T) => key(r) != k
  }

  function Outside<T, K(==)>(key: T -> K, ks: set<K>): T -> bool {
    (r: T) => key(r) !in ks
  }

  ghost function KeysOf<T, K>(rows: seq<T>, key: T -> K): set<K> {
    set r | r in rows :: key(r)
  }

  ghost predicate Unique<T, K>(rows: seq<T>, key: T -> K) {
    forall i, j | 0 <= i < j < |rows| :: key(rows[i]) != key(rows[j])
  }

  /** A foreign key: every row refers to one of `targets`. */
  ghost predicate Refers<T, K>(rows: seq<T>, key: T -> K, targets: set<K>) {
    forall i | 0 <= i < |rows| :: key(rows[i]) in targets
  }

  lemma {:induction false} SelectHas<T>(rows: seq<T>, p: T -> bool, r: T)
    ensures r in Select(rows, p) <==> r in rows && p(r)
  {
    if rows != [] {
      var n := |rows| - 1;
      SelectHas(rows[..n], p, r);
      assert rows == rows[..n] + [rows[n]];
    }
  }

  lemma SelectMembers<T>(rows: seq<T>, p: T -> bool)
    ensures forall r :: r in Select(rows, p) <==> r in rows && p(r)
  {
    forall r {
      SelectHas(rows, p, r);
    }
  }

  lemma {:induction false} SelectAppend<T>(a: seq<T>, b: seq<T>, p: T -> bool)
    ensures Select(a + b, p) == Select(a, p) + Select(b, p)
  {
    if b == [] {
      assert a + b == a;
    } else {
      var n := |b| - 1;
      SelectAppend(a, b[..n], p);
      assert (a + b)[..|a| + n] == a + b[..n];
    }
  }

  lemma {:induction false} SelectCongruence<T>(rows: seq<T>, p: T -> bool, q: T -> bool)
    requires forall r | r in rows :: p(r) == q(r)
    ensures Select(rows, p) == Select(rows, q)
  {
    if rows != [] {
      SelectCongruence(rows[..|rows| - 1], p, q);
    }
  }

  lemma {:induction false} SelectAll<T>(rows: seq<T>, p: T -> bool)
    requires forall r | r in rows :: p(r)
    ensures Select(rows, p) == rows
  {
    if rows != [] {
      var n := |rows| - 1;
      assert rows[n] in rows && forall r | r in rows[..n] :: r in rows;
      SelectAll(rows[..n], p);
      assert rows == rows[..n] + [rows[n]];
    }
  }

  lemma {:induction false} SelectNone<T>(rows: seq<T>, p: T -> bool)
    requires forall r | r in rows :: !p(r)
    ensures Select(rows, p) == []
  {
    if rows != [] {
      SelectNone(rows[..|rows| - 1], p);
    }
  }

  lemma SelectIdempotent<T>(rows: seq<T>, p: T -> bool)
    ensures Select(Select(rows, p), p) == Select(rows, p)
  {
    forall r | r in Select(rows, p)
      ensures p(r)
    {
      SelectHas(rows, p, r);
    }
    SelectAll(Select(rows, p), p);
  }

  lemma SelectSingle<T>(row: T, p: T -> bool)
    ensures Select([row], p) == if p(row) then [row] else []
  {
    assert [row][..0] == [];
  }

  /** Removing a row that a WHERE clause rejects does not change what the clause selects. */
  lemma {:induction false} SelectDrop<T>(rows: seq<T>, p: T -> bool, i: nat)
    requires i < |rows| && !p(rows[i])
    ensures Select(rows[..i] + rows[i + 1..], p) == Select(rows, p)
  {
    var n := |rows| - 1;
    var rest := rows[..i] + rows[i + 1..];
    if i == n {
      assert rest == rows[..n];
    } else {
      var init := rows[..n];
      SelectDrop(init, p, i);
      assert rest[..|rest| - 1] == init[..i] + init[i + 1..];
      assert rest[|rest| - 1] == rows[n];
    }
  }

  lemma {:induction false} SelectUnique<T, K>(rows: seq<T>, p: T -> bool, key: T -> K)
    requires Unique(rows, key)
    ensures Unique(Select(rows, p), key)
  {
    if rows != [] {
      var n := |rows| - 1;
      SelectUnique(rows[..n], p, key);
      var s := Select(rows[..n], p);
      forall i | 0 <= i < |s|
        ensures key(s[i]) != key(rows[n])
      {
        SelectHas(rows[..n], p, s[i]);
      }
    }
  }

  lemma SelectRefers<T, K>(rows: seq<T>, p: T -> bool, key: T -> K, targets: set<K>, kept: set<K>)
    requires Refers(rows, key, targets)
    requires forall r | r in rows && p(r) && key(r) in targets :: key(r) in kept
    ensures Refers(Select(rows, p), key, kept)
  {
    var s := Select(rows, p);
    forall i | 0 <= i < |s|
      ensures key(s[i]) in kept
    {
      SelectHas(rows, p, s[i]);
    }
  }

  /** A unique key picks out at most one row. */
  lemma {:induction false} SelectOne<T, K>(rows: seq<T>, key: T -> K, i: nat)
    requires Unique(rows, key) && i < |rows|
    ensures Select(rows, With(key, key(rows[i]))) == [rows[i]]
  {
    var n := |rows| - 1;
    var p := With(key, key(rows[i]));
    if i < n {
      SelectOne(rows[..n], key, i);
      assert key(rows[i]) != key(rows[n]);
    } else {
      forall r | r in rows[..n]
        ensures !p(r)
      {
        var j :| 0 <= j < n && rows[j] == r;
        assert key(rows[j]) != key(rows[n]);
      }
      SelectNone(rows[..n], p);
    }
  }

  /** What a lookup by a unique key returns: the row with that key, or nothing when no row has it. */
  lemma Lookup<T, K>(rows: seq<T>, key: T -> K, k: K)
    requires Unique(rows, key)
    ensures |Select(rows, With(key, k))| <= 1
    ensures forall r :: Select(rows, With(key, k)) == [r] <==> r in rows && key(r) == k
    ensures Select(rows, With(key, k)) == [] <==> k !in KeysOf(rows, key)
  {
    var s := Select(rows, With(key, k));
    if k in KeysOf(rows, key) {
      var i :| 0 <= i < |rows| && key(rows[i]) == k;
      SelectOne(rows, key, i);
      forall r
        ensures s == [r] <==> r in rows && key(r) == k
      {
        SelectHas(rows, With(key, k), r);
        assert r in s <==> r == rows[i];
      }
    } else {
      SelectNone(rows, With(key, k));
    }
  }

  lemma OneRowPerKey<T, K>(rows: seq<T>, key: T -> K, r: T)
    requires Unique(rows, key) && r in rows
    ensures forall q | q in rows && key(q) == key(r) :: q == r
  {
    forall q | q in rows && key(q) == key(r)
      ensures q == r
    {
      var i :| 0 <= i < |rows| && rows[i] == r;
      var j :| 0 <= j < |rows| && rows[j] == q;
      assert key(rows[i]) == key(rows[j]);
    }
  }

  lemma RewriteOne<T, K>(rows: seq<T>, key: T -> K, i: nat, f: T -> T)
    requires Unique(rows, key) && i < |rows|
    ensures Rewrite(rows, With(key, key(rows[i])), f) == rows[i := f(rows[i])]
  {
  }

  lemma UniqueInsert<T, K>(rows: seq<T>, r: T, key: T -> K)
    requires Unique(rows, key)
    ensures Unique(rows + [r], key) <==> key(r) !in KeysOf(rows, key)
    ensures KeysOf(rows + [r], key) == KeysOf(rows, key) + {key(r)}
  {
    var next := rows + [r];
    assert next[|rows|] == r && forall i | 0 <= i < |rows| :: next[i] == rows[i];
    if key(r) in KeysOf(rows, key) {
      var i :| 0 <= i < |rows| && key(rows[i]) == key(r);
      assert key(next[i]) == key(next[|rows|]);
    }
    assert forall x :: x in next <==> x in rows || x == r;
  }

  lemma UniqueReplace<T, K>(rows: seq<T>, i: nat, r: T, key: T -> K)
    requires Unique(rows, key) && i < |rows|
    ensures Unique(rows[i := r], key) <==> forall j | 0 <= j < |rows| && j != i :: key(rows[j]) != key(r)
  {
    var next := rows[i := r];
    assert next[i] == r && forall j | 0 <= j < |rows| && j != i :: next[j] == rows[j];
    if j :| 0 <= j < |rows| && j != i && key(rows[j]) == key(r) {
      assert key(next[j]) == key(next[i]);
    }
  }
}
