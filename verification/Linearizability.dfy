/** No handler opens a transaction, and yet every interleaving of requests has the effect and the
    answers of running them one at a time, in the order of their deciding statements. Only the
    answers of the three list endpoints, which read twice or more, are outside this: `ListReads`. */
module Linearizability {
  import opened Tables
  import opened Schema
  import opened Api
  import opened Handlers
  import opened Runs

  predicate IsList(r: Request) {
    r.ListUsersRequest? || r.ListPostsRequest? || r.ListCommentsRequest?
  }

  /** No statement writes `user_roles`. */
  lemma RolesFixed(c: Call, pc: Pc, db: Db)
    ensures Step(c, pc, db).0.roles == db.roles
  {
    FirstKeepsRoles(c, db);
  }

  lemma FirstKeepsRoles(c: Call, db: Db)
    ensures FirstStep(c, db).0.roles == db.roles
  {
  }

  /** Before its deciding statement a request leaves the store alone, and depends on it only through
      the roles: wherever it resumes, it does what it would have done from the start. */
  ghost predicate Resumable(c: Call, pc: Pc, roles: seq<Role>)
    requires Fits(c, pc)
  {
    forall db: Db | db.roles == roles :: Finish(c, pc, db) == Atomic(c, db)
  }

  lemma UndecidedStep(c: Call, pc: Pc, db: Db)
    requires Fits(c, pc) && !Decided(pc) && !Decided(Step(c, pc, db).1)
    ensures Fits(c, Step(c, pc, db).1)
    ensures Step(c, pc, db).0 == db
    ensures !IsList(c.request) && Resumable(c, pc, db.roles) ==> Resumable(c, Step(c, pc, db).1, db.roles)
  {
    StepProgress(c, pc, db);
    var pc' := Step(c, pc, db).1;
    if !IsList(c.request) && Resumable(c, pc, db.roles) {
      forall d: Db | d.roles == db.roles
        ensures Finish(c, pc', d) == Atomic(c, d)
      {
        assert Step(c, pc, d) == (d, pc');
        assert Finish(c, pc, d) == Finish(c, pc', d);
      }
    }
  }

  /** List requests never write. */
  lemma ListsRead(c: Call, pc: Pc, db: Db)
    requires IsList(c.request) && Fits(c, pc)
    ensures Step(c, pc, db).0 == db
    ensures Finish(c, pc, db).0 == db
    decreases Rank(pc)
  {
    if !pc.Done? {
      StepProgress(c, pc, db);
      ListsRead(c, Step(c, pc, db).1, db);
    }
  }

  /** After its deciding statement, nothing is left but reading the role of the written row. */
  lemma DecidedFinish(c: Call, pc: Pc, db: Db, db': Db)
    requires Fits(c, pc) && Decided(pc) && db.roles == db'.roles
    ensures Finish(c, pc, db).0 == db && Finish(c, pc, db).1 == Finish(c, pc, db').1
    ensures Fits(c, Step(c, pc, db).1) && Decided(Step(c, pc, db).1) && Step(c, pc, db).0 == db
    ensures Finish(c, Step(c, pc, db).1, db').1 == Finish(c, pc, db).1
  {
    if pc.Written? {
      var done := Step(c, pc, db).1;
      assert Finish(c, pc, db) == Finish(c, done, db);
      assert Finish(c, pc, db') == Finish(c, Step(c, pc, db').1, db');
    }
  }

  /** What holds of request `i` of a run whose decisions so far are `order`. */
  ghost predicate Tracked(calls: seq<Call>, db0: Db, s: Sys, order: seq<nat>, i: nat)
    requires Proper(calls, s) && i < |calls|
    requires forall k | 0 <= k < |order| :: order[k] < |calls|
  {
    && (Decided(s.pcs[i]) <==> i in order)
    && (!IsList(calls[i].request) && !Decided(s.pcs[i]) ==> Resumable(calls[i], s.pcs[i], db0.roles))
  }

  /** The answer of the k-th request to decide is the one it gets when run alone at its turn. */
  ghost predicate Answered(calls: seq<Call>, db0: Db, s: Sys, order: seq<nat>, k: nat)
    requires Proper(calls, s)
    requires forall k | 0 <= k < |order| :: order[k] < |calls|
    requires k < |order|
  {
    var i := order[k];
    IsList(calls[i].request) ||
    Finish(calls[i], s.pcs[i], s.db).1 == Atomic(calls[i], OneByOne(calls, db0, order[..k])).1
  }

  ghost predicate Explained(calls: seq<Call>, db0: Db, s: Sys, order: seq<nat>) {
    && Proper(calls, s)
    && (forall k | 0 <= k < |order| :: order[k] < |calls|)
    && Unique(order, Identity)
    && s.db == OneByOne(calls, db0, order)
    && s.db.roles == db0.roles
    && (forall i | 0 <= i < |calls| :: Tracked(calls, db0, s, order, i))
    && (forall k | 0 <= k < |order| :: Answered(calls, db0, s, order, k))
  }

  function Identity(n: nat): nat { n }

  lemma InitiallyExplained(calls: seq<Call>, db0: Db)
    ensures Explained(calls, db0, Initial(calls, db0), [])
  {
    forall i | 0 <= i < |calls|
      ensures Tracked(calls, db0, Initial(calls, db0), [], i)
    {
      assert Resumable(calls[i], Start, db0.roles);
    }
  }

  /** A step that decides nothing. */
  lemma QuietMove(calls: seq<Call>, db0: Db, s: Sys, order: seq<nat>, i: nat)
    requires Explained(calls, db0, s, order) && i < |calls|
    requires Decided(s.pcs[i]) || !Decided(Step(calls[i], s.pcs[i], s.db).1)
    ensures Explained(calls, db0, Move(calls, s, i), order)
  {
    var c, pc := calls[i], s.pcs[i];
    var s' := Move(calls, s, i);
    assert Tracked(calls, db0, s, order, i);
    if Decided(pc) {
      DecidedFinish(c, pc, s.db, s.db);
    } else {
      UndecidedStep(c, pc, s.db);
    }
    assert s'.db == s.db;
    forall j | 0 <= j < |calls|
      ensures Tracked(calls, db0, s', order, j)
    {
      assert Tracked(calls, db0, s, order, j);
    }
    forall k | 0 <= k < |order|
      ensures Answered(calls, db0, s', order, k)
    {
      assert Answered(calls, db0, s, order, k);
    }
  }

  /** The step at which request `i` decides. */
  lemma DecidingMove(calls: seq<Call>, db0: Db, s: Sys, order: seq<nat>, i: nat)
    requires Explained(calls, db0, s, order) && i < |calls|
    requires !Decided(s.pcs[i]) && Decided(Step(calls[i], s.pcs[i], s.db).1)
    ensures Explained(calls, db0, Move(calls, s, i), order + [i])
  {
    var c, pc := calls[i], s.pcs[i];
    var s', order' := Move(calls, s, i), order + [i];
    var pc' := s'.pcs[i];
    assert Tracked(calls, db0, s, order, i);
    StepProgress(c, pc, s.db);
    RolesFixed(c, pc, s.db);
    DecidedFinish(c, pc', s'.db, s'.db);
    assert Finish(c, pc, s.db) == Finish(c, pc', s'.db);
    if IsList(c.request) {
      ListsRead(c, pc, s.db);
      ListsRead(c, Start, s.db);
    }
    assert order'[..|order|] == order;
    assert s'.db == OneByOne(calls, db0, order');
    assert Unique(order', Identity);
    forall j | 0 <= j < |calls|
      ensures Tracked(calls, db0, s', order', j)
    {
      assert Tracked(calls, db0, s, order, j);
    }
    forall k | 0 <= k < |order'|
      ensures Answered(calls, db0, s', order', k)
    {
      assert order'[..k] == order[..k];
      if k < |order| {
        StaysAnswered(calls, db0, s, order, i, k);
      }
    }
  }

  lemma StaysAnswered(calls: seq<Call>, db0: Db, s: Sys, order: seq<nat>, i: nat, k: nat)
    requires Explained(calls, db0, s, order) && i < |calls| && k < |order|
    requires !Decided(s.pcs[i])
    ensures var j := order[k]; var s' := Move(calls, s, i);
            && j != i && Fits(calls[j], s'.pcs[j])
            && (IsList(calls[j].request) ||
                Finish(calls[j], s'.pcs[j], s'.db).1 == Atomic(calls[j], OneByOne(calls, db0, order[..k])).1)
  {
    var j := order[k];
    assert Tracked(calls, db0, s, order, i) && Tracked(calls, db0, s, order, j);
    assert Answered(calls, db0, s, order, k);
    RolesFixed(calls[i], s.pcs[i], s.db);
    DecidedFinish(calls[j], s.pcs[j], s.db, Move(calls, s, i).db);
  }

  lemma {:induction false} EveryRunExplained(calls: seq<Call>, db0: Db, sched: seq<nat>)
    requires Schedule(calls, sched)
    ensures Explained(calls, db0, Run(calls, db0, sched), Decisions(calls, db0, sched))
  {
    if sched == [] {
      InitiallyExplained(calls, db0);
    } else {
      var before, i := sched[..|sched| - 1], sched[|sched| - 1];
      EveryRunExplained(calls, db0, before);
      var s, order := Run(calls, db0, before), Decisions(calls, db0, before);
      if !Decided(s.pcs[i]) && Decided(Step(calls[i], s.pcs[i], s.db).1) {
        DecidingMove(calls, db0, s, order, i);
      } else {
        QuietMove(calls, db0, s, order, i);
      }
    }
  }

  /** Linearizability: at any moment of any interleaving, the store is the one reached by running
      the decided requests one at a time, each once, and every answer already given is the one its
      request gets in that sequence. */
  lemma Linearizable(calls: seq<Call>, db0: Db, sched: seq<nat>)
    requires Schedule(calls, sched)
    ensures var s, order := Run(calls, db0, sched), Decisions(calls, db0, sched);
            && s.db == OneByOne(calls, db0, order)
            && Unique(order, Identity)
            && (forall i | 0 <= i < |calls| :: i in order <==> Decided(s.pcs[i]))
            && (forall k | 0 <= k < |order| && s.pcs[order[k]].Done? && !IsList(calls[order[k]].request) ::
                  s.pcs[order[k]].response == Atomic(calls[order[k]], OneByOne(calls, db0, order[..k])).1)
  {
    EveryRunExplained(calls, db0, sched);
    var s, order := Run(calls, db0, sched), Decisions(calls, db0, sched);
    forall i | 0 <= i < |calls|
      ensures i in order <==> Decided(s.pcs[i])
    {
      assert Tracked(calls, db0, s, order, i);
    }
    forall k | 0 <= k < |order| && s.pcs[order[k]].Done? && !IsList(calls[order[k]].request)
      ensures s.pcs[order[k]].response == Atomic(calls[order[k]], OneByOne(calls, db0, order[..k])).1
    {
      assert Answered(calls, db0, s, order, k);
    }
  }

  lemma DecisionsStep(calls: seq<Call>, db0: Db, sched: seq<nat>)
    requires Schedule(calls, sched) && sched != []
    ensures Schedule(calls, sched[..|sched| - 1])
    ensures Decisions(calls, db0, sched[..|sched| - 1]) <= Decisions(calls, db0, sched)
  {
  }

  lemma {:induction false} DecisionsGrow(calls: seq<Call>, db0: Db, sched: seq<nat>, n: nat)
    requires Schedule(calls, sched) && n <= |sched|
    ensures Schedule(calls, sched[..n])
    ensures Decisions(calls, db0, sched[..n]) <= Decisions(calls, db0, sched)
    decreases |sched|
  {
    if n == |sched| {
      assert sched[..n] == sched;
    } else {
      DecisionsStep(calls, db0, sched);
      DecisionsGrow(calls, db0, sched[..|sched| - 1], n);
      assert sched[..|sched| - 1][..n] == sched[..n];
    }
  }

  /** The order respects real time: a request answered before another began comes before it. */
  lemma RealTimeOrder(calls: seq<Call>, db0: Db, sched: seq<nat>, n: nat, i: nat, j: nat)
    requires Schedule(calls, sched) && n <= |sched| && Schedule(calls, sched[..n])
    requires i < |calls| && j < |calls|
    requires Run(calls, db0, sched[..n]).pcs[i].Done? && Run(calls, db0, sched[..n]).pcs[j].Start?
    requires Decided(Run(calls, db0, sched).pcs[j])
    ensures var order := Decisions(calls, db0, sched);
            exists a, b :: 0 <= a < b < |order| && order[a] == i && order[b] == j
  {
    var early, order := Decisions(calls, db0, sched[..n]), Decisions(calls, db0, sched);
    assert i in early && j !in early by {
      Linearizable(calls, db0, sched[..n]);
    }
    assert j in order by {
      Linearizable(calls, db0, sched);
    }
    DecisionsGrow(calls, db0, sched, n);
    PrefixFirst(early, order, i, j);
  }

  lemma PrefixFirst(early: seq<nat>, order: seq<nat>, i: nat, j: nat)
    requires early <= order && i in early && j !in early && j in order
    ensures exists a, b :: 0 <= a < b < |order| && order[a] == i && order[b] == j
  {
    var a :| 0 <= a < |early| && early[a] == i;
    var b :| 0 <= b < |order| && order[b] == j;
    assert order[a] == i;
  }
}
