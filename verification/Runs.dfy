/** Many requests in flight: their steps interleave in any order. */
module Runs {
  import opened Schema
  import opened Api
  import opened Handlers

  /** The store and the program counter of each request. */
  datatype Sys = Sys(db: Db, pcs: seq<Pc>)

  ghost predicate Proper(calls: seq<Call>, s: Sys) {
    |s.pcs| == |calls| && forall i | 0 <= i < |calls| :: Fits(calls[i], s.pcs[i])
  }

  function Initial(calls: seq<Call>, db: Db): Sys {
    Sys(db, seq(|calls|, _ => Start))
  }

  /** Request `i` takes its next step; a finished request stays as it is. */
  function Move(calls: seq<Call>, s: Sys, i: nat): Sys
    requires |s.pcs| == |calls| && i < |calls|
  {
    var (db, pc) := Step(calls[i], s.pcs[i], s.db);
    Sys(db, s.pcs[i := pc])
  }

  /** An interleaving: which request takes each successive step. */
  ghost predicate Schedule(calls: seq<Call>, sched: seq<nat>) {
    forall k | 0 <= k < |sched| :: sched[k] < |calls|
  }

  function Run(calls: seq<Call>, db: Db, sched: seq<nat>): (s: Sys)
    requires forall k | 0 <= k < |sched| :: sched[k] < |calls|
    ensures |s.pcs| == |calls|
  {
    if sched == [] then Initial(calls, db)
    else Move(calls, Run(calls, db, sched[..|sched| - 1]), sched[|sched| - 1])
  }

  lemma {:induction false} RunProper(calls: seq<Call>, db: Db, sched: seq<nat>)
    requires Schedule(calls, sched)
    ensures Proper(calls, Run(calls, db, sched))
  {
    if sched != [] {
      RunProper(calls, db, sched[..|sched| - 1]);
      var s, i := Run(calls, db, sched[..|sched| - 1]), sched[|sched| - 1];
      if !s.pcs[i].Done? {
        StepProgress(calls[i], s.pcs[i], s.db);
      }
    }
  }

  // ---- one request in a run ---------------------------------------------------

  /** The stores in which request `i` took its steps, in order. */
  function Seen(calls: seq<Call>, db: Db, sched: seq<nat>, i: nat): seq<Db>
    requires i < |calls| && forall k | 0 <= k < |sched| :: sched[k] < |calls|
  {
    if sched == [] then []
    else
      var before := sched[..|sched| - 1];
      if sched[|sched| - 1] == i then Seen(calls, db, before, i) + [Run(calls, db, before).db]
      else Seen(calls, db, before, i)
  }

  /** Where a request stands after steps in these stores. */
  function Progress(c: Call, dbs: seq<Db>): Pc {
    if dbs == [] then Start
    else Step(c, Progress(c, dbs[..|dbs| - 1]), dbs[|dbs| - 1]).1
  }

  /** A request depends on the others only through the stores it sees. */
  lemma {:induction false} RunProgress(calls: seq<Call>, db: Db, sched: seq<nat>, i: nat)
    requires Schedule(calls, sched) && i < |calls|
    ensures Run(calls, db, sched).pcs[i] == Progress(calls[i], Seen(calls, db, sched, i))
  {
    if sched != [] {
      var before, j := sched[..|sched| - 1], sched[|sched| - 1];
      RunProgress(calls, db, before, i);
      RunLast(calls, db, sched);
      SeenLast(calls, db, sched, i);
      MovedPc(calls, Run(calls, db, before), j, i);
      if i == j {
        ProgressAppend(calls[i], Seen(calls, db, before, i), Run(calls, db, before).db);
      }
    }
  }

  lemma RunLast(calls: seq<Call>, db: Db, sched: seq<nat>)
    requires Schedule(calls, sched) && sched != []
    ensures Run(calls, db, sched) == Move(calls, Run(calls, db, sched[..|sched| - 1]), sched[|sched| - 1])
  {
  }

  lemma SeenLast(calls: seq<Call>, db: Db, sched: seq<nat>, i: nat)
    requires Schedule(calls, sched) && sched != [] && i < |calls|
    ensures var before := sched[..|sched| - 1];
            Seen(calls, db, sched, i) ==
              if sched[|sched| - 1] == i then Seen(calls, db, before, i) + [Run(calls, db, before).db]
              else Seen(calls, db, before, i)
  {
  }

  lemma MovedPc(calls: seq<Call>, s: Sys, j: nat, i: nat)
    requires |s.pcs| == |calls| && j < |calls| && i < |calls|
    ensures Move(calls, s, j).pcs[i] == if i == j then Step(calls[i], s.pcs[i], s.db).1 else s.pcs[i]
  {
  }

  /** When request `i` took its steps. */
  function Turns(sched: seq<nat>, i: nat): seq<nat> {
    if sched == [] then []
    else
      var n := |sched| - 1;
      if sched[n] == i then Turns(sched[..n], i) + [n] else Turns(sched[..n], i)
  }

  /** The store after the first `n` steps of a run. */
  function StoreAt(calls: seq<Call>, db: Db, sched: seq<nat>, n: nat): Db
    requires n <= |sched| && forall k | 0 <= k < |sched| :: sched[k] < |calls|
  {
    Run(calls, db, sched[..n]).db
  }

  ghost predicate Rising(turns: seq<nat>, sched: seq<nat>, i: nat) {
    && (forall k | 0 <= k < |turns| :: turns[k] < |sched| && sched[turns[k]] == i)
    && (forall j, k | 0 <= j < k < |turns| :: turns[j] < turns[k])
  }

  /** The turns of a request are steps of its own, in order. */
  lemma {:induction false} TurnsRise(sched: seq<nat>, i: nat)
    ensures Rising(Turns(sched, i), sched, i)
  {
    if sched != [] {
      var n := |sched| - 1;
      TurnsRise(sched[..n], i);
      RisesOn(Turns(sched[..n], i), sched, i);
    }
  }

  lemma RisesOn(turns: seq<nat>, sched: seq<nat>, i: nat)
    requires sched != [] && Rising(turns, sched[..|sched| - 1], i)
    ensures Rising(turns, sched, i)
    ensures sched[|sched| - 1] == i ==> Rising(turns + [|sched| - 1], sched, i)
  {
    forall k | 0 <= k < |turns|
      ensures turns[k] < |sched| - 1 && sched[turns[k]] == i
    {
      assert sched[..|sched| - 1][turns[k]] == i;
    }
  }

  /** At its turns a request sees the store of the moment. */
  ghost predicate SeesStores(calls: seq<Call>, db: Db, sched: seq<nat>, turns: seq<nat>, seen: seq<Db>)
    requires forall k | 0 <= k < |sched| :: sched[k] < |calls|
  {
    && |turns| == |seen|
    && forall k | 0 <= k < |turns| :: turns[k] < |sched| && seen[k] == StoreAt(calls, db, sched, turns[k])
  }

  lemma {:induction false} TurnsSeen(calls: seq<Call>, db: Db, sched: seq<nat>, i: nat)
    requires Schedule(calls, sched) && i < |calls|
    ensures SeesStores(calls, db, sched, Turns(sched, i), Seen(calls, db, sched, i))
  {
    if sched != [] {
      var n := |sched| - 1;
      TurnsSeen(calls, db, sched[..n], i);
      SeenLast(calls, db, sched, i);
      var turns, seen := Turns(sched[..n], i), Seen(calls, db, sched[..n], i);
      SeenStay(calls, db, sched, turns, seen);
      assert Turns(sched, i) == if sched[n] == i then turns + [n] else turns;
      assert Seen(calls, db, sched, i) == if sched[n] == i then seen + [StoreAt(calls, db, sched, n)] else seen;
    }
  }

  lemma SeenStay(calls: seq<Call>, db: Db, sched: seq<nat>, turns: seq<nat>, seen: seq<Db>)
    requires Schedule(calls, sched) && sched != [] && SeesStores(calls, db, sched[..|sched| - 1], turns, seen)
    ensures SeesStores(calls, db, sched, turns, seen)
    ensures var n := |sched| - 1; SeesStores(calls, db, sched, turns + [n], seen + [StoreAt(calls, db, sched, n)])
  {
    forall k | 0 <= k < |turns|
      ensures turns[k] < |sched| && seen[k] == StoreAt(calls, db, sched, turns[k])
    {
      StoreBefore(calls, db, sched, turns[k]);
    }
  }

  lemma StoreBefore(calls: seq<Call>, db: Db, sched: seq<nat>, n: nat)
    requires Schedule(calls, sched) && n < |sched|
    ensures StoreAt(calls, db, sched[..|sched| - 1], n) == StoreAt(calls, db, sched, n)
  {
    assert sched[..|sched| - 1][..n] == sched[..n];
  }

  lemma ProgressAppend(c: Call, dbs: seq<Db>, db: Db)
    ensures Progress(c, dbs + [db]) == Step(c, Progress(c, dbs), db).1
  {
    assert (dbs + [db])[..|dbs|] == dbs;
  }

  /** An answer is final. */
  lemma {:induction false} DoneStays(c: Call, dbs: seq<Db>, n: nat)
    requires n <= |dbs| && Progress(c, dbs[..n]).Done?
    ensures Progress(c, dbs) == Progress(c, dbs[..n])
    decreases |dbs|
  {
    if n == |dbs| {
      assert dbs[..n] == dbs;
    } else {
      var before := dbs[..|dbs| - 1];
      assert before[..n] == dbs[..n];
      DoneStays(c, before, n);
    }
  }

  lemma ProgressStep(c: Call, dbs: seq<Db>, n: nat)
    requires n < |dbs|
    ensures Progress(c, dbs[..n + 1]) == Step(c, Progress(c, dbs[..n]), dbs[n]).1
  {
    assert dbs[..n + 1][..n] == dbs[..n];
  }

  // ---- one at a time ----------------------------------------------------------

  /** The store after running the listed requests one after the other. */
  function OneByOne(calls: seq<Call>, db: Db, order: seq<nat>): Db
    requires forall k | 0 <= k < |order| :: order[k] < |calls|
  {
    if order == [] then db
    else Atomic(calls[order[|order| - 1]], OneByOne(calls, db, order[..|order| - 1])).0
  }

  /** The request has run the statement that decides its outcome. */
  predicate Decided(pc: Pc) {
    pc.Written? || pc.Done?
  }

  /** The requests in the order of their deciding statements. */
  function Decisions(calls: seq<Call>, db: Db, sched: seq<nat>): (order: seq<nat>)
    requires forall k | 0 <= k < |sched| :: sched[k] < |calls|
    ensures forall k | 0 <= k < |order| :: order[k] < |calls|
  {
    if sched == [] then []
    else
      var before, i := sched[..|sched| - 1], sched[|sched| - 1];
      var s := Run(calls, db, before);
      if !Decided(s.pcs[i]) && Decided(Step(calls[i], s.pcs[i], s.db).1)
        then Decisions(calls, db, before) + [i]
        else Decisions(calls, db, before)
  }
}
