/** `server.Run`: two servers, each in a goroutine reporting to one buffered channel, and a main
    routine that waits for a cancellation or a failure and then shuts both servers down. */
module Shutdown {
  import opened Tables

  /** An error of ListenAndServe other than http.ErrServerClosed. */
  type Error = nat

  datatype Name = Public | Health

  const CAPACITY := 2

  /** A serve goroutine: inside ListenAndServe, about to send its error, or gone. */
  datatype Serving = Listening | Sending(error: Error) | Exited

  /** The main routine: at the select, before each Shutdown, before its return, returned. */
  datatype Main = Selecting | Closing(name: Name) | Returning | Returned

  /** `failed`, `sent` and `shutdowns` record what has happened, for the claims below. */
  datatype State = State(public: Serving, health: Serving, channel: seq<Error>, cancelled: bool, main: Main,
                         runErr: Option<Error>, shutdowns: seq<Name>, failed: seq<Error>, sent: seq<Error>)
  {
    function Of(n: Name): Serving {
      if n == Public then public else health
    }

    function With(n: Name, g: Serving): State {
      if n == Public then this.(public := g) else this.(health := g)
    }
  }

  const INITIAL := State(Listening, Listening, [], false, Selecting, None, [], [], [])

  /** What may happen next: the first three are the world's doing, the others steps of the program. */
  datatype Event =
    | Cancel
    | Fails(server: Name, error: Error)
    | Closes(server: Name)
    | Sends(server: Name)
    | TakesDone
    | TakesError
    | Shuts
    | Returns

  predicate IsStep(e: Event) {
    e.Sends? || e.TakesDone? || e.TakesError? || e.Shuts? || e.Returns?
  }

  /** Only a server whose Shutdown was called returns from ListenAndServe without an error to report. */
  predicate Enabled(s: State, e: Event) {
    match e
    case Cancel => !s.cancelled
    case Fails(n, _) => s.Of(n) == Listening
    case Closes(n) => s.Of(n) == Listening && n in s.shutdowns
    case Sends(n) => s.Of(n).Sending? && |s.channel| < CAPACITY
    case TakesDone => s.main == Selecting && s.cancelled
    case TakesError => s.main == Selecting && s.channel != []
    case Shuts => s.main.Closing?
    case Returns => s.main == Returning
  }

  function Next(s: State, e: Event): State
    requires Enabled(s, e)
  {
    match e
    case Cancel => s.(cancelled := true)
    case Fails(n, err) => s.With(n, Sending(err)).(failed := s.failed + [err])
    case Closes(n) => s.With(n, Exited)
    case Sends(n) => s.With(n, Exited).(channel := s.channel + [s.Of(n).error], sent := s.sent + [s.Of(n).error])
    case TakesDone => s.(main := Closing(Public))
    case TakesError => s.(main := Closing(Public), runErr := Some(s.channel[0]), channel := s.channel[1..])
    case Shuts => s.(main := if s.main.name == Public then Closing(Health) else Returning,
                     shutdowns := s.shutdowns + [s.main.name])
    case Returns => s.(main := Returned)
  }

  // ---- safety over every interleaving -----------------------------------------

  /** The state after a sequence of events, if each is possible when it happens. */
  function After(es: seq<Event>): Option<State> {
    if es == [] then Some(INITIAL)
    else
      var before, e := After(es[..|es| - 1]), es[|es| - 1];
      if before.Some? && Enabled(before.value, e) then Some(Next(before.value, e)) else None
  }

  /** What was possible stays so when later events are taken away. */
  lemma {:induction false} AfterPrefix(es: seq<Event>, n: nat)
    requires After(es).Some? && n <= |es|
    ensures After(es[..n]).Some?
    decreases |es|
  {
    if n == |es| {
      assert es[..n] == es;
    } else {
      AfterPrefix(es[..|es| - 1], n);
      assert es[..|es| - 1][..n] == es[..n];
    }
  }

  function Gone(s: State): nat {
    (if s.public == Exited then 1 else 0) + (if s.health == Exited then 1 else 0)
  }

  ghost predicate Safe(s: State) {
    // Each goroutine sends at most once, so no more has been sent than there are goroutines gone;
    // before any Shutdown, a goroutine that is gone has sent.
    && |s.channel| + (if s.runErr.Some? then 1 else 0) <= Gone(s)
    && (s.main == Selecting ==> |s.channel| == Gone(s))
    // Errors about to be sent, in the channel or to be returned are errors a server produced.
    && (forall i | 0 <= i < |s.channel| :: s.channel[i] in s.failed)
    && (s.public.Sending? ==> s.public.error in s.failed)
    && (s.health.Sending? ==> s.health.error in s.failed)
    && (s.runErr.Some? ==> s.runErr.value in s.failed)
    // The channel keeps the order of the sends, and its first error is the one taken.
    && s.sent == (if s.runErr.Some? then [s.runErr.value] else []) + s.channel
    // A failure is not forgotten before the select.
    && (s.main == Selecting && s.failed != [] ==> s.channel != [] || s.public.Sending? || s.health.Sending?)
    // The main routine leaves the select for a reason and shuts down in order.
    && (s.main == Selecting ==> s.runErr.None?)
    && (s.main != Selecting ==> s.cancelled || s.runErr.Some?)
    && s.shutdowns == (match s.main
                       case Selecting => []
                       case Closing(Public) => []
                       case Closing(Health) => [Public]
                       case _ => [Public, Health])
  }

  lemma NextSafe(s: State, e: Event)
    requires Safe(s) && Enabled(s, e)
    ensures Safe(Next(s, e))
  {
    if e.Cancel? || e.Fails? || e.Closes? {
      WorldSafe(s, e);
    } else if e.Sends? {
      SendSafe(s, e.server);
    } else if e.TakesError? {
      ReceiveSafe(s);
    } else {
      MainSafe(s, e);
    }
  }

  lemma WorldSafe(s: State, e: Event)
    requires Safe(s) && Enabled(s, e) && (e.Cancel? || e.Fails? || e.Closes?)
    ensures Safe(Next(s, e))
  {
  }

  lemma SendSafe(s: State, n: Name)
    requires Safe(s) && Enabled(s, Sends(n))
    ensures Safe(Next(s, Sends(n)))
  {
  }

  lemma ReceiveSafe(s: State)
    requires Safe(s) && Enabled(s, TakesError)
    ensures Safe(Next(s, TakesError))
  {
    assert s.channel[0] in s.failed;
  }

  lemma MainSafe(s: State, e: Event)
    requires Safe(s) && Enabled(s, e) && (e.TakesDone? || e.Shuts? || e.Returns?)
    ensures Safe(Next(s, e))
  {
  }

  lemma {:induction false} TraceSafe(es: seq<Event>)
    requires After(es).Some?
    ensures Safe(After(es).value)
  {
    if es != [] {
      TraceSafe(es[..|es| - 1]);
      NextSafe(After(es[..|es| - 1]).value, es[|es| - 1]);
    }
  }

  /** No send on the channel ever blocks, not even after Run has returned. */
  lemma SendsNeverBlock(es: seq<Event>, n: Name)
    requires After(es).Some? && After(es).value.Of(n).Sending?
    ensures Enabled(After(es).value, Sends(n))
  {
    TraceSafe(es);
  }

  /** What Run returns: nil only after a cancellation, otherwise an error one of the servers produced, the
      first to be sent; and by then each server has been shut down exactly once, the public one first. */
  lemma ReturnedResult(es: seq<Event>)
    requires After(es).Some? && After(es).value.main == Returned
    ensures var s := After(es).value;
            && (s.runErr.Some? ==> s.runErr.value in s.failed && s.sent != [] && s.runErr.value == s.sent[0])
            && (s.runErr.None? ==> s.cancelled)
            && s.shutdowns == [Public, Health]
  {
    TraceSafe(es);
  }

  // ---- progress ---------------------------------------------------------------

  /** A cancellation has arrived or a server has failed. */
  predicate Triggered(s: State) {
    s.cancelled || s.failed != []
  }

  function Weight(g: Serving): nat {
    match g
    case Listening => 2
    case Sending(_) => 1
    case Exited => 0
  }

  /** How many more events there can be. */
  function Measure(s: State): nat {
    Weight(s.public) + Weight(s.health) + (if s.cancelled then 0 else 1) +
    match s.main
    case Selecting => 4
    case Closing(Public) => 3
    case Closing(Health) => 2
    case Returning => 1
    case Returned => 0
  }

  /** Every event lowers the measure, so no run has more than nine. */
  lemma {:induction false} TraceBounded(es: seq<Event>)
    requires After(es).Some?
    ensures |es| + Measure(After(es).value) <= 9
  {
    if es != [] {
      TraceBounded(es[..|es| - 1]);
    }
  }

  /** Once triggered, Run cannot get stuck: until it has returned, some step of the program is possible,
      and it lowers the measure; so a run that goes on as long as it can has returned. */
  lemma TriggeredRunReturns(es: seq<Event>)
    requires After(es).Some? && Triggered(After(es).value)
    ensures var s := After(es).value;
            s.main == Returned || exists e :: IsStep(e) && Enabled(s, e) && Measure(Next(s, e)) < Measure(s)
  {
    TraceSafe(es);
    var s := After(es).value;
    var e :=
      if s.main.Closing? then Shuts
      else if s.main == Returning then Returns
      else if s.cancelled then TakesDone
      else if s.channel != [] then TakesError
      else if s.public.Sending? then Sends(Public)
      else Sends(Health);
    if s.main != Returned {
      assert IsStep(e) && Enabled(s, e) && Measure(Next(s, e)) < Measure(s);
    }
  }

  /** Without a cancellation or a failure Run stays at the select. */
  lemma {:induction false} UntriggeredRunWaits(es: seq<Event>)
    requires After(es).Some? && !Triggered(After(es).value)
    ensures After(es).value == INITIAL
  {
    if es != [] {
      UntriggeredRunWaits(es[..|es| - 1]);
    }
  }

  // ---- the program, as shared mutable state -----------------------------------

  /** The variables the routines share, and one method for each thing they do between two points at
      which the scheduler may switch. Each method asks only for what makes the routine get there:
      that a send finds room and that the returned error is a real one is proved, from `Valid`. */
  class Run {
    var public: Serving
    var health: Serving
    var channel: seq<Error>
    var cancelled: bool
    var main: Main
    var runErr: Option<Error>
    ghost var shutdowns: seq<Name>
    ghost var failed: seq<Error>
    ghost var sent: seq<Error>

    ghost function Snapshot(): State
      reads this
    {
      State(public, health, channel, cancelled, main, runErr, shutdowns, failed, sent)
    }

    ghost predicate Valid()
      reads this
    {
      Safe(Snapshot())
    }

    /** Both goroutines are started before the select. */
    constructor ()
      ensures Valid() && Snapshot() == INITIAL
    {
      public, health := Listening, Listening;
      channel := [];
      cancelled := false;
      main := Selecting;
      runErr := None;
      shutdowns, failed, sent := [], [], [];
    }

    /** The signal arrives. */
    method CancelContext()
      requires Valid() && !cancelled
      modifies this
      ensures Valid() && Snapshot() == Next(old(Snapshot()), Cancel)
    {
      cancelled := true;
    }

    /** ListenAndServe comes back with an error: http.ErrServerClosed (None), which only a server that
        is being shut down gives, ends the goroutine, any other goes on to the send. */
    method ListenAndServeReturns(n: Name, error: Option<Error>)
      requires Valid() && Snapshot().Of(n) == Listening && (error.None? ==> n in shutdowns)
      modifies this
      ensures Valid()
      ensures Snapshot() == Next(old(Snapshot()), if error.Some? then Fails(n, error.value) else Closes(n))
    {
      var next := if error.Some? then Sending(error.value) else Exited;
      if n == Public {
        public := next;
      } else {
        health := next;
      }
      if error.Some? {
        failed := failed + [error.value];
      }
    }

    /** A goroutine with an error to report never waits: there is room in the channel. */
    method Send(n: Name)
      requires Valid() && Snapshot().Of(n).Sending?
      modifies this
      ensures Valid() && |old(channel)| < CAPACITY && Snapshot() == Next(old(Snapshot()), Sends(n))
    {
      if n == Public {
        channel := channel + [public.error];
        sent := sent + [public.error];
        public := Exited;
      } else {
        channel := channel + [health.error];
        sent := sent + [health.error];
        health := Exited;
      }
    }

    /** The select, once a case is ready; when both are, either may be taken. */
    method Select(receive: bool)
      requires Valid() && main == Selecting && if receive then channel != [] else cancelled
      modifies this
      ensures Valid() && Snapshot() == Next(old(Snapshot()), if receive then TakesError else TakesDone)
      ensures if receive then runErr.Some? && runErr.value in failed else runErr.None?
    {
      if receive {
        runErr := Some(channel[0]);
        channel := channel[1..];
      }
      main := Closing(Public);
    }

    /** One Shutdown call; its own error is only logged. */
    method ShutdownServer()
      requires Valid() && main.Closing?
      modifies this
      ensures Valid() && old(main.name) !in old(shutdowns) && Snapshot() == Next(old(Snapshot()), Shuts)
    {
      shutdowns := shutdowns + [main.name];
      main := if main.name == Public then Closing(Health) else Returning;
    }

    /** By now each server has been shut down once; the error is one a server produced, and without
        one there was a cancellation. */
    method Return() returns (err: Option<Error>)
      requires Valid() && main == Returning
      modifies this
      ensures Valid() && Snapshot() == Next(old(Snapshot()), Returns) && err == runErr
      ensures if err.Some? then err.value in failed else cancelled
      ensures shutdowns == [Public, Health]
    {
      main := Returned;
      err := runErr;
    }
  }

  /** What the scheduler and the world make happen next, done by the program's own methods. */
  method Perform(run: Run, e: Event)
    requires run.Valid() && Enabled(run.Snapshot(), e)
    modifies run
    ensures run.Valid() && run.Snapshot() == Next(old(run.Snapshot()), e)
  {
    match e
    case Cancel => run.CancelContext();
    case Fails(n, error) => run.ListenAndServeReturns(n, Some(error));
    case Closes(n) => run.ListenAndServeReturns(n, None);
    case Sends(n) => run.Send(n);
    case TakesDone => run.Select(false);
    case TakesError => run.Select(true);
    case Shuts => run.ShutdownServer();
    case Returns => var err := run.Return();
  }

  /** The program under any schedule is in the state the protocol says, so that all that is proved of
      `After` is true of it: no send has to wait, the result is a real one, and once triggered it
      has returned or can go on. */
  method Execute(es: seq<Event>) returns (run: Run)
    requires After(es).Some?
    ensures fresh(run) && run.Valid() && After(es) == Some(run.Snapshot())
    ensures forall n: Name :: run.Snapshot().Of(n).Sending? ==> |run.channel| < CAPACITY
    ensures run.main == Returned ==>
              && run.shutdowns == [Public, Health]
              && if run.runErr.Some? then run.sent != [] && run.runErr.value == run.sent[0] && run.sent[0] in run.failed
                 else run.cancelled
    ensures run.main != Returned && (run.cancelled || run.failed != []) ==>
              exists e :: IsStep(e) && Enabled(run.Snapshot(), e)
  {
    run := new Run();
    for i := 0 to |es|
      invariant fresh(run) && run.Valid() && After(es[..i]) == Some(run.Snapshot())
    {
      AfterPrefix(es, i + 1);
      assert es[..i + 1][..i] == es[..i];
      Perform(run, es[i]);
    }
    assert es[..|es|] == es;
    if run.main != Returned && (run.cancelled || run.failed != []) {
      TriggeredRunReturns(es);
    }
  }
}
