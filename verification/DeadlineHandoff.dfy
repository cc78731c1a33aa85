/**
  Running a blocking action under a deadline: the caller hands it to a worker
  thread and may stop waiting. Who disposes of the action's resources, over every
  interleaving of the two.
 */
module DeadlineHandoff {
  import opened Results

  /** How an action can fail with an exception the worker catches. */
  datatype Error = DeadlineExceeded | Other

  /** What the worker hands over. */
  datatype Handed = Succeeded(value: int) | Failed(error: Error)

  function ToDispose(h: Handed): Option<int> {
    if h.Succeeded? then Some(h.value) else None
  }

  datatype Caller =
    | Checking
    | DisposingUnstarted
    | Waiting
    | Abandoning
    | DisposingLate(late: Handed)
    | TimedOut
    | Returned(value: int)
    | Raised(error: Error)

  datatype Worker =
    | NotStarted
    | Running
    | Finished(outcome: Handed)
    | Disposing(outcome: Handed)
    | Done
    | Escaped

  /** The two threads, the queue of one and the flag between them, and what was disposed of so far. */
  datatype State = State(caller: Caller, worker: Worker, queue: Option<Handed>, abandoned: bool,
                         disposals: seq<Option<int>>, acted: Option<Handed>)

  predicate Init(s: State) {
    s == State(Checking, NotStarted, None, false, [], None)
  }

  // ----- The caller's steps -----

  /** The deadline had already passed: no worker will run, so the caller disposes itself. */
  predicate GiveUpUnstarted(hasDispose: bool, s: State, t: State) {
    && s.caller == Checking
    && t == s.(caller := if hasDispose then DisposingUnstarted else TimedOut)
  }

  predicate Start(s: State, t: State) {
    && s.caller == Checking
    && t == s.(caller := Waiting, worker := Running)
  }

  /** An outcome arrives in time. */
  predicate Get(s: State, t: State) {
    && s.caller == Waiting && s.queue.Some?
    && t == s.(queue := None,
               caller := if s.queue.value.Succeeded? then Returned(s.queue.value.value) else Raised(s.queue.value.error))
  }

  /** The deadline passes, whether or not an outcome has just arrived. */
  predicate TimeOut(s: State, t: State) {
    && s.caller == Waiting
    && t == s.(caller := Abandoning)
  }

  /** Under the lock: set the flag, and take an outcome that is already there. */
  predicate Abandon(hasDispose: bool, s: State, t: State) {
    && s.caller == Abandoning
    && t == s.(abandoned := true, queue := None,
               caller := if s.queue.Some? && hasDispose then DisposingLate(s.queue.value) else TimedOut)
  }

  predicate DisposeAsCaller(s: State, t: State) {
    && (s.caller == DisposingUnstarted || s.caller.DisposingLate?)
    && t == s.(caller := TimedOut,
               disposals := s.disposals + [if s.caller.DisposingLate? then ToDispose(s.caller.late) else None])
  }

  // ----- The worker's steps -----

  /** The action ends, with a value or an exception the worker catches. */
  predicate Finish(s: State, t: State, h: Handed) {
    && s.worker == Running
    && t == s.(worker := Finished(h), acted := Some(h))
  }

  /** The action ends in an exception the worker does not catch: the thread is gone. */
  predicate Escape(s: State, t: State) {
    && s.worker == Running
    && t == s.(worker := Escaped)
  }

  /** Under the lock: hand over, unless abandoned. Putting into a full queue would be an error. */
  predicate HandOver(hasDispose: bool, s: State, t: State) {
    && s.worker.Finished?
    && if s.abandoned then t == s.(worker := if hasDispose then Disposing(s.worker.outcome) else Done)
       else s.queue.None? && t == s.(worker := Done, queue := Some(s.worker.outcome))
  }

  predicate DisposeAsWorker(s: State, t: State) {
    && s.worker.Disposing?
    && t == s.(worker := Done, disposals := s.disposals + [ToDispose(s.worker.outcome)])
  }

  ghost predicate Next(hasDispose: bool, s: State, t: State) {
    || GiveUpUnstarted(hasDispose, s, t) || Start(s, t) || Get(s, t) || TimeOut(s, t)
    || Abandon(hasDispose, s, t) || DisposeAsCaller(s, t)
    || (exists h :: Finish(s, t, h)) || Escape(s, t) || HandOver(hasDispose, s, t) || DisposeAsWorker(s, t)
  }

  /** A run: any interleaving, as far as it has come. */
  ghost predicate Run(hasDispose: bool, run: seq<State>) {
    && run != [] && Init(run[0])
    && forall i :: 0 <= i < |run| - 1 ==> Next(hasDispose, run[i], run[i + 1])
  }

  // ----- What every reachable state keeps -----

  /** Whose turn it is to dispose: exactly one of these holds while the caller has given up. */
  ghost predicate Consistent(hasDispose: bool, s: State) {
    && (s.caller == Checking || s.caller == DisposingUnstarted ==> s.worker == NotStarted)
    && (s.worker == NotStarted ==> s.caller == Checking || s.caller == DisposingUnstarted || s.caller == TimedOut)
    && (s.worker == NotStarted || s.worker == Running || s.worker == Escaped ==> s.acted.None?)
    && (s.worker.Finished? || s.worker.Disposing? ==> s.acted == Some(s.worker.outcome))
    && (s.worker == Done ==> s.acted.Some?)
    && (s.queue.Some? ==> s.worker == Done && s.acted == s.queue && (s.caller == Waiting || s.caller == Abandoning))
    && (s.caller.DisposingLate? ==> s.worker == Done && s.acted == Some(s.caller.late) && hasDispose)
    && (s.caller.Returned? ==> s.worker == Done && s.acted == Some(Succeeded(s.caller.value)))
    && (s.caller.Raised? ==> s.worker == Done && s.acted == Some(Failed(s.caller.error)))
    && (s.abandoned <==> s.worker != NotStarted && (s.caller.DisposingLate? || s.caller == TimedOut))
    && (s.worker.Disposing? ==> s.abandoned && hasDispose)
    && (s.caller == DisposingUnstarted ==> hasDispose)
    && ((s.caller == Waiting || s.caller == Abandoning) && s.worker == Done ==> s.queue.Some?)
  }

  /** The disposals made are those that are due, and no others. */
  function Due(hasDispose: bool, s: State): seq<Option<int>> {
    if !hasDispose || s.caller != TimedOut then []
    else if s.worker == NotStarted then [None]
    else if s.worker == Done && s.acted.Some? then [ToDispose(s.acted.value)]
    else []
  }

  ghost predicate Inv(hasDispose: bool, s: State) {
    Consistent(hasDispose, s) && s.disposals == Due(hasDispose, s)
  }

  lemma CallerKeepsInv(hasDispose: bool, s: State, t: State)
    requires Inv(hasDispose, s)
    requires GiveUpUnstarted(hasDispose, s, t) || Start(s, t) || Get(s, t) || TimeOut(s, t)
             || Abandon(hasDispose, s, t) || DisposeAsCaller(s, t)
    ensures Inv(hasDispose, t)
  {
  }

  lemma WorkerKeepsInv(hasDispose: bool, s: State, t: State)
    requires Inv(hasDispose, s)
    requires (exists h :: Finish(s, t, h)) || Escape(s, t) || HandOver(hasDispose, s, t) || DisposeAsWorker(s, t)
    ensures Inv(hasDispose, t)
  {
  }

  lemma StepKeepsInv(hasDispose: bool, s: State, t: State)
    requires Inv(hasDispose, s) && Next(hasDispose, s, t)
    ensures Inv(hasDispose, t)
  {
    hide Inv, GiveUpUnstarted, Start, Get, TimeOut, Abandon, DisposeAsCaller, Finish, Escape, HandOver, DisposeAsWorker;
    if (exists h :: Finish(s, t, h)) || Escape(s, t) || HandOver(hasDispose, s, t) || DisposeAsWorker(s, t) {
      WorkerKeepsInv(hasDispose, s, t);
    } else {
      CallerKeepsInv(hasDispose, s, t);
    }
  }

  lemma {:induction false} RunKeepsInv(hasDispose: bool, run: seq<State>, i: nat)
    requires Run(hasDispose, run) && i < |run|
    ensures Inv(hasDispose, run[i])
  {
    if i > 0 {
      RunKeepsInv(hasDispose, run, i - 1);
      assert Next(hasDispose, run[i - 1], run[i]);
      hide Next, Inv;
      StepKeepsInv(hasDispose, run[i - 1], run[i]);
    }
  }

  // ----- The promises -----

  /** What the caller's caller sees as a timeout. */
  predicate SeesDeadline(s: State) {
    s.caller == TimedOut || s.caller == Raised(DeadlineExceeded)
  }

  predicate ThreadsDone(s: State) {
    && (s.caller == TimedOut || s.caller.Returned? || s.caller.Raised?)
    && (s.worker == NotStarted || s.worker == Done || s.worker == Escaped)
  }

  /**
    At any moment of any run: at most one disposal, only after giving up, never while
    the action runs, and of the action's own value.
   */
  lemma DisposalIsSafe(hasDispose: bool, run: seq<State>, i: nat)
    requires Run(hasDispose, run) && i < |run|
    ensures var s := run[i];
      && |s.disposals| <= 1
      && (s.disposals != [] ==>
            hasDispose && s.caller == TimedOut && s.worker != Running
            && s.disposals == [if s.acted.Some? then ToDispose(s.acted.value) else None])
  {
    RunKeepsInv(hasDispose, run, i);
  }

  /** A value or error that is returned is the action's own, and then nothing is ever disposed of. */
  lemma ReturnedIsKept(hasDispose: bool, run: seq<State>, i: nat, j: nat)
    requires Run(hasDispose, run) && i <= j < |run|
    requires run[i].caller.Returned? || run[i].caller.Raised?
    ensures run[j].caller == run[i].caller && run[j].disposals == []
    ensures run[i].acted == Some(if run[i].caller.Returned? then Succeeded(run[i].caller.value) else Failed(run[i].caller.error))
    decreases j
  {
    RunKeepsInv(hasDispose, run, i);
    if i < j {
      ReturnedIsKept(hasDispose, run, i, j - 1);
      assert Next(hasDispose, run[j - 1], run[j]);
      RunKeepsInv(hasDispose, run, j);
    }
  }

  /**
    When both threads are done and a timeout is seen, the disposal has run exactly
    once if and only if the timeout was the caller's own and the worker caught
    whatever the action raised.
   */
  lemma TimeoutDisposesOnce(run: seq<State>, i: nat)
    requires Run(true, run) && i < |run| && ThreadsDone(run[i]) && SeesDeadline(run[i])
    ensures |run[i].disposals| == 1 <==> run[i].caller == TimedOut && run[i].worker != Escaped
  {
    RunKeepsInv(true, run, i);
  }

  /** So it suffices that the action raises neither DeadlineExceeded nor anything uncaught. */
  lemma WellBehavedActionIsDisposed(run: seq<State>, i: nat)
    requires Run(true, run) && i < |run| && ThreadsDone(run[i]) && SeesDeadline(run[i])
    requires run[i].acted != Some(Failed(DeadlineExceeded)) && run[i].worker != Escaped
    ensures |run[i].disposals| == 1
  {
    RunKeepsInv(true, run, i);
  }

  /** An action that raises DeadlineExceeded itself looks like a timeout, with nothing disposed of. */
  lemma ActionsOwnDeadline() returns (run: seq<State>)
    ensures Run(true, run) && ThreadsDone(run[|run| - 1])
    ensures SeesDeadline(run[|run| - 1]) && run[|run| - 1].disposals == []
  {
    var h := Failed(DeadlineExceeded);
    var s0 := State(Checking, NotStarted, None, false, [], None);
    var s1 := s0.(caller := Waiting, worker := Running);
    var s2 := s1.(worker := Finished(h), acted := Some(h));
    var s3 := s2.(worker := Done, queue := Some(h));
    var s4 := s3.(queue := None, caller := Raised(DeadlineExceeded));
    assert Finish(s1, s2, h) && HandOver(true, s2, s3) && Get(s3, s4);
    run := [s0, s1, s2, s3, s4];
  }

  /** An action that ends in an uncaught exception: the caller times out, and nothing is ever disposed of. */
  lemma UncaughtExceptionLeaks() returns (run: seq<State>)
    ensures Run(true, run) && ThreadsDone(run[|run| - 1])
    ensures run[|run| - 1].caller == TimedOut && run[|run| - 1].disposals == []
  {
    var s0 := State(Checking, NotStarted, None, false, [], None);
    var s1 := s0.(caller := Waiting, worker := Running);
    var s2 := s1.(worker := Escaped);
    var s3 := s2.(caller := Abandoning);
    var s4 := s3.(caller := TimedOut, abandoned := true);
    assert Escape(s1, s2) && TimeOut(s2, s3) && Abandon(true, s3, s4);
    run := [s0, s1, s2, s3, s4];
  }

  // ----- In time -----

  /** The deadline has not passed so far. */
  ghost predicate InTime(run: seq<State>) {
    forall i :: 0 <= i < |run| ==>
      run[i].caller == Checking || run[i].caller == Waiting || run[i].caller.Returned? || run[i].caller.Raised?
  }

  /** As long as the deadline does not pass and the action ends, the two threads never wait for one another in vain. */
  lemma GoesOnInTime(hasDispose: bool, run: seq<State>) returns (t: State)
    requires Run(hasDispose, run) && InTime(run) && !ThreadsDone(run[|run| - 1]) && run[|run| - 1].worker != Escaped
    ensures Next(hasDispose, run[|run| - 1], t) && InTime(run + [t])
  {
    var s := run[|run| - 1];
    RunKeepsInv(hasDispose, run, |run| - 1);
    if s.caller == Checking {
      t := s.(caller := Waiting, worker := Running);
      assert Start(s, t);
    } else if s.worker == Running {
      t := s.(worker := Finished(Succeeded(0)), acted := Some(Succeeded(0)));
      assert Finish(s, t, Succeeded(0));
    } else if s.worker.Finished? {
      t := s.(worker := Done, queue := Some(s.worker.outcome));
      assert HandOver(hasDispose, s, t);
    } else {
      var h := s.queue.value;
      t := s.(queue := None, caller := if h.Succeeded? then Returned(h.value) else Raised(h.error));
      assert Get(s, t);
    }
  }

  /** What the action hands over while the caller waits, the caller can take: the value, or the error raised again. */
  lemma HandedIsTaken(hasDispose: bool, run: seq<State>) returns (t: State)
    requires Run(hasDispose, run) && run[|run| - 1].caller == Waiting && run[|run| - 1].queue.Some?
    ensures Next(hasDispose, run[|run| - 1], t) && Get(run[|run| - 1], t)
    ensures t.caller == match run[|run| - 1].queue.value { case Succeeded(v) => Returned(v) case Failed(e) => Raised(e) }
  {
    var s := run[|run| - 1];
    var h := s.queue.value;
    t := s.(queue := None, caller := if h.Succeeded? then Returned(h.value) else Raised(h.error));
    assert Get(s, t);
  }

  /** When both threads are done in time, the caller has the action's own outcome, and nothing was disposed of. */
  lemma InTimeIsDelivered(hasDispose: bool, run: seq<State>, i: nat)
    requires Run(hasDispose, run) && InTime(run) && i < |run| && ThreadsDone(run[i])
    ensures run[i].acted.Some? && run[i].disposals == []
    ensures run[i].caller == match run[i].acted.value { case Succeeded(v) => Returned(v) case Failed(e) => Raised(e) }
  {
    RunKeepsInv(hasDispose, run, i);
  }

  // ----- Every run ends -----

  function Left(s: State): nat {
    (match s.caller
     case Checking => 8
     case Waiting => 3
     case Abandoning => 2
     case DisposingUnstarted => 1
     case DisposingLate(_) => 1
     case _ => 0)
    + (match s.worker
       case Running => 3
       case Finished(_) => 2
       case Disposing(_) => 1
       case _ => 0)
  }

  /** No interleaving takes more than eight steps. */
  lemma {:induction false} RunsAreShort(hasDispose: bool, run: seq<State>, i: nat)
    requires Run(hasDispose, run) && i < |run|
    ensures i + Left(run[i]) <= 8
  {
    if i > 0 {
      RunsAreShort(hasDispose, run, i - 1);
      assert Next(hasDispose, run[i - 1], run[i]);
    }
  }

  /** No interleaving gets stuck: as long as a thread has work left, some step is possible. */
  lemma NeverStuck(hasDispose: bool, run: seq<State>) returns (t: State)
    requires Run(hasDispose, run) && !ThreadsDone(run[|run| - 1])
    ensures Next(hasDispose, run[|run| - 1], t)
  {
    var s := run[|run| - 1];
    RunKeepsInv(hasDispose, run, |run| - 1);
    t :=
      match s.caller
      case Checking => s.(caller := Waiting, worker := Running)
      case DisposingUnstarted => s.(caller := TimedOut, disposals := s.disposals + [None])
      case DisposingLate(h) => s.(caller := TimedOut, disposals := s.disposals + [ToDispose(h)])
      case Waiting => s.(caller := Abandoning)
      case Abandoning => s.(abandoned := true, queue := None,
                            caller := if s.queue.Some? && hasDispose then DisposingLate(s.queue.value) else TimedOut)
      case _ =>
        match s.worker
        case Finished(h) =>
          if s.abandoned then s.(worker := if hasDispose then Disposing(h) else Done)
          else s.(worker := Done, queue := Some(h))
        case Disposing(h) => s.(worker := Done, disposals := s.disposals + [ToDispose(h)])
        case _ => s.(worker := Escaped);
  }
}
