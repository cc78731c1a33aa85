/**
  Publishing a post with a record key of the client's choosing, over a network that
  may lose, delay or garble, to a server that rejects a key it already has.
 */
module PublishOnce {
  import opened Results

  type Key = nat

  /** How a createRecord call ends for the client. */
  datatype Outcome =
    | Success
    | Unusable
    | HttpError(status: Option<nat>)
    | OtherRequestError
    | UnsentRequest
    | Redirect

  /** Whether a failed createRecord may nonetheless have created the post; `Redirect` is a ValueError and never asked. */
  predicate OutcomeUncertain(o: Outcome) {
    match o
    case UnsentRequest => false
    case HttpError(status) => status.None? || status.value >= 500
    case _ => true
  }

  /** A request under way: not yet handled by the server, handled with or without creating, or never sent. */
  datatype Fate = InFlight | Applied | Refused | NeverSent

  datatype Request = Request(key: Key, fate: Fate)

  datatype Client =
    | Sending(attempt: nat)
    | Awaiting(attempt: nat)
    | LookingUp(lookup: nat)
    | Returned
    | Failed(warned: bool)

  datatype State = State(client: Client, key: Key, requests: seq<Request>, records: multiset<Key>)

  /** The record key is fresh. */
  ghost predicate Init(s: State) {
    s.client == Sending(1) && s.requests == [] && s.key !in s.records
  }

  // ----- The server -----

  /** It handles a request at any later time, once; a key it has is refused. */
  ghost predicate Handle(s: State, t: State, r: nat) {
    && r < |s.requests| && s.requests[r].fate == InFlight
    && (|| t == s.(requests := s.requests[r := s.requests[r].(fate := Refused)])
        || (s.requests[r].key !in s.records
            && t == s.(requests := s.requests[r := s.requests[r].(fate := Applied)],
                       records := s.records + multiset{s.requests[r].key})))
  }

  // ----- The client -----

  /** Hands the request to the network, or fails before anything is sent. */
  ghost predicate Send(s: State, t: State, fate: Fate) {
    && s.client.Sending? && (fate == InFlight || fate == NeverSent)
    && t == s.(client := Awaiting(s.client.attempt), requests := s.requests + [Request(s.key, fate)])
  }

  /**
    What the network can report about a request: a proper success only of one that
    was applied, a definite 3xx or 4xx only of one that was refused, UnsentRequest
    exactly of one never sent; everything else at any time.
   */
  predicate Reportable(fate: Fate, o: Outcome) {
    match o
    case Success => fate == Applied
    case UnsentRequest => fate == NeverSent
    case Redirect => fate == Refused
    case HttpError(status) => if status.Some? && status.value < 500 then fate == Refused else fate != NeverSent
    case _ => fate != NeverSent
  }

  /** Where the client goes from the end of an attempt. */
  function AfterAttempt(attempt: nat, o: Outcome): Client {
    if o == Success then Returned
    else if attempt == 1 then
      if o == Redirect || !OutcomeUncertain(o) then Failed(false) else LookingUp(1)
    else if o == Redirect then Failed(true)
    else LookingUp(2)
  }

  ghost predicate Hear(s: State, t: State, o: Outcome) {
    && s.client.Awaiting? && s.requests != []
    && Reportable(s.requests[|s.requests| - 1].fate, o)
    && t == s.(client := AfterAttempt(s.client.attempt, o))
  }

  datatype Lookup = Found | NotFound | LookupError

  function AfterLookup(lookup: nat, found: Lookup): Client {
    match found
    case Found => Returned
    case LookupError => Failed(true)
    case NotFound => if lookup == 1 then Sending(2) else Failed(true)
  }

  /** A lookup that answers, answers what the server has. */
  ghost predicate Look(s: State, t: State, found: Lookup) {
    && s.client.LookingUp?
    && (found == Found ==> s.key in s.records) && (found == NotFound ==> s.key !in s.records)
    && t == s.(client := AfterLookup(s.client.lookup, found))
  }

  ghost predicate Next(s: State, t: State) {
    || (exists fate :: Send(s, t, fate))
    || (exists o :: Hear(s, t, o))
    || (exists found :: Look(s, t, found))
    || (exists r :: Handle(s, t, r))
  }

  /** A run: any interleaving of client and server, also past the client's end. */
  ghost predicate Run(run: seq<State>) {
    && run != [] && Init(run[0])
    && forall i :: 0 <= i < |run| - 1 ==> Next(run[i], run[i + 1])
  }

  // ----- What every reachable state keeps -----

  /** Attempts made so far, by where the client is. */
  predicate AttemptsMatch(client: Client, sent: nat) {
    match client
    case Sending(a) => a == sent + 1 && a <= 2
    case Awaiting(a) => a == sent && 1 <= a <= 2
    case LookingUp(l) => l == sent && 1 <= l <= 2
    case _ => 1 <= sent <= 2
  }

  /** Settled: this request will never create a record. */
  predicate Dead(r: Request) {
    r.fate == Refused || r.fate == NeverSent
  }

  ghost predicate SomeApplied(requests: seq<Request>) {
    exists i :: 0 <= i < |requests| && requests[i].fate == Applied
  }

  ghost predicate Inv(initial: multiset<Key>, s: State) {
    && s.key !in initial
    && AttemptsMatch(s.client, |s.requests|)
    && (forall i :: 0 <= i < |s.requests| ==> s.requests[i].key == s.key)
    && s.records == (if SomeApplied(s.requests) then initial + multiset{s.key} else initial)
    && (s.client == Returned ==> SomeApplied(s.requests))
    && (s.client == Failed(false) ==> forall i :: 0 <= i < |s.requests| ==> Dead(s.requests[i]))
  }

  lemma SendKeepsInv(initial: multiset<Key>, s: State, t: State, fate: Fate)
    requires Inv(initial, s) && Send(s, t, fate)
    ensures Inv(initial, t)
  {
    var n := |s.requests|;
    assert forall i :: 0 <= i < n ==> t.requests[i] == s.requests[i];
    if SomeApplied(t.requests) {
      var i :| 0 <= i < n + 1 && t.requests[i].fate == Applied;
      assert i < n;
    }
    if SomeApplied(s.requests) {
      var i :| 0 <= i < n && s.requests[i].fate == Applied;
      assert t.requests[i].fate == Applied;
    }
  }

  lemma HearKeepsInv(initial: multiset<Key>, s: State, t: State, o: Outcome)
    requires Inv(initial, s) && Hear(s, t, o)
    ensures Inv(initial, t)
  {
  }

  lemma LookKeepsInv(initial: multiset<Key>, s: State, t: State, found: Lookup)
    requires Inv(initial, s) && Look(s, t, found)
    ensures Inv(initial, t)
  {
  }

  lemma HandleKeepsInv(initial: multiset<Key>, s: State, t: State, r: nat)
    requires Inv(initial, s) && Handle(s, t, r)
    ensures Inv(initial, t)
  {
    assert forall i :: 0 <= i < |s.requests| && i != r ==> t.requests[i] == s.requests[i];
    if SomeApplied(s.requests) {
      var i :| 0 <= i < |s.requests| && s.requests[i].fate == Applied;
      assert t.requests[i].fate == Applied;
    }
    if t.requests[r].fate == Applied {
      assert SomeApplied(t.requests);
    }
  }

  lemma StepKeepsInv(initial: multiset<Key>, s: State, t: State)
    requires Inv(initial, s) && Next(s, t)
    ensures Inv(initial, t)
  {
    hide Inv, Send, Hear, Look, Handle;
    if fate :| Send(s, t, fate) {
      SendKeepsInv(initial, s, t, fate);
    } else if o :| Hear(s, t, o) {
      HearKeepsInv(initial, s, t, o);
    } else if found :| Look(s, t, found) {
      LookKeepsInv(initial, s, t, found);
    } else {
      var r :| Handle(s, t, r);
      HandleKeepsInv(initial, s, t, r);
    }
  }

  lemma StepKeepsKey(s: State, t: State)
    requires Next(s, t)
    ensures t.key == s.key
    ensures s.client == Returned || s.client.Failed? ==> t.client == s.client
  {
  }

  lemma {:induction false} RunKeepsInv(run: seq<State>, i: nat)
    requires Run(run) && i < |run|
    ensures Inv(run[0].records, run[i]) && run[i].key == run[0].key
  {
    if i > 0 {
      RunKeepsInv(run, i - 1);
      assert Next(run[i - 1], run[i]);
      hide Next, Inv;
      StepKeepsInv(run[0].records, run[i - 1], run[i]);
      StepKeepsKey(run[i - 1], run[i]);
    }
  }

  lemma {:induction false} EndIsFinal(run: seq<State>, i: nat, j: nat)
    requires Run(run) && i <= j < |run| && (run[i].client == Returned || run[i].client.Failed?)
    ensures run[j].client == run[i].client
  {
    if i < j {
      EndIsFinal(run, i, j - 1);
      assert Next(run[j - 1], run[j]);
      hide Next;
      StepKeepsKey(run[j - 1], run[j]);
    }
  }

  // ----- The promises -----

  /** Whatever is lost, delayed or repeated, at most one record is ever created, under the one key. */
  lemma AtMostOnePost(run: seq<State>, i: nat)
    requires Run(run) && i < |run|
    ensures run[i].records == run[0].records || run[i].records == run[0].records + multiset{run[0].key}
  {
    RunKeepsInv(run, i);
  }

  /** A normal return means the record exists, then and ever after. */
  lemma ReturnMeansPosted(run: seq<State>, i: nat, j: nat)
    requires Run(run) && i <= j < |run| && run[i].client == Returned
    ensures run[j].records == run[0].records + multiset{run[0].key}
  {
    EndIsFinal(run, i, j);
    RunKeepsInv(run, j);
  }

  /** Failing without the warning means no record exists or ever will. */
  lemma NoWarningMeansNeverPosted(run: seq<State>, i: nat, j: nat)
    requires Run(run) && i < |run| && j < |run| && run[i].client == Failed(false)
    ensures run[j].records == run[0].records
  {
    RunKeepsInv(run, i);
    RunKeepsInv(run, j);
    hide Next;
    if i <= j {
      EndIsFinal(run, i, j);
    } else {
      RecordsOnlyGrow(run, j, i);
    }
  }

  lemma {:induction false} RecordsOnlyGrow(run: seq<State>, j: nat, i: nat)
    requires Run(run) && j <= i < |run|
    ensures run[j].records <= run[i].records
  {
    if j < i {
      RecordsOnlyGrow(run, j, i - 1);
      assert Next(run[i - 1], run[i]);
    }
  }

  // ----- What the client makes of what it hears -----

  /** Good news in the step from state `i` on: a proper success, or a lookup that finds the record. */
  ghost predicate GoodNews(run: seq<State>, i: nat)
    requires i + 1 < |run|
  {
    Hear(run[i], run[i + 1], Success) || Look(run[i], run[i + 1], Found)
  }

  /** The request was certainly not carried out: it was never sent, or answered with a redirect or a status below 500. */
  predicate Definite(o: Outcome) {
    o == UnsentRequest || o == Redirect || (o.HttpError? && o.status.Some? && o.status.value < 500)
  }

  /** Definite bad news about the first attempt. */
  ghost predicate FirstAttemptFails(run: seq<State>, i: nat)
    requires i + 1 < |run|
  {
    run[i].client == Awaiting(1) && exists o :: Definite(o) && Hear(run[i], run[i + 1], o)
  }

  /** Nothing more to try, and nothing certain: a lookup that fails, a retry that is redirected, or a second lookup in vain. */
  ghost predicate LeavesDoubt(run: seq<State>, i: nat)
    requires i + 1 < |run|
  {
    || Look(run[i], run[i + 1], LookupError)
    || (run[i].client == Awaiting(2) && Hear(run[i], run[i + 1], Redirect))
    || (run[i].client == LookingUp(2) && Look(run[i], run[i + 1], NotFound))
  }

  /** The first lookup finds nothing after an attempt whose outcome is uncertain. */
  ghost predicate CallsForRetry(run: seq<State>, i: nat)
    requires i + 1 < |run|
  {
    run[i].client == LookingUp(1) && Look(run[i], run[i + 1], NotFound)
  }

  predicate Ended(c: Client) {
    c == Returned || c.Failed?
  }

  lemma NewsOfStep(run: seq<State>, i: nat)
    requires Run(run) && i + 1 < |run| && !Ended(run[i].client)
    ensures run[i + 1].client == Returned <==> GoodNews(run, i)
    ensures run[i + 1].client == Failed(false) <==> FirstAttemptFails(run, i)
    ensures run[i + 1].client == Failed(true) <==> LeavesDoubt(run, i)
    ensures run[i].client != Sending(2) ==> (run[i + 1].client == Sending(2) <==> CallsForRetry(run, i))
  {
    RunKeepsInv(run, i);
    assert Next(run[i], run[i + 1]);
    hide Inv;
    AttemptsOf(run[0].records, run[i]);
    if run[i + 1].client == Failed(false) {
      var o :| Hear(run[i], run[i + 1], o);
      assert Definite(o);
    }
  }

  lemma AttemptsOf(initial: multiset<Key>, s: State)
    requires Inv(initial, s)
    ensures s.client.Awaiting? ==> 1 <= s.client.attempt <= 2
    ensures s.client.LookingUp? ==> 1 <= s.client.lookup <= 2
    ensures s.client.Sending? ==> 1 <= s.client.attempt <= 2
    ensures |s.requests| <= 2
  {
  }

  lemma NoNewsAfterEnd(run: seq<State>, i: nat)
    requires Run(run) && i + 1 < |run| && Ended(run[i].client)
    ensures !GoodNews(run, i) && !FirstAttemptFails(run, i) && !LeavesDoubt(run, i) && run[i + 1].client == run[i].client
  {
    assert Next(run[i], run[i + 1]);
    EndIsFinal(run, i, i + 1);
  }

  /** The client has returned exactly when it has heard good news. */
  lemma {:induction false} ReturnsOnGoodNews(run: seq<State>, j: nat)
    requires Run(run) && j < |run|
    ensures run[j].client == Returned <==> exists i :: 0 <= i < j && GoodNews(run, i)
  {
    hide Run, GoodNews;
    if j == 0 {
      StartsSending(run);
    } else {
      ReturnsOnGoodNews(run, j - 1);
      if Ended(run[j - 1].client) { NoNewsAfterEnd(run, j - 1); } else { NewsOfStep(run, j - 1); }
    }
  }

  /** It has failed without the warning exactly when the first attempt certainly did. */
  lemma {:induction false} FailsSilentlyOnDefiniteNews(run: seq<State>, j: nat)
    requires Run(run) && j < |run|
    ensures run[j].client == Failed(false) <==> exists i :: 0 <= i < j && FirstAttemptFails(run, i)
  {
    hide Run, FirstAttemptFails;
    if j == 0 {
      StartsSending(run);
    } else {
      FailsSilentlyOnDefiniteNews(run, j - 1);
      if Ended(run[j - 1].client) { NoNewsAfterEnd(run, j - 1); } else { NewsOfStep(run, j - 1); }
    }
  }

  /** It has failed with the warning exactly when everything it may try has left a doubt. */
  lemma {:induction false} WarnsOnDoubt(run: seq<State>, j: nat)
    requires Run(run) && j < |run|
    ensures run[j].client == Failed(true) <==> exists i :: 0 <= i < j && LeavesDoubt(run, i)
  {
    hide Run, LeavesDoubt;
    if j == 0 {
      StartsSending(run);
    } else {
      WarnsOnDoubt(run, j - 1);
      if Ended(run[j - 1].client) { NoNewsAfterEnd(run, j - 1); } else { NewsOfStep(run, j - 1); }
    }
  }

  lemma StartsSending(run: seq<State>)
    requires Run(run)
    ensures run[0].client == Sending(1) && run[0].requests == []
  {
  }

  /** The retry is under way: about to be sent, or sent. */
  predicate Retrying(s: State) {
    |s.requests| == 2 || s.client == Sending(2)
  }

  lemma RetryBegins(run: seq<State>, i: nat)
    requires Run(run) && i + 1 < |run|
    ensures |run[i].requests| <= 2 && |run[i + 1].requests| <= 2
    ensures Retrying(run[i + 1]) ==> Retrying(run[i]) || CallsForRetry(run, i)
  {
    RunKeepsInv(run, i);
    RunKeepsInv(run, i + 1);
    RequestCount(run[0].records, run[i]);
    RequestCount(run[0].records, run[i + 1]);
    assert Next(run[i], run[i + 1]);
    hide Inv, Run;
  }

  lemma RequestCount(initial: multiset<Key>, s: State)
    requires Inv(initial, s)
    ensures |s.requests| <= 2
    ensures s.client.Sending? ==> s.client.attempt == |s.requests| + 1 <= 2
    ensures s.client.LookingUp? ==> s.client.lookup == |s.requests|
  {
  }

  /** It sends at most two requests, and the second only after the first lookup found nothing. */
  lemma {:induction false} RetriesOnlyInVain(run: seq<State>, j: nat)
    requires Run(run) && j < |run|
    ensures |run[j].requests| <= 2
    ensures Retrying(run[j]) ==> exists i :: 0 <= i < j && CallsForRetry(run, i)
  {
    hide Run, CallsForRetry, Retrying;
    if j == 0 {
      StartsSending(run);
      assert !Retrying(run[0]) by { FirstIsNoRetry(run[0]); }
    } else {
      RetriesOnlyInVain(run, j - 1);
      RetryBegins(run, j - 1);
    }
  }

  lemma FirstIsNoRetry(s: State)
    requires s.client == Sending(1) && s.requests == []
    ensures !Retrying(s)
  {
  }

  /** Once a reply of success arrives the client has returned, with exactly one record made; so from then on. */
  lemma SuccessIsReturned(run: seq<State>, i: nat, j: nat)
    requires Run(run) && i < j < |run| && Hear(run[i], run[i + 1], Success)
    ensures run[j].client == Returned && run[j].records == run[0].records + multiset{run[0].key}
  {
    assert GoodNews(run, i);
    hide Run, GoodNews, Hear;
    ReturnsOnGoodNews(run, j);
    ReturnMeansPosted(run, j, j);
  }

  /** An ordinary run: the server applies the first request, and its reply arrives. */
  lemma FirstTry(key: Key, records: multiset<Key>) returns (run: seq<State>)
    requires key !in records
    ensures Run(run) && run[0] == State(Sending(1), key, [], records) && |run| == 4
    ensures Hear(run[2], run[3], Success)
    ensures run[3] == State(Returned, key, [Request(key, Applied)], records + multiset{key})
  {
    var s0 := State(Sending(1), key, [], records);
    var s1 := s0.(client := Awaiting(1), requests := [Request(key, InFlight)]);
    var s2 := s1.(requests := [Request(key, Applied)], records := records + multiset{key});
    var s3 := s2.(client := Returned);
    assert Run([s0]);
    assert Send(s0, s1, InFlight) && Handle(s1, s2, 0) && Hear(s2, s3, Success);
    hide Run, Extended, Send, Hear, Handle;
    run := Extended(Extended(Extended([s0], s1), s2), s3);
  }

  // ----- The client always comes to an end -----

  /** Steps the client itself may still take. */
  function StepsLeft(c: Client): nat {
    match c
    case Sending(a) => if a == 1 then 6 else 3
    case Awaiting(a) => if a == 1 then 5 else 2
    case LookingUp(l) => if l == 1 then 4 else 1
    case _ => 0
  }

  ghost predicate ServerStep(s: State, t: State) {
    exists r :: Handle(s, t, r)
  }

  /** A step is the server's, or brings the client nearer its end: it takes at most six of its own. */
  lemma StepsRunOut(run: seq<State>, i: nat)
    requires Run(run) && i + 1 < |run|
    ensures StepsLeft(run[i + 1].client) < StepsLeft(run[i].client)
         || (run[i + 1].client == run[i].client && ServerStep(run[i], run[i + 1]))
  {
    RunKeepsInv(run, i);
    AttemptsOf(run[0].records, run[i]);
    hide Inv;
    assert Next(run[i], run[i + 1]);
  }

  /** Until it has ended, the client can always take a step of its own, whatever the server does. */
  lemma ClientGoesOn(run: seq<State>) returns (t: State)
    requires Run(run) && !Ended(run[|run| - 1].client)
    ensures Next(run[|run| - 1], t) && t.client != run[|run| - 1].client
  {
    var s := run[|run| - 1];
    RunKeepsInv(run, |run| - 1);
    AttemptsOf(run[0].records, s);
    match s.client
    case Sending(a) =>
      t := s.(client := Awaiting(a), requests := s.requests + [Request(s.key, NeverSent)]);
      assert Send(s, t, NeverSent);
    case Awaiting(a) =>
      var o := if s.requests[|s.requests| - 1].fate == NeverSent then UnsentRequest else OtherRequestError;
      t := s.(client := AfterAttempt(a, o));
      assert Hear(s, t, o);
    case LookingUp(l) =>
      t := s.(client := AfterLookup(l, LookupError));
      assert Look(s, t, LookupError);
  }

  ghost function Extended(run: seq<State>, t: State): (longer: seq<State>)
    requires Run(run) && Next(run[|run| - 1], t)
    ensures Run(longer) && |longer| == |run| + 1 && longer[0] == run[0] && longer[|run|] == t
    ensures forall i :: 0 <= i < |run| ==> longer[i] == run[i]
  {
    run + [t]
  }

  /**
    The warning is needed even after the retry was definitely rejected and the
    second lookup found nothing: the first request may land after all of that.
   */
  lemma LateArrival(key: Key, records: multiset<Key>) returns (run: seq<State>, i: nat)
    requires key !in records
    ensures Run(run) && run[0] == State(Sending(1), key, [], records)
    ensures i < |run| && run[i].client == Failed(true) && key !in run[i].records
    ensures run[|run| - 1].records == records + multiset{key}
  {
    var flying, refused := Request(key, InFlight), Request(key, Refused);
    run := RetryRefused(key, records);
    i := |run| + 1;
    var s5 := run[|run| - 1];
    var s6, s7 := s5.(client := LookingUp(2)), s5.(client := Failed(true));
    var s8 := s7.(requests := [Request(key, Applied), refused], records := records + multiset{key});
    assert Hear(s5, s6, HttpError(Some(400))) && Look(s6, s7, NotFound) && Handle(s7, s8, 0);
    hide Run, Extended, Hear, Look, Handle;
    run := Extended(Extended(Extended(run, s6), s7), s8);
  }

  /** The first call times out, the lookup finds nothing, and the server refuses the retry. */
  lemma RetryRefused(key: Key, records: multiset<Key>) returns (run: seq<State>)
    requires key !in records
    ensures Run(run) && run[0] == State(Sending(1), key, [], records)
    ensures run[|run| - 1] == State(Awaiting(2), key, [Request(key, InFlight), Request(key, Refused)], records)
  {
    var flying, refused := Request(key, InFlight), Request(key, Refused);
    var s0 := State(Sending(1), key, [], records);
    var s1 := s0.(client := Awaiting(1), requests := [flying]);
    var s2, s3 := s1.(client := LookingUp(1)), s1.(client := Sending(2));
    var s4 := s3.(client := Awaiting(2), requests := [flying, flying]);
    var s5 := s4.(requests := [flying, refused]);
    assert Run([s0]);
    assert Send(s0, s1, InFlight) && Hear(s1, s2, OtherRequestError) && Look(s2, s3, NotFound);
    assert Send(s3, s4, InFlight) && Handle(s4, s5, 1);
    hide Run, Extended, Send, Hear, Look, Handle;
    run := Extended(Extended(Extended(Extended(Extended([s0], s1), s2), s3), s4), s5);
  }
}
