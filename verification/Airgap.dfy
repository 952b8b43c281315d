/** The air-gap worker's hand-over. */
module Airgap {
  import opened Bytes

  // The air-gap worker's hand-over: requests submitted by any number of tasks, one
  // worker, and one user interface that polls and acknowledges, as interleaved steps.

  type Request = seq<u8>

  /** What signing a request comes to: an encoded answer, or a reason it was refused. */
  datatype Outcome = Answer(cbor: seq<u8>) | Refusal(code: nat)

  datatype Mode = Idle | Working | Done | Failed

  /** A task inside a submit: it has won the claim, then it has stored the request. */
  datatype Submitter = Elsewhere | Claimed(request: Request) | Stored(request: Request)

  /** The worker: it has taken the work, signed, written the result, zeroed the request. */
  datatype Worker =
    | Waiting | Taken | Signed(outcome: Outcome) | Written(outcome: Outcome) | Zeroed(outcome: Outcome)

  /** The interface: it may be inside an acknowledgement, the result already cleared. */
  datatype Ui = Free | Clearing

  datatype Run = Run(request: Request, outcome: Outcome)

  /** What a poll that saw Done read, and which run it was. */
  datatype Sight = Sight(run: nat, read: Option<Outcome>)

  datatype System = System(mode: Mode, queued: bool, pending: Option<Request>, result: Option<Outcome>,
                           submitters: seq<Submitter>, worker: Worker, ui: Ui,
                           accepted: seq<Request>, runs: seq<Run>, sights: seq<Sight>)

  datatype Action =
    | Submit(t: nat, request: Request)   // the compare-and-exchange out of Idle
    | Store(t: nat)                      // the request is copied
    | Queue(t: nat)                      // and the work announced
    | Take                               // the worker sees the work
    | Sign(outcome: Outcome)             // the request is run
    | Write                              // the result buffers are filled
    | Zero                               // the request is zeroed
    | Publish                            // the state is stored, last of all
    | Poll                               // the interface looks
    | Clear                              // an acknowledgement clears the result
    | Acknowledge                        // and gives the state back

  function Next(s: System, a: Action): Option<System> {
    match a
    case Submit(t, request) =>
      if t >= |s.submitters| || !s.submitters[t].Elsewhere? then None
      else if !s.mode.Idle? then Some(s)
      else Some(s.(mode := Working, accepted := s.accepted + [request], submitters := s.submitters[t := Claimed(request)]))
    case Store(t) =>
      if t >= |s.submitters| || !s.submitters[t].Claimed? then None
      else Some(s.(pending := Some(s.submitters[t].request), submitters := s.submitters[t := Stored(s.submitters[t].request)]))
    case Queue(t) =>
      if t >= |s.submitters| || !s.submitters[t].Stored? then None
      else Some(s.(queued := true, submitters := s.submitters[t := Elsewhere]))
    case Take => if s.worker.Waiting? && s.queued then Some(s.(queued := false, worker := Taken)) else None
    case Sign(outcome) =>
      if !s.worker.Taken? || s.pending.None? then None
      else Some(s.(runs := s.runs + [Run(s.pending.value, outcome)], worker := Signed(outcome)))
    case Write => if s.worker.Signed? then Some(s.(result := Some(s.worker.outcome), worker := Written(s.worker.outcome))) else None
    case Zero => if s.worker.Written? then Some(s.(pending := None, worker := Zeroed(s.worker.outcome))) else None
    case Publish =>
      if !s.worker.Zeroed? then None
      else Some(s.(mode := if s.worker.outcome.Answer? then Done else Failed, worker := Waiting))
    case Poll =>
      if !s.ui.Free? then None
      else if !s.mode.Done? then Some(s)
      else Some(s.(sights := s.sights + [Sight(if |s.runs| > 0 then |s.runs| - 1 else 0, s.result)]))
    case Clear =>
      if !s.ui.Free? then None
      else if !s.mode.Done? && !s.mode.Failed? then Some(s)
      else Some(s.(result := None, ui := Clearing))
    case Acknowledge => if s.ui.Clearing? then Some(s.(mode := Idle, ui := Free)) else None
  }

  function Start(submitters: nat): System {
    System(Idle, false, None, None, seq(submitters, i => Elsewhere), Waiting, Free, [], [], [])
  }

  function Play(s: System, schedule: seq<Action>): System {
    if |schedule| == 0 then s
    else
      var before := Play(s, schedule[..|schedule| - 1]);
      var after := Next(before, schedule[|schedule| - 1]);
      if after.Some? then after.value else before
  }

  // -------------------------------------------------------------- invariants

  predicate AllElsewhere(s: System) { forall i | 0 <= i < |s.submitters| :: s.submitters[i].Elsewhere? }

  /** Exactly one task is inside a submit. */
  predicate OneSubmits(s: System, t: nat) {
    t < |s.submitters| && !s.submitters[t].Elsewhere?
    && forall i | 0 <= i < |s.submitters| && i != t :: s.submitters[i].Elsewhere?
  }

  /** One accepted request has not been run yet, and this is it. */
  predicate Owed(s: System, request: Request) {
    |s.accepted| == |s.runs| + 1 && s.accepted[|s.runs|] == request
  }

  /** The last run came to this. */
  predicate JustRun(s: System, outcome: Outcome) {
    |s.accepted| == |s.runs| && |s.runs| > 0 && s.runs[|s.runs| - 1].outcome == outcome
  }

  /** A request being worked on is in exactly one place: with the task that submits it,
      in the queue, or with the worker. */
  ghost predicate WorkOk(s: System) {
    match s.worker
    case Waiting =>
      if s.queued then AllElsewhere(s) && s.pending.Some? && Owed(s, s.pending.value)
      else exists t: nat :: OneSubmits(s, t) && Owed(s, s.submitters[t].request)
                       && (s.submitters[t].Stored? ==> s.pending == Some(s.submitters[t].request))
    case Taken => !s.queued && AllElsewhere(s) && s.pending.Some? && Owed(s, s.pending.value)
    case Signed(outcome) => !s.queued && AllElsewhere(s) && JustRun(s, outcome)
    case Written(outcome) => !s.queued && AllElsewhere(s) && JustRun(s, outcome) && s.result == Some(outcome)
    case Zeroed(outcome) => !s.queued && AllElsewhere(s) && JustRun(s, outcome) && s.result == Some(outcome)
  }

  ghost predicate ModeOk(s: System) {
    if s.mode.Working? then WorkOk(s) && s.ui.Free?
    else
      && s.worker.Waiting? && !s.queued && AllElsewhere(s) && |s.accepted| == |s.runs|
      && (s.mode.Idle? ==> s.ui.Free?)
      && (s.mode.Done? || s.mode.Failed? ==> |s.runs| > 0)
      && ((s.mode.Done? || s.mode.Failed?) && s.ui.Free? ==>
            s.result == Some(s.runs[|s.runs| - 1].outcome) && (s.mode.Done? <==> s.runs[|s.runs| - 1].outcome.Answer?))
  }

  /** Every accepted request that was run was run as submitted, in order, once. */
  predicate RunsOk(s: System) {
    |s.runs| <= |s.accepted| <= |s.runs| + 1 && forall k | 0 <= k < |s.runs| :: s.runs[k].request == s.accepted[k]
  }

  /** What was seen as done was a run's finished answer. */
  predicate SightsOk(s: System) {
    forall k | 0 <= k < |s.sights| :: SightOk(s, s.sights[k])
  }

  predicate SightOk(s: System, sight: Sight) {
    sight.run < |s.runs| && sight.read == Some(s.runs[sight.run].outcome) && s.runs[sight.run].outcome.Answer?
  }

  ghost predicate Inv(s: System) { ModeOk(s) && RunsOk(s) && SightsOk(s) }

  lemma StartIsOk(submitters: nat)
    ensures Inv(Start(submitters))
  {}

  lemma SubmitKeepsMode(s: System, t: nat, request: Request)
    requires Inv(s) && Next(s, Submit(t, request)).Some?
    ensures ModeOk(Next(s, Submit(t, request)).value)
  {
    var n := Next(s, Submit(t, request)).value;
    if s.mode.Idle? {
      assert OneSubmits(n, t) && Owed(n, n.submitters[t].request);
    }
  }

  lemma StoreKeepsMode(s: System, t: nat)
    requires Inv(s) && Next(s, Store(t)).Some?
    ensures ModeOk(Next(s, Store(t)).value)
  {
    var n := Next(s, Store(t)).value;
    InsideASubmit(s, t);
    assert OneSubmits(n, t) && Owed(n, n.submitters[t].request);
  }

  lemma QueueKeepsMode(s: System, t: nat)
    requires Inv(s) && Next(s, Queue(t)).Some?
    ensures ModeOk(Next(s, Queue(t)).value)
  {
    InsideASubmit(s, t);
  }

  /** A task that is inside a submit is the one the work is waiting for. */
  lemma InsideASubmit(s: System, t: nat)
    requires Inv(s) && t < |s.submitters| && !s.submitters[t].Elsewhere?
    ensures s.mode.Working? && s.worker.Waiting? && !s.queued && s.ui.Free? && OneSubmits(s, t)
    ensures Owed(s, s.submitters[t].request) && (s.submitters[t].Stored? ==> s.pending == Some(s.submitters[t].request))
  {
    assert !AllElsewhere(s);
    var u: nat :| OneSubmits(s, u) && Owed(s, s.submitters[u].request)
             && (s.submitters[u].Stored? ==> s.pending == Some(s.submitters[u].request));
    assert u == t;
  }

  lemma WorkerKeepsMode(s: System, a: Action)
    requires Inv(s) && Next(s, a).Some? && (a.Take? || a.Sign? || a.Write? || a.Zero? || a.Publish?)
    ensures ModeOk(Next(s, a).value)
  {}

  lemma UiKeepsMode(s: System, a: Action)
    requires Inv(s) && Next(s, a).Some? && (a.Poll? || a.Clear? || a.Acknowledge?)
    ensures ModeOk(Next(s, a).value)
  {
    var n := Next(s, a).value;
    if s.mode.Working? && s.worker.Waiting? && !s.queued {
      var t: nat :| OneSubmits(s, t) && Owed(s, s.submitters[t].request)
               && (s.submitters[t].Stored? ==> s.pending == Some(s.submitters[t].request));
      assert OneSubmits(n, t) && Owed(n, n.submitters[t].request);
    }
  }

  lemma StepKeepsRuns(s: System, a: Action)
    requires Inv(s) && Next(s, a).Some?
    ensures RunsOk(Next(s, a).value) && SightsOk(Next(s, a).value)
  {
    var n := Next(s, a).value;
    forall k | 0 <= k < |n.sights| ensures SightOk(n, n.sights[k]) {
      if k < |s.sights| { assert SightOk(s, s.sights[k]); }
    }
  }

  lemma StepKeepsInv(s: System, a: Action)
    requires Inv(s) && Next(s, a).Some?
    ensures Inv(Next(s, a).value)
  {
    StepKeepsRuns(s, a);
    match a
    case Submit(t, request) => SubmitKeepsMode(s, t, request);
    case Store(t) => StoreKeepsMode(s, t);
    case Queue(t) => QueueKeepsMode(s, t);
    case Take => WorkerKeepsMode(s, a);
    case Sign(outcome) => WorkerKeepsMode(s, a);
    case Write => WorkerKeepsMode(s, a);
    case Zero => WorkerKeepsMode(s, a);
    case Publish => WorkerKeepsMode(s, a);
    case Poll => UiKeepsMode(s, a);
    case Clear => UiKeepsMode(s, a);
    case Acknowledge => UiKeepsMode(s, a);
  }

  lemma {:induction false} PlayKeepsInv(s: System, schedule: seq<Action>)
    requires Inv(s)
    ensures Inv(Play(s, schedule))
  {
    hide Inv, Next;
    if |schedule| > 0 {
      var before, a := Play(s, schedule[..|schedule| - 1]), schedule[|schedule| - 1];
      PlayKeepsInv(s, schedule[..|schedule| - 1]);
      if Next(before, a).Some? { StepKeepsInv(before, a); }
    }
  }

  // -------------------------------------------------------------- whole runs

  /** In every interleaving: the requests run are the requests accepted, in order and
      once each, all but the one being worked on; none is lost and none is run twice. */
  lemma EveryAcceptedRequestIsRunOnce(submitters: nat, schedule: seq<Action>)
    ensures var s := Play(Start(submitters), schedule);
      RunsOk(s) && (!s.mode.Working? ==> |s.runs| == |s.accepted|)
  {
    StartIsOk(submitters);
    PlayKeepsInv(Start(submitters), schedule);
  }

  /** A poll that sees Done reads the whole answer of the run that was last accepted. */
  lemma DoneIsFinished(submitters: nat, schedule: seq<Action>)
    ensures var s := Play(Start(submitters), schedule);
      SightsOk(s)
      && (s.mode.Done? && s.ui.Free? ==>
            |s.runs| == |s.accepted| && |s.runs| > 0 && s.result == Some(s.runs[|s.runs| - 1].outcome)
            && s.runs[|s.runs| - 1].request == s.accepted[|s.accepted| - 1])
  {
    StartIsOk(submitters);
    PlayKeepsInv(Start(submitters), schedule);
  }

  /** While a request is being worked on nothing else is accepted, and its bytes stay as
      they were stored until the worker has run them. */
  lemma WorkingExcludesOthers(submitters: nat, schedule: seq<Action>, a: Action)
    ensures var s := Play(Start(submitters), schedule);
      s.mode.Working? && Next(s, a).Some? ==>
        Next(s, a).value.accepted == s.accepted
        && (s.worker.Taken? ==> |s.accepted| > 0 && s.pending == Some(s.accepted[|s.accepted| - 1])
                                && (Next(s, a).value.pending == s.pending))
  {
    StartIsOk(submitters);
    PlayKeepsInv(Start(submitters), schedule);
    var s := Play(Start(submitters), schedule);
    if s.mode.Working? && s.worker.Taken? && a.Store? && Next(s, a).Some? {
      InsideASubmit(s, a.t);
    }
  }

  // ---------------------------------------------------------------- progress

  /** The steps of the submitter and the worker that a request being worked on still takes. */
  ghost function Left(s: System): (n: nat)
    ensures 1 <= n <= 7
  {
    match s.worker
    case Waiting =>
      if s.queued then 5 else if exists i :: 0 <= i < |s.submitters| && s.submitters[i].Stored? then 6 else 7
    case Taken => 4
    case Signed(_) => 3
    case Written(_) => 2
    case Zeroed(_) => 1
  }

  /** There is always such a step, and it is enabled. */
  lemma StepsOn(s: System, outcome: Outcome) returns (a: Action)
    requires Inv(s) && s.mode.Working?
    ensures Next(s, a).Some? && Inv(Next(s, a).value) && Next(s, a).value.accepted == s.accepted
    ensures if Left(s) == 1 then Next(s, a).value.mode.Done? || Next(s, a).value.mode.Failed?
            else Next(s, a).value.mode.Working? && Left(Next(s, a).value) == Left(s) - 1
  {
    match s.worker
    case Waiting =>
      if s.queued {
        a := Take;
      } else {
        var t: nat :| OneSubmits(s, t);
        a := if s.submitters[t].Claimed? then Store(t) else Queue(t);
        if s.submitters[t].Claimed? {
          assert s.submitters[t := Stored(s.submitters[t].request)][t].Stored?;
        }
      }
    case Taken => a := Sign(outcome);
    case Signed(_) => a := Write;
    case Written(_) => a := Zero;
    case Zeroed(_) => a := Publish;
    hide Inv, WorkOk, ModeOk, RunsOk, SightsOk, AllElsewhere, OneSubmits;
    StepKeepsInv(s, a);
  }

  /** Nothing that anyone else does in between sets it back. */
  lemma OthersDoNotDelay(s: System, a: Action)
    requires Inv(s) && s.mode.Working? && Next(s, a).Some?
    ensures var after := Next(s, a).value;
      if after.mode.Working? then Left(after) <= Left(s) else Left(s) == 1 && |after.runs| == |after.accepted|
  {
    if a.Store? || a.Queue? { InsideASubmit(s, a.t); }
    if a.Store? {
      assert s.submitters[a.t := Stored(s.submitters[a.t].request)][a.t].Stored?;
    }
  }

  lemma {:induction false} PlayFirst(s: System, a: Action, rest: seq<Action>)
    requires Next(s, a).Some?
    ensures Play(s, [a] + rest) == Play(Next(s, a).value, rest)
    decreases |rest|
  {
    hide Next;
    if |rest| == 0 {
      assert [a] + rest == [a] && [a][..0] == [];
      assert Play(s, [a][..0]) == s;
    } else {
      var n := |rest| - 1;
      assert ([a] + rest)[..n + 1] == [a] + rest[..n] && ([a] + rest)[n + 1] == rest[n];
      PlayFirst(s, a, rest[..n]);
    }
  }

  /** From every state in which a request is worked on, at most seven steps of its
      submitter and the worker run it and publish what it came to. */
  lemma {:induction false} WorkIsFinished(s: System, outcome: Outcome) returns (schedule: seq<Action>)
    requires Inv(s) && s.mode.Working?
    ensures |schedule| == Left(s)
    ensures var end := Play(s, schedule);
      (end.mode.Done? || end.mode.Failed?) && Inv(end) && end.accepted == s.accepted && |end.runs| == |end.accepted|
    decreases Left(s)
  {
    hide Next, WorkOk, RunsOk, SightsOk, Left;
    var a := StepsOn(s, outcome);
    var next := Next(s, a).value;
    if Left(s) == 1 {
      schedule := [a];
      PlayFirst(s, a, []);
      assert [a] + [] == [a];
    } else {
      var rest := WorkIsFinished(next, outcome);
      schedule := [a] + rest;
      PlayFirst(s, a, rest);
    }
  }

  /** So every request that was ever accepted is run, whatever went before. */
  lemma EveryAcceptedRequestCanBeRun(submitters: nat, schedule: seq<Action>, outcome: Outcome) returns (more: seq<Action>)
    ensures |more| <= 7
    ensures var end := Play(Play(Start(submitters), schedule), more);
      end.accepted == Play(Start(submitters), schedule).accepted && |end.runs| == |end.accepted|
      && forall k | 0 <= k < |end.accepted| :: end.runs[k].request == end.accepted[k]
  {
    StartIsOk(submitters);
    PlayKeepsInv(Start(submitters), schedule);
    var s := Play(Start(submitters), schedule);
    if s.mode.Working? {
      more := WorkIsFinished(s, outcome);
    } else {
      more := [];
    }
  }
}
