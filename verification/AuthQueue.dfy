/**
 The queue in front of the authenticator (auth.go) as a state machine: one calling goroutine, any
 number of DS-link goroutines, one worker, a bounded channel and a wait group. Every step below is
 one atomic action; a run is any interleaving of steps.
 */
module AuthQueue {
  import opened Collections
  import opened Records
  import opened ReorderBuffer
  import opened Authenticator

  const QUEUE_CAPACITY := 8

  /** The calling goroutine: issuing work, blocked on a send, then `result` or `close`. */
  datatype Caller = Calling | CallerSending(m: Input) | Waiting | Closing | Closed

  /** The worker: receiving, inside `AddResponse`, about to call `Done`, or gone. */
  datatype Worker = Receiving | Handling(m: Input) | Acknowledging | Exited

  /**
   Link goroutines are named by numbers: `fetching` are asking for DS records, `sending` hold a
   message they have announced but not delivered, `leaving` have only their `Done` left. `sent`
   and `handled` record, in order, what was delivered to the channel and to `AddResponse`.
   */
  datatype QueueState = QueueState(
    caller: Caller, worker: Worker,
    fetching: set<nat>, sending: map<nat, Input>, leaving: set<nat>,
    queue: seq<Input>, closed: bool, finished: bool, count: int, panicked: bool,
    sent: seq<Input>, handled: seq<Input>)

  function Start(): QueueState {
    QueueState(Calling, Receiving, {}, map[], {}, [], false, false, 0, false, [], [])
  }

  datatype Action =
    | CallerAnnounce(m: Input)   // addResponse: finished not set, Add(1)
    | CallerIgnored              // addResponse or addDelegationSignerLink after finished: no effect
    | CallerSend                 // the channel send of addResponse
    | CallerSpawn(id: nat)       // addDelegationSignerLink: Add(1), go
    | CallerFinish               // result or close: finished.Store(true)
    | CallerWaited               // processing.Wait() returns
    | CallerClose                // close(queue)
    | LinkFail(id: nat)          // no usable response: deferred Done
    | LinkAnnounce(id: nat, m: Input)
    | LinkSend(id: nat)
    | LinkDone(id: nat)
    | WorkerReceive
    | WorkerHandle               // AddResponse, and the errors slice on failure
    | WorkerDone
    | WorkerExit

  /** When an action can happen. A send on a closed channel can happen, and panics. */
  predicate Enabled(s: QueueState, a: Action) {
    match a
    case CallerAnnounce(_) => s.caller.Calling? && !s.finished
    case CallerIgnored => s.finished
    case CallerSend => s.caller.CallerSending? && (s.closed || |s.queue| < QUEUE_CAPACITY)
    case CallerSpawn(id) => s.caller.Calling? && !s.finished && id !in s.fetching && id !in s.sending && id !in s.leaving
    case CallerFinish => s.caller.Calling?
    case CallerWaited => s.caller.Waiting? && s.count == 0
    case CallerClose => s.caller.Closing?
    case LinkFail(id) => id in s.fetching
    case LinkAnnounce(id, _) => id in s.fetching
    case LinkSend(id) => id in s.sending && (s.closed || |s.queue| < QUEUE_CAPACITY)
    case LinkDone(id) => id in s.leaving
    case WorkerReceive => s.worker.Receiving? && s.queue != []
    case WorkerHandle => s.worker.Handling?
    case WorkerDone => s.worker.Acknowledging?
    case WorkerExit => s.worker.Receiving? && s.closed && s.queue == []
  }

  function Deliver(s: QueueState, m: Input): QueueState {
    if s.closed then s.(panicked := true) else s.(queue := s.queue + [m], sent := s.sent + [m])
  }

  /** `Done` below zero panics as well. */
  function Release(s: QueueState): QueueState {
    s.(count := s.count - 1, panicked := s.panicked || s.count <= 0)
  }

  function Next(s: QueueState, a: Action): QueueState
    requires Enabled(s, a)
  {
    match a
    case CallerAnnounce(m) => s.(count := s.count + 1, caller := CallerSending(m))
    case CallerIgnored => s
    case CallerSend => Deliver(s, s.caller.m).(caller := Calling)
    case CallerSpawn(id) => s.(count := s.count + 1, fetching := s.fetching + {id})
    case CallerFinish => s.(finished := true, caller := Waiting)
    case CallerWaited => s.(caller := Closing)
    case CallerClose => s.(closed := true, caller := Closed, panicked := s.panicked || s.closed)
    case LinkFail(id) => Release(s.(fetching := s.fetching - {id}))
    case LinkAnnounce(id, m) => s.(count := s.count + 1, fetching := s.fetching - {id}, sending := s.sending[id := m])
    case LinkSend(id) => Deliver(s, s.sending[id]).(sending := s.sending - {id}, leaving := s.leaving + {id})
    case LinkDone(id) => Release(s.(leaving := s.leaving - {id}))
    case WorkerReceive => s.(worker := Handling(s.queue[0]), queue := s.queue[1..])
    case WorkerHandle => s.(worker := Acknowledging, handled := s.handled + [s.worker.m])
    case WorkerDone => Release(s).(worker := Receiving)
    case WorkerExit => s.(worker := Exited)
  }

  /** The state an interleaving leads to; `None` if some action was not possible. */
  function Exec(actions: seq<Action>): Option<QueueState> {
    if actions == [] then Some(Start())
    else
      var a := actions[|actions| - 1];
      match Exec(actions[..|actions| - 1])
      case None => None
      case Some(before) => if Enabled(before, a) then Some(Next(before, a)) else None
  }

  predicate Run(actions: seq<Action>, s: QueueState) {
    Exec(actions) == Some(s)
  }

  // ---------------------------------------------------------------- what every step keeps

  function LiveLinks(s: QueueState): nat {
    |s.fetching| + |s.sending.Keys| + |s.leaving|
  }

  /** Messages announced with `Add(1)` and not yet acknowledged with `Done`. */
  function Outstanding(s: QueueState): nat {
    |s.sending.Keys| + (if s.caller.CallerSending? then 1 else 0) + |s.queue|
    + (if s.worker.Handling? || s.worker.Acknowledging? then 1 else 0)
  }

  ghost predicate Inv(s: QueueState) {
    && !s.panicked
    && s.count == LiveLinks(s) + Outstanding(s)
    && s.fetching !! s.sending.Keys && s.fetching !! s.leaving && s.sending.Keys !! s.leaving
    && s.sent == s.handled + (if s.worker.Handling? then [s.worker.m] else []) + s.queue
    && (s.finished <==> s.caller in {Waiting, Closing, Closed})
    && (s.closed <==> s.caller.Closed?)
    && (s.caller in {Closing, Closed} ==> s.count == 0)
    && (s.worker.Exited? ==> s.closed)
    && |s.queue| <= QUEUE_CAPACITY
  }

  lemma CallerStepKeepsInv(s: QueueState, a: Action)
    requires Inv(s) && Enabled(s, a)
    requires a.CallerAnnounce? || a.CallerIgnored? || a.CallerSend? || a.CallerSpawn? || a.CallerFinish?
      || a.CallerWaited? || a.CallerClose?
    ensures Inv(Next(s, a))
  {
    if a.CallerSend? {
      var m := s.caller.m;
      assert s.sent + [m] == s.handled + (if s.worker.Handling? then [s.worker.m] else []) + (s.queue + [m]);
    }
  }

  lemma LinkStepKeepsInv(s: QueueState, a: Action)
    requires Inv(s) && Enabled(s, a) && (a.LinkFail? || a.LinkDone?)
    ensures Inv(Next(s, a))
  {
  }

  lemma LinkAnnounceKeepsInv(s: QueueState, a: Action)
    requires Inv(s) && Enabled(s, a) && a.LinkAnnounce?
    ensures Inv(Next(s, a))
  {
    assert s.sending[a.id := a.m].Keys == s.sending.Keys + {a.id};
  }

  lemma LinkSendKeepsInv(s: QueueState, a: Action)
    requires Inv(s) && Enabled(s, a) && a.LinkSend?
    ensures Inv(Next(s, a))
  {
    var m := s.sending[a.id];
    assert (s.sending - {a.id}).Keys == s.sending.Keys - {a.id};
    assert s.sent + [m] == s.handled + (if s.worker.Handling? then [s.worker.m] else []) + (s.queue + [m]);
  }

  lemma WorkerStepKeepsInv(s: QueueState, a: Action)
    requires Inv(s) && Enabled(s, a)
    requires a.WorkerReceive? || a.WorkerHandle? || a.WorkerDone? || a.WorkerExit?
    ensures Inv(Next(s, a))
  {
    if a.WorkerReceive? {
      assert s.queue == [s.queue[0]] + s.queue[1..];
    }
  }

  lemma {:induction false} ReachableKeepsInv(actions: seq<Action>, s: QueueState)
    requires Run(actions, s)
    ensures Inv(s)
  {
    if actions != [] {
      var front, a := actions[..|actions| - 1], actions[|actions| - 1];
      var before := Exec(front).value;
      ReachableKeepsInv(front, before);
      if a.LinkSend? {
        LinkSendKeepsInv(before, a);
      } else if a.LinkAnnounce? {
        LinkAnnounceKeepsInv(before, a);
      } else if a.LinkFail? || a.LinkDone? {
        LinkStepKeepsInv(before, a);
      } else if a.WorkerReceive? || a.WorkerHandle? || a.WorkerDone? || a.WorkerExit? {
        WorkerStepKeepsInv(before, a);
      } else {
        CallerStepKeepsInv(before, a);
      }
    }
  }

  // ---------------------------------------------------------------- safety and progress

  /**
   In every interleaving: no send on a closed channel and no wait-group underflow; the wait-group
   count is the number of live links plus unacknowledged messages; and once the caller is past
   `Wait`, everything delivered has been handled, exactly once and in order, no goroutine can
   deliver any more, and the worker is not inside `AddResponse`, so the caller alone touches the
   error list and the authenticator.
   */
  lemma QueueIsSafe(actions: seq<Action>, s: QueueState)
    requires Run(actions, s)
    ensures !s.panicked && s.count == LiveLinks(s) + Outstanding(s)
    ensures s.caller in {Closing, Closed} ==>
      && s.handled == s.sent && s.queue == [] && LiveLinks(s) == 0
      && !s.worker.Handling? && !s.worker.Acknowledging?
  {
    ReachableKeepsInv(actions, s);
    assert s.caller in {Closing, Closed} ==> s.handled + [] + [] == s.handled;
  }

  /** An action of a goroutine other than the caller, or the caller's pending send. */
  predicate Internal(a: Action) {
    a.CallerSend? || a.LinkFail? || a.LinkAnnounce? || a.LinkSend? || a.LinkDone?
    || a.WorkerReceive? || a.WorkerHandle? || a.WorkerDone? || a.WorkerExit?
  }

  /** No reachable state with a positive count is stuck: some internal action is possible. */
  lemma NeverStuck(actions: seq<Action>, s: QueueState) returns (a: Action)
    requires Run(actions, s) && s.count > 0
    ensures Internal(a) && Enabled(s, a)
  {
    ReachableKeepsInv(actions, s);
    if s.worker.Handling? {
      a := WorkerHandle;
    } else if s.worker.Acknowledging? {
      a := WorkerDone;
    } else if s.queue != [] {
      a := WorkerReceive;
    } else if s.caller.CallerSending? {
      a := CallerSend;
    } else if id :| id in s.leaving {
      a := LinkDone(id);
    } else if id :| id in s.sending {
      a := LinkSend(id);
    } else {
      var id :| id in s.fetching;
      a := LinkFail(id);
    }
  }

  /** Work left to the internal actions. */
  function Work(s: QueueState): nat {
    6 * |s.fetching| + 5 * |s.sending.Keys| + |s.leaving| + (if s.caller.CallerSending? then 4 else 0) + 3 * |s.queue|
    + (match s.worker case Receiving => 1 case Handling(_) => 3 case Acknowledging => 2 case Exited => 0)
  }

  lemma LinkUsesWork(s: QueueState, a: Action)
    requires Inv(s) && Enabled(s, a) && (a.LinkAnnounce? || a.LinkSend?)
    ensures Work(Next(s, a)) < Work(s)
  {
    if a.LinkAnnounce? {
      assert s.sending[a.id := a.m].Keys == s.sending.Keys + {a.id};
    } else {
      assert (s.sending - {a.id}).Keys == s.sending.Keys - {a.id};
    }
  }

  /** Every internal action uses up work, so after `finished` is set the wait ends. */
  lemma InternalStepsAreBounded(actions: seq<Action>, s: QueueState, a: Action)
    requires Run(actions, s) && Enabled(s, a) && Internal(a)
    ensures Work(Next(s, a)) < Work(s)
  {
    ReachableKeepsInv(actions, s);
    if a.LinkAnnounce? || a.LinkSend? {
      LinkUsesWork(s, a);
    }
  }

  // ---------------------------------------------------------------- the verdict of the resolver

  /**
   What `result` returns after the wait: with exactly one recorded error that error; otherwise,
   even with several errors, whatever the authenticator's own `Result` says.
   */
  function ResolverVerdict(ctx: Context, handled: seq<Input>): Triple {
    var (s, errs) := AddAll(RulesOf(ctx), handled);
    if |errs| == 1 then Triple(Unknown, NotFound, Some(errs[0])) else Finish(ctx, s)
  }

  lemma VerdictIsOfSortedChain(ctx: Context, handled: seq<Input>, sorted: seq<Input>)
    requires OnePerZone(ctx, handled) && RootToLeaf(sorted) && multiset(handled) == multiset(sorted)
    ensures ResolverVerdict(ctx, handled) == ChainVerdict(ctx, sorted)
  {
    ArrivalOrderDoesNotMatter(ctx, handled, sorted);
    var (s, errs) := AddAll(RulesOf(ctx), handled);
    if |errs| == 1 {
      assert errs[0] in errs;
    }
  }

  /**
   The verdict does not depend on scheduling: any two complete runs that delivered the same
   messages, one per zone, return the same triple, namely the one for processing those messages
   strictly from the root to the leaf.
   */
  lemma VerdictIgnoresScheduling(ctx: Context, run1: seq<Action>, s1: QueueState, run2: seq<Action>, s2: QueueState, sorted: seq<Input>)
    requires Run(run1, s1) && s1.caller.Closed? && Run(run2, s2) && s2.caller.Closed?
    requires OnePerZone(ctx, s1.sent) && OnePerZone(ctx, s2.sent)
    requires multiset(s1.sent) == multiset(s2.sent) == multiset(sorted) && RootToLeaf(sorted)
    ensures ResolverVerdict(ctx, s1.handled) == ResolverVerdict(ctx, s2.handled) == ChainVerdict(ctx, sorted)
  {
    QueueIsSafe(run1, s1);
    QueueIsSafe(run2, s2);
    VerdictIsOfSortedChain(ctx, s1.handled, sorted);
    VerdictIsOfSortedChain(ctx, s2.handled, sorted);
  }

  /** The errors the worker collected. */
  function CollectedErrors(ctx: Context, handled: seq<Input>): seq<Error> {
    AddAll(RulesOf(ctx), handled).1
  }

  /** How many deliveries were refused: not above the question, or a second one for a zone. */
  ghost function Refusals(ctx: Context, handled: seq<Input>): nat {
    |handled| - |Admitted(RulesOf(ctx), handled)|
  }

  /**
   The verdict on any deliveries whatever. A single collected error is returned as it is;
   otherwise the verdict is that of the admitted responses, strictly from the root to the leaf.
   */
  lemma VerdictOnAnything(ctx: Context, handled: seq<Input>, sorted: seq<Input>)
    requires RootToLeaf(sorted) && multiset(Admitted(RulesOf(ctx), handled)) == multiset(sorted)
    ensures var errs := CollectedErrors(ctx, handled);
      ResolverVerdict(ctx, handled) ==
        if |errs| == 1 then Triple(Unknown, NotFound, Some(errs[0])) else ChainVerdict(ctx, sorted)
    ensures ChainVerdict(ctx, sorted).err.None? ==> |CollectedErrors(ctx, handled)| == Refusals(ctx, handled)
  {
    assert forall i, j :: 0 <= i < j < |sorted| ==> RulesOf(ctx).depth(sorted[i]) < RulesOf(ctx).depth(sorted[j]);
    ArrivalsInGeneral(RulesOf(ctx), handled, sorted);
  }

  /**
   Errors are collected and yet the verdict carries none if and only if at least two deliveries
   were refused and the admitted responses are judged without an error.
   */
  lemma ErrorsAreLostIff(ctx: Context, handled: seq<Input>, sorted: seq<Input>)
    requires RootToLeaf(sorted) && multiset(Admitted(RulesOf(ctx), handled)) == multiset(sorted)
    ensures CollectedErrors(ctx, handled) != [] && ResolverVerdict(ctx, handled).err.None? <==>
      Refusals(ctx, handled) >= 2 && ChainVerdict(ctx, sorted).err.None?
  {
    VerdictOnAnything(ctx, handled, sorted);
  }

  /** For example: delivered twice a response is reported as an error, delivered three times it is judged as if delivered once. */
  lemma SeveralErrorsAreDropped(ctx: Context, x: Input)
    requires OnePerZone(ctx, [x]) && |x.zone.name| > 0
    ensures ResolverVerdict(ctx, [x, x]) == Triple(Unknown, NotFound, Some(ErrDuplicateInputForZone))
    ensures ResolverVerdict(ctx, [x, x, x]) == ChainVerdict(ctx, [x])
  {
    assert RulesOf(ctx).refuse([x][0]).None?;
    RepeatsAreRefused(RulesOf(ctx), x);
    ArrivalOrderDoesNotMatter(ctx, [x], [x]);
  }
}
