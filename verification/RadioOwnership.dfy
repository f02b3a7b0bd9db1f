/**
 Ownership of the radio transport: one operation lock, one reconnect lock, the operator's
 "connection desired" flag and a transport handle that reconnects swap.

 Every stretch of code between two suspension points is one Event. A task is a program
 counter; any number of tasks may be alive, and any enabled event may happen next.
 */
module RadioOwnership {
  import opened Common

  type Handle = nat
  type TaskId = nat

  /** Where disconnect() returns to: an outside caller, or one of the three calls made by reconnect(). */
  datatype Cont =
    | Caller
    | StaleThenConnect      // reconnect() drops a stale transport, ignoring failures
    | ConnectThenCreate     // connect() drops a transport that is still installed
    | PausedExit            // reconnect() drops the transport it just built, because of a pause

  datatype Pc =
    | Done
    | OpWait                          // radio_operation() queued on the operation lock
    | OpBody(mc: Handle)              // body running with the handle it was given
    | StopSync(k: Cont)               // disconnect(): stopping the background contact sync
    | LockWait(k: Cont)               // disconnect(): queued on the operation lock
    | Teardown(mc: Handle, k: Cont)   // disconnect(): closing the transport, lock held
    | RecWait                         // reconnect() queued on the reconnect lock
    | Creating                        // connect(): building a transport

  datatype State = State(
    meshcore: Option<Handle>,
    desired: bool,
    opHolder: Option<TaskId>,
    recHolder: Option<TaskId>,
    tasks: seq<Pc>,
    nextHandle: Handle,
    teardownFailed: bool)  // the last teardown raised, so its transport is still installed

  datatype Event =
    | RequestOperation(blocking: bool)
    | RequestDisconnect
    | RequestPause
    | RequestReconnect
    | Resume
    | OperationGranted(t: TaskId)
    | OperationEnded(t: TaskId)
    | SyncStopped(t: TaskId)
    | DisconnectGranted(t: TaskId)
    | TeardownEnded(t: TaskId)
    | TeardownRaised(t: TaskId)
    | ReconnectGranted(t: TaskId, live: bool)  // live: what is_connected reports for the installed transport
    | TransportCreated(t: TaskId)
    | TransportFailed(t: TaskId)

  function Init(): (s: State)
  {
    State(None, true, None, None, [], 0, false)
  }

  /** Events that advance an existing task, as opposed to new requests from outside. */
  predicate TaskEvent(e: Event)
  {
    !(e.RequestOperation? || e.RequestDisconnect? || e.RequestPause? || e.RequestReconnect? || e.Resume?)
  }

  predicate At(s: State, t: TaskId, pc: Pc)
  {
    t < |s.tasks| && s.tasks[t] == pc
  }

  predicate Enabled(s: State, e: Event)
  {
    match e
    case OperationGranted(t) => At(s, t, OpWait) && s.opHolder.None?
    case OperationEnded(t) => t < |s.tasks| && s.tasks[t].OpBody?
    case SyncStopped(t) => t < |s.tasks| && s.tasks[t].StopSync?
    case DisconnectGranted(t) => t < |s.tasks| && s.tasks[t].LockWait? && s.opHolder.None?
    case TeardownEnded(t) => t < |s.tasks| && s.tasks[t].Teardown?
    case TeardownRaised(t) => t < |s.tasks| && s.tasks[t].Teardown?
    case ReconnectGranted(t, _) => At(s, t, RecWait) && s.recHolder.None?
    case TransportCreated(t) => At(s, t, Creating)
    case TransportFailed(t) => At(s, t, Creating)
    case _ => true
  }

  function Goto(s: State, t: TaskId, pc: Pc): State
    requires t < |s.tasks|
  {
    s.(tasks := s.tasks[t := pc])
  }

  /** reconnect() returns: the task ends and gives the reconnect lock back. */
  function LeaveReconnect(s: State, t: TaskId): State
    requires t < |s.tasks|
  {
    Goto(s, t, Done).(recHolder := None)
  }

  /** What runs, without suspending, once a disconnect() call has returned. */
  function DisconnectReturned(s: State, t: TaskId, k: Cont): State
    requires t < |s.tasks|
  {
    match k
    case Caller => Goto(s, t, Done)
    case StaleThenConnect =>
      if s.meshcore.Some? then Goto(s, t, StopSync(ConnectThenCreate)) else Goto(s, t, Creating)
    case ConnectThenCreate => Goto(s, t, Creating)
    case PausedExit => LeaveReconnect(s, t)
  }

  /** What runs, without suspending, once a disconnect() call has raised. */
  function DisconnectRaised(s: State, t: TaskId, k: Cont): State
    requires t < |s.tasks|
  {
    match k
    case Caller => Goto(s, t, Done)
    case StaleThenConnect => DisconnectReturned(s, t, StaleThenConnect)  // the exception is swallowed
    case _ => LeaveReconnect(s, t)
  }

  /** disconnect() up to its first suspension point. */
  function EnterDisconnect(s: State, t: TaskId, k: Cont): State
    requires t < |s.tasks|
  {
    if s.meshcore.None? then DisconnectReturned(s, t, k) else Goto(s, t, StopSync(k))
  }

  function Spawn(s: State, pc: Pc): State
  {
    s.(tasks := s.tasks + [pc])
  }

  function Apply(s: State, e: Event): State
    requires Enabled(s, e)
  {
    match e
    case RequestOperation(blocking) =>
      // A non-blocking request is refused while the lock is taken; otherwise it queues like any other.
      Spawn(s, if !blocking && s.opHolder.Some? then Done else OpWait)
    case RequestDisconnect => EnterDisconnect(Spawn(s, Done), |s.tasks|, Caller)
    case RequestPause => EnterDisconnect(Spawn(s, Done).(desired := false), |s.tasks|, Caller)
    case RequestReconnect => Spawn(s, RecWait)
    case Resume => s.(desired := true)
    case OperationGranted(t) =>
      if s.meshcore.None? then Goto(s, t, Done)  // RadioDisconnectedError, lock given straight back
      else Goto(s, t, OpBody(s.meshcore.value)).(opHolder := Some(t))
    case OperationEnded(t) => Goto(s, t, Done).(opHolder := None)
    case SyncStopped(t) => Goto(s, t, LockWait(s.tasks[t].k))
    case DisconnectGranted(t) =>
      if s.meshcore.None? then DisconnectReturned(s, t, s.tasks[t].k)
      else Goto(s, t, Teardown(s.meshcore.value, s.tasks[t].k)).(opHolder := Some(t))
    case TeardownEnded(t) =>
      var mine := s.meshcore == Some(s.tasks[t].mc);
      var closed := s.(meshcore := if mine then None else s.meshcore, opHolder := None, teardownFailed := false);
      DisconnectReturned(closed, t, s.tasks[t].k)
    case TeardownRaised(t) =>
      DisconnectRaised(s.(opHolder := None, teardownFailed := true), t, s.tasks[t].k)
    case ReconnectGranted(t, live) =>
      if !s.desired || (s.meshcore.Some? && live) then Goto(s, t, Done)
      else
        var held := s.(recHolder := Some(t));
        if held.meshcore.Some? then EnterDisconnect(held, t, StaleThenConnect)
        else EnterDisconnect(held, t, ConnectThenCreate)
    case TransportCreated(t) =>
      var installed := s.(meshcore := Some(s.nextHandle), nextHandle := s.nextHandle + 1);
      if !s.desired then EnterDisconnect(installed, t, PausedExit) else LeaveReconnect(installed, t)
    case TransportFailed(t) => LeaveReconnect(s, t)
  }

  // ---------------------------------------------------------------------------------------------
  // Invariants

  /** The operation lock is held exactly by these. */
  predicate Critical(pc: Pc)
  {
    pc.OpBody? || pc.Teardown?
  }

  /** The reconnect lock is held exactly by these. */
  predicate Reconnecting(pc: Pc)
  {
    pc.Creating? || ((pc.StopSync? || pc.LockWait? || pc.Teardown?) && pc.k != Caller)
  }

  /** A task past this point will close whatever transport it finds installed. */
  predicate Committed(pc: Pc)
  {
    pc.StopSync? || pc.LockWait? || pc.Teardown?
  }

  /** What a program counter says about the locks and the installed transport. */
  predicate Consistent(pc: Pc, holdsOp: bool, holdsRec: bool, meshcore: Option<Handle>)
  {
    && (Critical(pc) <==> holdsOp)
    && (Reconnecting(pc) <==> holdsRec)
    && (Critical(pc) ==> meshcore == Some(pc.mc))
    && (pc.Creating? ==> meshcore.None?)
  }

  predicate TaskOwned(s: State, t: TaskId)
    requires t < |s.tasks|
  {
    Consistent(s.tasks[t], s.opHolder == Some(t), s.recHolder == Some(t), s.meshcore)
  }

  ghost predicate Owned(s: State)
  {
    && (s.opHolder.Some? ==> s.opHolder.value < |s.tasks|)
    && (s.recHolder.Some? ==> s.recHolder.value < |s.tasks|)
    && (forall t: TaskId :: t < |s.tasks| ==> TaskOwned(s, t))
    && (s.meshcore.Some? ==> s.meshcore.value < s.nextHandle)
    && (s.teardownFailed ==> s.meshcore.Some?)
  }

  ghost predicate SomeoneCommitted(s: State)
  {
    exists t :: 0 <= t < |s.tasks| && Committed(s.tasks[t])
  }

  /** A transport the operator does not want is always about to be closed, unless closing it raised. */
  ghost predicate PauseHonoured(s: State)
  {
    !s.desired && s.meshcore.Some? && !s.teardownFailed ==> SomeoneCommitted(s)
  }

  ghost predicate Inv(s: State)
  {
    Owned(s) && PauseHonoured(s)
  }

  lemma RequestKeepsOwned(s: State, e: Event)
    requires Owned(s) && Enabled(s, e) && !TaskEvent(e)
    ensures Owned(Apply(s, e))
  {
    var s' := Apply(s, e);
    forall u: TaskId | u < |s'.tasks|
      ensures TaskOwned(s', u)
    {
      if u < |s.tasks| {
        assert TaskOwned(s, u);
        assert s'.tasks[u] == s.tasks[u];
      }
    }
  }

  lemma StepKeepsOwned(s: State, e: Event)
    requires Owned(s) && Enabled(s, e)
    ensures Owned(Apply(s, e))
  {
    if TaskEvent(e) {
      var s' := Apply(s, e);
      OneTaskMoves(s, e);
      StepKeepsHandles(s, e);
      assert TaskOwned(s, e.t);
      ActingTaskOwned(s, e);
      forall u: TaskId | u < |s'.tasks|
        ensures TaskOwned(s', u)
      {
        if u != e.t {
          OtherTaskOwned(s, e, u);
        }
      }
    } else {
      RequestKeepsOwned(s, e);
    }
  }

  /** A task event changes one program counter. */
  lemma OneTaskMoves(s: State, e: Event)
    requires Enabled(s, e) && TaskEvent(e)
    ensures e.t < |s.tasks| == |Apply(s, e).tasks|
    ensures Apply(s, e).tasks == s.tasks[e.t := Apply(s, e).tasks[e.t]]
  {
  }

  /** Only the acting task can take or release a lock. */
  lemma HoldersMove(s: State, e: Event)
    requires Enabled(s, e) && TaskEvent(e)
    ensures Apply(s, e).opHolder in {s.opHolder, Some(e.t), None}
    ensures Apply(s, e).recHolder in {s.recHolder, Some(e.t), None}
  {
  }

  /** Events of a disconnect() call, whoever made it. */
  predicate Disconnecting(e: Event)
  {
    e.SyncStopped? || e.DisconnectGranted? || e.TeardownEnded? || e.TeardownRaised?
  }

  lemma DisconnectingTaskOwned(s: State, e: Event)
    requires Enabled(s, e) && Disconnecting(e) && TaskOwned(s, e.t)
    ensures e.t < |Apply(s, e).tasks| && TaskOwned(Apply(s, e), e.t)
  {
  }

  lemma StepKeepsHandles(s: State, e: Event)
    requires Owned(s) && Enabled(s, e) && TaskEvent(e)
    ensures var s' := Apply(s, e);
      && (s'.opHolder.Some? ==> s'.opHolder.value < |s'.tasks|)
      && (s'.recHolder.Some? ==> s'.recHolder.value < |s'.tasks|)
      && (s'.meshcore.Some? ==> s'.meshcore.value < s'.nextHandle) && (s'.teardownFailed ==> s'.meshcore.Some?)
  {
    OneTaskMoves(s, e);
    HoldersMove(s, e);
    assert TaskOwned(s, e.t);
  }

  /** The acting task stays consistent with the locks. */
  lemma ActingTaskOwned(s: State, e: Event)
    requires Enabled(s, e) && TaskEvent(e) && TaskOwned(s, e.t)
    ensures e.t < |Apply(s, e).tasks| && TaskOwned(Apply(s, e), e.t)
  {
    if Disconnecting(e) {
      DisconnectingTaskOwned(s, e);
    }
  }

  /** What an event does to another task's view: nothing that task's program counter depends on. */
  lemma OtherTaskOwned(s: State, e: Event, u: TaskId)
    requires Owned(s) && Enabled(s, e) && TaskEvent(e) && u < |s.tasks| && u != e.t
    ensures u < |Apply(s, e).tasks| && TaskOwned(Apply(s, e), u)
  {
    assert TaskOwned(s, u) && TaskOwned(s, e.t);
    OneTaskMoves(s, e);
  }

  /** A committed task stays committed until the transport is gone or closing it raised. */
  lemma StaysCommitted(s: State, e: Event, w: TaskId)
    requires Owned(s) && Enabled(s, e) && w < |s.tasks| && Committed(s.tasks[w])
    requires !Apply(s, e).desired && Apply(s, e).meshcore.Some? && !Apply(s, e).teardownFailed
    ensures w < |Apply(s, e).tasks| && Committed(Apply(s, e).tasks[w])
  {
    assert TaskOwned(s, w);
    if TaskEvent(e) {
      OneTaskMoves(s, e);
    }
  }

  /** The pause, or a transport finished after a pause: the acting task commits itself. */
  lemma CommitsItself(s: State, e: Event)
    requires Owned(s) && Enabled(s, e) && (s.desired || s.meshcore.None?)
    requires !Apply(s, e).desired && Apply(s, e).meshcore.Some?
    ensures var t := if e.RequestPause? then |s.tasks| else e.t;
      t < |Apply(s, e).tasks| && Committed(Apply(s, e).tasks[t])
  {
  }

  /** Only a teardown that went well clears the failure, and it leaves no transport. */
  lemma FailureIsRemembered(s: State, e: Event)
    requires Owned(s) && Enabled(s, e) && s.teardownFailed
    ensures Apply(s, e).teardownFailed || Apply(s, e).meshcore.None?
  {
    if TaskEvent(e) {
      assert TaskOwned(s, e.t);
    }
  }

  lemma StepKeepsPauseHonoured(s: State, e: Event)
    requires Inv(s) && Enabled(s, e)
    ensures PauseHonoured(Apply(s, e))
  {
    var s' := Apply(s, e);
    if !s'.desired && s'.meshcore.Some? && !s'.teardownFailed {
      if s.desired || s.meshcore.None? {
        CommitsItself(s, e);
      } else if !s.teardownFailed {
        var w :| 0 <= w < |s.tasks| && Committed(s.tasks[w]);
        StaysCommitted(s, e, w);
      } else {
        FailureIsRemembered(s, e);
        assert false;
      }
    }
  }

  lemma StepKeepsInv(s: State, e: Event)
    requires Inv(s) && Enabled(s, e)
    ensures Inv(Apply(s, e))
  {
    StepKeepsOwned(s, e);
    StepKeepsPauseHonoured(s, e);
  }

  /** What the invariant says of a running body or teardown. */
  ghost predicate SoleOwner(s: State, t: TaskId)
    requires t < |s.tasks| && Critical(s.tasks[t])
  {
    && s.meshcore == Some(s.tasks[t].mc)
    && (forall u: TaskId :: u < |s.tasks| && u != t ==> !Critical(s.tasks[u]) && !s.tasks[u].Creating?)
  }

  lemma OwnedMeansSoleOwner(s: State, t: TaskId)
    requires Owned(s) && t < |s.tasks| && Critical(s.tasks[t])
    ensures SoleOwner(s, t)
  {
    assert TaskOwned(s, t);
    forall u: TaskId | u < |s.tasks| && u != t
      ensures !Critical(s.tasks[u]) && !s.tasks[u].Creating?
    {
      assert TaskOwned(s, u);
    }
  }

  // ---------------------------------------------------------------------------------------------
  // Whole runs

  ghost predicate ValidRun(s: State, es: seq<Event>)
    decreases |es|
  {
    es == [] || (Enabled(s, es[0]) && ValidRun(Apply(s, es[0]), es[1..]))
  }

  ghost function After(s: State, es: seq<Event>): State
    requires ValidRun(s, es)
    decreases |es|
  {
    if es == [] then s else After(Apply(s, es[0]), es[1..])
  }

  lemma {:induction false} RunKeepsInv(s: State, es: seq<Event>)
    requires Inv(s) && ValidRun(s, es)
    ensures Inv(After(s, es))
    decreases |es|
  {
    if es != [] {
      StepKeepsInv(s, es[0]);
      RunKeepsInv(Apply(s, es[0]), es[1..]);
    }
  }

  /**
   In every interleaving: a running body or teardown works on exactly the installed transport, no
   other body or teardown runs beside it, and no transport is being built meanwhile.
   */
  lemma OneOwnerOfTheCurrentTransport(es: seq<Event>, t: TaskId)
    requires ValidRun(Init(), es)
    requires t < |After(Init(), es).tasks| && Critical(After(Init(), es).tasks[t])
    ensures SoleOwner(After(Init(), es), t)
  {
    RunKeepsInv(Init(), es);
    OwnedMeansSoleOwner(After(Init(), es), t);
  }

  /** A body keeps its transport until it ends: no step of any other task can swap or drop it. */
  lemma NoSwapUnderABody(es: seq<Event>, e: Event, t: TaskId)
    requires ValidRun(Init(), es) && Enabled(After(Init(), es), e)
    requires t < |After(Init(), es).tasks| && After(Init(), es).tasks[t].OpBody?
    requires e != OperationEnded(t)
    ensures var s := After(Init(), es); var s' := Apply(s, e);
      At(s', t, s.tasks[t]) && s'.meshcore == Some(s.tasks[t].mc)
  {
    RunKeepsInv(Init(), es);
    var s := After(Init(), es);
    StepKeepsOwned(s, e);
    if TaskEvent(e) {
      assert TaskOwned(s, e.t) && TaskOwned(s, t);
      OneTaskMoves(s, e);
    }
    assert TaskOwned(Apply(s, e), t);
  }

  ghost predicate Quiescent(s: State)
  {
    forall t :: 0 <= t < |s.tasks| ==> s.tasks[t].Done?
  }

  /** Once all tasks are done, a paused manager holds no transport, exactly unless the last close raised. */
  lemma PausedAndQuiescentHoldsNothing(es: seq<Event>)
    requires ValidRun(Init(), es)
    requires Quiescent(After(Init(), es)) && !After(Init(), es).desired
    ensures After(Init(), es).meshcore.None? <==> !After(Init(), es).teardownFailed
  {
    RunKeepsInv(Init(), es);
  }

  // ---------------------------------------------------------------------------------------------
  // Tasks do finish: the remaining work falls with every task event, and work that is left can move

  function AfterDisconnect(k: Cont): nat
  {
    match k
    case Caller => 0
    case PausedExit => 0
    case ConnectThenCreate => 4
    case StaleThenConnect => 7
  }

  /** Upper bound on the events a task still needs. */
  function Remaining(pc: Pc): nat
  {
    match pc
    case Done => 0
    case OpWait => 2
    case OpBody(_) => 1
    case StopSync(k) => 3 + AfterDisconnect(k)
    case LockWait(k) => 2 + AfterDisconnect(k)
    case Teardown(_, k) => 1 + AfterDisconnect(k)
    case RecWait => 11
    case Creating => 4
  }

  function Work(tasks: seq<Pc>): nat
  {
    if tasks == [] then 0 else Remaining(tasks[0]) + Work(tasks[1..])
  }

  lemma {:induction false} WorkAfterUpdate(tasks: seq<Pc>, t: nat, pc: Pc)
    requires t < |tasks|
    ensures Work(tasks[t := pc]) + Remaining(tasks[t]) == Work(tasks) + Remaining(pc)
  {
    if t == 0 {
      assert tasks[t := pc][1..] == tasks[1..];
    } else {
      WorkAfterUpdate(tasks[1..], t - 1, pc);
      assert tasks[t := pc][1..] == tasks[1..][t - 1 := pc];
    }
  }

  lemma DisconnectingShortens(s: State, e: Event)
    requires Enabled(s, e) && Disconnecting(e) && TaskOwned(s, e.t)
    ensures e.t < |Apply(s, e).tasks| && Remaining(Apply(s, e).tasks[e.t]) < Remaining(s.tasks[e.t])
  {
  }

  lemma ShortensItsTask(s: State, e: Event)
    requires Enabled(s, e) && TaskEvent(e) && TaskOwned(s, e.t)
    ensures e.t < |Apply(s, e).tasks| && Remaining(Apply(s, e).tasks[e.t]) < Remaining(s.tasks[e.t])
  {
    if Disconnecting(e) {
      DisconnectingShortens(s, e);
    }
  }

  lemma TaskEventDoesWork(s: State, e: Event)
    requires Owned(s) && Enabled(s, e) && TaskEvent(e)
    ensures Work(Apply(s, e).tasks) < Work(s.tasks)
  {
    OneTaskMoves(s, e);
    assert TaskOwned(s, e.t);
    ShortensItsTask(s, e);
    WorkAfterUpdate(s.tasks, e.t, Apply(s, e).tasks[e.t]);
  }

  lemma {:induction false} DrainIsBounded(s: State, es: seq<Event>)
    requires Inv(s) && ValidRun(s, es)
    requires forall i :: 0 <= i < |es| ==> TaskEvent(es[i])
    ensures |es| + Work(After(s, es).tasks) <= Work(s.tasks)
    decreases |es|
  {
    if es != [] {
      TaskEventDoesWork(s, es[0]);
      StepKeepsInv(s, es[0]);
      DrainIsBounded(Apply(s, es[0]), es[1..]);
    }
  }

  /** The next event of some unfinished task; the two locks never deadlock. */
  lemma NoDeadlock(s: State) returns (e: Event)
    requires Owned(s) && !Quiescent(s)
    ensures TaskEvent(e) && Enabled(s, e)
  {
    if s.opHolder.Some? {
      var t := s.opHolder.value;
      assert TaskOwned(s, t);
      e := if s.tasks[t].OpBody? then OperationEnded(t) else TeardownEnded(t);
    } else if s.recHolder.Some? {
      var t := s.recHolder.value;
      assert TaskOwned(s, t);
      e := if s.tasks[t].Creating? then TransportFailed(t)
        else if s.tasks[t].StopSync? then SyncStopped(t) else DisconnectGranted(t);
    } else {
      var t: TaskId :| t < |s.tasks| && !s.tasks[t].Done?;
      assert TaskOwned(s, t);
      e := if s.tasks[t].OpWait? then OperationGranted(t)
        else if s.tasks[t].RecWait? then ReconnectGranted(t, false)
        else if s.tasks[t].StopSync? then SyncStopped(t) else DisconnectGranted(t);
    }
  }

  /**
   After a pause with no further requests, every way of letting the tasks run stops within a bounded
   number of events, and where it cannot be continued nothing is installed, exactly unless the last
   teardown raised.
   */
  lemma PauseDrainsToNoTransport(es: seq<Event>, drain: seq<Event>)
    requires ValidRun(Init(), es) && !After(Init(), es).desired
    requires ValidRun(After(Init(), es), drain)
    requires forall i :: 0 <= i < |drain| ==> TaskEvent(drain[i])
    ensures |drain| <= Work(After(Init(), es).tasks)
    ensures var end := After(After(Init(), es), drain);
      (forall e :: TaskEvent(e) ==> !Enabled(end, e)) ==>
        Quiescent(end) && (end.meshcore.None? <==> !end.teardownFailed)
  {
    var s := After(Init(), es);
    RunKeepsInv(Init(), es);
    DrainIsBounded(s, drain);
    RunKeepsInv(s, drain);
    DrainKeepsDesired(s, drain);
    var end := After(s, drain);
    if forall e :: TaskEvent(e) ==> !Enabled(end, e) {
      if !Quiescent(end) {
        var e := NoDeadlock(end);
        assert false;
      }
    }
  }

  lemma {:induction false} DrainKeepsDesired(s: State, es: seq<Event>)
    requires ValidRun(s, es)
    requires forall i :: 0 <= i < |es| ==> TaskEvent(es[i])
    ensures After(s, es).desired == s.desired
    decreases |es|
  {
    if es != [] {
      DrainKeepsDesired(Apply(s, es[0]), es[1..]);
    }
  }

  ghost predicate PausedHolding(s: State)
  {
    Quiescent(s) && !s.desired && s.meshcore.Some?
  }

  ghost predicate Reaches(s: State, end: State)
  {
    exists es :: ValidRun(s, es) && After(s, es) == end
  }

  lemma ReachesFirst(s: State, e: Event, s': State, end: State)
    requires Enabled(s, e) && Apply(s, e) == s' && Reaches(s', end)
    ensures Reaches(s, end)
  {
    var es :| ValidRun(s', es) && After(s', es) == end;
    assert ([e] + es)[1..] == es;
    assert ValidRun(s, [e] + es) && After(s, [e] + es) == end;
  }

  /** The exception is real: one raising teardown leaves a paused, quiescent manager holding a transport. */
  lemma RaisingTeardownDefeatsAPause()
    ensures exists s :: Reaches(Init(), s) && PausedHolding(s)
  {
    var s3 := State(Some(0), true, None, None, [Done], 1, false);
    var s4 := State(Some(0), false, None, None, [Done, StopSync(Caller)], 1, false);
    var end := RaisedDuringPause(s4);
    assert s3.tasks + [Done] == [Done, Done] && [Done, Done][1 := StopSync(Caller)] == s4.tasks;
    ReachesFirst(s3, RequestPause, s4, end);
    ConnectedOnce(s3, end);
  }

  /** The first reconnect installs the first transport. */
  lemma ConnectedOnce(s3: State, end: State)
    requires s3 == State(Some(0), true, None, None, [Done], 1, false) && Reaches(s3, end)
    ensures Reaches(Init(), end)
  {
    var s1 := State(None, true, None, None, [RecWait], 0, false);
    var s2 := State(None, true, None, Some(0), [Creating], 0, false);
    assert [Creating][0 := Done] == [Done];
    ReachesFirst(s2, TransportCreated(0), s3, end);
    assert [RecWait][0 := Creating] == [Creating];
    ReachesFirst(s1, ReconnectGranted(0, false), s2, end);
    ReachesFirst(Init(), RequestReconnect, s1, end);
  }

  lemma RaisedDuringPause(s4: State) returns (end: State)
    requires s4 == State(Some(0), false, None, None, [Done, StopSync(Caller)], 1, false)
    ensures Reaches(s4, end) && PausedHolding(end)
  {
    var s5 := s4.(tasks := [Done, LockWait(Caller)]);
    var s6 := s4.(tasks := [Done, Teardown(0, Caller)], opHolder := Some(1));
    end := s4.(tasks := [Done, Done], teardownFailed := true);
    assert ValidRun(end, []) && After(end, []) == end;
    assert s6.tasks[1 := Done] == end.tasks;
    ReachesFirst(s6, TeardownRaised(1), end, end);
    assert s5.tasks[1 := Teardown(0, Caller)] == s6.tasks;
    ReachesFirst(s5, DisconnectGranted(1), s6, end);
    assert s4.tasks[1 := LockWait(Caller)] == s5.tasks;
    ReachesFirst(s4, SyncStopped(1), s5, end);
  }

  // ---------------------------------------------------------------------------------------------
  // The manager itself: each stretch between suspension points, updating the fields in place

  class RadioManager {
    var meshcore: Option<Handle>
    var connectionDesired: bool
    var operationLock: Option<TaskId>
    var reconnectLock: Option<TaskId>
    var tasks: seq<Pc>
    var nextHandle: Handle
    ghost var teardownFailed: bool

    ghost function View(): State
      reads this
    {
      State(meshcore, connectionDesired, operationLock, reconnectLock, tasks, nextHandle, teardownFailed)
    }

    /** What every event keeps. */
    ghost predicate Valid()
      reads this
    {
      Inv(View())
    }

    constructor ()
      ensures View() == Init() && Valid()
    {
      meshcore, connectionDesired := None, true;
      operationLock, reconnectLock := None, None;
      tasks, nextHandle, teardownFailed := [], 0, false;
    }

    method RadioOperation(blocking: bool)
      requires Valid()
      modifies this
      ensures Valid() && View() == Apply(old(View()), RequestOperation(blocking))
      ensures tasks == old(tasks) + [if !blocking && old(operationLock).Some? then Done else OpWait]
      ensures meshcore == old(meshcore) && connectionDesired == old(connectionDesired) && nextHandle == old(nextHandle)
      ensures operationLock == old(operationLock) && reconnectLock == old(reconnectLock)
    {
      StepKeepsInv(View(), RequestOperation(blocking));
      if !blocking && operationLock.Some? {
        tasks := tasks + [Done];
      } else {
        tasks := tasks + [OpWait];
      }
    }

    method Disconnect()
      requires Valid()
      modifies this
      ensures Valid() && View() == Apply(old(View()), RequestDisconnect)
      ensures tasks == old(tasks) + [if old(meshcore).Some? then StopSync(Caller) else Done]
      ensures meshcore == old(meshcore) && connectionDesired == old(connectionDesired) && nextHandle == old(nextHandle)
      ensures operationLock == old(operationLock) && reconnectLock == old(reconnectLock)
    {
      StepKeepsInv(View(), RequestDisconnect);
      tasks := tasks + [Done];
      BeginDisconnect(|tasks| - 1, Caller);
    }

    method PauseConnection()
      requires Valid()
      modifies this
      ensures Valid() && View() == Apply(old(View()), RequestPause)
      ensures !connectionDesired && meshcore == old(meshcore) && nextHandle == old(nextHandle)
      ensures tasks == old(tasks) + [if old(meshcore).Some? then StopSync(Caller) else Done]
      ensures operationLock == old(operationLock) && reconnectLock == old(reconnectLock)
    {
      StepKeepsInv(View(), RequestPause);
      connectionDesired := false;
      tasks := tasks + [Done];
      BeginDisconnect(|tasks| - 1, Caller);
    }

    method ResumeConnection()
      requires Valid()
      modifies this
      ensures Valid() && View() == Apply(old(View()), Resume)
      ensures connectionDesired && meshcore == old(meshcore) && nextHandle == old(nextHandle)
      ensures tasks == old(tasks)
      ensures operationLock == old(operationLock) && reconnectLock == old(reconnectLock)
    {
      StepKeepsInv(View(), Resume);
      connectionDesired := true;
    }

    method Reconnect()
      requires Valid()
      modifies this
      ensures Valid() && View() == Apply(old(View()), RequestReconnect)
      ensures tasks == old(tasks) + [RecWait]
      ensures meshcore == old(meshcore) && connectionDesired == old(connectionDesired) && nextHandle == old(nextHandle)
      ensures operationLock == old(operationLock) && reconnectLock == old(reconnectLock)
    {
      StepKeepsInv(View(), RequestReconnect);
      tasks := tasks + [RecWait];
    }

    method OnOperationGranted(t: TaskId)
      requires Valid() && Enabled(View(), OperationGranted(t))
      modifies this
      ensures Valid() && View() == Apply(old(View()), OperationGranted(t))
      ensures if old(meshcore).Some?
        then tasks == old(tasks)[t := OpBody(old(meshcore).value)] && operationLock == Some(t)
        else tasks == old(tasks)[t := Done] && operationLock.None?
      ensures meshcore == old(meshcore) && connectionDesired == old(connectionDesired) && nextHandle == old(nextHandle)
      ensures reconnectLock == old(reconnectLock)
    {
      StepKeepsInv(View(), OperationGranted(t));
      assert TaskOwned(View(), t);
      operationLock := Some(t);
      if meshcore.None? {
        operationLock := None;
        tasks := tasks[t := Done];
      } else {
        tasks := tasks[t := OpBody(meshcore.value)];
      }
    }

    method OnOperationEnded(t: TaskId)
      requires Valid() && Enabled(View(), OperationEnded(t))
      modifies this
      ensures Valid() && View() == Apply(old(View()), OperationEnded(t))
      ensures tasks == old(tasks)[t := Done] && operationLock.None?
      ensures meshcore == old(meshcore) && connectionDesired == old(connectionDesired) && nextHandle == old(nextHandle)
      ensures reconnectLock == old(reconnectLock)
    {
      StepKeepsInv(View(), OperationEnded(t));
      assert TaskOwned(View(), t);
      operationLock := None;
      tasks := tasks[t := Done];
    }

    method OnSyncStopped(t: TaskId)
      requires Valid() && Enabled(View(), SyncStopped(t))
      modifies this
      ensures Valid() && View() == Apply(old(View()), SyncStopped(t))
      ensures tasks == old(tasks)[t := LockWait(old(tasks)[t].k)]
      ensures meshcore == old(meshcore) && connectionDesired == old(connectionDesired) && nextHandle == old(nextHandle)
      ensures operationLock == old(operationLock) && reconnectLock == old(reconnectLock)
    {
      StepKeepsInv(View(), SyncStopped(t));
      tasks := tasks[t := LockWait(tasks[t].k)];
    }

    method OnDisconnectGranted(t: TaskId)
      requires Valid() && Enabled(View(), DisconnectGranted(t))
      modifies this
      ensures Valid() && View() == Apply(old(View()), DisconnectGranted(t))
      ensures old(meshcore).Some? ==>
        tasks == old(tasks)[t := Teardown(old(meshcore).value, old(tasks)[t].k)] && operationLock == Some(t)
        && reconnectLock == old(reconnectLock)
      ensures old(meshcore).None? ==> operationLock.None? && tasks == old(tasks)[t :=
        if old(tasks)[t].k == Caller || old(tasks)[t].k == PausedExit then Done else Creating]
      ensures old(meshcore).None? ==>
        reconnectLock == if old(tasks)[t].k == PausedExit then None else old(reconnectLock)
      ensures meshcore == old(meshcore) && connectionDesired == old(connectionDesired) && nextHandle == old(nextHandle)
    {
      StepKeepsInv(View(), DisconnectGranted(t));
      assert TaskOwned(View(), t);
      var k := tasks[t].k;
      operationLock := Some(t);
      if meshcore.None? {
        operationLock := None;
        EndDisconnect(t, k);
      } else {
        tasks := tasks[t := Teardown(meshcore.value, k)];
      }
    }

    method OnTeardownEnded(t: TaskId)
      requires Valid() && Enabled(View(), TeardownEnded(t))
      modifies this
      ensures Valid() && View() == Apply(old(View()), TeardownEnded(t))
      ensures meshcore.None? && operationLock.None?
      ensures connectionDesired == old(connectionDesired) && nextHandle == old(nextHandle)
      ensures tasks == old(tasks)[t :=
        if old(tasks)[t].k == Caller || old(tasks)[t].k == PausedExit then Done else Creating]
      ensures reconnectLock == if old(tasks)[t].k == PausedExit then None else old(reconnectLock)
    {
      StepKeepsInv(View(), TeardownEnded(t));
      assert TaskOwned(View(), t);
      var k := tasks[t].k;
      if meshcore == Some(tasks[t].mc) {
        meshcore := None;
      }
      operationLock := None;
      teardownFailed := false;
      EndDisconnect(t, k);
    }

    method OnTeardownRaised(t: TaskId)
      requires Valid() && Enabled(View(), TeardownRaised(t))
      modifies this
      ensures Valid() && View() == Apply(old(View()), TeardownRaised(t))
      ensures operationLock.None?
      ensures meshcore == old(meshcore) && connectionDesired == old(connectionDesired) && nextHandle == old(nextHandle)
      ensures tasks == old(tasks)[t :=
        if old(tasks)[t].k == StaleThenConnect then StopSync(ConnectThenCreate) else Done]
      ensures reconnectLock ==
        if old(tasks)[t].k == Caller || old(tasks)[t].k == StaleThenConnect then old(reconnectLock) else None
    {
      StepKeepsInv(View(), TeardownRaised(t));
      assert TaskOwned(View(), t);
      var k := tasks[t].k;
      operationLock := None;
      teardownFailed := true;
      if k == StaleThenConnect || k == Caller {
        EndDisconnect(t, k);
      } else {
        reconnectLock := None;
        tasks := tasks[t := Done];
      }
    }

    method OnReconnectGranted(t: TaskId, live: bool)
      requires Valid() && Enabled(View(), ReconnectGranted(t, live))
      modifies this
      ensures Valid() && View() == Apply(old(View()), ReconnectGranted(t, live))
      ensures !old(connectionDesired) || (old(meshcore).Some? && live) ==>
        tasks == old(tasks)[t := Done] && reconnectLock.None?
      ensures old(connectionDesired) && !(old(meshcore).Some? && live) ==>
        reconnectLock == Some(t) &&
        tasks == old(tasks)[t := if old(meshcore).Some? then StopSync(StaleThenConnect) else Creating]
      ensures meshcore == old(meshcore) && connectionDesired == old(connectionDesired) && nextHandle == old(nextHandle)
      ensures operationLock == old(operationLock)
    {
      StepKeepsInv(View(), ReconnectGranted(t, live));
      assert TaskOwned(View(), t);
      reconnectLock := Some(t);
      if !connectionDesired || (meshcore.Some? && live) {
        reconnectLock := None;
        tasks := tasks[t := Done];
      } else if meshcore.Some? {
        BeginDisconnect(t, StaleThenConnect);
      } else {
        tasks := tasks[t := Creating];
      }
    }

    method OnTransportCreated(t: TaskId)
      requires Valid() && Enabled(View(), TransportCreated(t))
      modifies this
      ensures Valid() && View() == Apply(old(View()), TransportCreated(t))
      ensures meshcore == Some(old(nextHandle)) && nextHandle == old(nextHandle) + 1
      ensures if old(connectionDesired) then tasks == old(tasks)[t := Done] && reconnectLock.None?
        else tasks == old(tasks)[t := StopSync(PausedExit)] && reconnectLock == Some(t)
      ensures connectionDesired == old(connectionDesired) && operationLock == old(operationLock)
    {
      StepKeepsInv(View(), TransportCreated(t));
      assert TaskOwned(View(), t);
      meshcore, nextHandle := Some(nextHandle), nextHandle + 1;
      if !connectionDesired {
        BeginDisconnect(t, PausedExit);
      } else {
        reconnectLock := None;
        tasks := tasks[t := Done];
      }
    }

    method OnTransportFailed(t: TaskId)
      requires Valid() && Enabled(View(), TransportFailed(t))
      modifies this
      ensures Valid() && View() == Apply(old(View()), TransportFailed(t))
      ensures tasks == old(tasks)[t := Done] && reconnectLock.None?
      ensures meshcore == old(meshcore) && connectionDesired == old(connectionDesired) && nextHandle == old(nextHandle)
      ensures operationLock == old(operationLock)
    {
      StepKeepsInv(View(), TransportFailed(t));
      assert TaskOwned(View(), t);
      reconnectLock := None;
      tasks := tasks[t := Done];
    }

    /** One event, whichever it is; the invariant holds before and after. */
    method Perform(e: Event)
      requires Valid() && Enabled(View(), e)
      modifies this
      ensures Valid() && View() == Apply(old(View()), e)
    {
      match e {
        case RequestOperation(blocking) => RadioOperation(blocking);
        case RequestDisconnect => Disconnect();
        case RequestPause => PauseConnection();
        case RequestReconnect => Reconnect();
        case Resume => ResumeConnection();
        case OperationGranted(t) => OnOperationGranted(t);
        case OperationEnded(t) => OnOperationEnded(t);
        case SyncStopped(t) => OnSyncStopped(t);
        case DisconnectGranted(t) => OnDisconnectGranted(t);
        case TeardownEnded(t) => OnTeardownEnded(t);
        case TeardownRaised(t) => OnTeardownRaised(t);
        case ReconnectGranted(t, live) => OnReconnectGranted(t, live);
        case TransportCreated(t) => OnTransportCreated(t);
        case TransportFailed(t) => OnTransportFailed(t);
      }
    }

    /**
     Any interleaving of requests and task steps: a running body or teardown is alone on the installed
     transport; an unwanted transport has a task committed to closing it, unless closing it raised; and
     once all tasks are done a paused manager holds nothing, exactly unless the last close raised.
     */
    method Run(es: seq<Event>)
      requires Valid() && ValidRun(View(), es)
      modifies this
      ensures Valid() && View() == After(old(View()), es)
      ensures forall t: TaskId :: t < |tasks| && Critical(tasks[t]) ==> SoleOwner(View(), t)
      ensures !connectionDesired && meshcore.Some? && !teardownFailed ==> SomeoneCommitted(View())
      ensures !connectionDesired && Quiescent(View()) ==> (meshcore.None? <==> !teardownFailed)
    {
      var i := 0;
      while i < |es|
        invariant 0 <= i <= |es|
        invariant Valid() && ValidRun(View(), es[i..])
        invariant After(View(), es[i..]) == After(old(View()), es)
      {
        assert es[i..][0] == es[i] && es[i..][1..] == es[i + 1..];
        Perform(es[i]);
        i := i + 1;
      }
      forall t: TaskId | t < |tasks| && Critical(tasks[t])
        ensures SoleOwner(View(), t)
      {
        OwnedMeansSoleOwner(View(), t);
      }
    }

    method BeginDisconnect(t: TaskId, k: Cont)
      requires t < |tasks|
      modifies this
      ensures View() == EnterDisconnect(old(View()), t, k)
    {
      if meshcore.None? {
        EndDisconnect(t, k);
      } else {
        tasks := tasks[t := StopSync(k)];
      }
    }

    method EndDisconnect(t: TaskId, k: Cont)
      requires t < |tasks|
      modifies this
      ensures View() == DisconnectReturned(old(View()), t, k)
    {
      match k
      case Caller =>
        tasks := tasks[t := Done];
      case StaleThenConnect =>
        if meshcore.Some? {
          tasks := tasks[t := StopSync(ConnectThenCreate)];
        } else {
          tasks := tasks[t := Creating];
        }
      case ConnectThenCreate =>
        tasks := tasks[t := Creating];
      case PausedExit =>
        reconnectLock := None;
        tasks := tasks[t := Done];
    }
  }
}
