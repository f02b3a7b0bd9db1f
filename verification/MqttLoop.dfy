/**
 The MQTT publisher's connection loop: a settings version counter plus a wake-up event, reconnects with
 backoff, and at most one error notification per outage. Outside callers may start, stop or fail a
 publish at any suspension point of the loop.
 */
module MqttLoop {
  import opened Common

  const BACKOFF_MIN: nat := 5

  datatype Settings = Settings(id: nat)

  datatype Pc =
    | Idle                                        // no task, or the task has returned
    | Top                                         // about to evaluate the outer loop
    | ParkedUnconfigured(version: nat, look: nat)  // version and environment as the hook last saw them
    | PreConnect(built: Settings, version: nat)
    | Connecting(built: Settings, version: nat)
    | Greeting(built: Settings, version: nat)     // connected, running the on-connected hook
    | Parked(built: Settings, version: nat)       // connected, waiting for the event
    | Waking(built: Settings, version: nat)       // connected, running the periodic hook
    | Closing(built: Settings)
    | Sleeping

  datatype State = State(
    settings: Option<Settings>,
    usable: bool,                // what _is_configured() would say of the settings now
    changes: nat,                // changes of that answer from outside, such as keys arriving in the keystore
    version: nat,
    event: bool,
    client: Option<Settings>,    // what the live client was built from
    connected: bool,
    errorNotified: bool,
    suppressToast: bool,
    backoff: nat,
    pc: Pc,
    errorToasts: nat)            // error notifications since the last successful connect or stop

  /**
   Fixed facts: the configured maximum, whether the platform's event loop cannot run MQTT, and whether
   an unconfigured publisher looks again after a timeout.
   */
  datatype Host = Host(backoffMax: nat, proactor: bool, looksAgain: bool)

  datatype Event =
    | Start(settings: Settings, usable: bool)
    | EnvironmentChanged(usable: bool)    // no version bump, no event
    | Stop
    | PublishFailed
    | LoopTop
    | Woken
    | UnconfiguredTimeout
    | PreConnectDone(proceed: bool)
    | Connected
    | HookDone
    | WaitTimeout
    | PeriodicDone(breakWait: bool)
    | Closed
    | Raised
    | SleepDone

  function Init(): State
  {
    State(None, false, 0, 0, false, None, false, false, false, BACKOFF_MIN, Idle, 0)
  }

  predicate CanRaise(pc: Pc)
  {
    pc.PreConnect? || pc.Connecting? || pc.Greeting? || pc.Waking? || pc.Closing?
  }

  predicate Enabled(h: Host, s: State, e: Event)
  {
    match e
    case Start(_, _) => true
    case EnvironmentChanged(_) => true
    case Stop => true
    case PublishFailed => true
    case LoopTop => s.pc.Top?
    case Woken => (s.pc.ParkedUnconfigured? || s.pc.Parked?) && s.event
    case UnconfiguredTimeout => s.pc.ParkedUnconfigured? && h.looksAgain
    case PreConnectDone(_) => s.pc.PreConnect?
    case Connected => s.pc.Connecting?
    case HookDone => s.pc.Greeting?
    case WaitTimeout => s.pc.Parked?
    case PeriodicDone(_) => s.pc.Waking?
    case Closed => s.pc.Closing?
    case Raised => CanRaise(s.pc)
    case SleepDone => s.pc.Sleeping?
  }

  predicate Configured(s: State)
  {
    s.settings.Some? && s.usable
  }

  /** The inner while: check the version, and only then clear the event and wait, without suspending between. */
  function CheckVersion(s: State, built: Settings, version: nat): State
  {
    if s.version == version then s.(event := false, pc := Parked(built, version)) else s.(pc := Closing(built))
  }

  function Bump(s: State): State
  {
    s.(version := s.version + 1, event := true)
  }

  /** The connection raised: on a platform that cannot run MQTT the loop gives up for good. */
  function Failed(h: Host, s: State): State
  {
    var down := s.(connected := false, client := None);
    if h.proactor then down.(errorToasts := s.errorToasts + 1, pc := Idle)
    else if !s.errorNotified then
      down.(errorToasts := s.errorToasts + 1, errorNotified := true, pc := Sleeping)
    else down.(pc := Sleeping)
  }

  /** Events of the loop itself, as opposed to callers and the environment. */
  predicate LoopEvent(e: Event)
  {
    !(e.Start? || e.Stop? || e.PublishFailed? || e.EnvironmentChanged?)
  }

  /** What callers and the environment do. */
  function CallerStep(s: State, e: Event): State
    requires !LoopEvent(e)
  {
    match e
    case Start(settings, usable) =>
      var bumped := Bump(s.(settings := Some(settings), usable := usable));
      if s.pc.Idle? then bumped.(pc := Top, backoff := BACKOFF_MIN) else bumped
    case Stop =>
      s.(pc := Idle, client := None, connected := false, errorNotified := false, suppressToast := false,
         errorToasts := 0)
    case EnvironmentChanged(usable) => s.(usable := usable, changes := s.changes + 1)
    case PublishFailed => Bump(s.(connected := false))
  }

  /** What the loop does between two suspension points. */
  function LoopStep(h: Host, s: State, e: Event): State
    requires LoopEvent(e) && Enabled(h, s, e)
  {
    match e
    case LoopTop =>
      if !Configured(s) then
        s.(connected := false, client := None, event := false, pc := ParkedUnconfigured(s.version, s.changes))
      else s.(pc := PreConnect(s.settings.value, s.version))
    case Woken =>
      if s.pc.ParkedUnconfigured? then s.(pc := Top) else CheckVersion(s, s.pc.built, s.pc.version)
    case UnconfiguredTimeout => s.(pc := Top)
    case PreConnectDone(proceed) =>
      if proceed then s.(pc := Connecting(s.pc.built, s.pc.version)) else s.(pc := Top)
    case Connected =>
      s.(client := Some(s.pc.built), connected := true, errorNotified := false, backoff := BACKOFF_MIN,
         suppressToast := false, errorToasts := 0, pc := Greeting(s.pc.built, s.pc.version))
    case HookDone => CheckVersion(s, s.pc.built, s.pc.version)
    case WaitTimeout => s.(pc := Waking(s.pc.built, s.pc.version))
    case PeriodicDone(breakWait) =>
      if breakWait then s.(suppressToast := true, pc := Closing(s.pc.built))
      else CheckVersion(s, s.pc.built, s.pc.version)
    case Closed => s.(client := None, connected := false, pc := Top)
    case Raised => Failed(h, s)
    case SleepDone =>
      s.(backoff := if 2 * s.backoff < h.backoffMax then 2 * s.backoff else h.backoffMax, pc := Top)
  }

  function Apply(h: Host, s: State, e: Event): State
    requires Enabled(h, s, e)
  {
    if LoopEvent(e) then LoopStep(h, s, e) else CallerStep(s, e)
  }

  // ---------------------------------------------------------------------------------------------
  // Invariant

  predicate HasSnapshot(pc: Pc)
  {
    pc.PreConnect? || pc.Connecting? || pc.Greeting? || pc.Parked? || pc.Waking?
  }

  /** While the version has not moved, the snapshot taken with it is the current settings. */
  ghost predicate SnapshotCurrent(s: State)
  {
    HasSnapshot(s.pc) ==> s.pc.version <= s.version && (s.pc.version == s.version ==> s.settings == Some(s.pc.built))
  }

  predicate IsParked(pc: Pc)
  {
    pc.Parked? || pc.ParkedUnconfigured?
  }

  /** While parked, the event is set exactly when the version has moved since the loop looked. */
  ghost predicate NoLostWakeup(s: State)
  {
    IsParked(s.pc) ==> s.pc.version <= s.version && (s.event <==> s.pc.version != s.version)
  }

  /** Parked unconfigured, nothing but a bump or a change of the environment can have made it usable since. */
  ghost predicate LookedUnconfigured(s: State)
  {
    s.pc.ParkedUnconfigured? ==>
      s.pc.look <= s.changes && (s.pc.version == s.version && s.pc.look == s.changes ==> !Configured(s))
  }

  ghost predicate ClientOfThisConnection(s: State)
  {
    && (s.pc.Greeting? || s.pc.Parked? || s.pc.Waking? || s.pc.Closing? ==> s.client == Some(s.pc.built))
    && (s.client.Some? ==> s.pc.Greeting? || s.pc.Parked? || s.pc.Waking? || s.pc.Closing?)
    && (s.connected ==> s.client.Some?)
  }

  ghost predicate Bounded(h: Host, s: State)
  {
    && (h.backoffMax >= BACKOFF_MIN ==> BACKOFF_MIN <= s.backoff <= h.backoffMax)
    && (!h.proactor ==> s.errorToasts <= if s.errorNotified then 1 else 0)
  }

  ghost predicate Inv(h: Host, s: State)
  {
    SnapshotCurrent(s) && NoLostWakeup(s) && LookedUnconfigured(s) && ClientOfThisConnection(s) && Bounded(h, s)
  }

  lemma StepKeepsSnapshot(h: Host, s: State, e: Event)
    requires SnapshotCurrent(s) && Enabled(h, s, e)
    ensures SnapshotCurrent(Apply(h, s, e))
  {
    match e {
      case Start(_, _) =>
      case EnvironmentChanged(_) =>
      case Stop =>
      case PublishFailed =>
      case LoopTop =>
      case Woken =>
      case UnconfiguredTimeout =>
      case PreConnectDone(_) =>
      case Connected =>
      case HookDone =>
      case WaitTimeout =>
      case PeriodicDone(_) =>
      case Closed =>
      case Raised =>
      case SleepDone =>
    }
  }

  lemma StepKeepsWakeup(h: Host, s: State, e: Event)
    requires SnapshotCurrent(s) && NoLostWakeup(s) && LookedUnconfigured(s) && Enabled(h, s, e)
    ensures NoLostWakeup(Apply(h, s, e)) && LookedUnconfigured(Apply(h, s, e))
  {
    match e {
      case Start(_, _) =>
      case EnvironmentChanged(_) =>
      case Stop =>
      case PublishFailed =>
      case LoopTop =>
      case Woken =>
      case UnconfiguredTimeout =>
      case PreConnectDone(_) =>
      case Connected =>
      case HookDone =>
      case WaitTimeout =>
      case PeriodicDone(_) =>
      case Closed =>
      case Raised =>
      case SleepDone =>
    }
  }

  lemma StepKeepsClient(h: Host, s: State, e: Event)
    requires ClientOfThisConnection(s) && Enabled(h, s, e)
    ensures ClientOfThisConnection(Apply(h, s, e))
  {
    match e {
      case Start(_, _) =>
      case EnvironmentChanged(_) =>
      case Stop =>
      case PublishFailed =>
      case LoopTop =>
      case Woken =>
      case UnconfiguredTimeout =>
      case PreConnectDone(_) =>
      case Connected =>
      case HookDone =>
      case WaitTimeout =>
      case PeriodicDone(_) =>
      case Closed =>
      case Raised =>
      case SleepDone =>
    }
  }

  lemma StepKeepsBackoff(h: Host, s: State, e: Event)
    requires BACKOFF_MIN <= s.backoff <= h.backoffMax && Enabled(h, s, e)
    ensures BACKOFF_MIN <= Apply(h, s, e).backoff <= h.backoffMax
  {
    match e {
      case Start(_, _) =>
      case EnvironmentChanged(_) =>
      case Stop =>
      case PublishFailed =>
      case LoopTop =>
      case Woken =>
      case UnconfiguredTimeout =>
      case PreConnectDone(_) =>
      case Connected =>
      case HookDone =>
      case WaitTimeout =>
      case PeriodicDone(_) =>
      case Closed =>
      case Raised =>
      case SleepDone =>
    }
  }

  lemma StepKeepsToasts(h: Host, s: State, e: Event)
    requires !h.proactor && Enabled(h, s, e) && s.errorToasts <= if s.errorNotified then 1 else 0
    ensures Apply(h, s, e).errorToasts <= if Apply(h, s, e).errorNotified then 1 else 0
  {
    match e {
      case Start(_, _) =>
      case EnvironmentChanged(_) =>
      case Stop =>
      case PublishFailed =>
      case LoopTop =>
      case Woken =>
      case UnconfiguredTimeout =>
      case PreConnectDone(_) =>
      case Connected =>
      case HookDone =>
      case WaitTimeout =>
      case PeriodicDone(_) =>
      case Closed =>
      case Raised =>
      case SleepDone =>
    }
  }

  lemma StepKeepsInv(h: Host, s: State, e: Event)
    requires Inv(h, s) && Enabled(h, s, e)
    ensures Inv(h, Apply(h, s, e))
  {
    StepKeepsSnapshot(h, s, e);
    StepKeepsWakeup(h, s, e);
    StepKeepsClient(h, s, e);
    if h.backoffMax >= BACKOFF_MIN {
      StepKeepsBackoff(h, s, e);
    }
    if !h.proactor {
      StepKeepsToasts(h, s, e);
    }
  }

  ghost predicate ValidRun(h: Host, s: State, es: seq<Event>)
    decreases |es|
  {
    es == [] || (Enabled(h, s, es[0]) && ValidRun(h, Apply(h, s, es[0]), es[1..]))
  }

  ghost function After(h: Host, s: State, es: seq<Event>): State
    requires ValidRun(h, s, es)
    decreases |es|
  {
    if es == [] then s else After(h, Apply(h, s, es[0]), es[1..])
  }

  lemma {:induction false} RunKeepsInv(h: Host, s: State, es: seq<Event>)
    requires Inv(h, s) && ValidRun(h, s, es)
    ensures Inv(h, After(h, s, es))
    decreases |es|
  {
    if es != [] {
      StepKeepsInv(h, s, es[0]);
      RunKeepsInv(h, Apply(h, s, es[0]), es[1..]);
    }
  }

  /** Parked and connected with the event clear, the live client was built from the latest settings. */
  lemma ParkedMeansUpToDate(h: Host, es: seq<Event>)
    requires ValidRun(h, Init(), es)
    ensures var s := After(h, Init(), es);
      s.pc.Parked? && !s.event ==> s.client.Some? && s.client == s.settings
  {
    RunKeepsInv(h, Init(), es);
  }

  /** Every version bump reaches the parked loop: it can be woken exactly when the version has moved. */
  lemma EveryBumpWakes(h: Host, es: seq<Event>)
    requires ValidRun(h, Init(), es) && IsParked(After(h, Init(), es).pc)
    ensures var s := After(h, Init(), es);
      && (Enabled(h, s, Woken) <==> s.version != s.pc.version)
      && (s.version != s.pc.version ==>
          if s.pc.Parked? then Apply(h, s, Woken).pc.Closing? else Apply(h, s, Woken).pc.Top?)
      && (forall settings, usable :: BumpWakes(h, s, Start(settings, usable)))
      && BumpWakes(h, s, PublishFailed)
  {
    RunKeepsInv(h, Init(), es);
  }

  /** After this event the loop is still parked where it was, and can be woken. */
  ghost predicate BumpWakes(h: Host, s: State, e: Event)
  {
    Enabled(h, s, e) && Apply(h, s, e).pc == s.pc && Enabled(h, Apply(h, s, e), Woken)
  }

  /**
   Parked unconfigured with the event clear: nothing was bumped since the loop looked, and if the
   publisher is configured by now, then only because the environment changed since.
   */
  lemma ParkedUnconfiguredMeans(h: Host, es: seq<Event>)
    requires ValidRun(h, Init(), es) && After(h, Init(), es).pc.ParkedUnconfigured?
    ensures var s := After(h, Init(), es);
      !s.event ==> s.pc.version == s.version && (Configured(s) ==> s.pc.look < s.changes)
  {
    RunKeepsInv(h, Init(), es);
  }

  /**
   How a change is noticed: the parked loop can look again exactly after a bump or with a finite
   timeout, and looking again connects with the latest settings exactly if they are usable now.
   */
  lemma NoticedExactlyByBumpOrTimeout(h: Host, es: seq<Event>)
    requires ValidRun(h, Init(), es) && After(h, Init(), es).pc.ParkedUnconfigured?
    ensures var s := After(h, Init(), es);
      && ((exists e :: LoopEvent(e) && Enabled(h, s, e)) <==> s.version != s.pc.version || h.looksAgain)
      && (forall e :: LoopEvent(e) && Enabled(h, s, e) ==> LooksAgain(h, s, e))
  {
    RunKeepsInv(h, Init(), es);
    var s := After(h, Init(), es);
    if s.event {
      assert LoopEvent(Woken) && Enabled(h, s, Woken);
    }
    if h.looksAgain {
      assert LoopEvent(UnconfiguredTimeout) && Enabled(h, s, UnconfiguredTimeout);
    }
  }

  ghost predicate LooksAgain(h: Host, s: State, e: Event)
    requires Enabled(h, s, e)
  {
    var top := Apply(h, s, e);
    top.pc.Top? && Apply(h, top, LoopTop).pc ==
      if Configured(s) then PreConnect(s.settings.value, s.version) else ParkedUnconfigured(s.version, s.changes)
  }

  /** Without timeout and bump the loop stays parked, whatever the environment does. */
  lemma {:induction false} StaysParkedWithoutBumpOrTimeout(h: Host, s: State, es: seq<Event>)
    requires Inv(h, s) && s.pc.ParkedUnconfigured? && !s.event && !h.looksAgain && ValidRun(h, s, es)
    requires forall i :: 0 <= i < |es| ==> !es[i].Start? && !es[i].PublishFailed? && !es[i].Stop?
    ensures After(h, s, es).pc == s.pc && !After(h, s, es).event
    decreases |es|
  {
    if es != [] {
      StepKeepsInv(h, s, es[0]);
      StaysParkedWithoutBumpOrTimeout(h, Apply(h, s, es[0]), es[1..]);
    }
  }

  /** The exception is real: keys that arrive while parked make the publisher usable unnoticed. */
  lemma UsableButParked(h: Host)
    ensures exists s :: Reaches(h, Init(), s) && s.pc.ParkedUnconfigured? && !s.event && Configured(s)
  {
    var s1 := Apply(h, Init(), Start(Settings(0), false));
    var s2 := Apply(h, s1, LoopTop);
    var s3 := Apply(h, s2, EnvironmentChanged(true));
    assert ValidRun(h, s3, []) && After(h, s3, []) == s3;
    ReachesFirst(h, s2, EnvironmentChanged(true), s3, s3);
    ReachesFirst(h, s1, LoopTop, s2, s3);
    ReachesFirst(h, Init(), Start(Settings(0), false), s1, s3);
  }

  /** A usable publisher does connect: four steps lead from the top of the loop to being parked with a connection. */
  lemma ConnectsWhenUsable(h: Host, s: State)
    requires s.pc.Top? && s.settings.Some? && s.usable
    ensures var es := [LoopTop, PreConnectDone(true), Connected, HookDone];
      && ValidRun(h, s, es)
      && var end := After(h, s, es);
        && end.pc == Parked(s.settings.value, s.version) && !end.event && end.client == s.settings && end.connected
        && end.backoff == 5 && !end.errorNotified && end.errorToasts == 0
  {
    var s1 := Apply(h, s, LoopTop);
    var s2 := Apply(h, s1, PreConnectDone(true));
    var s3 := Apply(h, s2, Connected);
    assert s3.pc == Greeting(s.settings.value, s.version) && s3.version == s.version;
    FourSteps(h, s, LoopTop, PreConnectDone(true), Connected, HookDone);
  }

  /** Settings that arrive while it connects make it close the stale connection and start over with them. */
  lemma ReconnectsWithNewSettings(h: Host, s: State, built: Settings, version: nat, newer: Settings, usable: bool)
    requires s.pc == Greeting(built, version) && version <= s.version && s.client == Some(built)
    ensures var es := [Start(newer, usable), HookDone, Closed, LoopTop];
      && ValidRun(h, s, es)
      && var end := After(h, s, es);
        && end.client.None? && !end.connected
        && (usable ==> end.pc == PreConnect(newer, s.version + 1))
        && (!usable ==> end.pc.ParkedUnconfigured?)
  {
    var s1 := Apply(h, s, Start(newer, usable));
    var s2 := Apply(h, s1, HookDone);
    var s3 := Apply(h, s2, Closed);
    assert s2.pc == Closing(built) && s3.pc == Top;
    FourSteps(h, s, Start(newer, usable), HookDone, Closed, LoopTop);
  }

  lemma FourSteps(h: Host, s: State, a: Event, b: Event, c: Event, d: Event)
    requires Enabled(h, s, a) && Enabled(h, Apply(h, s, a), b) && Enabled(h, Apply(h, Apply(h, s, a), b), c)
    requires Enabled(h, Apply(h, Apply(h, Apply(h, s, a), b), c), d)
    ensures ValidRun(h, s, [a, b, c, d])
    ensures After(h, s, [a, b, c, d]) == Apply(h, Apply(h, Apply(h, Apply(h, s, a), b), c), d)
  {
    var s1 := Apply(h, s, a);
    var s2 := Apply(h, s1, b);
    var s3 := Apply(h, s2, c);
    var s4 := Apply(h, s3, d);
    assert [a, b, c, d][1..] == [b, c, d] && [b, c, d][1..] == [c, d] && [c, d][1..] == [d] && [d][1..] == [];
    assert ValidRun(h, s4, []) && After(h, s4, []) == s4;
    assert ValidRun(h, s3, [d]) && After(h, s3, [d]) == s4;
    assert ValidRun(h, s2, [c, d]) && After(h, s2, [c, d]) == s4;
    assert ValidRun(h, s1, [b, c, d]) && After(h, s1, [b, c, d]) == s4;
  }

  lemma BackoffStaysInRange(h: Host, es: seq<Event>)
    requires h.backoffMax >= BACKOFF_MIN && ValidRun(h, Init(), es)
    ensures BACKOFF_MIN <= After(h, Init(), es).backoff <= h.backoffMax
  {
    RunKeepsInv(h, Init(), es);
  }

  /** One error notification per outage: at most one since the last successful connect or stop. */
  lemma OneErrorToastPerOutage(h: Host, es: seq<Event>)
    requires !h.proactor && ValidRun(h, Init(), es)
    ensures After(h, Init(), es).errorToasts <= 1
  {
    RunKeepsInv(h, Init(), es);
  }

  ghost predicate Reaches(h: Host, s: State, end: State)
  {
    exists es :: ValidRun(h, s, es) && After(h, s, es) == end
  }

  lemma ReachesFirst(h: Host, s: State, e: Event, s': State, end: State)
    requires Enabled(h, s, e) && Apply(h, s, e) == s' && Reaches(h, s', end)
    ensures Reaches(h, s, end)
  {
    var es :| ValidRun(h, s', es) && After(h, s', es) == end;
    assert ([e] + es)[1..] == es;
    assert ValidRun(h, s, [e] + es) && After(h, s, [e] + es) == end;
  }

  predicate Restartable(h: Host, s: State)
  {
    h.proactor && s.pc.Idle?
  }

  /** One attempt that fails at once on such a platform. */
  function FailedAttempt(h: Host, s: State): State
    requires Restartable(h, s)
  {
    Apply(h, Apply(h, Apply(h, s, Start(Settings(0), true)), LoopTop), Raised)
  }

  lemma FailedAttemptNotifies(h: Host, s: State, end: State)
    requires Restartable(h, s)
    ensures Restartable(h, FailedAttempt(h, s)) && FailedAttempt(h, s).errorToasts == s.errorToasts + 1
    ensures Reaches(h, FailedAttempt(h, s), end) ==> Reaches(h, s, end)
  {
    var s1 := Apply(h, s, Start(Settings(0), true));
    var s2 := Apply(h, s1, LoopTop);
    var s3 := FailedAttempt(h, s);
    if Reaches(h, s3, end) {
      ReachesFirst(h, s2, Raised, s3, end);
      ReachesFirst(h, s1, LoopTop, s2, end);
      ReachesFirst(h, s, Start(Settings(0), true), s1, end);
    }
  }

  /** The exemption is real: on an incompatible event loop every restart notifies again. */
  lemma ProactorToastsRepeat(h: Host)
    requires h.proactor
    ensures exists s :: Reaches(h, Init(), s) && s.errorToasts == 2
  {
    var once := FailedAttempt(h, Init());
    FailedAttemptNotifies(h, Init(), Init());
    var twice := FailedAttempt(h, once);
    assert ValidRun(h, twice, []) && After(h, twice, []) == twice;
    FailedAttemptNotifies(h, once, twice);
    FailedAttemptNotifies(h, Init(), twice);
  }

  /** So the bound of one notification per outage holds exactly where the event loop can run MQTT. */
  lemma OneToastExactlyOffProactor(h: Host)
    ensures (forall s :: Reaches(h, Init(), s) ==> s.errorToasts <= 1) <==> !h.proactor
  {
    if h.proactor {
      ProactorToastsRepeat(h);
    } else {
      forall s | Reaches(h, Init(), s)
        ensures s.errorToasts <= 1
      {
        var es :| ValidRun(h, Init(), es) && After(h, Init(), es) == s;
        OneErrorToastPerOutage(h, es);
      }
    }
  }

  // ---------------------------------------------------------------------------------------------
  // The publisher object, updating its fields in place

  class Publisher {
    const host: Host
    var settings: Option<Settings>
    var usable: bool                  // the answer of the _is_configured() hook
    var changes: nat
    var settingsVersion: nat
    var versionEvent: bool
    var client: Option<Settings>
    var connected: bool
    var errorNotified: bool
    var suppressNextConnectToast: bool
    var backoff: nat
    var pc: Pc
    ghost var errorToasts: nat

    ghost function View(): State
      reads this
    {
      State(settings, usable, changes, settingsVersion, versionEvent, client, connected, errorNotified,
            suppressNextConnectToast, backoff, pc, errorToasts)
    }

    /** What every event keeps. */
    ghost predicate Valid()
      reads this
    {
      Inv(host, View())
    }

    twostate predicate SameConfiguration()
      reads this
    {
      && settings == old(settings) && usable == old(usable) && changes == old(changes)
      && settingsVersion == old(settingsVersion)
    }

    twostate predicate SameConnection()
      reads this
    {
      client == old(client) && connected == old(connected) && errorNotified == old(errorNotified)
    }

    constructor (host: Host)
      ensures this.host == host && View() == Init() && Valid()
    {
      this.host := host;
      usable, changes := false, 0;
      settings, settingsVersion, versionEvent := None, 0, false;
      client, connected, errorNotified, suppressNextConnectToast := None, false, false, false;
      backoff, pc, errorToasts := BACKOFF_MIN, Idle, 0;
    }

    method StartWith(newSettings: Settings, usableNow: bool)
      requires Valid()
      modifies this
      ensures Valid() && View() == Apply(host, old(View()), Start(newSettings, usableNow))
      ensures settings == Some(newSettings) && usable == usableNow && changes == old(changes)
      ensures settingsVersion == old(settingsVersion) + 1 && versionEvent
      ensures if old(pc).Idle? then pc == Top && backoff == 5 else pc == old(pc) && backoff == old(backoff)
      ensures SameConnection()
      ensures errorToasts == old(errorToasts)
      ensures suppressNextConnectToast == old(suppressNextConnectToast)
    {
      StepKeepsInv(host, View(), Start(newSettings, usableNow));
      Adopt(newSettings, usableNow);
    }

    /** Stores the settings, wakes the loop, and creates its task if there is none. */
    method Adopt(newSettings: Settings, usableNow: bool)
      modifies this
      ensures View() == Apply(host, old(View()), Start(newSettings, usableNow))
    {
      settings, usable := Some(newSettings), usableNow;
      WakeLoop();
      if pc.Idle? {
        pc, backoff := Top, BACKOFF_MIN;
      }
    }

    /** Bumps the version and sets the event. */
    method WakeLoop()
      modifies this`settingsVersion, this`versionEvent
      ensures settingsVersion == old(settingsVersion) + 1 && versionEvent
    {
      settingsVersion := settingsVersion + 1;
      versionEvent := true;
    }

    method StopNow()
      requires Valid()
      modifies this
      ensures Valid() && View() == Apply(host, old(View()), Stop)
      ensures pc == Idle && client.None? && !connected
      ensures !errorNotified && !suppressNextConnectToast && errorToasts == 0
      ensures SameConfiguration()
      ensures versionEvent == old(versionEvent) && backoff == old(backoff)
    {
      StepKeepsInv(host, View(), Stop);
      pc, client, connected := Idle, None, false;
      errorNotified, suppressNextConnectToast, errorToasts := false, false, 0;
    }

    method OnEnvironmentChanged(usableNow: bool)
      requires Valid()
      modifies this
      ensures Valid() && View() == Apply(host, old(View()), EnvironmentChanged(usableNow))
      ensures usable == usableNow && changes == old(changes) + 1 && pc == old(pc)
      ensures settings == old(settings) && settingsVersion == old(settingsVersion) && versionEvent == old(versionEvent)
      ensures SameConnection()
      ensures backoff == old(backoff) && errorToasts == old(errorToasts)
      ensures suppressNextConnectToast == old(suppressNextConnectToast)
    {
      StepKeepsInv(host, View(), EnvironmentChanged(usableNow));
      usable, changes := usableNow, changes + 1;
    }

    method OnPublishFailed()
      requires Valid()
      modifies this
      ensures Valid() && View() == Apply(host, old(View()), PublishFailed)
      ensures !connected && settingsVersion == old(settingsVersion) + 1 && versionEvent && pc == old(pc)
      ensures settings == old(settings) && usable == old(usable) && changes == old(changes)
      ensures client == old(client) && errorNotified == old(errorNotified)
      ensures backoff == old(backoff) && errorToasts == old(errorToasts)
      ensures suppressNextConnectToast == old(suppressNextConnectToast)
    {
      StepKeepsInv(host, View(), PublishFailed);
      connected := false;
      WakeLoop();
    }

    method OnLoopTop()
      requires Valid() && Enabled(host, View(), LoopTop)
      modifies this
      ensures Valid() && View() == Apply(host, old(View()), LoopTop)
      ensures old(settings).Some? && old(usable) ==> pc == PreConnect(old(settings).value, settingsVersion)
      ensures old(settings).Some? && old(usable) ==> versionEvent == old(versionEvent) && SameConnection()
      ensures !(old(settings).Some? && old(usable)) ==>
        pc == ParkedUnconfigured(settingsVersion, changes) && !versionEvent && client.None? && !connected
      ensures SameConfiguration()
      ensures errorNotified == old(errorNotified)
      ensures backoff == old(backoff) && errorToasts == old(errorToasts)
      ensures suppressNextConnectToast == old(suppressNextConnectToast)
    {
      StepKeepsInv(host, View(), LoopTop);
      if settings.None? || !usable {
        connected, client, versionEvent := false, None, false;
        pc := ParkedUnconfigured(settingsVersion, changes);
      } else {
        pc := PreConnect(settings.value, settingsVersion);
      }
    }

    method OnPreConnectDone(proceed: bool)
      requires Valid() && Enabled(host, View(), PreConnectDone(proceed))
      modifies this
      ensures Valid() && View() == Apply(host, old(View()), PreConnectDone(proceed))
      ensures pc == if proceed then Connecting(old(pc).built, old(pc).version) else Top
      ensures SameConfiguration() && SameConnection()
      ensures versionEvent == old(versionEvent)
      ensures backoff == old(backoff) && errorToasts == old(errorToasts)
      ensures suppressNextConnectToast == old(suppressNextConnectToast)
    {
      StepKeepsInv(host, View(), PreConnectDone(proceed));
      if proceed {
        pc := Connecting(pc.built, pc.version);
      } else {
        pc := Top;
      }
    }

    method OnConnected()
      requires Valid() && Enabled(host, View(), Connected)
      modifies this
      ensures Valid() && View() == Apply(host, old(View()), Connected)
      ensures pc == Greeting(old(pc).built, old(pc).version) && client == Some(old(pc).built) && connected
      ensures !errorNotified && errorToasts == 0 && backoff == 5 && !suppressNextConnectToast
      ensures SameConfiguration()
      ensures versionEvent == old(versionEvent)
    {
      StepKeepsInv(host, View(), Connected);
      ClientUp();
    }

    /** A fresh connection ends the outage. */
    method ClientUp()
      requires Enabled(host, View(), Connected)
      modifies this
      ensures View() == Apply(host, old(View()), Connected)
    {
      client, connected, errorNotified, backoff := Some(pc.built), true, false, BACKOFF_MIN;
      errorToasts := 0;
      suppressNextConnectToast := false;
      pc := Greeting(pc.built, pc.version);
    }

    method WaitForChange(built: Settings, version: nat)
      modifies this
      ensures View() == CheckVersion(old(View()), built, version)
    {
      if settingsVersion == version {
        versionEvent := false;
        pc := Parked(built, version);
      } else {
        pc := Closing(built);
      }
    }

    method OnWoken()
      requires Valid() && Enabled(host, View(), Woken)
      modifies this
      ensures Valid() && View() == Apply(host, old(View()), Woken)
      ensures old(pc).ParkedUnconfigured? ==> pc == Top && versionEvent
      ensures old(pc).Parked? ==>
        if settingsVersion == old(pc).version then pc == old(pc) && !versionEvent else pc == Closing(old(pc).built)
      ensures SameConfiguration() && SameConnection()
      ensures backoff == old(backoff) && errorToasts == old(errorToasts)
      ensures suppressNextConnectToast == old(suppressNextConnectToast)
    {
      StepKeepsInv(host, View(), Woken);
      if pc.ParkedUnconfigured? {
        pc := Top;
      } else {
        WaitForChange(pc.built, pc.version);
      }
    }

    method OnHookDone()
      requires Valid() && Enabled(host, View(), HookDone)
      modifies this
      ensures Valid() && View() == Apply(host, old(View()), HookDone)
      ensures if settingsVersion == old(pc).version
        then pc == Parked(old(pc).built, old(pc).version) && !versionEvent
        else pc == Closing(old(pc).built) && versionEvent == old(versionEvent)
      ensures SameConfiguration() && SameConnection()
      ensures backoff == old(backoff) && errorToasts == old(errorToasts)
      ensures suppressNextConnectToast == old(suppressNextConnectToast)
    {
      StepKeepsInv(host, View(), HookDone);
      WaitForChange(pc.built, pc.version);
    }

    method OnTimeout()
      requires Valid() && (pc.Parked? || (pc.ParkedUnconfigured? && host.looksAgain))
      modifies this
      ensures Valid()
      ensures View() == Apply(host, old(View()), if old(pc).Parked? then WaitTimeout else UnconfiguredTimeout)
      ensures pc == if old(pc).Parked? then Waking(old(pc).built, old(pc).version) else Top
      ensures SameConfiguration() && SameConnection()
      ensures versionEvent == old(versionEvent)
      ensures backoff == old(backoff) && errorToasts == old(errorToasts)
      ensures suppressNextConnectToast == old(suppressNextConnectToast)
    {
      StepKeepsInv(host, View(), if pc.Parked? then WaitTimeout else UnconfiguredTimeout);
      if pc.Parked? {
        pc := Waking(pc.built, pc.version);
      } else {
        pc := Top;
      }
    }

    method OnPeriodicDone(breakWait: bool)
      requires Valid() && Enabled(host, View(), PeriodicDone(breakWait))
      modifies this
      ensures Valid() && View() == Apply(host, old(View()), PeriodicDone(breakWait))
      ensures breakWait ==>
        pc == Closing(old(pc).built) && suppressNextConnectToast && versionEvent == old(versionEvent)
      ensures !breakWait ==> suppressNextConnectToast == old(suppressNextConnectToast)
      ensures !breakWait ==>
        if settingsVersion == old(pc).version
          then pc == Parked(old(pc).built, old(pc).version) && !versionEvent
          else pc == Closing(old(pc).built) && versionEvent == old(versionEvent)
      ensures SameConfiguration() && SameConnection()
      ensures backoff == old(backoff) && errorToasts == old(errorToasts)
    {
      StepKeepsInv(host, View(), PeriodicDone(breakWait));
      if breakWait {
        suppressNextConnectToast := true;
        pc := Closing(pc.built);
      } else {
        WaitForChange(pc.built, pc.version);
      }
    }

    method OnClosed()
      requires Valid() && Enabled(host, View(), Closed)
      modifies this
      ensures Valid() && View() == Apply(host, old(View()), Closed)
      ensures pc == Top && client.None? && !connected
      ensures SameConfiguration()
      ensures errorNotified == old(errorNotified) && versionEvent == old(versionEvent)
      ensures backoff == old(backoff) && errorToasts == old(errorToasts)
      ensures suppressNextConnectToast == old(suppressNextConnectToast)
    {
      StepKeepsInv(host, View(), Closed);
      client, connected, pc := None, false, Top;
    }

    method OnRaised()
      requires Valid() && Enabled(host, View(), Raised)
      modifies this
      ensures Valid() && View() == Apply(host, old(View()), Raised)
      ensures client.None? && !connected && backoff == old(backoff) && versionEvent == old(versionEvent)
      ensures host.proactor ==> pc == Idle && errorToasts == old(errorToasts) + 1 && errorNotified == old(errorNotified)
      ensures !host.proactor ==> pc == Sleeping && errorNotified
      ensures !host.proactor ==> errorToasts == old(errorToasts) + (if old(errorNotified) then 0 else 1)
      ensures SameConfiguration()
      ensures suppressNextConnectToast == old(suppressNextConnectToast)
    {
      StepKeepsInv(host, View(), Raised);
      HandleError();
    }

    /** The error branch: drops the client, and notifies for good or once per outage. */
    method HandleError()
      modifies this
      ensures View() == Failed(host, old(View()))
    {
      connected, client := false, None;
      if host.proactor {
        errorToasts := errorToasts + 1;
        pc := Idle;
        return;
      }
      if !errorNotified {
        errorToasts := errorToasts + 1;
        errorNotified := true;
      }
      pc := Sleeping;
    }

    method OnSleepDone()
      requires Valid() && Enabled(host, View(), SleepDone)
      modifies this
      ensures Valid() && View() == Apply(host, old(View()), SleepDone)
      ensures pc == Top && backoff == if 2 * old(backoff) > host.backoffMax then host.backoffMax else 2 * old(backoff)
      ensures SameConfiguration() && SameConnection()
      ensures versionEvent == old(versionEvent) && errorToasts == old(errorToasts)
      ensures suppressNextConnectToast == old(suppressNextConnectToast)
    {
      StepKeepsInv(host, View(), SleepDone);
      backoff := backoff * 2;
      if backoff > host.backoffMax {
        backoff := host.backoffMax;
      }
      pc := Top;
    }

    /** One event, whichever it is; the invariant holds before and after. */
    method Perform(e: Event)
      requires Valid() && Enabled(host, View(), e)
      modifies this
      ensures Valid() && View() == Apply(host, old(View()), e)
    {
      match e {
        case Start(newSettings, usableNow) => StartWith(newSettings, usableNow);
        case EnvironmentChanged(usableNow) => OnEnvironmentChanged(usableNow);
        case Stop => StopNow();
        case PublishFailed => OnPublishFailed();
        case LoopTop => OnLoopTop();
        case Woken => OnWoken();
        case UnconfiguredTimeout => OnTimeout();
        case PreConnectDone(proceed) => OnPreConnectDone(proceed);
        case Connected => OnConnected();
        case HookDone => OnHookDone();
        case WaitTimeout => OnTimeout();
        case PeriodicDone(breakWait) => OnPeriodicDone(breakWait);
        case Closed => OnClosed();
        case Raised => OnRaised();
        case SleepDone => OnSleepDone();
      }
    }

    /**
     Any sequence of calls and loop steps. Parked while connected with the event clear, the live client
     is built from the latest settings; parked at all, the event is set exactly if something was bumped;
     the backoff stays in range; and an outage notifies at most once.
     */
    method Run(es: seq<Event>)
      requires Valid() && ValidRun(host, View(), es)
      modifies this
      ensures Valid() && View() == After(host, old(View()), es)
      ensures pc.Parked? && !versionEvent ==> client.Some? && client == settings
      ensures IsParked(pc) ==> (versionEvent <==> settingsVersion != pc.version)
      ensures host.backoffMax >= BACKOFF_MIN ==> BACKOFF_MIN <= backoff <= host.backoffMax
      ensures !host.proactor ==> errorToasts <= 1
    {
      var i := 0;
      while i < |es|
        invariant 0 <= i <= |es|
        invariant Valid() && ValidRun(host, View(), es[i..])
        invariant After(host, View(), es[i..]) == After(host, old(View()), es)
      {
        assert es[i..][0] == es[i] && es[i..][1..] == es[i + 1..];
        Perform(es[i]);
        i := i + 1;
      }
    }
  }
}
