/** How a session process and the container service stop each other: D-Bus Stop calls one way,
    SIGUSR1 the other (tools/actions/session_manager.py, tools/actions/container_manager.py,
    tools/services/hardware_manager.py), as a state machine over the steps of both processes. */
module StopProtocol {

  /** Where a thread of the container service is in `stop(args, quit)`: tearing down, at
      `"session" in args`, about to signal, about to forget the session. `last` marks the run in
      the SIGTERM handler, after which the main loop quits. */
  datatype Thread =
    | Idle
    | TearDown(quit: bool, last: bool)
    | Look(quit: bool, last: bool)
    | Signal(last: bool)
    | Forget(last: bool)

  /** The session process: in its loop, inside a blocking Stop(False) call, or exited. */
  datatype Process = InLoop | Calling | Gone

  datatype State = State(
    process: Process,
    loopQuit: bool,    // looper.quit() has been called
    triggers: nat,     // HUP, INT, TERM, SessionManager.Stop calls and disconnects not yet handled
    callers: nat,      // callers of SessionManager.Stop that have not got a reply yet
    usr1: nat,         // SIGUSR1 not yet handled
    tracked: bool,     // the service tracks this session
    alive: bool,       // the service's main loop runs
    main: Thread,
    hardware: Thread,
    stopTrue: nat,     // ContainerManager.Stop(True) calls not yet handled
    stopFalse: nat,    // ContainerManager.Stop(False) calls, all from the session process
    terms: nat,        // SIGINT and SIGTERM to the service
    shutdowns: nat,    // Android shutdown requests, not for a reboot
    suspends: nat)     // Android suspend requests with suspend_action=stop

  datatype Step =
    | HandleTrigger              // do_stop, then stop_container(quit_session=False)
    | HandleUsr1                 // do_stop only
    | Reply                      // the blocking call returns, fails or times out
    | Exit                       // the loop has quit
    | Answered                   // a caller of SessionManager.Stop gets its reply ...
    | FallBack                   // ... or an error or a timeout, handled or not, and calls Stop(True)
    | TakeTrue(root: bool)       // the service takes a Stop(True) call ...
    | TakeFalse(root: bool)      // ... or a Stop(False) call
    | TakeTerm
    | TakeShutdown(dropped: bool) // Android did not stop within 30 polls, or `stop` begins
    | TakeSuspend(reached: bool) // SessionManager.Stop, or Stop(True) if it cannot be reached
    | MainStep(ok: bool)         // the next step of `stop` in the main thread ...
    | HardwareStep(ok: bool)     // ... or in the hardware thread
    | Refuse                     // calls and signals to a service that is gone come to nothing

  /** Root, or the owner while the session is tracked. */
  predicate Authorised(s: State, root: bool) { root || s.tracked }

  function Done(s: State, last: bool): State {
    if last then s.(alive := false) else s
  }

  /** One step of `stop` in a thread: the new thread place and the rest of the state. An exception
      (`!ok`) while tearing down ends it early. */
  function Advance(s: State, t: Thread, ok: bool): (Thread, State) {
    match t
    case Idle => (Idle, s)
    case TearDown(quit, last) => if ok then (Look(quit, last), s) else (Idle, Done(s, last))
    case Look(quit, last) =>
      if !s.tracked then (Idle, Done(s, last))
      else (if quit then Signal(last) else Forget(last), s)
    case Signal(last) => (Forget(last), if s.process == Gone then s else s.(usr1 := s.usr1 + 1))
    case Forget(last) => (Idle, Done(s.(tracked := false), last))
  }

  predicate Enabled(s: State, step: Step) {
    match step
    case HandleTrigger => s.process == InLoop && s.triggers > 0
    case HandleUsr1 => s.process == InLoop && s.usr1 > 0
    case Reply => s.process == Calling
    case Exit => s.process == InLoop && s.loopQuit
    case Answered => s.callers > 0
    case FallBack => s.callers > 0
    case TakeTrue(_) => s.alive && s.main == Idle && s.stopTrue > 0
    case TakeFalse(_) => s.alive && s.main == Idle && s.stopFalse > 0
    case TakeTerm => s.alive && s.main == Idle && s.terms > 0
    case TakeShutdown(_) => s.hardware == Idle && s.shutdowns > 0
    case TakeSuspend(reached) => s.hardware == Idle && s.suspends > 0 && (reached ==> s.process != Gone)
    case MainStep(_) => s.main != Idle
    case HardwareStep(_) => s.hardware != Idle
    case Refuse => !s.alive && s.stopTrue + s.stopFalse + s.terms > 0
  }

  function Next(s: State, step: Step): State
    requires Enabled(s, step)
  {
    match step
    case HandleTrigger =>
      s.(triggers := s.triggers - 1, loopQuit := true, stopFalse := s.stopFalse + 1, process := Calling)
    case HandleUsr1 => s.(usr1 := s.usr1 - 1, loopQuit := true)
    case Reply => s.(process := InLoop)
    case Exit => s.(process := Gone, triggers := 0, usr1 := 0)
    case Answered => s.(callers := s.callers - 1)
    case FallBack => s.(callers := s.callers - 1, stopTrue := s.stopTrue + 1)
    case TakeTrue(root) =>
      s.(stopTrue := s.stopTrue - 1, main := if Authorised(s, root) then TearDown(true, false) else Idle)
    case TakeFalse(root) =>
      s.(stopFalse := s.stopFalse - 1, main := if Authorised(s, root) then TearDown(false, false) else Idle)
    case TakeTerm => s.(terms := s.terms - 1, main := TearDown(true, true))
    case TakeShutdown(dropped) =>
      s.(shutdowns := s.shutdowns - 1, hardware := if dropped then Idle else TearDown(true, false))
    case TakeSuspend(reached) =>
      if reached then s.(suspends := s.suspends - 1, triggers := s.triggers + 1, callers := s.callers + 1)
      else s.(suspends := s.suspends - 1, stopTrue := s.stopTrue + 1)
    case MainStep(ok) =>
      var (t, s1) := Advance(s, s.main, ok);
      s1.(main := t)
    case HardwareStep(ok) =>
      var (t, s1) := Advance(s, s.hardware, ok);
      s1.(hardware := t)
    case Refuse => s.(stopTrue := 0, stopFalse := 0, terms := 0)
  }

  ghost predicate Run(steps: seq<Step>, ss: seq<State>) {
    && |ss| == |steps| + 1
    && forall i :: 0 <= i < |steps| ==> Enabled(ss[i], steps[i]) && ss[i + 1] == Next(ss[i], steps[i])
  }

  /** Teardown commands succeed. */
  ghost predicate Reliable(steps: seq<Step>) {
    forall i :: 0 <= i < |steps| ==> !(steps[i] == MainStep(false)) && !(steps[i] == HardwareStep(false))
  }

  /** How many shutdown requests were dropped. */
  function Dropped(steps: seq<Step>): nat {
    if steps == [] then 0
    else Dropped(steps[..|steps| - 1]) + Drop(steps[|steps| - 1])
  }

  function Drop(step: Step): nat { if step == TakeShutdown(true) then 1 else 0 }

  ghost predicate Quiet(s: State) { forall step :: !Enabled(s, step) }

  /** A running session that is tracked, nothing going on, and stop requests of any kinds and
      numbers waiting, each caller of SessionManager.Stop with its call; no Stop(False) from
      elsewhere. */
  predicate Initial(s: State) {
    && s.process == InLoop && !s.loopQuit && s.usr1 == 0 && s.tracked && s.alive
    && s.main == Idle && s.hardware == Idle && s.stopFalse == 0
    && s.callers <= s.triggers
  }

  function Requests(s: State): nat { s.triggers + s.stopTrue + s.terms + s.shutdowns + s.suspends }

  // ----- every stop chain is finite -----

  function ThreadWeight(t: Thread): nat {
    match t
    case Idle => 0
    case TearDown(_, _) => 8
    case Look(_, _) => 7
    case Signal(_) => 6
    case Forget(_) => 2
  }

  function ProcessWeight(p: Process): nat {
    match p
    case Gone => 0
    case InLoop => 1
    case Calling => 2
  }

  function Weight(s: State): nat {
    22 * s.suspends + 11 * s.triggers + 10 * s.callers
    + 9 * (s.stopTrue + s.stopFalse + s.terms + s.shutdowns) + 2 * s.usr1
    + ThreadWeight(s.main) + ThreadWeight(s.hardware) + ProcessWeight(s.process)
  }

  /** Requests waiting, those that callers may still add, and stops under way. A SIGUSR1 is not
      among them. */
  function Stops(s: State): nat {
    Requests(s) + s.callers + s.suspends + s.stopFalse
    + (if s.main == Idle then 0 else 1) + (if s.hardware == Idle then 0 else 1)
  }

  /** A step of `stop` gets on, even where it sends a signal, and adds no request. */
  lemma AdvanceLosesWeight(s: State, t: Thread, ok: bool)
    requires t != Idle
    ensures var (t1, s1) := Advance(s, t, ok);
            && ThreadWeight(t1) + 2 * s1.usr1 < ThreadWeight(t) + 2 * s.usr1
            && s1 == s.(usr1 := s1.usr1, tracked := s1.tracked, alive := s1.alive)
  {}

  lemma StepLosesWeight(s: State, step: Step)
    requires Enabled(s, step)
    ensures Weight(Next(s, step)) < Weight(s)
    ensures Stops(Next(s, step)) + Drop(step) <= Stops(s)
  {
    if step.MainStep? {
      AdvanceLosesWeight(s, s.main, step.ok);
      var (t, s1) := Advance(s, s.main, step.ok);
      assert Next(s, step) == s1.(main := t);
    } else if step.HardwareStep? {
      AdvanceLosesWeight(s, s.hardware, step.ok);
      var (t, s1) := Advance(s, s.hardware, step.ok);
      assert Next(s, step) == s1.(hardware := t);
    } else {
      OtherStepLosesWeight(s, step);
    }
  }

  predicate OfSession(step: Step) {
    step.HandleTrigger? || step.HandleUsr1? || step.Reply? || step.Exit? || step.Answered? || step.FallBack?
  }

  lemma SessionStepLosesWeight(s: State, step: Step)
    requires Enabled(s, step) && OfSession(step)
    ensures Weight(Next(s, step)) < Weight(s)
    ensures Stops(Next(s, step)) + Drop(step) <= Stops(s)
  {
    var s1 := Next(s, step);
    assert s1.main == s.main && s1.hardware == s.hardware;
  }

  lemma HardwareTakesLoseWeight(s: State, step: Step)
    requires Enabled(s, step) && (step.TakeShutdown? || step.TakeSuspend? || step.Refuse?)
    ensures Weight(Next(s, step)) < Weight(s)
    ensures Stops(Next(s, step)) + Drop(step) <= Stops(s)
  {
    assert Next(s, step).main == s.main && Next(s, step).process == s.process;
  }

  lemma OtherStepLosesWeight(s: State, step: Step)
    requires Enabled(s, step) && !step.MainStep? && !step.HardwareStep?
    ensures Weight(Next(s, step)) < Weight(s)
    ensures Stops(Next(s, step)) + Drop(step) <= Stops(s)
  {
    if OfSession(step) {
      SessionStepLosesWeight(s, step);
    } else if step.TakeShutdown? || step.TakeSuspend? || step.Refuse? {
      HardwareTakesLoseWeight(s, step);
    } else {
      TakenByMain(s, Next(s, step));
    }
  }

  lemma TakenByMain(s: State, s1: State)
    requires s.main == Idle && (s1.main == Idle || s1.main.TearDown?)
    requires s1 == s.(stopTrue := s1.stopTrue, stopFalse := s1.stopFalse, terms := s1.terms, main := s1.main)
    requires s1.stopTrue + s1.stopFalse + s1.terms + 1 == s.stopTrue + s.stopFalse + s.terms
    ensures Weight(s1) < Weight(s) && Stops(s1) <= Stops(s)
  {}

  /** No interleaving is longer than the weight of its first state. */
  lemma {:induction false} RunsAreFinite(steps: seq<Step>, ss: seq<State>)
    requires Run(steps, ss)
    ensures |steps| + Weight(ss[|steps|]) <= Weight(ss[0])
  {
    if steps != [] {
      var n := |steps| - 1;
      assert Run(steps[..n], ss[..n + 1]);
      RunsAreFinite(steps[..n], ss[..n + 1]);
      StepLosesWeight(ss[n], steps[n]);
    }
  }

  /** SIGUSR1 never triggers another Stop: however many are sent and handled, stops only ever come
      from the requests there were at the start and from their callers falling back, which makes at
      most two for each request. */
  lemma {:induction false} StopsNeverMultiply(steps: seq<Step>, ss: seq<State>)
    requires Run(steps, ss)
    ensures Stops(ss[|steps|]) <= Stops(ss[0])
    ensures Initial(ss[0]) ==> Stops(ss[|steps|]) <= 2 * Requests(ss[0])
  {
    if steps != [] {
      var n := |steps| - 1;
      assert Run(steps[..n], ss[..n + 1]);
      StopsNeverMultiply(steps[..n], ss[..n + 1]);
      StepLosesWeight(ss[n], steps[n]);
    }
  }

  /** Two stops for one request: SessionManager.Stop is handled, its reply comes too late, and the
      caller falls back. */
  lemma LateReplyMakesTwoStops(s: State)
    requires Initial(s) && s.triggers == 1 && s.callers == 1 && Requests(s) == 1
    ensures var s1 := Next(s, HandleTrigger);
            && Enabled(s1, FallBack)
            && var s2 := Next(s1, FallBack);
               Run([HandleTrigger, FallBack], [s, s1, s2]) && s2.stopFalse == 1 && s2.stopTrue == 1
  {
    var s1 := Next(s, HandleTrigger);
    var s2 := Next(s1, FallBack);
    RunOfTwo(HandleTrigger, FallBack, s, s1, s2);
  }

  lemma RunOfTwo(a: Step, b: Step, s: State, s1: State, s2: State)
    requires Enabled(s, a) && s1 == Next(s, a) && Enabled(s1, b) && s2 == Next(s1, b)
    ensures Run([a, b], [s, s1, s2])
  {}

  // ----- where it ends -----

  /** The session's loop has been told to quit, or is about to be. */
  predicate Quitting(s: State) { s.loopQuit || s.usr1 > 0 }

  /** Only stops that already made the session quit get this far. */
  predicate AfterQuit(t: Thread) {
    t.Forget? || ((t.TearDown? || t.Look?) && !t.quit)
  }

  predicate Inv(s: State) {
    && (s.process != InLoop ==> s.loopQuit)
    && (s.stopFalse > 0 ==> s.loopQuit)
    && (AfterQuit(s.main) || AfterQuit(s.hardware) || !s.tracked ==> Quitting(s))
  }

  /** A stop is on its way in the service. */
  predicate Moving(s: State) { s.stopFalse > 0 || s.main != Idle || s.hardware != Idle }

  /** Of `requests` requests `dropped` have been dropped. As long as the session is tracked, either a
      stop is on its way to it or all the other requests are still waiting. */
  predicate Pursued(s: State, requests: nat, dropped: nat) {
    && (s.tracked ==> s.alive && (Moving(s) || Requests(s) + dropped >= requests))
    && (s.tracked && Quitting(s) ==> Moving(s))
    && (s.tracked && s.usr1 > 0 ==> s.main.Forget? || s.hardware.Forget?)
  }

  /** Nothing but drops, forwarded suspends and callers giving up has happened yet. */
  predicate Untouched(s: State) { s.process == InLoop && !Quitting(s) && s.tracked && !Moving(s) }

  /** Of `stops` stops `dropped` have been dropped. Nothing has been touched, or a stop is on its way,
      or one has come to its end. */
  predicate Accounted(s: State, stops: nat, dropped: nat) {
    && Stops(s) + dropped <= stops
    && (Untouched(s) || Moving(s) || Stops(s) + dropped < stops)
  }

  lemma StepKeepsInv(s: State, step: Step)
    requires Enabled(s, step) && Inv(s)
    ensures Inv(Next(s, step))
  {}

  lemma StepKeepsPursued(s: State, step: Step, requests: nat, dropped: nat)
    requires Enabled(s, step) && Inv(s) && Pursued(s, requests, dropped)
    requires step != MainStep(false) && step != HardwareStep(false)
    ensures Pursued(Next(s, step), requests, dropped + Drop(step))
  {}

  lemma StepKeepsAccounted(s: State, step: Step, stops: nat, dropped: nat)
    requires Enabled(s, step) && Accounted(s, stops, dropped)
    ensures Accounted(Next(s, step), stops, dropped + Drop(step))
  {
    StepLosesWeight(s, step);
    if Moving(s) { MovingStep(s, step); }
  }

  /** A stop that is on its way stays so, or comes to its end. */
  lemma MovingStep(s: State, step: Step)
    requires Enabled(s, step) && Moving(s)
    ensures Moving(Next(s, step)) || Stops(Next(s, step)) + Drop(step) < Stops(s)
  {
    if step.MainStep? {
      AdvanceLosesWeight(s, s.main, step.ok);
      var (t, s1) := Advance(s, s.main, step.ok);
      assert Next(s, step) == s1.(main := t);
    } else if step.HardwareStep? {
      AdvanceLosesWeight(s, s.hardware, step.ok);
      var (t, s1) := Advance(s, s.hardware, step.ok);
      assert Next(s, step) == s1.(hardware := t);
    }
  }

  lemma {:induction false} RunKeeps(steps: seq<Step>, ss: seq<State>)
    requires Run(steps, ss) && Initial(ss[0])
    ensures Inv(ss[|steps|])
    ensures Accounted(ss[|steps|], Stops(ss[0]), Dropped(steps))
    ensures Reliable(steps) ==> Pursued(ss[|steps|], Requests(ss[0]), Dropped(steps))
  {
    if steps != [] {
      var n := |steps| - 1;
      assert Run(steps[..n], ss[..n + 1]);
      RunKeeps(steps[..n], ss[..n + 1]);
      StepKeepsInv(ss[n], steps[n]);
      StepKeepsAccounted(ss[n], steps[n], Stops(ss[0]), Dropped(steps[..n]));
      if Reliable(steps) {
        assert Reliable(steps[..n]);
        StepKeepsPursued(ss[n], steps[n], Requests(ss[0]), Dropped(steps[..n]));
      }
    }
  }

  /** Nothing more can happen only when nothing is waiting and nobody is at work. */
  lemma QuietMeansSettled(s: State)
    requires Quiet(s)
    ensures Requests(s) == 0 || (s.process == Gone && Requests(s) == s.triggers)
    ensures s.stopFalse == 0 && s.main == Idle && s.hardware == Idle && s.process != Calling
    ensures s.process == InLoop ==> s.usr1 == 0 && !s.loopQuit && s.triggers == 0
  {
    assert !Enabled(s, HandleTrigger) && !Enabled(s, HandleUsr1) && !Enabled(s, Reply) && !Enabled(s, Exit);
    assert !Enabled(s, FallBack);
    assert !Enabled(s, TakeTrue(true)) && !Enabled(s, TakeFalse(true)) && !Enabled(s, TakeTerm) && !Enabled(s, Refuse);
    assert !Enabled(s, TakeShutdown(false)) && !Enabled(s, TakeSuspend(false));
    assert !Enabled(s, MainStep(true)) && !Enabled(s, HardwareStep(true));
  }

  lemma {:induction false} DropsAreShutdowns(steps: seq<Step>, ss: seq<State>)
    requires Run(steps, ss)
    ensures Dropped(steps) + ss[|steps|].shutdowns <= ss[0].shutdowns
  {
    if steps != [] {
      var n := |steps| - 1;
      assert Run(steps[..n], ss[..n + 1]);
      DropsAreShutdowns(steps[..n], ss[..n + 1]);
      OnlyShutdownTaken(ss[n], steps[n]);
    }
  }

  lemma OnlyShutdownTaken(s: State, step: Step)
    requires Enabled(s, step)
    ensures Next(s, step).shutdowns + Drop(step) <= s.shutdowns
  {
    if step.MainStep? { assert Advance(s, s.main, step.ok).1.shutdowns == s.shutdowns; }
    if step.HardwareStep? { assert Advance(s, s.hardware, step.ok).1.shutdowns == s.shutdowns; }
  }

  /** The session's loop has quit, its process is gone, and the service does not track it. */
  predicate Stopped(s: State) {
    s.loopQuit && s.process == Gone && !s.tracked && s.main == Idle && s.hardware == Idle
  }

  /** Wherever the stop starts, at either side or both at once, in any interleaving: once nothing
      more can happen, and if no teardown raised, everything has stopped, exactly if some request was
      not a dropped shutdown. Otherwise the session runs on as before. */
  lemma StopQuiesces(steps: seq<Step>, ss: seq<State>)
    requires Run(steps, ss) && Initial(ss[0]) && Reliable(steps) && Quiet(ss[|steps|])
    ensures Stopped(ss[|steps|]) <==> Dropped(steps) < Requests(ss[0])
    ensures Dropped(steps) == Requests(ss[0]) ==>
              var last := ss[|steps|];
              last.tracked && last.process == InLoop && !last.loopQuit
    ensures Dropped(steps) <= Requests(ss[0])
  {
    RunKeeps(steps, ss);
    QuietMeansSettled(ss[|steps|]);
    DropsAreShutdowns(steps, ss);
    if Dropped(steps) == Requests(ss[0]) {
      assert Stops(ss[0]) == Requests(ss[0]);
    }
  }

  /** Only shutdown requests are dropped: with any other request waiting, everything stops. */
  lemma OthersStop(steps: seq<Step>, ss: seq<State>)
    requires Run(steps, ss) && Initial(ss[0]) && Reliable(steps) && Quiet(ss[|steps|])
    requires Requests(ss[0]) > ss[0].shutdowns
    ensures Stopped(ss[|steps|])
  {
    StopQuiesces(steps, ss);
    DropsAreShutdowns(steps, ss);
  }

  /** The failing input: one shutdown request, and Android does not stop within the 30 polls. */
  lemma DroppedShutdownStopsNothing()
    ensures var s := State(InLoop, false, 0, 0, 0, true, true, Idle, Idle, 0, 0, 0, 1, 0);
            var s1 := s.(shutdowns := 0);
            && Initial(s) && Requests(s) == 1 && Run([TakeShutdown(true)], [s, s1])
            && Reliable([TakeShutdown(true)]) && Quiet(s1) && s1.tracked && !s1.loopQuit
  {}

  /** Even when teardown raises: the session is forgotten only if its process quits. */
  lemma ForgottenMeansGone(steps: seq<Step>, ss: seq<State>)
    requires Run(steps, ss) && Initial(ss[0]) && Quiet(ss[|steps|]) && !ss[|steps|].tracked
    ensures ss[|steps|].loopQuit && ss[|steps|].process == Gone
  {
    RunKeeps(steps, ss);
    QuietMeansSettled(ss[|steps|]);
  }

  // ----- the service's own end -----

  /** A thread in the SIGTERM handler's stop. */
  predicate IsLast(t: Thread) {
    match t
    case Idle => false
    case TearDown(_, last) => last
    case Look(_, last) => last
    case Signal(last) => last
    case Forget(last) => last
  }

  /** If any SIGTERM was sent, one is waiting, being handled, or the main loop has ended; if none was,
      the loop runs. */
  predicate Ending(s: State, sent: bool) {
    && !IsLast(s.hardware)
    && (if sent then s.terms > 0 || IsLast(s.main) || !s.alive else s.terms == 0 && !IsLast(s.main) && s.alive)
  }

  lemma StepKeepsEnding(s: State, step: Step, sent: bool)
    requires Enabled(s, step) && Ending(s, sent)
    ensures Ending(Next(s, step), sent)
  {}

  lemma {:induction false} RunKeepsEnding(steps: seq<Step>, ss: seq<State>)
    requires Run(steps, ss) && Initial(ss[0])
    ensures Ending(ss[|steps|], ss[0].terms > 0)
  {
    if steps != [] {
      var n := |steps| - 1;
      assert Run(steps[..n], ss[..n + 1]);
      RunKeepsEnding(steps[..n], ss[..n + 1]);
      StepKeepsEnding(ss[n], steps[n], ss[0].terms > 0);
    }
  }

  /** Once nothing more can happen, the service has ended exactly if it was sent a SIGTERM or SIGINT,
      whether its teardown raised or not. */
  lemma ServiceEndsIff(steps: seq<Step>, ss: seq<State>)
    requires Run(steps, ss) && Initial(ss[0]) && Quiet(ss[|steps|])
    ensures !ss[|steps|].alive <==> ss[0].terms > 0
  {
    RunKeepsEnding(steps, ss);
    QuietMeansSettled(ss[|steps|]);
  }

  /** A stop call that is neither root's nor, with the session tracked, its owner's does nothing. */
  lemma StrangersAreRefused(s: State, step: Step)
    requires Enabled(s, step) && (step == TakeTrue(false) || step == TakeFalse(false)) && !s.tracked
    ensures Next(s, step) == s.(stopTrue := Next(s, step).stopTrue, stopFalse := Next(s, step).stopFalse)
  {}

  /** A suspend request asks the session if it can be reached, and then adds a trigger and a caller; only
      else does it ask the service. Either way it counts as one request until it is handled. */
  lemma SuspendAsksSessionFirst(s: State, reached: bool)
    requires Enabled(s, TakeSuspend(reached))
    ensures var s1 := Next(s, TakeSuspend(reached));
            && Requests(s1) == Requests(s)
            && (if reached then s.process != Gone && s1.triggers == s.triggers + 1 && s1.callers == s.callers + 1
                else s1.stopTrue == s.stopTrue + 1 && s1.callers == s.callers)
  {}
}
