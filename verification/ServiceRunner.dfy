/** tools/services/runner.py: the service object, its worker threads and the GLib loops that
    run_fn publishes, as one state machine over the atomic steps of all threads. */
module ServiceRunner {
  import opened Strings

  /** Where a worker thread is: at `while not self._stopping`, past it, inside run_fn before it
      has stored its loop on args, after that but before running it, running it, or gone. */
  datatype Place = Check | Enter | Began | Published(loop: nat) | Running(loop: nat) | Ended

  datatype Worker = Worker(place: Place, begins: nat)

  /** Where the thread that calls `stop` is. */
  datatype Stopper = Idle | Flagged | Got(loop: Option<nat>)

  datatype Runner = Runner(
    stopping: bool,         // _stopping
    published: Option<nat>, // the loop attribute on args
    loops: nat,             // loops created so far
    quit: set<nat>,         // running loops that were told to quit
    workers: seq<Worker>,
    stopper: Stopper)

  datatype Step =
    | StartFlag                    // start: _stopping = False
    | StartThread                  // start: create and start the thread
    | StopFlag                     // stop: _stopping = True
    | StopGet                      // stop: getattr(args, loop_attr)
    | StopQuit                     // stop: loop.quit()
    | SelfQuit(loop: nat)          // the service quits its own loop
    | Work(worker: nat, ok: bool)  // the next step of a worker; `ok` decides what may fail

  predicate LoopRuns(s: Runner, loop: nat) {
    exists w :: w in s.workers && w.place == Running(loop)
  }

  /** Quitting a loop that is not running has no effect. */
  function Quit(s: Runner, loop: nat): Runner {
    if LoopRuns(s, loop) then s.(quit := s.quit + {loop}) else s
  }

  function Moved(s: Runner, i: nat, w: Worker): Runner
    requires i < |s.workers|
  {
    s.(workers := s.workers[i := w])
  }

  predicate Enabled(s: Runner, t: Step) {
    match t
    case StopFlag => s.stopper == Idle
    case StopGet => s.stopper == Flagged
    case StopQuit => s.stopper.Got?
    case Work(i, ok) =>
      i < |s.workers| && s.workers[i].place != Ended
      && (s.workers[i].place.Running? ==> s.workers[i].place.loop in s.quit)
    case _ => true
  }

  function Next(s: Runner, t: Step): Runner
    requires Enabled(s, t)
  {
    match t
    case StartFlag => s.(stopping := false)
    case StartThread => s.(workers := s.workers + [Worker(Check, 0)])
    case StopFlag => s.(stopping := true, stopper := Flagged)
    case StopGet => s.(stopper := Got(s.published))
    case StopQuit =>
      var s1 := if s.stopper.loop.Some? then Quit(s, s.stopper.loop.value) else s;
      s1.(stopper := Idle)
    case SelfQuit(l) => Quit(s, l)
    case Work(i, ok) =>
      var w := s.workers[i];
      match w.place
      case Check => Moved(s, i, w.(place := if s.stopping then Ended else Enter))
      case Enter => Moved(s, i, Worker(Began, w.begins + 1))
      case Began =>
        // run_fn may raise, which ends the thread
        if ok then
          var s1 := Moved(s, i, w.(place := Published(s.loops)));
          s1.(published := Some(s.loops), loops := s.loops + 1)
        else Moved(s, i, w.(place := Ended))
      case Published(l) => Moved(s, i, w.(place := if ok then Running(l) else Check))
      case Running(l) => Moved(s, i, w.(place := Check))
      case Ended => s
  }

  ghost predicate Trace(ts: seq<Step>, ss: seq<Runner>) {
    |ss| == |ts| + 1 && forall i :: 0 <= i < |ts| ==> Enabled(ss[i], ts[i]) && ss[i + 1] == Next(ss[i], ts[i])
  }

  /** `start` does not clear the flag again during these steps. */
  ghost predicate NoStart(ts: seq<Step>) { forall i :: 0 <= i < |ts| ==> ts[i] != StartFlag }

  /** How many more times the worker may still begin run_fn once the flag is set. */
  function Allowance(p: Place): nat { if p == Enter then 1 else 0 }

  /** After `stop` has set the flag, with no later `start`: in every interleaving each worker
      begins run_fn at most once more, and only if it had already passed the check. */
  lemma {:induction false} AtMostOnceMore(ts: seq<Step>, ss: seq<Runner>, i: nat)
    requires Trace(ts, ss) && NoStart(ts) && ss[0].stopping && i < |ss[0].workers|
    ensures var last := ss[|ts|];
            && last.stopping && |ss[0].workers| <= |last.workers|
            && last.workers[i].begins + Allowance(last.workers[i].place)
               <= ss[0].workers[i].begins + Allowance(ss[0].workers[i].place)
  {
    if ts != [] {
      var n := |ts| - 1;
      assert Trace(ts[..n], ss[..n + 1]);
      AtMostOnceMore(ts[..n], ss[..n + 1], i);
      assert ss[n + 1] == Next(ss[n], ts[n]);
    }
  }

  /** A thread that only comes into being after the flag was set never begins run_fn. */
  lemma {:induction false} LateThreadNeverBegins(ts: seq<Step>, ss: seq<Runner>, i: nat)
    requires Trace(ts, ss) && NoStart(ts) && ss[0].stopping && |ss[0].workers| <= i
    ensures var last := ss[|ts|];
            && last.stopping
            && (i < |last.workers| ==> last.workers[i].begins == 0 && last.workers[i].place in {Check, Ended})
  {
    if ts != [] {
      var n := |ts| - 1;
      assert Trace(ts[..n], ss[..n + 1]);
      LateThreadNeverBegins(ts[..n], ss[..n + 1], i);
      assert ss[n + 1] == Next(ss[n], ts[n]);
    }
  }

  // ----- ending -----

  /** The steps a worker whose loop has been told to quit still has before it. */
  function Remaining(s: Runner, i: nat): Option<nat>
    requires i < |s.workers|
  {
    match s.workers[i].place
    case Running(l) => if l in s.quit then Some(2) else None
    case Check => Some(1)
    case Ended => Some(0)
    case _ => None
  }

  function OwnSteps(ts: seq<Step>, i: nat): nat {
    if ts == [] then 0
    else OwnSteps(ts[..|ts| - 1], i) + OwnStep(ts[|ts| - 1], i)
  }

  function OwnStep(t: Step, i: nat): nat { if t.Work? && t.worker == i then 1 else 0 }

  /** No worker is between the check and publishing its loop. */
  ghost predicate NobodyPublishes(s: Runner) {
    forall j :: 0 <= j < |s.workers| ==> s.workers[j].place !in {Enter, Began}
  }

  /** `stop` has landed while worker `i` is inside the loop it published: `stop` holds that loop, or
      is about to find it where nobody can replace it, or the worker has been told already. */
  ghost predicate Caught(s: Runner, i: nat, loop: nat) {
    && s.stopping && i < |s.workers|
    && (|| Remaining(s, i).Some?
        || (s.workers[i].place == Running(loop)
            && (|| s.stopper == Got(Some(loop))
                || (s.stopper == Flagged && s.published == Some(loop) && NobodyPublishes(s)))))
  }

  lemma StepKeepsCaught(s: Runner, t: Step, i: nat, loop: nat)
    requires Caught(s, i, loop) && Enabled(s, t) && t != StartFlag
    ensures Caught(Next(s, t), i, loop)
    ensures Next(s, t).workers[i].begins == s.workers[i].begins
  {
    if t == StopQuit && s.stopper == Got(Some(loop)) && s.workers[i].place == Running(loop) {
      assert s.workers[i] in s.workers;
      assert LoopRuns(s, loop);
    }
  }

  /** In every interleaving, once that `stop` has returned the worker has only the steps to its
      end before it, and it has not begun run_fn again. */
  lemma {:induction false} StopCatchesTheWorker(ts: seq<Step>, ss: seq<Runner>, i: nat, loop: nat)
    requires Trace(ts, ss) && NoStart(ts) && Caught(ss[0], i, loop)
    ensures var last := ss[|ts|];
            && Caught(last, i, loop) && last.workers[i].begins == ss[0].workers[i].begins
            && (last.stopper == Idle ==> Remaining(last, i).Some?)
  {
    if ts != [] {
      var n := |ts| - 1;
      assert Trace(ts[..n], ss[..n + 1]);
      StopCatchesTheWorker(ts[..n], ss[..n + 1], i, loop);
      StepKeepsCaught(ss[n], ts[n], i, loop);
    }
  }

  lemma StepTowardsEnd(s: Runner, t: Step, i: nat)
    requires Enabled(s, t) && t != StartFlag && s.stopping && i < |s.workers| && Remaining(s, i).Some?
    ensures var s1 := Next(s, t);
            && s1.stopping && i < |s1.workers| && Remaining(s1, i).Some?
            && Remaining(s1, i).value + OwnStep(t, i) == Remaining(s, i).value
            && s1.workers[i].begins == s.workers[i].begins
  {}

  /** From there it ends after exactly as many of its own steps as remain, with no further
      run_fn, whatever the other threads do; and until then its next step is always possible. */
  lemma {:induction false} EndsInBoundedSteps(ts: seq<Step>, ss: seq<Runner>, i: nat)
    requires Trace(ts, ss) && NoStart(ts) && ss[0].stopping && i < |ss[0].workers| && Remaining(ss[0], i).Some?
    ensures var last := ss[|ts|];
            && i < |last.workers| && Remaining(last, i).Some? && last.stopping
            && Remaining(last, i).value + OwnSteps(ts, i) == Remaining(ss[0], i).value
            && last.workers[i].begins == ss[0].workers[i].begins
            && (last.workers[i].place == Ended <==> OwnSteps(ts, i) == Remaining(ss[0], i).value)
            && (last.workers[i].place != Ended ==> forall ok :: Enabled(last, Work(i, ok)))
  {
    if ts == [] {
    } else {
      var n := |ts| - 1;
      assert Trace(ts[..n], ss[..n + 1]);
      EndsInBoundedSteps(ts[..n], ss[..n + 1], i);
      StepTowardsEnd(ss[n], ts[n], i);
    }
  }

  // ----- which stops end which workers -----

  /** Loop numbers mean what they should: each is new, belongs to one worker, and is told to quit only
      after it has begun to run. */
  ghost predicate Sound(s: Runner) {
    && (forall k :: k in s.quit ==> k < s.loops)
    && (forall j :: 0 <= j < |s.workers| && LoopOf(s.workers[j].place).Some? ==>
          LoopOf(s.workers[j].place).value < s.loops)
    && (forall i, j :: 0 <= i < j < |s.workers| && LoopOf(s.workers[i].place).Some? ==>
          LoopOf(s.workers[i].place) != LoopOf(s.workers[j].place))
    && (forall j :: 0 <= j < |s.workers| && s.workers[j].place.Published? ==> s.workers[j].place.loop !in s.quit)
  }

  function LoopOf(p: Place): Option<nat> {
    match p
    case Published(k) => Some(k)
    case Running(k) => Some(k)
    case _ => None
  }

  lemma QuitKeepsSound(s: Runner, k: nat)
    requires Sound(s)
    ensures Sound(Quit(s, k))
  {
    if LoopRuns(s, k) {
      var w :| w in s.workers && w.place == Running(k);
      var i :| 0 <= i < |s.workers| && s.workers[i] == w;
      assert LoopOf(s.workers[i].place) == Some(k);
      forall j | 0 <= j < |s.workers| && s.workers[j].place.Published? ensures s.workers[j].place.loop != k {
        assert LoopOf(s.workers[j].place) == Some(s.workers[j].place.loop);
        if j < i { assert LoopOf(s.workers[j].place) != LoopOf(s.workers[i].place); }
      }
    }
  }

  /** A worker moves on with the loop it has, or without one. */
  lemma MoveKeepsSound(s: Runner, i: nat, w: Worker)
    requires Sound(s) && i < |s.workers|
    requires LoopOf(w.place).None? || (LoopOf(w.place) == LoopOf(s.workers[i].place) && !w.place.Published?)
    ensures Sound(Moved(s, i, w))
  {}

  /** A worker publishes a new loop. */
  lemma PublishKeepsSound(s: Runner, i: nat, w: Worker)
    requires Sound(s) && i < |s.workers| && w.place == Published(s.loops)
    ensures Sound(Moved(s, i, w).(published := Some(s.loops), loops := s.loops + 1))
  {}

  lemma StepKeepsSound(s: Runner, t: Step)
    requires Sound(s) && Enabled(s, t)
    ensures Sound(Next(s, t))
  {
    match t
    case StopQuit => if s.stopper.loop.Some? { QuitKeepsSound(s, s.stopper.loop.value); }
    case SelfQuit(k) => QuitKeepsSound(s, k);
    case Work(i, ok) =>
      var w := Next(s, t).workers[i];
      if s.workers[i].place == Began && ok { PublishKeepsSound(s, i, w); } else { MoveKeepsSound(s, i, w); }
    case _ =>
  }

  /** From a runner without workers every interleaving stays sound, starts and stops included. */
  lemma {:induction false} ReachableIsSound(ts: seq<Step>, ss: seq<Runner>)
    requires Trace(ts, ss) && ss[0].workers == [] && ss[0].quit == {}
    ensures Sound(ss[|ts|])
  {
    if ts != [] {
      var n := |ts| - 1;
      assert Trace(ts[..n], ss[..n + 1]);
      ReachableIsSound(ts[..n], ss[..n + 1]);
      StepKeepsSound(ss[n], ts[n]);
    }
  }

  /** `stop` is about to quit the loop that it found, if any. */
  ghost predicate Quitting(s: Runner, found: Option<nat>) { s.stopping && s.stopper == Got(found) }

  /** The worker is past its last loop, or in the loop that `stop` found, or in one that was told
      to quit before. */
  predicate IsMet(s: Runner, i: nat, found: Option<nat>)
    requires i < |s.workers|
  {
    match s.workers[i].place
    case Check => true
    case Ended => true
    case Running(k) => k in s.quit || found == Some(k)
    case _ => false
  }

  /** The worker is in a loop that nobody has told to quit. */
  predicate IsStuck(s: Runner, i: nat) {
    i < |s.workers| && s.workers[i].place.Running? && s.workers[i].place.loop !in s.quit
  }

  /** After the quit a worker only has the steps to its end before it exactly if it is met. */
  lemma QuitCatchesIff(s: Runner, i: nat, found: Option<nat>)
    requires Quitting(s, found) && i < |s.workers|
    ensures Remaining(Next(s, StopQuit), i).Some? <==> IsMet(s, i, found)
  {
    assert s.workers[i] in s.workers;
    if s.workers[i].place.Running? { assert LoopRuns(s, s.workers[i].place.loop); }
  }

  /** A worker with no end in sight gets, by its own steps alone, into a loop that nobody has told to
      quit. */
  lemma GetsStuck(s: Runner, i: nat) returns (ts: seq<Step>, ss: seq<Runner>)
    requires Sound(s) && i < |s.workers| && Remaining(s, i).None?
    ensures Trace(ts, ss) && NoStart(ts) && ss[0] == s && IsStuck(ss[|ts|], i)
    ensures OwnSteps(ts, i) == |ts|
    decreases match s.workers[i].place case Enter => 3 case Began => 2 case Published(_) => 1 case _ => 0
  {
    if IsStuck(s, i) {
      ts, ss := [], [s];
    } else {
      var t := Work(i, true);
      StepKeepsSound(s, t);
      var ts1, ss1 := GetsStuck(Next(s, t), i);
      ts, ss := [t] + ts1, [s] + ss1;
      TraceCons(t, s, ts1, ss1);
      OwnStepsCons(t, ts1, i);
    }
  }

  lemma TraceCons(t: Step, s: Runner, ts: seq<Step>, ss: seq<Runner>)
    requires Trace(ts, ss) && Enabled(s, t) && ss[0] == Next(s, t)
    ensures Trace([t] + ts, [s] + ss)
  {
    var us, vs := [t] + ts, [s] + ss;
    forall i | 0 <= i < |us| ensures Enabled(vs[i], us[i]) && vs[i + 1] == Next(vs[i], us[i]) {
      if i > 0 { assert us[i] == ts[i - 1] && vs[i] == ss[i - 1] && vs[i + 1] == ss[i - 1 + 1]; }
    }
  }

  lemma {:induction false} OwnStepsCons(t: Step, ts: seq<Step>, i: nat)
    ensures OwnSteps([t] + ts, i) == OwnStep(t, i) + OwnSteps(ts, i)
  {
    if ts == [] {
      assert [t] + ts == [t] && [t][..0] == [];
    } else {
      var n := |ts| - 1;
      OwnStepsCons(t, ts[..n], i);
      assert ([t] + ts)[..|ts|] == [t] + ts[..n] && ([t] + ts)[|ts|] == ts[n];
    }
  }

  /** Nothing the other threads do without a `start` gets the worker stuck after the quit. */
  ghost predicate NeverStuck(s: Runner, i: nat) {
    forall ts, ss :: Trace(ts, ss) && NoStart(ts) && ss[0] == s ==> !IsStuck(ss[|ts|], i)
  }

  /** Exactly which workers a `stop` ends: whatever happens after it has quit the loop it found, with no
      later `start`, the worker never sits in a loop that nobody told to quit, if and only if it was
      met. Then it also ends in a bounded number of its own steps without another run_fn, as
      EndsInBoundedSteps says. */
  lemma StopEndsWorkerIff(s: Runner, i: nat, found: Option<nat>)
    requires Sound(s) && Quitting(s, found) && i < |s.workers|
    ensures NeverStuck(Next(s, StopQuit), i) <==> IsMet(s, i, found)
  {
    var s1 := Next(s, StopQuit);
    QuitCatchesIff(s, i, found);
    if IsMet(s, i, found) {
      forall ts, ss | Trace(ts, ss) && NoStart(ts) && ss[0] == s1 ensures !IsStuck(ss[|ts|], i) {
        EndsInBoundedSteps(ts, ss, i);
      }
    } else {
      StepKeepsSound(s, StopQuit);
      var ts, ss := GetsStuck(s1, i);
    }
  }

  /** Lost before publishing: the worker has passed the check and `stop` finds no loop; afterwards the
      worker publishes and runs one. */
  lemma StopBeforePublishingIsLost()
    ensures var s := Runner(true, None, 0, {}, [Worker(Enter, 0)], Got(None));
            Sound(s) && Quitting(s, None) && !NeverStuck(Next(s, StopQuit), 0)
  {
    var s := Runner(true, None, 0, {}, [Worker(Enter, 0)], Got(None));
    StopEndsWorkerIff(s, 0, None);
  }

  /** Lost to a later loop: two workers run their loops, `stop` finds the one published last, and the
      other worker is never told. */
  lemma StopFindsLaterLoop()
    ensures var s := Runner(true, Some(1), 2, {}, [Worker(Running(0), 1), Worker(Running(1), 1)], Flagged);
            var s1 := Next(s, StopGet);
            Sound(s) && Quitting(s1, Some(1)) && !NeverStuck(Next(s1, StopQuit), 0)
  {
    var s := Runner(true, Some(1), 2, {}, [Worker(Running(0), 1), Worker(Running(1), 1)], Flagged);
    StopEndsWorkerIff(Next(s, StopGet), 0, Some(1));
  }

  /** Lost before running: a `stop` between publishing and running finds the loop, but its quit has no
      effect. */
  lemma QuitBeforeRunIsLost()
    ensures var s := Runner(true, Some(0), 1, {}, [Worker(Published(0), 1)], Got(Some(0)));
            var s1 := Next(s, StopQuit);
            && s1.quit == {} && s1.stopping
            && Next(s1, Work(0, true)).workers[0].place == Running(0)
            && forall ok :: !Enabled(Next(s1, Work(0, true)), Work(0, ok))
  {
  }

  // ----- start after stop -----

  /** `start`: the flag, then the thread. */
  function Started(s: Runner): Runner { Next(Next(s, StartFlag), StartThread) }

  /** A `start` works whatever came before it, stops included: its worker begins run_fn, publishes a loop
      of its own and runs it, unless another `stop` sets the flag; and after every run of the loop it
      begins again. */
  lemma StartRunsTheService(s: Runner)
    ensures var i, s1 := |s.workers|, Started(s);
            && !s1.stopping && s1.workers == s.workers + [Worker(Check, 0)]
            && var s2 := Next(Next(s1, Work(i, true)), Work(i, true));
            && s2.workers[i] == Worker(Began, 1)
            && var s3 := Next(Next(s2, Work(i, true)), Work(i, true));
            && s3.workers[i].place == Running(s.loops) && s3.published == Some(s.loops)
  {}

  /** While the flag is clear, a worker at the check goes on, and one whose loop has ended comes back. */
  lemma KeepsRunning(s: Runner, i: nat, ok: bool)
    requires i < |s.workers| && !s.stopping && Enabled(s, Work(i, ok))
    ensures s.workers[i].place == Check ==> Next(s, Work(i, ok)).workers[i].place == Enter
    ensures s.workers[i].place.Running? ==> Next(s, Work(i, ok)).workers[i].place == Check
    ensures Next(s, Work(i, ok)).workers[i].place == Ended ==> s.workers[i].place == Began && !ok
  {}
}
