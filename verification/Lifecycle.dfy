/** tools/actions/container_manager.py with the lifecycle parts of tools/helpers/lxc.py and
    tools/services/hardware_manager.py: one service object over the mounts, the network, the
    LXC container and the sensor daemon. */
module Lifecycle {
  import opened Strings
  import opened MountTable
  import opened MountHost
  import opened Rootfs
  import opened Firewall
  import opened NetScript
  import NetRuns

  const DATA := "/var/lib/waydroid/data"

  datatype Lxc = STOPPED | STARTING | RUNNING | FREEZING | FROZEN | STOPPING | ABORTING

  datatype Command = KILL | START | FREEZE | UNFREEZE

  /** `pid` is None if session["pid"] is no pid that os.kill accepts: missing, not a number, or outside
      the range of pids. */
  datatype Session = Session(userId: string, pid: Option<int>, waydroidData: string)

  /** `Raised`: an exception leaves the operation. */
  datatype Result = Ok | Raised {
    predicate IsFailure() { Raised? }
    function PropagateFailure(): (r: Result)
      requires IsFailure()
    { this }
  }

  /** Everything the service keeps in step; `signals` are the SIGUSR1 sent, by pid. */
  datatype World = World(session: Option<Session>, lxc: Lxc, net: NetState, sensors: nat, table: Table,
                         signals: seq<int>)

  /** The mounts that are none of the service's business. */
  function ForeignMounts(t: Table): Table { Outside(Outside(t, ROOTFS), DATA) }

  /** Foreign mounts are as before, and a rooted table stays rooted. */
  ghost predicate Kept(t: Table, t1: Table) {
    && ForeignMounts(t1) == ForeignMounts(t)
    && (Rooted(t, ROOTFS) ==> Rooted(t1, ROOTFS))
    && (NoSiblings(t, ROOTFS) ==> NoSiblings(t1, ROOTFS))
  }

  lemma KeptTwice(t: Table, t1: Table, t2: Table)
    requires Kept(t, t1) && Kept(t1, t2)
    ensures Kept(t, t2)
  {}

  ghost predicate RootfsMounted(t: Table) {
    exists e :: e in t && e.mountpoint == ROOTFS
  }

  /** The data folder bound for configs that predate config_session. */
  function WithData(m: Host, bind: bool, source: string, t: Table): Table {
    if bind then m.Bound(t, source, DATA) else t
  }

  /** The whole stack of an undisturbed mount_rootfs. */
  ghost predicate Booted(m: Host, d: HostDirs, t: Table, t1: Table) {
    exists overlays :: t1 == CleanRun(m, d, Cleared(t, ROOTFS), overlays)
  }

  ghost predicate RootfsGone(t: Table) {
    Outside(t, ROOTFS) == t && forall e :: e in t ==> !(ROOTFS <= e.mountpoint)
  }

  // ----- what an operation can do to the world -----

  /** What does not change while the service runs: the host and its optional folders, the network's
      environment, whether the sensor daemon is installed, whether the LXC config predates
      config_session. */
  datatype Config = Config(host: Host, dirs: HostDirs, env: Env, sensord: bool, oldConfig: bool)

  /** All steps of a start are done. */
  ghost predicate AllUp(c: Config, source: string, w: World, w1: World) {
    && w1.net.up && w1.lxc == RUNNING && RootfsMounted(w1.table)
    && Booted(c.host, c.dirs, WithData(c.host, c.oldConfig, source, w.table), w1.table)
    && (c.sensord ==> w1.sensors == w.sensors + 1)
  }

  /** The steps of a start, leaving the session aside: without a network nothing else is touched,
      and when they are all done everything is up. */
  ghost predicate Launched(c: Config, source: string, w: World, w1: World, x: Option<Exit>, r: Result) {
    && w1.session == w.session && w1.signals == w.signals
    && (w1.sensors == w.sensors || (c.sensord && w1.sensors == w.sensors + 1))
    && Kept(w.table, w1.table)
    && (match x case None => w1.net == w.net case Some(exit) => StartRun(c.env, w.net, w1.net, exit))
    && (x != Some(Zero) ==> w1 == w.(net := w1.net) && r.Raised?)
    && (r.Ok? ==> AllUp(c, source, w, w1))
  }

  /** A start refuses while a session is tracked, and tracks the new one once all steps are done. */
  ghost predicate StartRel(c: Config, session: Session, w: World, w1: World, x: Option<Exit>, r: Result) {
    if w.session.Some? then w1 == w && r.Raised? && x.None?
    else
      && Launched(c, session.waydroidData, w, w1.(session := w.session), x, r)
      && w1.session == if r.Ok? then Some(session) else w.session
  }

  /** Either nothing is done at all, or the network is stopped, and the session goes exactly if nothing
      is left under rootfs, `ismount` is not fooled, and with `quit` there is a process to signal; it
      is signalled then, once. */
  ghost predicate StopRel(c: Config, quit: bool, w: World, w1: World, x: Option<Exit>) {
    match x
    case None => w1 == w
    case Some(exit) =>
      && StopRun(c.env, w.net, w1.net, exit)
      && Kept(w.table, w1.table)
      && (!c.sensord ==> w1.sensors == w.sensors)
      && w1.session == (if Ends(quit, w.session, w.table, w1.table) then None else w.session)
      && w1.signals == w.signals + (if quit && w.session.Some? && w1.session.None?
                                    then [w.session.value.pid.value] else [])
  }

  /** The session is at its end, given what was and what is left mounted. */
  ghost predicate Ends(quit: bool, session: Option<Session>, t: Table, left: Table) {
    session.Some? && RootfsGone(left) && !Fooled(t, ROOTFS) && (quit ==> session.value.pid.Some?)
  }

  /** What a `stop` none of whose commands fails adds to that. `attached` says whether interfaces
      are attached to the bridge. */
  ghost predicate CleanStop(c: Config, attached: bool, quit: bool, w: World, w1: World, x: Option<Exit>) {
    w1.lxc == STOPPED && CleanedUp(c, attached, quit, w, w1, x)
  }

  /** ... leaving the container aside. */
  ghost predicate CleanedUp(c: Config, attached: bool, quit: bool, w: World, w1: World, x: Option<Exit>) {
    && x.Some? && !x.value.Killed? && !w1.net.up
    && (w.net.up ==> w1.net.bridge == (w.net.bridge && attached))
    && (c.sensord ==> w1.sensors == 0)
    && RootfsGone(w1.table)
    && w1.table == LeftMounted(w.table)
    && (w1.session.None? <==> w.session.None? || (!Fooled(w.table, ROOTFS) && (quit ==> w.session.value.pid.Some?)))
  }

  /** What unmounting leaves when no command fails. */
  ghost function LeftMounted(t: Table): Table {
    if Fooled(t, ROOTFS) then Outside(t, ROOTFS) else ForeignMounts(t)
  }

  /** What was said about a world but for its container holds whatever the container does. */
  lemma WhateverTheContainer(c: Config, attached: bool, quit: bool, w: World, w1: World, x: Option<Exit>, l: Lxc)
    ensures x.Some? && StopRel(c, quit, w.(lxc := l), w1, x) ==> StopRel(c, quit, w, w1, x)
    ensures CleanedUp(c, attached, quit, w.(lxc := l), w1, x) ==> CleanedUp(c, attached, quit, w, w1, x)
  {}

  lemma StartRefused(c: Config, session: Session, w: World)
    ensures StartRel(c, session, w, w, None, Raised)
  {}

  lemma StartFromLaunch(c: Config, session: Session, w: World, m: World, x: Option<Exit>, r: Result)
    requires w.session.None? && Launched(c, session.waydroidData, w, m, x, r)
    ensures StartRel(c, session, w, if r.Ok? then m.(session := Some(session)) else m, x, r)
  {
    assert m.(session := Some(session)).(session := w.session) == m == m.(session := w.session);
  }

  class ContainerManager {
    const images: ImagesHelper
    const net: Net
    const env: Env
    /** Whether the sensor daemon is installed, and whether the LXC config predates config_session. */
    const sensord: bool
    const oldConfig: bool
    var initialized: bool
    var session: Option<Session>
    var lxc: Lxc
    var sensors: nat
    var signals: seq<int>
    var prepared: bool
    var hardware: bool
    /** How many of the service's own commands have failed so far. */
    var faults: nat
    /** What LXC has been told to do so far. */
    var commands: seq<Command>
    /** How often the images have been replaced, and the seconds spent waiting. */
    var replaced: nat
    var clock: nat

    constructor (images: ImagesHelper, net: Net, env: Env, sensord: bool, oldConfig: bool, initialized: bool)
      ensures this.images == images && this.net == net && session.None?
      ensures fresh(this)
    {
      this.images, this.net, this.env, this.sensord, this.oldConfig := images, net, env, sensord, oldConfig;
      this.initialized, session, lxc, sensors, signals := initialized, None, STOPPED, 0, [];
      prepared, hardware, faults, commands, replaced, clock := false, false, 0, [], 0, 0;
    }

    function Snapshot(): World
      reads this, images.host, net
    {
      World(session, lxc, net.State(), sensors, images.host.table, signals)
    }

    function Cfg(): Config {
      Config(images.host, images.dirs, env, sensord, oldConfig)
    }

    /** All failures so far, those of mount commands and of the network script included. */
    function Faults(): nat
      reads this, images.host, net
    {
      faults + images.host.failures + net.failures
    }

    // ----- commands -----

    /** A command that touches nothing modelled here. */
    method Run(command: string) returns (r: Result)
      modifies this`faults
      ensures faults >= old(faults) && (r.Raised? ==> faults > old(faults))
    {
      if * { r := Ok; } else { faults := faults + 1; r := Raised; }
    }

    /** lxc-info; when it fails the container is taken for stopped. */
    method Status() returns (s: Lxc)
      modifies this`faults
      ensures faults >= old(faults) && (s == lxc || (s == STOPPED && faults > old(faults)))
    {
      if * { s := lxc; } else { faults := faults + 1; s := STOPPED; }
    }

    /** Time passes: a container that is starting, stopping or freezing may get there, and one that runs
        may stop by itself. */
    method Sleep()
      modifies this`lxc, this`clock
      ensures old(lxc) == STOPPED ==> lxc == STOPPED
      ensures clock == old(clock) + 1
    {
      clock := clock + 1;
      if * {
        match lxc
        case STOPPING => lxc := STOPPED;
        case STARTING => if * { lxc := RUNNING; } else { lxc := ABORTING; }
        case RUNNING => if * { lxc := STOPPING; } else { lxc := ABORTING; }
        case ABORTING => lxc := STOPPED;
        case FREEZING => lxc := FROZEN;
        case _ =>
      }
    }

    /** A command that makes LXC do something. */
    method Tell(command: Command) returns (r: Result)
      modifies this`faults, this`commands
      ensures faults >= old(faults) && (r.Raised? ==> faults > old(faults))
      ensures commands == old(commands) + if r.Ok? then [command] else []
    {
      r := Run("lxc");
      if r.Ok? { commands := commands + [command]; }
    }

    method LxcStop() returns (r: Result)
      modifies this`faults, this`lxc, this`commands
      ensures faults >= old(faults) && (r.Raised? ==> faults > old(faults) && lxc == old(lxc))
      ensures r.Ok? ==> lxc == STOPPED || lxc == STOPPING
      ensures commands == old(commands) + if r.Ok? then [KILL] else []
    {
      r := Tell(KILL);
      if r.Ok? { if * { lxc := STOPPED; } else { lxc := STOPPING; } }
    }

    /** lxc-start in the background, then wait_for_running. */
    method LxcStart() returns (r: Result)
      modifies this`faults, this`lxc, this`commands, this`clock
      ensures faults >= old(faults) && (r.Ok? ==> lxc == RUNNING) && (r.Raised? ==> faults > old(faults))
      ensures commands == old(commands) + [START]
      ensures clock <= old(clock) + 10 && (r.Raised? ==> clock == old(clock) + 10)
    {
      commands := commands + [START];
      if * { lxc := STARTING; } else if * { lxc := RUNNING; } else { lxc := ABORTING; }
      var status := Status();
      var timeout := 10;
      while status != RUNNING && timeout > 0
        invariant faults >= old(faults) && (status == RUNNING ==> lxc == RUNNING)
        invariant clock + timeout == old(clock) + 10 && commands == old(commands) + [START]
        decreases timeout
      {
        status := Status();
        timeout := timeout - 1;
        // a container seen running is taken to run until the end of this second
        if status != RUNNING { Sleep(); } else { clock := clock + 1; }
      }
      if status != RUNNING { faults := faults + 1; return Raised; }
      return Ok;
    }

    method WaitForStatus(status: Lxc, timeout: nat := 30) returns (r: Result)
      modifies this`faults, this`lxc, this`clock
      ensures faults >= old(faults)
      ensures r.Ok? && faults == old(faults) ==> lxc == status
      ensures r.Raised? ==> faults > old(faults) && clock == old(clock) + timeout
      ensures old(clock) <= clock <= old(clock) + timeout
      ensures old(lxc) == STOPPED ==> lxc == STOPPED
    {
      var tries := 0;
      var now := Status();
      while now != status
        invariant faults >= old(faults) && tries <= timeout && clock == old(clock) + tries
        invariant faults == old(faults) ==> now == lxc
        invariant old(lxc) == STOPPED ==> lxc == STOPPED
        decreases timeout - tries
      {
        if tries >= timeout { faults := faults + 1; return Raised; }
        tries := tries + 1;
        Sleep();
        now := Status();
      }
      return Ok;
    }

    /** A failing network script raises here ... */
    method StartNetworking() returns (r: Result, ghost x: Exit)
      modifies net
      ensures StartRun(env, old(net.State()), net.State(), x)
      ensures net.failures >= old(net.failures)
      ensures (r.Ok? <==> x.Zero?) && (r.Raised? ==> net.failures > old(net.failures))
    {
      var exit := net.Start(env);
      x := exit;
      r := if exit.Zero? then Ok else Raised;
    }

    /** ... and is ignored here. */
    method StopNetworking() returns (ghost x: Exit)
      modifies net
      ensures StopRun(env, old(net.State()), net.State(), x)
      ensures net.failures >= old(net.failures) && (net.failures == old(net.failures) ==> !x.Killed? && !net.networkUp)
      ensures net.failures == old(net.failures) && old(net.networkUp) ==>
                x.Zero? && net.bridge == (old(net.bridge) && old(net.attached))
    {
      var exit := net.Stop(env);
      x := exit;
    }

    method StartSensors()
      modifies this`sensors
      ensures sensors == old(sensors) + if sensord then 1 else 0
    {
      if sensord { sensors := sensors + 1; }
    }

    /** pidof lists every instance, and all of them are killed. */
    method StopSensors()
      modifies this`sensors, this`faults
      ensures faults >= old(faults) && (faults == old(faults) && sensord ==> sensors == 0)
      ensures !sensord ==> sensors == old(sensors)
    {
      if sensord {
        var pidof := Run("pidof waydroid-sensord");
        var pids := if pidof.Ok? then sensors else 0;
        if pids > 0 {
          var killed := Run("kill -9");
          if killed.Ok? { sensors := 0; }
        }
      }
    }

    // ----- do_start -----

    method PrepareDrivers() returns (r: Result)
      modifies this`prepared, this`faults
      ensures faults >= old(faults) && (r.Raised? ==> faults > old(faults)) && (r.Ok? ==> prepared)
      ensures old(prepared) ==> r.Ok? && faults == old(faults)
    {
      if prepared { return Ok; }
      r := Run("prepare_drivers");
      if r.Ok? { prepared := true; }
    }

    /** Nothing can go wrong but a command, or `ismount` being fooled while rootfs is cleared. */
    ghost predicate Clears(source: string, t: Table) {
      var t1 := WithData(images.host, oldConfig, source, t);
      !(IsMounted(t1, ROOTFS) && Fooled(t1, ROOTFS))
    }

    /** The steps of do_start after the network is up. */
    method BootContainer(source: string) returns (r: Result)
      modifies this`sensors, this`faults, this`lxc, this`commands, this`clock, images, images.host
      ensures r.Ok? ==> commands == old(commands) + [START]
      ensures commands == old(commands) || commands == old(commands) + [START]
      ensures Kept(old(images.host.table), images.host.table)
      ensures sensors == old(sensors) + if sensord then 1 else 0
      ensures r.Ok? ==> lxc == RUNNING && RootfsMounted(images.host.table)
      ensures r.Ok? ==>
                Booted(images.host, images.dirs, WithData(images.host, oldConfig, source, old(images.host.table)),
                       images.host.table)
      ensures faults >= old(faults) && images.host.failures >= old(images.host.failures)
      ensures faults == old(faults) && images.host.failures == old(images.host.failures) ==>
                (r.Ok? <==> Clears(source, old(images.host.table)))
    {
      StartSensors();
      r := PrepareSession();
      if r.Raised? { return; }
      r := MountAll(source);
      if r.Raised? { return; }
      r := Run("set_aidl_version");
      if r.Raised? { return; }
      r := LxcStart();
    }

    /** cgroup-lite, schedtune, permissions and the session's LXC config; only the last may raise. */
    method PrepareSession() returns (r: Result)
      modifies this`faults
      ensures faults >= old(faults) && (r.Raised? ==> faults > old(faults))
    {
      var ignored := Run("start cgroup-lite");
      ignored := Run("umount -l schedtune");
      ignored := Run("chown, chmod");
      r := Run("mv config_session");
    }

    method DoStart(newSession: Session) returns (r: Result, ghost x: Option<Exit>)
      modifies this, images, images.host, net
      ensures StartRel(Cfg(), newSession, old(Snapshot()), Snapshot(), x, r)
      ensures initialized == old(initialized) && (r.Ok? ==> prepared && hardware)
      ensures r.Ok? ==> commands == old(commands) + [START]
      ensures Faults() == old(Faults()) ==>
                (r.Ok? <==>
                  initialized && old(session).None? && Clears(newSession.waydroidData, old(images.host.table)))
    {
      ghost var w := Snapshot();
      StartRefused(Cfg(), newSession, w);
      if !initialized { return Raised, None; }
      if session.Some? { return Raised, None; }
      r, x := Launch(newSession.waydroidData);
      ghost var m := Snapshot();
      StartFromLaunch(Cfg(), newSession, w, m, x, r);
      if r.Ok? {
        hardware := true;
        session := Some(newSession);
        assert Snapshot() == m.(session := Some(newSession));
      }
    }

    method Launch(source: string) returns (r: Result, ghost x: Option<Exit>)
      modifies this`prepared, this`sensors, this`faults, this`lxc, this`commands, this`clock, images, images.host, net
      ensures commands == old(commands) || commands == old(commands) + [START]
      ensures r.Ok? ==> commands == old(commands) + [START]
      ensures Launched(Cfg(), source, old(Snapshot()), Snapshot(), x, r)
      ensures r.Ok? ==> prepared
      ensures Faults() >= old(Faults())
      ensures Faults() == old(Faults()) ==> (r.Ok? <==> Clears(source, old(images.host.table)))
    {
      x := None;
      r := PrepareDrivers();
      if r.Raised? { return; }
      ghost var exit;
      r, exit := StartNetworking();
      x := Some(exit);
      if r.Raised? { return; }
      r := BootContainer(source);
    }

    /** The data bind of old configs, then mount_rootfs. */
    method MountAll(source: string) returns (r: Result)
      modifies images, images.host
      ensures Kept(old(images.host.table), images.host.table)
      ensures r.Ok? ==> RootfsMounted(images.host.table)
      ensures r.Ok? ==>
                Booted(images.host, images.dirs, WithData(images.host, oldConfig, source, old(images.host.table)),
                       images.host.table)
      ensures images.host.failures >= old(images.host.failures)
      ensures images.host.failures == old(images.host.failures) ==>
                images.mountOverlays == old(images.mountOverlays) && (r.Ok? <==> Clears(source, old(images.host.table)))
    {
      ghost var t0 := images.host.table;
      if oldConfig {
        BindKeepsForeign(images.host, source, t0);
        var bound := images.host.Bind(source, DATA);
        if bound.IsFailure() { return Raised; }
      }
      ghost var t1 := images.host.table;
      var mounted := images.MountRootfs();
      AttemptKeepsForeign(images.host, images.dirs, t1, images.host.table);
      if mounted.Done? {
        CleanRunMountsRootfs(images.host, images.dirs, Cleared(t1, ROOTFS), images.mountOverlays);
      }
      r := if mounted.IsFailure() then Raised else Ok;
    }

    // ----- stop -----

    /** umount_rootfs, then the data bind with any exception dropped. */
    method UmountAll() returns (r: Result)
      modifies images.host
      ensures images.host.failures >= old(images.host.failures) && Kept(old(images.host.table), images.host.table)
      ensures r.Ok? <==> RootfsGone(images.host.table) && !Fooled(old(images.host.table), ROOTFS)
      ensures images.host.failures == old(images.host.failures) ==>
                RootfsGone(images.host.table) && images.host.table == LeftMounted(old(images.host.table))
    {
      ghost var t0 := images.host.table;
      var unmounted := images.UmountRootfs();
      ghost var t1 := images.host.table;
      UmountRootfsEffect(t0, t1, unmounted);
      MatchingMembers(t1, ROOTFS);
      if unmounted.IsFailure() { return Raised; }
      var data := images.host.UmountAll(DATA);
      UmountDataEffect(t1, images.host.table, data);
      r := Ok;
    }

    method Stop(quitSession: bool := true) returns (r: Result, ghost x: Option<Exit>)
      modifies this, images.host, net
      ensures r.Raised? <==> !old(initialized)
      ensures r.Raised? ==> Snapshot() == old(Snapshot()) && Faults() == old(Faults())
      ensures StopRel(Cfg(), quitSession, old(Snapshot()), Snapshot(), x)
      ensures Faults() >= old(Faults()) && initialized == old(initialized) && (r.Ok? ==> !hardware)
      ensures r.Ok? && x.None? ==> faults > old(faults) && old(lxc) != STOPPED
      ensures x.Some? && images.host.failures == old(images.host.failures) ==>
                images.host.table == LeftMounted(old(images.host.table))
      ensures r.Ok? && Faults() == old(Faults()) ==>
                CleanStop(Cfg(), old(net.attached), quitSession, old(Snapshot()), Snapshot(), x)
    {
      if !initialized { return Raised, None; }
      // any exception in here is logged and dropped
      var dropped;
      dropped, x := TearDown(quitSession);
      r := Ok;
    }

    /** Only a failing lxc-stop, which changes nothing, keeps it from going on. */
    method TearDown(quitSession: bool) returns (r: Result, ghost x: Option<Exit>)
      modifies this, images.host, net
      ensures StopRel(Cfg(), quitSession, old(Snapshot()), Snapshot(), x)
      ensures Faults() >= old(Faults()) && initialized == old(initialized) && !hardware
      ensures x.None? ==> faults > old(faults) && old(lxc) != STOPPED
      ensures x.Some? && images.host.failures == old(images.host.failures) ==>
                images.host.table == LeftMounted(old(images.host.table))
      ensures Faults() == old(Faults()) ==>
                CleanStop(Cfg(), old(net.attached), quitSession, old(Snapshot()), Snapshot(), x)
    {
      x := None;
      ghost var w := Snapshot();
      hardware := false;
      r := StopContainer();
      assert Snapshot() == w.(lxc := lxc);
      ghost var l := lxc;
      if r.Ok? {
        r, x := CleanUp(quitSession);
        WhateverTheContainer(Cfg(), old(net.attached), quitSession, w, Snapshot(), x, l);
      }
    }

    /** Everything after the container: network, sensors, mounts, session. No failure of one keeps the
        others from being done. */
    method CleanUp(quitSession: bool) returns (r: Result, ghost x: Option<Exit>)
      modifies this`session, this`sensors, this`signals, this`faults, images.host, net
      ensures StopRel(Cfg(), quitSession, old(Snapshot()), Snapshot(), x) && x.Some?
      ensures faults >= old(faults) && net.failures >= old(net.failures)
              && images.host.failures >= old(images.host.failures)
      ensures faults == old(faults) && sensord ==> sensors == 0
      ensures net.failures == old(net.failures) ==> !net.networkUp
      ensures images.host.failures == old(images.host.failures) ==>
                images.host.table == LeftMounted(old(images.host.table))
      ensures Faults() == old(Faults()) ==>
                CleanedUp(Cfg(), old(net.attached), quitSession, old(Snapshot()), Snapshot(), x)
    {
      ghost var exit := StopNetworking();
      x := Some(exit);
      StopSensors();
      r := UmountAndEnd(quitSession);
    }

    method UmountAndEnd(quitSession: bool) returns (r: Result)
      modifies this`session, this`signals, images.host
      ensures Kept(old(images.host.table), images.host.table)
      ensures session == (if Ends(quitSession, old(session), old(images.host.table), images.host.table) then None
                          else old(session))
      ensures signals == old(signals) + (if quitSession && old(session).Some? && session.None?
                                         then [old(session).value.pid.value] else [])
      ensures images.host.failures >= old(images.host.failures)
      ensures images.host.failures == old(images.host.failures) ==>
                RootfsGone(images.host.table) && images.host.table == LeftMounted(old(images.host.table))
    {
      r := UmountAll();
      if r.Ok? { r := EndSession(quitSession); }
    }

    method StopContainer() returns (r: Result)
      modifies this`lxc, this`faults, this`commands, this`clock
      ensures faults >= old(faults)
      ensures r.Raised? ==> faults > old(faults) && lxc == old(lxc) && lxc != STOPPED && commands == old(commands)
      ensures faults == old(faults) ==> lxc == STOPPED
      ensures faults == old(faults) ==> commands == old(commands) + if old(lxc) == STOPPED then [] else [KILL]
    {
      var status := Status();
      if status != STOPPED {
        r := LxcStop();
        if r.Raised? { return; }
        // a timeout is logged, and the clean-up goes on
        var waited := WaitForStatus(STOPPED);
      }
      r := Ok;
    }

    method EndSession(quitSession: bool) returns (r: Result)
      modifies this`session, this`signals
      ensures r.Ok? <==> old(session).None? || !quitSession || old(session).value.pid.Some?
      ensures if r.Raised? || old(session).None? then session == old(session) && signals == old(signals)
              else session.None? && signals == old(signals) + if quitSession then [old(session).value.pid.value] else []
    {
      if session.Some? {
        if quitSession {
          if session.value.pid.None? { return Raised; }
          signals := signals + [session.value.pid.value];
        }
        session := None;
      }
      r := Ok;
    }

    // ----- D-Bus entry points -----

    /** Start: root, or the session's own user calling from the session's own process. */
    method StartCall(uid: string, pid: int, newSession: Session) returns (r: Result, ghost x: Option<Exit>)
      modifies this, images, images.host, net
      ensures StartRel(Cfg(), newSession, old(Snapshot()), Snapshot(), x, r)
      ensures Faults() == old(Faults()) && (uid == "0" || (uid == newSession.userId && newSession.pid == Some(pid))) ==>
                (r.Ok? <==>
                  initialized && old(session).None? && Clears(newSession.waydroidData, old(images.host.table)))
      ensures uid != "0" && (uid != newSession.userId || newSession.pid != Some(pid)) ==>
                r.Raised? && Snapshot() == old(Snapshot())
      ensures uid != "0" && r.Ok? ==> session == Some(newSession) && newSession.pid == Some(pid)
    {
      if uid != "0" && uid != newSession.userId { return Raised, None; }
      if uid != "0" && newSession.pid != Some(pid) { return Raised, None; }
      r, x := DoStart(newSession);
    }

    /** Only root and the owner of the tracked session. */
    predicate Authorised(uid: string)
      reads this
    {
      uid == "0" || (session.Some? && uid == session.value.userId)
    }

    method StopCall(uid: string, quitSession: bool) returns (r: Result, ghost x: Option<Exit>)
      modifies this, images.host, net
      ensures StopRel(Cfg(), quitSession, old(Snapshot()), Snapshot(), x)
      ensures uid != "0" && (old(session).None? || old(session).value.userId != uid) ==>
                r.Raised? && Snapshot() == old(Snapshot()) && Faults() == old(Faults())
      ensures uid == "0" || (old(session).Some? && old(session).value.userId == uid) ==>
                (r.Raised? <==> !old(initialized))
      ensures r.Ok? && Faults() == old(Faults()) ==>
                CleanStop(Cfg(), old(net.attached), quitSession, old(Snapshot()), Snapshot(), x)
    {
      if !Authorised(uid) { return Raised, None; }
      r, x := Stop(quitSession);
    }

    // ----- transitions that leave the session alone -----

    method Freeze() returns (r: Result)
      modifies this`lxc, this`faults, this`commands, this`clock
      ensures faults >= old(faults) && (r.Raised? ==> faults > old(faults))
      ensures old(lxc) == RUNNING && r.Ok? && faults == old(faults) ==>
                lxc == FROZEN && commands == old(commands) + [FREEZE]
      ensures old(lxc) != RUNNING && r.Ok? && faults == old(faults) ==>
                lxc == old(lxc) && commands == old(commands)
    {
      var status := Status();
      if status == RUNNING {
        r := Tell(FREEZE);
        if r.Raised? { return; }
        lxc := FREEZING;
        r := WaitForStatus(FROZEN);
      } else {
        r := Ok;
      }
    }

    method Unfreeze() returns (r: Result)
      modifies this`lxc, this`faults, this`commands, this`clock
      ensures faults >= old(faults) && (r.Raised? ==> faults > old(faults))
      ensures old(lxc) == FROZEN && r.Ok? && faults == old(faults) ==>
                lxc == RUNNING && commands == old(commands) + [UNFREEZE]
      ensures old(lxc) != FROZEN && r.Ok? && faults == old(faults) ==>
                lxc == old(lxc) && commands == old(commands)
    {
      var status := Status();
      if status == FROZEN {
        r := Tell(UNFREEZE);
        if r.Raised? { return; }
        lxc := STARTING;
        r := WaitForStatus(RUNNING);
      } else {
        r := Ok;
      }
    }

    method Reboot() returns (r: Result)
      modifies this`lxc, this`faults, this`commands, this`clock
      ensures faults >= old(faults) && (r.Ok? ==> lxc == RUNNING) && (r.Raised? ==> faults > old(faults))
      ensures r.Ok? ==> commands == old(commands) + [KILL, START]
    {
      r := LxcStop();
      if r.Raised? { return; }
      r := LxcStart();
    }

    /** `images.replace`, while nothing is mounted under rootfs. */
    method ReplaceImages() returns (r: Result)
      requires RootfsGone(images.host.table)
      modifies this`faults, this`replaced
      ensures faults >= old(faults) && (r.Raised? ==> faults > old(faults))
      ensures replaced == old(replaced) + if r.Ok? then 1 else 0
    {
      r := Run("replace the images");
      if r.Ok? { replaced := replaced + 1; }
    }

    method Upgrade() returns (r: Result)
      modifies this`lxc, this`faults, this`commands, this`clock, this`replaced, images, images.host
      ensures r.Ok? ==> replaced == old(replaced) + 1 && commands == old(commands) + [KILL] + [START]
      ensures Kept(old(images.host.table), images.host.table)
      ensures r.Ok? ==> session.Some? && lxc == RUNNING && RootfsMounted(images.host.table)
      ensures r.Ok? ==> Booted(images.host, images.dirs, Outside(old(images.host.table), ROOTFS), images.host.table)
      ensures faults == old(faults) && images.host.failures == old(images.host.failures) ==>
                (r.Ok? <==> session.Some? && !Fooled(old(images.host.table), ROOTFS))
    {
      r := TakeRootfsDown();
      if r.Raised? { return; }
      ghost var t := images.host.table;
      r := ReplaceImages();
      if r.Raised? { return; }
      // writing to the session raises if there is none
      if session.None? { return Raised; }
      r := BootAgain();
      KeptTwice(old(images.host.table), t, images.host.table);
    }

    /** The first half of upgrade. */
    method TakeRootfsDown() returns (r: Result)
      modifies this`lxc, this`faults, this`commands, images.host
      ensures Kept(old(images.host.table), images.host.table)
      ensures r.Ok? ==> RootfsGone(images.host.table) && images.host.table == Outside(old(images.host.table), ROOTFS)
      ensures r.Ok? ==> commands == old(commands) + [KILL]
      ensures faults >= old(faults) && images.host.failures >= old(images.host.failures)
      ensures faults == old(faults) && images.host.failures == old(images.host.failures) ==>
                (r.Ok? <==> !Fooled(old(images.host.table), ROOTFS))
    {
      r := LxcStop();
      if r.Raised? { return; }
      ghost var t0 := images.host.table;
      var unmounted := images.UmountRootfs();
      UmountRootfsEffect(t0, images.host.table, unmounted);
      r := if unmounted.IsFailure() then Raised else Ok;
    }

    /** The second half of upgrade, when nothing is mounted under rootfs. */
    method BootAgain() returns (r: Result)
      requires RootfsGone(images.host.table)
      modifies this`lxc, this`faults, this`commands, this`clock, images, images.host
      ensures r.Ok? ==> commands == old(commands) + [START]
      ensures Kept(old(images.host.table), images.host.table)
      ensures r.Ok? ==> lxc == RUNNING && RootfsMounted(images.host.table)
      ensures r.Ok? ==> Booted(images.host, images.dirs, old(images.host.table), images.host.table)
      ensures faults >= old(faults) && images.host.failures >= old(images.host.failures)
      ensures faults == old(faults) && images.host.failures == old(images.host.failures) ==> r.Ok?
    {
      ghost var t := images.host.table;
      MatchingMembers(t, ROOTFS);
      var mounted := images.MountRootfs();
      AttemptKeepsForeign(images.host, images.dirs, t, images.host.table);
      if mounted.IsFailure() { return Raised; }
      CleanRunMountsRootfs(images.host, images.dirs, Cleared(t, ROOTFS), images.mountOverlays);
      r := Run("set_aidl_version");
      if r.Raised? { return; }
      r := LxcStart();
    }

    /** Android asks for shutdown or reboot; after 30 polls the request is dropped. */
    method ShutdownRequest(isReboot: bool) returns (r: Result, ghost x: Option<Exit>)
      modifies this, images.host, net
      ensures isReboot ==> x == None && Snapshot() == old(Snapshot()).(lxc := lxc)
      ensures !isReboot ==>
                exists l :: ShutDown(old(Snapshot()).(lxc := l), Snapshot(), x, old(net.attached),
                                     Faults() == old(Faults()) && r.Ok?)
      ensures initialized == old(initialized)
      ensures Faults() == old(Faults()) && r.Raised? ==> !isReboot && !initialized
      ensures Faults() == old(Faults()) && isReboot ==>
                (lxc == RUNNING && commands == old(commands) + [START])
                || (lxc != STOPPED && commands == old(commands) && clock == old(clock) + 30)
      ensures Faults() == old(Faults()) && isReboot && old(lxc) == STOPPED ==> lxc == RUNNING
      ensures Faults() == old(Faults()) && !isReboot && initialized && old(lxc) == STOPPED ==>
                CleanStop(Cfg(), old(net.attached), true, old(Snapshot()), Snapshot(), x)
      ensures Faults() == old(Faults()) && !isReboot && initialized && x.None? ==>
                lxc != STOPPED && clock == old(clock) + 30
    {
      x := None;
      ghost var w0, f0, a0 := Snapshot(), Faults(), net.attached;
      var tries := 0;
      var status := Status();
      while status != STOPPED
        invariant tries <= 30 && Snapshot() == w0.(lxc := lxc)
        invariant Faults() >= f0 && (Faults() == f0 ==> status == lxc) && net.attached == a0
        invariant initialized == old(initialized) && commands == old(commands) && clock == old(clock) + tries
        invariant old(lxc) == STOPPED ==> lxc == STOPPED
        decreases 30 - tries
      {
        if tries >= 30 {
          assert ShutDown(w0.(lxc := lxc), Snapshot(), x, a0, Faults() == f0);
          return Ok, x;
        }
        Sleep();
        tries := tries + 1;
        status := Status();
      }
      if isReboot {
        r := LxcStart();
      } else {
        ghost var l := lxc;
        r, x := Stop();
        assert ShutDown(w0.(lxc := l), Snapshot(), x, a0, Faults() == f0 && r.Ok?);
      }
    }

    /** A full stop, or giving up on a container that is not stopped. */
    ghost predicate ShutDown(w: World, w1: World, x: Option<Exit>, attached: bool, clean: bool) {
      && StopRel(Cfg(), true, w, w1, x)
      && (clean ==> CleanStop(Cfg(), attached, true, w, w1, x) || (w1 == w && w.lxc != STOPPED))
    }
  }

  // ----- every run, then a clean stop -----

  /** One transition of the service. `Quiet` is everything that moves only the container and the
      mounts: freeze, unfreeze, reboot, upgrade, the container changing by itself. */
  datatype Op =
    | DoStart(session: Session, exit: Option<Exit>, result: Result)
    | Stop(quit: bool, exit: Option<Exit>)
    | Quiet

  ghost predicate OpStep(c: Config, op: Op, w: World, w1: World) {
    match op
    case DoStart(session, x, r) => StartRel(c, session, w, w1, x, r)
    case Stop(quit, x) => StopRel(c, quit, w, w1, x)
    case Quiet => w1 == w.(lxc := w1.lxc, table := w1.table) && Kept(w.table, w1.table)
  }

  ghost predicate History(c: Config, ops: seq<Op>, ws: seq<World>) {
    |ws| == |ops| + 1 && forall i :: 0 <= i < |ops| ==> OpStep(c, ops[i], ws[i], ws[i + 1])
  }

  /** The run of the network script that an operation contains. */
  function NetRunOf(e: Env, op: Op): Option<NetRuns.Run> {
    match op
    case DoStart(_, Some(x), _) => Some(NetRuns.Start(e, x))
    case Stop(_, Some(x)) => Some(NetRuns.Stop(e, x))
    case _ => None
  }

  /** The network script was not killed part-way. */
  predicate NetReturned(op: Op) {
    op.Quiet? || op.exit.None? || !op.exit.value.Killed?
  }

  /** The network moves only by that run. */
  lemma NetMovesByRuns(c: Config, op: Op, w: World, w1: World)
    requires OpStep(c, op, w, w1)
    ensures match NetRunOf(c.env, op)
            case None => w1.net == w.net
            case Some(run) => NetRuns.RunStep(run, w.net, w1.net)
  {}

  /** Each rule of the script is there at most once, and only while the bridge exists. */
  ghost predicate Tidy(e: Env, n: NetState) {
    forall r :: r in StopRules(e) ==> NetRuns.Contained(r, n)
  }

  lemma NetStaysTidy(c: Config, op: Op, w: World, w1: World)
    requires OpStep(c, op, w, w1)
    ensures Tidy(c.env, w.net) ==> Tidy(c.env, w1.net)
    ensures SameOthers(StopRules(c.env), w.net.tables, w1.net.tables)
    ensures NetReturned(op) && NetRuns.InStep(c.env, w.net) ==> NetRuns.InStep(c.env, w1.net)
  {
    NetMovesByRuns(c, op, w, w1);
    match NetRunOf(c.env, op)
    case None =>
    case Some(run) =>
      NetRuns.RunKeepsOthers(run, w.net, w1.net, StopRules(c.env));
      if Tidy(c.env, w.net) {
        forall r | r in StopRules(c.env) ensures NetRuns.Contained(r, w1.net) {
          NetRuns.RunKeepsContained(run, w.net, w1.net, r);
        }
      }
      if NetReturned(op) && NetRuns.InStep(c.env, w.net) {
        NetRuns.CompleteRunKeepsInStep(run, w.net, w1.net);
      }
  }

  /** Over every history, wherever its starts and stops failed or died: foreign mounts and everybody
      else's firewall rules are untouched, a rooted table stays rooted, the script's rules stay at
      most single and tied to the bridge; and if no network script was killed, rules and network_up
      are in step. */
  lemma {:induction false} HistoryKeeps(c: Config, ops: seq<Op>, ws: seq<World>)
    requires History(c, ops, ws)
    ensures Kept(ws[0].table, ws[|ops|].table)
    ensures !c.sensord ==> ws[|ops|].sensors == ws[0].sensors
    ensures SameOthers(StopRules(c.env), ws[0].net.tables, ws[|ops|].net.tables)
    ensures Tidy(c.env, ws[0].net) ==> Tidy(c.env, ws[|ops|].net)
    ensures NetRuns.InStep(c.env, ws[0].net) && (forall i :: 0 <= i < |ops| ==> NetReturned(ops[i])) ==>
              NetRuns.InStep(c.env, ws[|ops|].net)
  {
    if ops != [] {
      var n := |ops| - 1;
      assert History(c, ops[..n], ws[..n + 1]);
      HistoryKeeps(c, ops[..n], ws[..n + 1]);
      assert OpStep(c, ops[n], ws[n], ws[n + 1]);
      NetStaysTidy(c, ops[n], ws[n], ws[n + 1]);
    }
  }

  /** Recoverability: after any history, starts that failed or were killed at any step included, one
      stop whose commands succeed leaves the container stopped, no network_up, no sensor daemon,
      exactly the foreign mounts there ever were; no session, exactly unless `ismount` was fooled or
      there was no process to signal; none of the script's rules, exactly if network_up existed or
      none was there, and then all chains as before the history; and no bridge, exactly if
      there was none or network_up existed and nothing is attached to it. */
  lemma CleanStopRecovers(c: Config, attached: bool, ops: seq<Op>, ws: seq<World>, quit: bool, w1: World,
                          x: Option<Exit>)
    requires History(c, ops, ws) && Tidy(c.env, ws[0].net) && (c.sensord || ws[0].sensors == 0)
    requires StopRel(c, quit, ws[|ops|], w1, x) && CleanStop(c, attached, quit, ws[|ops|], w1, x)
    ensures w1.lxc == STOPPED && !w1.net.up && w1.sensors == 0 && RootfsGone(w1.table)
    ensures ForeignMounts(w1.table) == ForeignMounts(ws[0].table)
    ensures var w := ws[|ops|];
            && (!Fooled(w.table, ROOTFS) ==> w1.table == ForeignMounts(ws[0].table))
            && (w1.session.None? <==>
                  w.session.None? || (!Fooled(w.table, ROOTFS) && (quit ==> w.session.value.pid.Some?)))
            && (NetRuns.Cleared(c.env, w1.net) <==> w.net.up || NetRuns.Cleared(c.env, w.net))
            && (!w1.net.bridge <==> !w.net.bridge || (w.net.up && !attached))
    ensures NetRuns.Cleared(c.env, ws[0].net) && NetRuns.Cleared(c.env, w1.net) ==> w1.net.tables == ws[0].net.tables
  {
    HistoryKeeps(c, ops, ws);
    NetStaysTidy(c, Op.Stop(quit, x), ws[|ops|], w1);
    NetRuns.StopClearsIff(c.env, ws[|ops|].net, w1.net, x.value);
    if NetRuns.Cleared(c.env, ws[0].net) && NetRuns.Cleared(c.env, w1.net) {
      NoneLeftIsSame(StopRules(c.env), ws[0].net.tables, w1.net.tables);
    }
  }

  /** Where no network script was killed, the stop always gives the firewall back exactly. */
  lemma CleanStopRestoresFirewall(c: Config, attached: bool, ops: seq<Op>, ws: seq<World>, quit: bool, w1: World,
                                  x: Option<Exit>)
    requires History(c, ops, ws) && (forall i :: 0 <= i < |ops| ==> NetReturned(ops[i]))
    requires !ws[0].net.up && NetRuns.Cleared(c.env, ws[0].net) && (c.sensord || ws[0].sensors == 0)
    requires StopRel(c, quit, ws[|ops|], w1, x) && CleanStop(c, attached, quit, ws[|ops|], w1, x)
    ensures w1.net.tables == ws[0].net.tables
  {
    NetRuns.RuleListsAreDistinct(c.env);
    assert NetRuns.InStep(c.env, ws[0].net);
    HistoryKeeps(c, ops, ws);
    CleanStopRecovers(c, attached, ops, ws, quit, w1, x);
    if !ws[|ops|].net.up {
      assert forall r :: r in StopRules(c.env) ==> Count(ws[|ops|].net.tables, r) == 0;
    }
  }

  /** The failing input: a start whose network script is killed before network_up. The start raises,
      and a stop none of whose commands fails leaves bridge and rules in place. */
  lemma KilledStartSurvivesStop(c: Config, attached: bool, session: Session, net: NetState) returns (w1: World)
    requires !net.up && !net.bridge && NetRuns.Cleared(c.env, net)
    ensures var w := World(None, STOPPED, net, 0, [], []);
            StartRel(c, session, w, w1, Some(Killed), Raised)
    ensures StopRel(c, true, w1, w1, Some(NonZero)) && CleanStop(c, attached, true, w1, w1, Some(NonZero))
    ensures w1.net.bridge && forall r :: r in StartRules(c.env) ==> Count(w1.net.tables, r) == 1
  {
    var n1 := NetRuns.DeadStartSurvivesStop(c.env, net);
    w1 := World(None, STOPPED, n1, 0, [], []);
    var runs, ns := [NetRuns.Start(c.env, Killed), NetRuns.Stop(c.env, NonZero)], [net, n1, n1];
    assert NetRuns.History(runs, ns);
    assert NetRuns.RunStep(runs[0], ns[0], ns[1]) && NetRuns.RunStep(runs[1], ns[1], ns[2]);
  }

  /** The failing input: a session without a usable pid is kept by a stop none of whose commands
      fails. */
  lemma PidlessSessionIsKept(c: Config, attached: bool, userId: string, data: string, net: NetState)
    requires !net.up
    ensures var w := World(Some(Session(userId, None, data)), STOPPED, net, 0, [], []);
            StopRel(c, true, w, w, Some(NonZero)) && CleanStop(c, attached, true, w, w, Some(NonZero))
  {}

  /** One operation keeps the session, drops it, or is the start that completed every step. */
  lemma SessionStep(c: Config, op: Op, w: World, w1: World)
    requires OpStep(c, op, w, w1) && w1.session.Some?
    ensures w.session.Some? ==> w1.session == w.session
    ensures w.session.None? ==>
              && op == Op.DoStart(w1.session.value, Some(Zero), Ok)
              && AllUp(c, w1.session.value.waydroidData, w, w1)
  {
    if w.session.None? && op.DoStart? {
      assert Launched(c, op.session.waydroidData, w, w1.(session := w.session), op.exit, op.result);
    }
  }

  /** The last place where nothing was tracked, if what is tracked only changes by going away. */
  lemma {:induction false} TrackedSince(xs: seq<Option<Session>>) returns (i: nat)
    requires xs != [] && xs[0].None? && xs[|xs| - 1].Some?
    requires forall k :: 0 <= k < |xs| - 1 && xs[k].Some? && xs[k + 1].Some? ==> xs[k + 1] == xs[k]
    ensures i < |xs| - 1 && xs[i].None? && forall j :: i < j < |xs| ==> xs[j] == xs[|xs| - 1]
  {
    var n := |xs| - 2;
    if xs[n].Some? {
      i := TrackedSince(xs[..n + 1]);
      forall j | i < j < |xs| ensures xs[j] == xs[n + 1] {
        if j <= n { assert xs[..n + 1][j] == xs[j]; }
      }
    } else {
      i := n;
    }
  }

  /** Over every history, a session goes only by a stop that has unmounted rootfs, and with `quit`
      its process has then been signalled. */
  lemma SessionGoesUnmounted(c: Config, ops: seq<Op>, ws: seq<World>, i: nat)
    requires History(c, ops, ws) && i < |ops| && ws[i].session.Some? && ws[i + 1].session != ws[i].session
    ensures ws[i + 1].session.None? && ops[i].Stop? && RootfsGone(ws[i + 1].table)
    ensures ops[i].quit ==>
              && ws[i].session.value.pid.Some?
              && ws[i + 1].signals == ws[i].signals + [ws[i].session.value.pid.value]
  {
    assert OpStep(c, ops[i], ws[i], ws[i + 1]);
  }

  /** A tracked session came from a start that completed every step, and has been tracked ever
      since. */
  lemma {:induction false} TrackedOnlyAfterStart(c: Config, ops: seq<Op>, ws: seq<World>) returns (i: nat)
    requires History(c, ops, ws) && ws[0].session.None? && ws[|ops|].session.Some?
    ensures var session := ws[|ops|].session;
            && i < |ops| && ops[i] == Op.DoStart(session.value, Some(Zero), Ok)
            && AllUp(c, session.value.waydroidData, ws[i], ws[i + 1])
            && forall j :: i < j <= |ops| ==> ws[j].session == session
  {
    var xs := seq(|ws|, k requires 0 <= k < |ws| => ws[k].session);
    forall k | 0 <= k < |ops| && xs[k].Some? && xs[k + 1].Some? ensures xs[k + 1] == xs[k] {
      SessionStep(c, ops[k], ws[k], ws[k + 1]);
    }
    i := TrackedSince(xs);
    assert xs[i] == ws[i].session && xs[i + 1] == ws[i + 1].session && xs[|ops|] == ws[|ops|].session;
    SessionStep(c, ops[i], ws[i], ws[i + 1]);
    forall j | i < j <= |ops| ensures ws[j].session == ws[|ops|].session { assert xs[j] == ws[j].session; }
  }

  // ----- mounts -----

  lemma BindKeepsForeign(m: Host, source: string, t: Table)
    ensures Kept(t, m.Bound(t, source, DATA))
  {
    var e := m.Mounted(BindOf(source), DATA);
    assert DATA[18] != ROOTFS[18];
    assert !(ROOTFS <= e.mountpoint) && DATA <= e.mountpoint;
    MatchingAppend(t, e, ROOTFS);
    MatchingAppend(Outside(t, ROOTFS), e, DATA);
    assert !Inside(DATA, ROOTFS);
    if Rooted(t, ROOTFS) && !IsMounted(t, DATA) {
      assert forall f :: f in t + [e] <==> f in t || f == e;
    }
  }

  lemma {:induction false} StackOutside(t: Table, p: string)
    requires !(ROOTFS <= p)
    ensures StackAt(Outside(t, ROOTFS), p) == StackAt(t, p)
  {
    if t != [] {
      var init, last := t[..|t| - 1], t[|t| - 1];
      StackOutside(init, p);
      assert t == init + [last];
      MatchingAppend(init, last, ROOTFS);
      StackAppend(Outside(init, ROOTFS), last, p);
      StackAppend(init, last, p);
      assert StackAt(Outside(init, ROOTFS), p) + [] == StackAt(Outside(init, ROOTFS), p);
      assert Outside(init, ROOTFS) + [] == Outside(init, ROOTFS);
    }
  }

  lemma DataIsOutside()
    ensures !(ROOTFS <= DATA) && DATA !in {ROOTFS, VENDOR, EGL, EGL64, ODM_EXTRA, PROP}
  {
    PlaceLengths();
    assert DATA[18] != ROOTFS[18];
  }

  /** What a container that is up runs on: the images, the binds and nothing else new on the table as it
      was cleared, and, with an LXC config that predates config_session, the session's data folder. */
  lemma UpMeans(c: Config, source: string, w: World, w1: World) returns (base: Table, overlays: bool)
    requires AllUp(c, source, w, w1)
    ensures base == Cleared(WithData(c.host, c.oldConfig, source, w.table), ROOTFS)
    ensures HoldsImages(c.dirs, base, w1.table, overlays)
    ensures HoldsBinds(c.host, c.dirs, PLACES, base, w1.table)
    ensures HoldsOnly(c.host, base, w1.table)
    ensures StackAt(w1.table, "/var/lib/waydroid/data") ==
            StackAt(w.table, "/var/lib/waydroid/data")
            + if c.oldConfig && !IsMounted(w.table, "/var/lib/waydroid/data") then [BindOf(source)] else []
  {
    var t := WithData(c.host, c.oldConfig, source, w.table);
    base := Cleared(t, ROOTFS);
    overlays :| w1.table == CleanRun(c.host, c.dirs, base, overlays);
    CleanRunHoldsAll(c.host, c.dirs, base, overlays);
    DataIsOutside();
    StackOutside(t, DATA);
    StackOfBound(c.host, w.table, source, DATA, DATA);
    assert StackAt(w.table, DATA) + [] == StackAt(w.table, DATA);
  }

  lemma CleanRunMountsRootfs(m: Host, d: HostDirs, base: Table, overlays: bool)
    ensures RootfsMounted(CleanRun(m, d, base, overlays))
  {
    InsideOnly(m, d, base, overlays);
    assert CleanRun(m, d, base, overlays)[|base|] in CleanRun(m, d, base, overlays);
  }

  lemma AttemptKeepsForeign(m: Host, d: HostDirs, t: Table, t1: Table)
    requires Attempted(m, d, t, t1)
    ensures Kept(t, t1)
  {
    AttemptKeepsOutside(m, d, t, t1);
    AttemptMembers(m, d, t, t1);
    if Rooted(t, ROOTFS) { AttemptKeepsRooted(m, d, t, t1); }
  }

  lemma UmountRootfsEffect(t: Table, t1: Table, r: Outcome)
    requires if r.CommandFailed? then PartlyUnmounted(t, ROOTFS, t1) else t1 == Outside(t, ROOTFS)
    ensures Kept(t, t1) && (!r.CommandFailed? ==> RootfsGone(t1))
  {
    OutsideTwice(t);
    if r.CommandFailed? {
      PartlyUnmountedKeepsOutside(t, ROOTFS, t1);
      var k: nat :| UnmountedUpTo(t, ROOTFS, k, t1);
      PartlyUnmountedMembers(t, ROOTFS, t1);
      if Rooted(t, ROOTFS) { RootGoesLast(t, ROOTFS, k, t1); }
    }
  }

  lemma UmountDataEffect(t: Table, t1: Table, r: Outcome)
    requires RootfsGone(t)
    requires if r.CommandFailed? then PartlyUnmounted(t, DATA, t1) else t1 == Outside(t, DATA)
    ensures Kept(t, t1) && RootfsGone(t1)
    ensures Rooted(t1, ROOTFS) && NoSiblings(t1, ROOTFS)
  {
    OutsideMembers(t, DATA);
    if r.CommandFailed? {
      PartlyUnmountedKeepsOutside(t, DATA, t1);
      PartlyUnmountedMembers(t, DATA, t1);
    } else {
      OutsideAgain(t, DATA);
    }
    MatchingMembers(t1, ROOTFS);
    MatchingMembers(t, ROOTFS);
  }

  lemma OutsideAgain(t: Table, prefix: string)
    ensures Outside(Outside(t, prefix), prefix) == Outside(t, prefix)
  {
    OutsideMembers(t, prefix);
    MatchingMembers(Outside(t, prefix), prefix);
  }
}
