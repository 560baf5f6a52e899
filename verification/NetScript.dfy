/** data/scripts/waydroid-net.sh with the iptables backend: `start`, `stop` and the trap, as
    commands any of which may fail or be the last one before the shell dies. */
module NetScript {
  import opened Firewall

  /** Environment of one run: whether the three LXC_IPV6_* variables are set, LXC_IPV6_NAT,
      and LXC_IPV6_NETWORK. */
  datatype Env = Env(v6: bool, nat6: bool, network6: string)

  const V4_RULES: seq<Rule> :=
    [InUdp67, InTcp67, InUdp53, InTcp53, ForwardIn, ForwardOut, Masquerade, DhcpChecksum]

  function StartRules(e: Env): seq<Rule> {
    (if e.v6 && e.nat6 then [Masquerade6(e.network6)] else []) + V4_RULES
  }

  function StopRules(e: Env): seq<Rule> {
    V4_RULES + if e.nat6 then [Masquerade6(e.network6)] else []
  }

  /** The bridge device, the network_up file and the firewall. */
  datatype NetState = NetState(bridge: bool, up: bool, tables: Tables)

  /** How a command or a run ends. `NonZero` in `start` also stands for a HUP, INT or TERM that
      arrives while the command runs; `Killed` means that the shell is gone. */
  datatype Exit = Zero | NonZero | Killed {
    predicate IsFailure() { !Zero? }
    function PropagateFailure(): (r: Exit)
      requires IsFailure()
    { this }
  }

  // ----- what a run can do, as relations between states -----

  /** The first `k` rules of a list have been added or deleted, all of them if `done`. */
  ghost predicate Added(rs: seq<Rule>, t: Tables, t1: Tables, done: bool, k: nat) {
    k <= |rs| && t1 == AddAll(rs[..k], t) && (done ==> k == |rs|)
  }

  ghost predicate Deleted(rs: seq<Rule>, t: Tables, t1: Tables, done: bool, k: nat) {
    k <= |rs| && t1 == DelAll(rs[..k], t) && (done ==> k == |rs|)
  }

  /** The body of `stop`, `k` deletions in when it dies, all of them otherwise. */
  ghost predicate StopTo(e: Env, s: NetState, s1: NetState, died: bool, k: nat) {
    && k <= |StopRules(e)|
    && s1.tables == DelAll(StopRules(e)[..k], s.tables)
    && (!s.bridge ==> k == 0 && !s1.bridge)
    && (s.bridge && k < |StopRules(e)| ==> died && s1.bridge && s1.up == s.up)
    && (s1.up ==> s.up && died)
  }

  ghost predicate StopBody(e: Env, s: NetState, s1: NetState, died: bool) {
    exists k: nat :: StopTo(e, s, s1, died, k)
  }

  /** `waydroid-net.sh stop`. */
  ghost predicate StopRun(e: Env, s: NetState, s1: NetState, x: Exit) {
    if s.up then StopBody(e, s, s1, x.Killed?) else s1 == s && !x.Zero?
  }

  /** The commands of `start` under `set -e`, `k` rules in. */
  ghost predicate BringUpTo(e: Env, s: NetState, s1: NetState, done: bool, k: nat) {
    && k <= |StartRules(e)|
    && s1.tables == AddAll(StartRules(e)[..k], s.tables)
    && (s.bridge ==> s1.bridge)
    && (k > 0 ==> s1.bridge)
    && (done ==> s1.up)
    && (s1.up ==> k == |StartRules(e)|)
  }

  ghost predicate BringUpRun(e: Env, s: NetState, s1: NetState, done: bool) {
    exists k: nat :: BringUpTo(e, s, s1, done, k)
  }

  /** The trap: `stop force`, once or twice. */
  ghost predicate Rollback(e: Env, s: NetState, s1: NetState, died: bool) {
    || StopBody(e, s, s1, died)
    || (exists m :: StopBody(e, s, m, false) && StopBody(e, m, s1, died))
  }

  /** `start` of a network that is not up: stale bridge away, bring up, roll back on failure. */
  ghost predicate StartVia(e: Env, s: NetState, m: NetState, f: NetState, s1: NetState, x: Exit) {
    || (x.Killed? && s.bridge && StopBody(e, s, s1, true))
    || (&& (if s.bridge then StopBody(e, s, m, false) else m == s)
        && (|| (!x.NonZero? && s1 == f && BringUpRun(e, m, f, x.Zero?))
            || (!x.Zero? && BringUpRun(e, m, f, false) && Rollback(e, f, s1, x.Killed?))))
  }

  /** `waydroid-net.sh start`. */
  ghost predicate StartRun(e: Env, s: NetState, s1: NetState, x: Exit) {
    if s.up then x.Zero? && s1 == s else exists m, f :: StartVia(e, s, m, f, s1, x)
  }

  lemma RulesAt(rs: seq<Rule>, o: nat)
    requires o + 8 <= |rs| && rs[o..o + 8] == V4_RULES
    ensures rs[o] == InUdp67 && rs[o + 1] == InTcp67 && rs[o + 2] == InUdp53 && rs[o + 3] == InTcp53
    ensures rs[o + 4] == ForwardIn && rs[o + 5] == ForwardOut && rs[o + 6] == Masquerade
    ensures rs[o + 7] == DhcpChecksum
  {
    var v := rs[o..o + 8];
    assert v[0] == rs[o] && v[1] == rs[o + 1] && v[2] == rs[o + 2] && v[3] == rs[o + 3];
    assert v[4] == rs[o + 4] && v[5] == rs[o + 5] && v[6] == rs[o + 6] && v[7] == rs[o + 7];
  }

  class Net {
    var bridge: bool
    var networkUp: bool
    var tables: Tables
    /** How many commands have failed so far whose failure is not passed over, how many deletions of
        the bridge, and how many commands during which the shell died. */
    var failures: nat
    /** Whether interfaces are attached to the bridge. */
    var attached: bool

    constructor (bridge: bool, networkUp: bool, tables: Tables, attached: bool)
      ensures State() == NetState(bridge, networkUp, tables) && failures == 0 && this.attached == attached
    {
      this.bridge, this.networkUp, this.tables, this.attached := bridge, networkUp, tables, attached;
      failures := 0;
    }

    function State(): NetState
      reads this
    {
      NetState(bridge, networkUp, tables)
    }

    // ----- single commands -----

    /** A command that leaves bridge, rules and network_up alone. */
    method Run(command: string) returns (x: Exit)
      modifies this`failures
      ensures failures == old(failures) + if x.Zero? then 0 else 1
    {
      if * { return Zero; }
      failures := failures + 1;
      if * { x := NonZero; } else { x := Killed; }
    }

    /** The same without `set -e`: a non-zero exit is passed over and does no harm. */
    method RunAnyway(command: string) returns (x: Exit)
      modifies this`failures
      ensures !x.NonZero? && failures == old(failures) + if x.Zero? then 0 else 1
    {
      if * { return Zero; }
      failures := failures + 1;
      x := Killed;
    }

    /** iptables -I or -A. The ghost arguments say that `r` is rule number `k` of the list `rs`
        that is being added to `t0`. */
    method AddNext(r: Rule, ghost rs: seq<Rule>, ghost t0: Tables, ghost k: nat) returns (x: Exit)
      requires k < |rs| && rs[k] == r && Added(rs, t0, tables, false, k)
      modifies this`tables, this`failures
      ensures failures >= old(failures) && (x.Zero? <==> failures == old(failures))
      ensures x.Zero? ==> Added(rs, t0, tables, false, k + 1)
      ensures exists j: nat :: Added(rs, t0, tables, false, j)
    {
      AddAllSnoc(rs, k, t0);
      var ran: bool, ok: bool := *, *;
      if ran { tables := Add(r, tables); }
      if ran && ok {
        x := Zero;
      } else {
        failures := failures + 1;
        if * { x := NonZero; } else { x := Killed; }
      }
      assert Added(rs, t0, tables, false, k) || Added(rs, t0, tables, false, k + 1);
    }

    /** iptables -D, without `set -e`; fails only when there is nothing to delete. */
    method DeleteNext(r: Rule, ghost rs: seq<Rule>, ghost t0: Tables, ghost k: nat) returns (x: Exit)
      requires k < |rs| && rs[k] == r && Deleted(rs, t0, tables, false, k)
      modifies this`tables, this`failures
      ensures !x.NonZero? && failures >= old(failures) && (x.Killed? ==> failures > old(failures))
      ensures x.Zero? ==> Deleted(rs, t0, tables, false, k + 1)
      ensures exists j: nat :: Deleted(rs, t0, tables, false, j)
    {
      DelAllSnoc(rs, k, t0);
      var ran: bool, ok: bool := *, *;
      if ran { tables := Del(r, tables); }
      if ran && ok { x := Zero; } else { failures := failures + 1; x := Killed; }
      assert Deleted(rs, t0, tables, false, k) || Deleted(rs, t0, tables, false, k + 1);
    }

    // ----- start_iptables, stop_iptables -----

    method StartIpv6(e: Env) returns (x: Exit, arg: bool)
      modifies this`failures
      ensures x.Zero? ==> arg == e.v6
      ensures failures >= old(failures) && (x.Zero? <==> failures == old(failures))
    {
      arg := false;
      x := Zero;
      if e.v6 {
        x := Run("echo 1 > forwarding");
        if x.Zero? { x := Run("echo 0 > autoconf"); }
        if x.Zero? { x := Run("ip -6 addr add"); }
        arg := true;
      }
    }

    method StartIptables(e: Env) returns (x: Exit)
      modifies this`tables, this`failures
      ensures failures >= old(failures) && (x.Zero? <==> failures == old(failures))
      ensures exists k: nat :: Added(StartRules(e), old(tables), tables, x.Zero?, k)
    {
      ghost var rs, t0 := StartRules(e), tables;
      var arg;
      x, arg := StartIpv6(e);
      assert Added(rs, t0, tables, false, 0);
      if !x.Zero? { return; }
      if arg && e.nat6 {
        :- AddNext(Masquerade6(e.network6), rs, t0, 0);
      }
      assert rs[|rs| - 8..|rs|] == V4_RULES;
      x := StartIptables4(rs, t0, |rs| - 8);
    }

    method StartIptables4(ghost rs: seq<Rule>, ghost t0: Tables, ghost o: nat) returns (x: Exit)
      requires o + 8 == |rs| && rs[o..o + 8] == V4_RULES && Added(rs, t0, tables, false, o)
      modifies this`tables, this`failures
      ensures failures >= old(failures) && (x.Zero? <==> failures == old(failures))
      ensures exists k: nat :: Added(rs, t0, tables, x.Zero?, k)
    {
      RulesAt(rs, o);
      :- AddNext(InUdp67, rs, t0, o);
      :- AddNext(InTcp67, rs, t0, o + 1);
      :- AddNext(InUdp53, rs, t0, o + 2);
      :- AddNext(InTcp53, rs, t0, o + 3);
      :- AddNext(ForwardIn, rs, t0, o + 4);
      :- AddNext(ForwardOut, rs, t0, o + 5);
      :- AddNext(Masquerade, rs, t0, o + 6);
      :- AddNext(DhcpChecksum, rs, t0, o + 7);
      assert Added(rs, t0, tables, true, |rs|);
      return Zero;
    }

    method StopIptables(e: Env) returns (x: Exit)
      modifies this`tables, this`failures
      ensures !x.NonZero? && failures >= old(failures) && (x.Killed? ==> failures > old(failures))
      ensures exists k: nat :: Deleted(StopRules(e), old(tables), tables, x.Zero?, k)
    {
      ghost var rs, t0 := StopRules(e), tables;
      assert Deleted(rs, t0, tables, false, 0);
      assert rs[0..8] == V4_RULES;
      :- StopIptables4(rs, t0, 0);
      if e.nat6 {
        :- DeleteNext(Masquerade6(e.network6), rs, t0, 8);
      }
      assert Deleted(rs, t0, tables, true, |rs|);
      return Zero;
    }

    method StopIptables4(ghost rs: seq<Rule>, ghost t0: Tables, ghost o: nat) returns (x: Exit)
      requires o + 8 <= |rs| && rs[o..o + 8] == V4_RULES && Deleted(rs, t0, tables, false, o)
      modifies this`tables, this`failures
      ensures !x.NonZero? && failures >= old(failures) && (x.Killed? ==> failures > old(failures))
      ensures x.Zero? ==> Deleted(rs, t0, tables, false, o + 8)
      ensures exists k: nat :: Deleted(rs, t0, tables, false, k)
    {
      RulesAt(rs, o);
      :- DeleteNext(InUdp67, rs, t0, o);
      :- DeleteNext(InTcp67, rs, t0, o + 1);
      :- DeleteNext(InUdp53, rs, t0, o + 2);
      :- DeleteNext(InTcp53, rs, t0, o + 3);
      :- DeleteNext(ForwardIn, rs, t0, o + 4);
      :- DeleteNext(ForwardOut, rs, t0, o + 5);
      :- DeleteNext(Masquerade, rs, t0, o + 6);
      :- DeleteNext(DhcpChecksum, rs, t0, o + 7);
      return Zero;
    }

    // ----- stop -----

    method Stop(e: Env) returns (x: Exit)
      modifies this
      ensures StopRun(e, old(State()), State(), x)
      ensures failures >= old(failures) && (failures == old(failures) ==> (x.Zero? <==> old(networkUp)) && !x.Killed?)
      ensures failures == old(failures) && x.Zero? ==> bridge == (old(bridge) && attached)
      ensures attached == old(attached)
    {
      if !networkUp { return NonZero; }
      x := StopForce(e);
    }

    /** `stop force`: does not ask for network_up. */
    method StopForce(e: Env) returns (x: Exit)
      modifies this
      ensures !x.NonZero? && failures >= old(failures) && (x.Killed? ==> failures > old(failures))
      ensures StopBody(e, old(State()), State(), x.Killed?)
      ensures failures == old(failures) ==> bridge == (old(bridge) && attached)
      ensures attached == old(attached)
    {
      if bridge {
        x := TakeDown(e);
      } else {
        networkUp := false;
        assert StopRules(e)[..0] == [];
        assert StopTo(e, old(State()), State(), false, 0);
        x := Zero;
      }
    }

    /** The rest of `stop`, when there is a bridge. */
    method TakeDown(e: Env) returns (x: Exit)
      requires bridge
      modifies this
      ensures !x.NonZero? && failures >= old(failures) && (x.Killed? ==> failures > old(failures))
      ensures StopBody(e, old(State()), State(), x.Killed?)
      ensures failures == old(failures) ==> bridge == attached
      ensures attached == old(attached)
    {
      ghost var s := State();
      x := IfDown();
      if x.Killed? {
        assert StopRules(e)[..0] == [];
        assert StopTo(e, s, State(), true, 0);
        return;
      }
      x := StopIptables(e);
      ghost var k: nat :| Deleted(StopRules(e), s.tables, tables, x.Zero?, k);
      if x.Zero? { x := KillDnsmasq(); }
      if x.Zero? { x := DeleteBridge(); }
      if x.Killed? {
        assert StopTo(e, s, State(), true, k);
        return;
      }
      networkUp := false;
      assert StopTo(e, s, State(), false, k);
    }

    method IfDown() returns (x: Exit)
      modifies this`failures
      ensures !x.NonZero? && failures == old(failures) + if x.Zero? then 0 else 1
    {
      x := RunAnyway("ip addr flush dev waydroid0");
      if x.Zero? { x := RunAnyway("ip link set dev waydroid0 down"); }
    }

    method KillDnsmasq() returns (x: Exit)
      modifies this`failures
      ensures !x.NonZero? && failures == old(failures) + if x.Zero? then 0 else 1
    {
      x := RunAnyway("kill -9 dnsmasq");
      if x.Zero? { x := RunAnyway("rm -f dnsmasq.pid"); }
    }

    /** The bridge goes unless interfaces are attached; a failure is passed over. */
    method DeleteBridge() returns (x: Exit)
      modifies this`bridge, this`failures
      ensures !x.NonZero? && failures >= old(failures) && (x.Killed? ==> failures > old(failures))
      ensures bridge ==> old(bridge)
      ensures failures == old(failures) ==> bridge == (old(bridge) && attached)
    {
      x := Zero;
      if !attached {
        x := Run("ip link delete waydroid0");
        if x.Zero? { bridge := false; }
        if x.NonZero? { x := Zero; }
      }
    }

    // ----- start -----

    method Start(e: Env) returns (x: Exit)
      modifies this
      ensures StartRun(e, old(State()), State(), x)
      ensures failures >= old(failures) && (failures == old(failures) ==> x.Zero?)
      ensures x.NonZero? && failures == old(failures) + 1 ==> !bridge || attached
      ensures attached == old(attached)
    {
      if networkUp { return Zero; }
      ghost var s := State();
      if bridge {
        x := StopForce(e);
        if x.Killed? {
          assert StartVia(e, s, s, s, State(), x);
          return;
        }
      }
      ghost var m := State();
      x := BringUp(e);
      ghost var f := State();
      if x.NonZero? {
        var died := Cleanup(e);
        x := if died then Killed else NonZero;
      }
      assert StartVia(e, s, m, f, State(), x);
    }

    /** The part of `start` that runs under `set -e` with the trap armed. */
    method BringUp(e: Env) returns (x: Exit)
      requires !networkUp
      modifies this
      ensures BringUpRun(e, old(State()), State(), x.Zero?)
      ensures failures >= old(failures) && (failures == old(failures) <==> x.Zero?)
      ensures attached == old(attached)
    {
      ghost var s := State();
      assert StartRules(e)[..0] == [] && StartRules(e)[..|StartRules(e)|] == StartRules(e);
      x := CreateBridge();
      assert BringUpTo(e, s, State(), false, 0);
      if !x.Zero? { return; }
      x := StartIptables(e);
      ghost var k: nat :| Added(StartRules(e), s.tables, tables, x.Zero?, k);
      assert BringUpTo(e, s, State(), false, k);
      if !x.Zero? { return; }
      :- Run("mkdir /var/lib/misc");
      :- Run("dnsmasq");
      :- Run("touch network_up");
      networkUp := true;
      assert BringUpTo(e, s, State(), true, k);
      // a signal may still arrive before FAILED=0
      x := Run("FAILED=0");
      assert BringUpTo(e, s, State(), x.Zero?, k);
    }

    method CreateBridge() returns (x: Exit)
      modifies this`bridge, this`failures
      ensures failures >= old(failures) && (failures == old(failures) <==> x.Zero?)
      ensures (old(bridge) ==> bridge) && (x.Zero? ==> bridge)
    {
      if !bridge {
        :- Run("ip link add dev waydroid0 type bridge");
        bridge := true;
      }
      :- Run("echo 1 > ip_forward");
      :- RunAnyway("echo 0 > accept_dad");
      :- Run("mkdir -p /run/waydroid-lxc");
      :- Run("ip addr add");
      :- Run("ip link set address");
      x := Run("ip link set up");
    }

    /** The trap; its `exit 1` may run it a second time. */
    method Cleanup(e: Env) returns (died: bool)
      modifies this
      ensures Rollback(e, old(State()), State(), died) && failures >= old(failures)
      ensures failures == old(failures) ==> !died && bridge == (old(bridge) && attached)
      ensures attached == old(attached)
    {
      var x := StopForce(e);
      if x.Killed? { return true; }
      if * {
        ghost var m := State();
        x := StopForce(e);
        assert StopBody(e, old(State()), m, false) && StopBody(e, m, State(), x.Killed?);
      }
      died := x.Killed?;
    }
  }
}
