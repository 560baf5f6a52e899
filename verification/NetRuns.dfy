/** What every sequence of waydroid-net.sh runs keeps, and what a rollback gives back. */
module NetRuns {
  import opened Firewall
  import opened NetScript

  /** The rule is there at most once, and only while the bridge exists. */
  ghost predicate Contained(r: Rule, s: NetState) {
    Count(s.tables, r) <= 1 && (Count(s.tables, r) == 1 ==> s.bridge)
  }

  lemma RuleListsAreDistinct(e: Env)
    ensures Distinct(StartRules(e)) && Distinct(StopRules(e))
    ensures forall r :: r in V4_RULES ==> r in StopRules(e) && r in StartRules(e)
    ensures forall r :: r in StartRules(e) ==> r in StopRules(e)
  {
    V4RulesAreDistinct();
    var r := Masquerade6(e.network6);
    DistinctSnoc(V4_RULES, r);
    assert [] + V4_RULES == V4_RULES && V4_RULES + [] == V4_RULES;
  }

  lemma V4RulesAreDistinct()
    ensures Distinct(V4_RULES) && forall r :: r in V4_RULES ==> !r.Masquerade6?
  {
    RulesAt(V4_RULES, 0);
    assert forall i :: 0 <= i < 8 ==> Place(V4_RULES[i]) == i;
  }

  /** Where a rule stands in V4_RULES. */
  function Place(r: Rule): nat {
    match r
    case InUdp67 => 0
    case InTcp67 => 1
    case InUdp53 => 2
    case InTcp53 => 3
    case ForwardIn => 4
    case ForwardOut => 5
    case Masquerade => 6
    case DhcpChecksum => 7
    case _ => 8
  }

  lemma {:induction false} DistinctCounts(rs: seq<Rule>, r: Rule, k: nat)
    requires Distinct(rs) && k <= |rs|
    ensures multiset(rs[..k])[r] <= 1
    ensures multiset(rs)[r] == if r in rs then 1 else 0
    ensures k == |rs| ==> multiset(rs[..k])[r] == multiset(rs)[r]
    ensures multiset(rs[..k])[r] <= multiset(rs)[r]
  {
    if rs == [] {
      assert rs[..k] == [];
    } else {
      assert rs == [rs[0]] + rs[1..];
      assert rs[0] !in rs[1..];
      DistinctCounts(rs[1..], r, if k == 0 then 0 else k - 1);
      if k > 0 {
        assert rs[..k] == [rs[0]] + rs[1..][..k - 1];
      }
    }
  }

  /** `stop`, wherever it dies, keeps a rule contained, unless the rule is there and this run's
      list of deletions does not name it. A completed `stop` has removed it. */
  lemma StopKeepsContained(e: Env, s: NetState, s1: NetState, died: bool, r: Rule)
    requires StopBody(e, s, s1, died) && Contained(r, s)
    requires r in StopRules(e) || Count(s.tables, r) == 0
    ensures Contained(r, s1) && Count(s1.tables, r) <= Count(s.tables, r)
    ensures !died ==> Count(s1.tables, r) == 0
  {
    var k: nat :| StopTo(e, s, s1, died, k);
    var rs := StopRules(e);
    RuleListsAreDistinct(e);
    DistinctCounts(rs, r, k);
    CountDelAll(rs[..k], s.tables, r);
  }

  lemma BringUpKeepsContained(e: Env, s: NetState, s1: NetState, done: bool, r: Rule)
    requires BringUpRun(e, s, s1, done) && Count(s.tables, r) == 0
    ensures Contained(r, s1)
    ensures s1.up ==> Count(s1.tables, r) == if r in StartRules(e) then 1 else 0
    ensures r !in StartRules(e) ==> Count(s1.tables, r) == 0
  {
    var k: nat :| BringUpTo(e, s, s1, done, k);
    var rs := StartRules(e);
    RuleListsAreDistinct(e);
    DistinctCounts(rs, r, k);
    CountAddAll(rs[..k], s.tables, r);
    if k == 0 { assert rs[..k] == []; }
  }

  lemma RollbackKeepsContained(e: Env, s: NetState, s1: NetState, died: bool, r: Rule)
    requires Rollback(e, s, s1, died) && Contained(r, s)
    requires r in StopRules(e) || Count(s.tables, r) == 0
    ensures Contained(r, s1)
    ensures !died ==> Count(s1.tables, r) == 0 && !s1.up
  {
    if StopBody(e, s, s1, died) {
      StopKeepsContained(e, s, s1, died, r);
    } else {
      var m :| StopBody(e, s, m, false) && StopBody(e, m, s1, died);
      StopKeepsContained(e, s, m, false, r);
      StopKeepsContained(e, m, s1, died, r);
    }
  }

  /** `start` keeps a rule contained however it ends. If it returns, the rule is there exactly
      when the network is up and the run's list names it. */
  lemma StartKeepsContained(e: Env, s: NetState, s1: NetState, x: Exit, r: Rule)
    requires StartRun(e, s, s1, x) && Contained(r, s)
    requires r in StopRules(e) || Count(s.tables, r) == 0
    ensures Contained(r, s1)
    ensures !s.up && x.Zero? ==> s1.up && Count(s1.tables, r) == if r in StartRules(e) then 1 else 0
    ensures !s.up && x.NonZero? ==> !s1.up && Count(s1.tables, r) == 0
  {
    if !s.up {
      RuleListsAreDistinct(e);
      var m, f :| StartVia(e, s, m, f, s1, x);
      if x.Killed? && s.bridge && StopBody(e, s, s1, true) {
        StopKeepsContained(e, s, s1, true, r);
      } else {
        if s.bridge { StopKeepsContained(e, s, m, false, r); }
        assert Count(m.tables, r) == 0;
        if BringUpRun(e, m, f, x.Zero?) && s1 == f {
          BringUpKeepsContained(e, m, f, x.Zero?, r);
        }
        if !x.Zero? && BringUpRun(e, m, f, false) && Rollback(e, f, s1, x.Killed?) {
          BringUpKeepsContained(e, m, f, false, r);
          RollbackKeepsContained(e, f, s1, x.Killed?, r);
        }
      }
    }
  }

  // ----- sequences of runs -----

  datatype Run = Start(env: Env, exit: Exit) | Stop(env: Env, exit: Exit)

  ghost predicate RunStep(run: Run, s: NetState, s1: NetState) {
    match run
    case Start(e, x) => StartRun(e, s, s1, x)
    case Stop(e, x) => StopRun(e, s, s1, x)
  }

  ghost predicate History(runs: seq<Run>, ss: seq<NetState>) {
    |ss| == |runs| + 1 && forall i :: 0 <= i < |runs| ==> RunStep(runs[i], ss[i], ss[i + 1])
  }

  lemma RunKeepsContained(run: Run, s: NetState, s1: NetState, r: Rule)
    requires r in StopRules(run.env)
    requires Contained(r, s)
    requires RunStep(run, s, s1)
    ensures Contained(r, s1)
  {
    match run
    case Start(e, x) => StartKeepsContained(e, s, s1, x, r);
    case Stop(e, x) => if s.up { StopKeepsContained(e, s, s1, x.Killed?, r); }
  }

  /** Over any sequence of runs, each of which may die after any command: a rule that every
      run's deletions name stays contained. That is every IPv4 rule, and the IPv6 rule of a
      network for which each run has LXC_IPV6_NAT=true. */
  lemma RulesStayContained(runs: seq<Run>, ss: seq<NetState>, r: Rule)
    requires History(runs, ss) && Contained(r, ss[0])
    requires r in V4_RULES || forall i :: 0 <= i < |runs| ==> r in StopRules(runs[i].env)
    ensures forall i :: 0 <= i < |ss| ==> Contained(r, ss[i])
  {
    forall i | 0 <= i < |runs| ensures r in StopRules(runs[i].env) {
      RuleListsAreDistinct(runs[i].env);
    }
    forall i | 0 <= i < |ss| ensures Contained(r, ss[i]) {
      StaysContained(runs, ss, r, i);
    }
  }

  lemma {:induction false} StaysContained(runs: seq<Run>, ss: seq<NetState>, r: Rule, i: nat)
    requires History(runs, ss) && Contained(r, ss[0]) && i <= |runs|
    requires forall k :: 0 <= k < |runs| ==> r in StopRules(runs[k].env)
    ensures Contained(r, ss[i])
  {
    if i > 0 {
      StaysContained(runs, ss, r, i - 1);
      assert RunStep(runs[i - 1], ss[i - 1], ss[i - 1 + 1]);
      RunKeepsContained(runs[i - 1], ss[i - 1], ss[i], r);
    }
  }

  // ----- rules and network_up in step -----

  /** Each of these rules is there exactly once if network_up exists and not at all otherwise. */
  ghost predicate Consistent(rs: seq<Rule>, s: NetState) {
    (s.up ==> s.bridge) &&
    forall r :: r in rs ==> Count(s.tables, r) == if s.up then 1 else 0
  }

  lemma BringUpLeavesBridge(e: Env, s: NetState, s1: NetState, x: Exit)
    requires StartRun(e, s, s1, x) && x.Zero? && !s.up
    ensures s1.up && s1.bridge
  {
    var m, f :| StartVia(e, s, m, f, s1, x);
    var k: nat :| BringUpTo(e, m, f, true, k);
  }

  lemma FailedStartIsDown(e: Env, s: NetState, s1: NetState)
    requires StartRun(e, s, s1, NonZero)
    ensures !s1.up
  {
    var m, f :| StartVia(e, s, m, f, s1, NonZero);
    assert Rollback(e, f, s1, false);
  }

  /** One run that returns, for any rules that its bring-up adds. */
  lemma CompleteRunKeepsConsistent(run: Run, rs: seq<Rule>, s: NetState, s1: NetState)
    requires RunStep(run, s, s1) && !run.exit.Killed? && Consistent(rs, s)
    requires forall r :: r in rs ==> r in StartRules(run.env)
    ensures Consistent(rs, s1)
  {
    RuleListsAreDistinct(run.env);
    forall r | r in rs ensures Count(s1.tables, r) == if s1.up then 1 else 0 {
      assert Contained(r, s);
      match run {
        case Start(e, x) => StartKeepsContained(e, s, s1, x, r);
        case Stop(e, x) =>
          if s.up { StopKeepsContained(e, s, s1, false, r); }
      }
    }
    if run.Start? && !s.up {
      if run.exit.Zero? { BringUpLeavesBridge(run.env, s, s1, run.exit); } else { FailedStartIsDown(run.env, s, s1); }
    }
  }

  /** Runs that return, successfully or not, keep rules and network_up in step: every IPv4 rule
      whatever the environments, and every rule of the list, the IPv6 rule included, if all runs
      share one environment. */
  lemma {:induction false} CompleteRunsStayConsistent(runs: seq<Run>, rs: seq<Rule>, ss: seq<NetState>)
    requires History(runs, ss) && Consistent(rs, ss[0])
    requires forall i :: 0 <= i < |runs| ==> !runs[i].exit.Killed?
    requires forall i, r :: 0 <= i < |runs| && r in rs ==> r in StartRules(runs[i].env)
    ensures Consistent(rs, ss[|runs|])
  {
    if runs != [] {
      var n := |runs| - 1;
      assert History(runs[..n], ss[..n + 1]);
      CompleteRunsStayConsistent(runs[..n], rs, ss[..n + 1]);
      CompleteRunKeepsConsistent(runs[n], rs, ss[n], ss[n + 1]);
    }
  }

  /** All rules of one environment, those that only its deletions name included. */
  ghost predicate InStep(e: Env, s: NetState) {
    && Consistent(StartRules(e), s)
    && forall r :: r in StopRules(e) && r !in StartRules(e) ==> Count(s.tables, r) == 0
  }

  lemma CompleteRunKeepsInStep(run: Run, s: NetState, s1: NetState)
    requires RunStep(run, s, s1) && !run.exit.Killed? && InStep(run.env, s)
    ensures InStep(run.env, s1)
  {
    CompleteRunKeepsConsistent(run, StartRules(run.env), s, s1);
    forall r | r in StopRules(run.env) && r !in StartRules(run.env) ensures Count(s1.tables, r) == 0 {
      match run {
        case Start(e, x) => StartKeepsContained(e, s, s1, x, r);
        case Stop(e, x) =>
          if s.up { StopKeepsContained(e, s, s1, false, r); }
      }
    }
  }

  // ----- is `start` idempotent? -----

  /** What a successful `start` is worth: its rules are in place exactly if network_up was missing,
      so that it did its work, or if everything had been in place already. */
  lemma StartRestoresIff(e: Env, rs: seq<Rule>, s: NetState, s1: NetState)
    requires StartRun(e, s, s1, Zero) && forall r :: r in rs ==> Contained(r, s) && r in StartRules(e)
    ensures Consistent(rs, s1) && s1.up <==> !s.up || Consistent(rs, s)
  {
    if !s.up {
      RuleListsAreDistinct(e);
      BringUpLeavesBridge(e, s, s1, Zero);
      forall r | r in rs ensures Count(s1.tables, r) == 1 {
        StartKeepsContained(e, s, s1, Zero, r);
      }
    }
  }

  /** The failing input: `stop` dies after its first deletion, and the next `start` returns success
      with that rule missing. */
  lemma DeadStopMisleadsStart(e: Env, s0: NetState) returns (s1: NetState, s2: NetState)
    requires !s0.up && !s0.bridge && forall r :: r in StopRules(e) ==> Count(s0.tables, r) == 0
    ensures History([Start(e, Zero), Stop(e, Killed), Start(e, Zero)], [s0, s1, s2, s2])
    ensures s2.up && Count(s2.tables, InUdp67) == 0 && !Consistent(StartRules(e), s2)
  {
    var rules := StopRules(e);
    s1 := FullStart(e, s0);
    s2 := NetState(true, true, Del(InUdp67, s1.tables));
    RuleListsAreDistinct(e);
    assert rules[0] == InUdp67;
    assert rules[..1] == [InUdp67] && [InUdp67][1..] == [];
    assert StopTo(e, s1, s2, true, 1);
    assert InUdp67 in V4_RULES;
    StartKeepsContained(e, s0, s1, Zero, InUdp67);
    CountDel(InUdp67, s1.tables, InUdp67);
  }

  /** A `start` that goes through from nothing. */
  lemma FullStart(e: Env, s0: NetState) returns (s1: NetState)
    requires !s0.up && !s0.bridge
    ensures s1 == NetState(true, true, AddAll(StartRules(e), s0.tables)) && StartRun(e, s0, s1, Zero)
  {
    s1 := NetState(true, true, AddAll(StartRules(e), s0.tables));
    assert StartRules(e)[..|StartRules(e)|] == StartRules(e);
    assert BringUpTo(e, s0, s1, true, |StartRules(e)|);
    assert StartVia(e, s0, s0, s1, s1, Zero);
  }

  /** After runs that died anywhere, a `stop` that returns and a successful `start` restore every
      rule that both name. */
  lemma StopStartRecovers(e1: Env, x: Exit, e2: Env, rs: seq<Rule>, s: NetState, m: NetState, s1: NetState)
    requires forall r :: r in rs ==> Contained(r, s) && r in StopRules(e1) && r in StartRules(e2)
    requires StopRun(e1, s, m, x) && !x.Killed? && StartRun(e2, m, s1, Zero)
    ensures Consistent(rs, s1) && s1.up
  {
    forall r | r in rs ensures Contained(r, m) {
      if s.up { StopKeepsContained(e1, s, m, false, r); }
    }
    if s.up {
      var k: nat :| StopTo(e1, s, m, false, k);
    }
    StartRestoresIff(e2, rs, m, s1);
  }

  /** What one `stop` that returns is worth: all its rules are gone exactly if network_up existed or
      none was there. */
  lemma StopClearsIff(e: Env, s: NetState, s1: NetState, x: Exit)
    requires StopRun(e, s, s1, x) && !x.Killed? && forall r :: r in StopRules(e) ==> Contained(r, s)
    ensures Cleared(e, s1) <==> s.up || Cleared(e, s)
  {
    if s.up {
      forall r | r in StopRules(e) ensures Count(s1.tables, r) == 0 {
        StopKeepsContained(e, s, s1, false, r);
      }
    }
  }

  ghost predicate Cleared(e: Env, s: NetState) {
    forall r :: r in StopRules(e) ==> Count(s.tables, r) == 0
  }

  /** The failing input: `start` dies between its rules and network_up, and `stop` then refuses to do
      anything, so that bridge and rules stay. */
  lemma DeadStartSurvivesStop(e: Env, s0: NetState) returns (s1: NetState)
    requires !s0.up && !s0.bridge && Cleared(e, s0)
    ensures History([Start(e, Killed), Stop(e, NonZero)], [s0, s1, s1])
    ensures s1.bridge && !s1.up && forall r :: r in StartRules(e) ==> Count(s1.tables, r) == 1
  {
    var full := FullStart(e, s0);
    s1 := full.(up := false);
    assert StartRules(e)[..|StartRules(e)|] == StartRules(e);
    assert BringUpTo(e, s0, s1, false, |StartRules(e)|);
    assert StartVia(e, s0, s0, s1, s1, Killed);
    RuleListsAreDistinct(e);
    forall r | r in StartRules(e) ensures Count(s1.tables, r) == 1 {
      StartKeepsContained(e, s0, full, Zero, r);
    }
  }

  // ----- everybody else's rules -----

  lemma StopKeepsOthers(e: Env, s: NetState, s1: NetState, died: bool, rs: seq<Rule>)
    requires StopBody(e, s, s1, died) && forall r :: r in StopRules(e) ==> r in rs
    ensures SameOthers(rs, s.tables, s1.tables)
  {
    var k: nat :| StopTo(e, s, s1, died, k);
    DelAllKeepsOthers(rs, StopRules(e)[..k], s.tables);
  }

  lemma BringUpKeepsOthers(e: Env, s: NetState, s1: NetState, done: bool, rs: seq<Rule>)
    requires BringUpRun(e, s, s1, done) && forall r :: r in StopRules(e) ==> r in rs
    ensures SameOthers(rs, s.tables, s1.tables)
  {
    var k: nat :| BringUpTo(e, s, s1, done, k);
    RuleListsAreDistinct(e);
    assert forall r :: r in StartRules(e)[..k] ==> r in StartRules(e);
    AddAllKeepsOthers(rs, StartRules(e)[..k], s.tables);
  }

  lemma RollbackKeepsOthers(e: Env, s: NetState, s1: NetState, died: bool, rs: seq<Rule>)
    requires Rollback(e, s, s1, died) && forall r :: r in StopRules(e) ==> r in rs
    ensures SameOthers(rs, s.tables, s1.tables)
  {
    if StopBody(e, s, s1, died) {
      StopKeepsOthers(e, s, s1, died, rs);
    } else {
      var m :| StopBody(e, s, m, false) && StopBody(e, m, s1, died);
      StopKeepsOthers(e, s, m, false, rs);
      StopKeepsOthers(e, m, s1, died, rs);
    }
  }

  lemma StartKeepsOthers(e: Env, s: NetState, s1: NetState, x: Exit, rs: seq<Rule>)
    requires StartRun(e, s, s1, x) && forall r :: r in StopRules(e) ==> r in rs
    ensures SameOthers(rs, s.tables, s1.tables)
  {
    if !s.up {
      var m, f :| StartVia(e, s, m, f, s1, x);
      if x.Killed? && s.bridge && StopBody(e, s, s1, true) {
        StopKeepsOthers(e, s, s1, true, rs);
      } else {
        if s.bridge { StopKeepsOthers(e, s, m, false, rs); }
        if !x.NonZero? && s1 == f && BringUpRun(e, m, f, x.Zero?) {
          BringUpKeepsOthers(e, m, f, x.Zero?, rs);
        } else {
          BringUpKeepsOthers(e, m, f, false, rs);
          RollbackKeepsOthers(e, f, s1, x.Killed?, rs);
        }
      }
    }
  }

  lemma RunKeepsOthers(run: Run, s: NetState, s1: NetState, rs: seq<Rule>)
    requires RunStep(run, s, s1) && forall r :: r in StopRules(run.env) ==> r in rs
    ensures SameOthers(rs, s.tables, s1.tables)
  {
    match run
    case Start(e, x) => StartKeepsOthers(e, s, s1, x, rs);
    case Stop(e, x) => if s.up { StopKeepsOthers(e, s, s1, x.Killed?, rs); }
  }

  /** Over any sequence of runs, wherever they die, all other rules stay as they are and where they
      are in every chain; and once none of the script's rules is left, every chain is exactly what it
      was before the first run. */
  lemma {:induction false} RunsKeepOthers(runs: seq<Run>, ss: seq<NetState>, rs: seq<Rule>)
    requires History(runs, ss)
    requires forall i, r :: 0 <= i < |runs| && r in StopRules(runs[i].env) ==> r in rs
    ensures SameOthers(rs, ss[0].tables, ss[|runs|].tables)
    ensures (forall r :: r in rs ==> Count(ss[0].tables, r) == 0 && Count(ss[|runs|].tables, r) == 0) ==>
              ss[|runs|].tables == ss[0].tables
  {
    if runs != [] {
      var n := |runs| - 1;
      assert History(runs[..n], ss[..n + 1]);
      RunsKeepOthers(runs[..n], ss[..n + 1], rs);
      RunKeepsOthers(runs[n], ss[n], ss[n + 1], rs);
    }
    if forall r :: r in rs ==> Count(ss[0].tables, r) == 0 && Count(ss[|runs|].tables, r) == 0 {
      NoneLeftIsSame(rs, ss[0].tables, ss[|runs|].tables);
    }
  }

  // ----- a rule without its bridge -----

  /** One run of either kind, however it ends: a contained rule is contained afterwards exactly if there
      still is a bridge, or the rule was not there, or this run's deletions name it. */
  lemma ContainedIff(run: Run, s: NetState, s1: NetState, r: Rule)
    requires Contained(r, s)
    requires RunStep(run, s, s1)
    ensures Contained(r, s1) <==> s1.bridge || Count(s.tables, r) == 0 || r in StopRules(run.env)
  {
    if r in StopRules(run.env) {
      RunKeepsContained(run, s, s1, r);
    } else {
      RunKeepsOthers(run, s, s1, StopRules(run.env));
      SameOthersCount(StopRules(run.env), s.tables, s1.tables, r);
    }
  }

  /** No run takes the bridge away from under the rule without deleting it. */
  ghost predicate NeverStranded(runs: seq<Run>, ss: seq<NetState>, r: Rule)
    requires |ss| == |runs| + 1
  {
    forall i :: 0 <= i < |runs| ==>
      ss[i + 1].bridge || Count(ss[i].tables, r) == 0 || r in StopRules(runs[i].env)
  }

  /** Over any sequence of runs, wherever they die, for every rule: it stays contained exactly if it is
      never stranded. */
  lemma RulesStayContainedIff(runs: seq<Run>, ss: seq<NetState>, r: Rule)
    requires History(runs, ss) && Contained(r, ss[0])
    ensures (forall i :: 0 <= i < |ss| ==> Contained(r, ss[i])) <==> NeverStranded(runs, ss, r)
  {
    if NeverStranded(runs, ss, r) {
      forall i | 0 <= i < |ss| ensures Contained(r, ss[i]) { ContainedUpTo(runs, ss, r, i); }
    }
    if forall i :: 0 <= i < |ss| ==> Contained(r, ss[i]) {
      forall i | 0 <= i < |runs|
        ensures ss[i + 1].bridge || Count(ss[i].tables, r) == 0 || r in StopRules(runs[i].env)
      {
        ContainedIff(runs[i], ss[i], ss[i + 1], r);
      }
    }
  }

  lemma {:induction false} ContainedUpTo(runs: seq<Run>, ss: seq<NetState>, r: Rule, i: nat)
    requires History(runs, ss) && Contained(r, ss[0]) && NeverStranded(runs, ss, r) && i <= |runs|
    ensures Contained(r, ss[i])
  {
    if i > 0 {
      ContainedUpTo(runs, ss, r, i - 1);
      assert RunStep(runs[i - 1], ss[i - 1], ss[i - 1 + 1]);
      assert ss[i - 1 + 1].bridge || Count(ss[i - 1].tables, r) == 0 || r in StopRules(runs[i - 1].env);
      ContainedIff(runs[i - 1], ss[i - 1], ss[i], r);
    }
  }

  /** For the IPv6 rule: it outlives its bridge exactly if it is there and the run that takes the bridge
      away, a `stop` or a `start` with its `stop force`, is without LXC_IPV6_NAT=true for that
      network. */
  lemma Ipv6RuleLeak(run: Run, s: NetState, s1: NetState, network: string)
    requires Contained(Masquerade6(network), s)
    requires RunStep(run, s, s1)
    ensures Contained(Masquerade6(network), s1) <==>
            || s1.bridge || Count(s.tables, Masquerade6(network)) == 0
            || (run.env.nat6 && run.env.network6 == network)
  {
    ContainedIff(run, s, s1, Masquerade6(network));
    NamedByStop(run.env, network);
  }

  lemma NamedByStop(e: Env, network: string)
    ensures Masquerade6(network) in StopRules(e) <==> e.nat6 && e.network6 == network
  {
    V4RulesAreDistinct();
  }

  /** The leak over a whole life: a `start` with IPv6 NAT, then a `stop` without. */
  lemma Ipv6LeaksOverStartAndStop(network: string, e: Env, s0: NetState) returns (s1: NetState, s2: NetState)
    requires !s0.up && !s0.bridge && Cleared(Env(true, true, network), s0) && !e.nat6
    ensures History([Start(Env(true, true, network), Zero), Stop(e, Zero)], [s0, s1, s2])
    ensures !s2.bridge && !s2.up && !Contained(Masquerade6(network), s2)
  {
    var e6, r := Env(true, true, network), Masquerade6(network);
    s1 := FullStart(e6, s0);
    s2 := FullStop(e, s1);
    RuleListsAreDistinct(e6);
    assert StartRules(e6)[0] == r;
    StartKeepsContained(e6, s0, s1, Zero, r);
    assert RunStep(Stop(e, Zero), s1, s2);
    Ipv6RuleLeak(Stop(e, Zero), s1, s2, network);
  }

  /** A `stop` that goes through and deletes the bridge. */
  lemma FullStop(e: Env, s: NetState) returns (s1: NetState)
    requires s.up && s.bridge
    ensures s1 == NetState(false, false, DelAll(StopRules(e), s.tables)) && StopRun(e, s, s1, Zero)
  {
    s1 := NetState(false, false, DelAll(StopRules(e), s.tables));
    assert StopRules(e)[..|StopRules(e)|] == StopRules(e);
    assert StopTo(e, s, s1, false, |StopRules(e)|);
  }

  /** The same by a `start`: after one with IPv6 NAT that was killed, one without removes the stale
      bridge, and then fails to create its own. */
  lemma Ipv6LeaksOverFailedStart(network: string, e: Env, s0: NetState) returns (s1: NetState, s2: NetState)
    requires !s0.up && !s0.bridge && Cleared(Env(true, true, network), s0) && !e.nat6
    ensures History([Start(Env(true, true, network), Killed), Start(e, NonZero)], [s0, s1, s2])
    ensures !s2.bridge && !s2.up && !Contained(Masquerade6(network), s2)
  {
    var e6, r := Env(true, true, network), Masquerade6(network);
    s1 := DeadStartSurvivesStop(e6, s0);
    assert StartRules(e6)[0] == r;
    s2 := StaleBridgeGoes(e, s1);
    assert History([Start(e6, Killed), Stop(e6, NonZero)], [s0, s1, s1]);
    assert RunStep(Start(e6, Killed), [s0, s1, s1][0], [s0, s1, s1][1]);
    Ipv6RuleLeak(Start(e, NonZero), s1, s2, network);
  }

  /** A `start` that removes a stale bridge and fails at its first command. */
  lemma StaleBridgeGoes(e: Env, s: NetState) returns (s1: NetState)
    requires !s.up && s.bridge
    ensures s1 == NetState(false, false, DelAll(StopRules(e), s.tables)) && StartRun(e, s, s1, NonZero)
  {
    s1 := NetState(false, false, DelAll(StopRules(e), s.tables));
    assert StopRules(e)[..|StopRules(e)|] == StopRules(e) && StopRules(e)[..0] == [] && StartRules(e)[..0] == [];
    assert StopTo(e, s, s1, false, |StopRules(e)|);
    assert StopTo(e, s1, s1, false, 0);
    assert BringUpTo(e, s1, s1, false, 0);
    assert StartVia(e, s, s1, s1, s1, NonZero);
  }

  // ----- the rules themselves -----

  function Reversed(rs: seq<Rule>): seq<Rule> {
    if rs == [] then [] else Reversed(rs[1..]) + [rs[0]]
  }

  ghost predicate AllIn(rs: seq<Rule>, c: Chain) {
    (c == Input || c == Forward) && forall i :: 0 <= i < |rs| ==> Home(rs[i]) == c
  }

  /** Rules that are prepended to one chain end up there newest first. */
  lemma {:induction false} AddPrepended(rs: seq<Rule>, c: Chain, t: Tables)
    requires AllIn(rs, c)
    ensures AddAll(rs, t) == t.With(c, Reversed(rs) + t.Of(c))
  {
    if rs == [] {
      assert [] + t.Of(c) == t.Of(c);
      SameWith(t, c);
    } else {
      var t1 := Add(rs[0], t);
      AddPrepended(rs[1..], c, t1);
      PrependThen(rs[0], c, t, t1, Reversed(rs[1..]));
    }
  }

  lemma PrependThen(x: Rule, c: Chain, t: Tables, t1: Tables, more: seq<Rule>)
    requires (c == Input || c == Forward) && Home(x) == c && t1 == Add(x, t)
    ensures t1.With(c, more + t1.Of(c)) == t.With(c, (more + [x]) + t.Of(c))
  {
    OfWith(t, c, [x] + t.Of(c), c);
    assert more + ([x] + t.Of(c)) == (more + [x]) + t.Of(c);
    WithTwice(t, c, [x] + t.Of(c), more + t1.Of(c));
  }

  lemma WithTwice(t: Tables, c: Chain, a: seq<Rule>, b: seq<Rule>)
    ensures t.With(c, a).With(c, b) == t.With(c, b)
  {}

  lemma ReversedTwo(a: Rule, b: Rule)
    ensures Reversed([a, b]) == [b, a]
  {
    assert [a, b][1..] == [b] && [b][1..] == [];
    assert Reversed([b]) == [] + [b];
  }

  lemma ReversedFour(a: Rule, b: Rule, c: Rule, d: Rule)
    ensures Reversed([a, b, c, d]) == [d, c, b, a]
  {
    assert [a, b, c, d][1..] == [b, c, d] && [b, c, d][1..] == [c, d];
    ReversedTwo(c, d);
  }

  lemma AddOne(x: Rule, t: Tables)
    ensures AddAll([x], t) == Add(x, t)
  {
    assert [x][1..] == [];
  }

  lemma InputRules(t: Tables)
    ensures AddAll([InUdp67, InTcp67, InUdp53, InTcp53], t) ==
            t.(input := [InTcp53, InUdp53, InTcp67, InUdp67] + t.input)
  {
    AddPrepended([InUdp67, InTcp67, InUdp53, InTcp53], Input, t);
    ReversedFour(InUdp67, InTcp67, InUdp53, InTcp53);
  }

  lemma ForwardRules(t: Tables)
    ensures AddAll([ForwardIn, ForwardOut], t) == t.(forward := [ForwardOut, ForwardIn] + t.forward)
  {
    AddPrepended([ForwardIn, ForwardOut], Forward, t);
    ReversedTwo(ForwardIn, ForwardOut);
  }

  lemma PostroutingRules(t: Tables)
    ensures AddAll([Masquerade] + [DhcpChecksum], t) ==
            t.(nat4 := t.nat4 + [Masquerade], mangle := t.mangle + [DhcpChecksum])
  {
    AddAllAppend([Masquerade], [DhcpChecksum], t);
    AddOne(Masquerade, t);
    AddOne(DhcpChecksum, t.(nat4 := t.nat4 + [Masquerade]));
  }

  lemma V4Chains(v4: seq<Rule>, t: Tables)
    requires v4 == V4_RULES
    ensures AddAll(v4, t) == Tables(
              [InTcp53, InUdp53, InTcp67, InUdp67] + t.input, [ForwardOut, ForwardIn] + t.forward,
              t.nat4 + [Masquerade], t.mangle + [DhcpChecksum], t.nat6)
  {
    var input, forward := [InUdp67, InTcp67, InUdp53, InTcp53], [ForwardIn, ForwardOut];
    var postrouting := [Masquerade] + [DhcpChecksum];
    assert v4 == input + (forward + postrouting);
    AddAllAppend(input, forward + postrouting, t);
    InputRules(t);
    var t1 := t.(input := [InTcp53, InUdp53, InTcp67, InUdp67] + t.input);
    AddAllAppend(forward, postrouting, t1);
    ForwardRules(t1);
    PostroutingRules(t1.(forward := [ForwardOut, ForwardIn] + t1.forward));
  }

  /** What a completed `start` has put into each chain, newest first where it prepends. */
  lemma StartedChains(e: Env, t: Tables)
    ensures AddAll(StartRules(e), t) == Tables(
              [InTcp53, InUdp53, InTcp67, InUdp67] + t.input, [ForwardOut, ForwardIn] + t.forward,
              t.nat4 + [Masquerade], t.mangle + [DhcpChecksum],
              t.nat6 + if e.v6 && e.nat6 then [Masquerade6(e.network6)] else [])
  {
    var r := Masquerade6(e.network6);
    var six := if e.v6 && e.nat6 then [r] else [];
    AddAllAppend(six, V4_RULES, t);
    AddOne(r, t);
    var t0 := t.(nat6 := t.nat6 + six);
    assert t.nat6 + [] == t.nat6;
    assert AddAll(six, t) == t0;
    V4Chains(V4_RULES, t0);
  }

  // ----- rollback -----

  lemma StopAfterBringUpTo(e: Env, m: NetState, f: NetState, g: NetState, done: bool)
    requires BringUpRun(e, m, f, done) && StopBody(e, f, g, false)
    requires forall r :: r in StopRules(e) ==> Count(m.tables, r) == 0
    ensures g.tables == m.tables
  {
    var k: nat :| BringUpTo(e, m, f, done, k);
    var j: nat :| StopTo(e, f, g, false, j);
    var rs, ds := StartRules(e)[..k], StopRules(e);
    RuleListsAreDistinct(e);
    assert forall r :: r in rs ==> r in StartRules(e);
    if f.bridge {
      assert ds[..j] == ds;
      DeletesUndoAdds(ds, rs, m.tables);
    } else {
      assert rs == [] && ds[..j] == [];
    }
  }

  lemma {:induction false} DeletesOfAbsent(ds: seq<Rule>, t: Tables)
    requires forall r :: r in ds ==> Count(t, r) == 0
    ensures DelAll(ds, t) == t
  {
    if ds != [] {
      assert ds[0] in ds;
      CountDel(ds[0], t, ds[0]);
      DeletesOfAbsent(ds[1..], t);
    }
  }

  lemma StopOfAbsent(e: Env, s: NetState, s1: NetState, died: bool)
    requires StopBody(e, s, s1, died)
    requires forall r :: r in StopRules(e) ==> Count(s.tables, r) == 0
    ensures s1.tables == s.tables
  {
    var k: nat :| StopTo(e, s, s1, died, k);
    DeletesOfAbsent(StopRules(e)[..k], s.tables);
  }

  /** A `start` that fails at any command and returns gives every chain back exactly, whatever
      foreign rules it holds, if none of the script's rules was there before. */
  lemma FailedStartRestores(e: Env, s: NetState, s1: NetState)
    requires StartRun(e, s, s1, NonZero)
    requires forall r :: r in StopRules(e) ==> Count(s.tables, r) == 0
    ensures s1.tables == s.tables && !s1.up
  {
    var m, f :| StartVia(e, s, m, f, s1, NonZero);
    if s.bridge { StopOfAbsent(e, s, m, false); }
    assert m.tables == s.tables;
    if StopBody(e, f, s1, false) {
      StopAfterBringUpTo(e, m, f, s1, false);
    } else {
      var g :| StopBody(e, f, g, false) && StopBody(e, g, s1, false);
      StopAfterBringUpTo(e, m, f, g, false);
      StopOfAbsent(e, g, s1, false);
    }
  }

  // ----- stop_iptables after start_iptables, with identical foreign rules around -----

  function Again(r: Rule, s: seq<Rule>): seq<Rule> { RemoveFirst(s + [r], r) }

  lemma {:induction false} ChurnAppend(a: seq<Rule>, b: seq<Rule>, t: Tables)
    ensures Churn(a + b, t) == Churn(b, Churn(a, t))
  {
    if a == [] {
      assert a + b == b;
    } else {
      assert (a + b)[1..] == a[1..] + b;
      ChurnAppend(a[1..], b, Del(a[0], Add(a[0], t)));
    }
  }

  lemma {:induction false} ChurnPrepended(rs: seq<Rule>, t: Tables)
    requires forall r :: r in rs ==> Prepended(r)
    ensures Churn(rs, t) == t
  {
    if rs != [] {
      DelAfterAdd(rs[0], t);
      ChurnPrepended(rs[1..], t);
    }
  }

  lemma ChurnOne(r: Rule, t: Tables)
    ensures Churn([r], t) == Del(r, Add(r, t))
  {
    assert [r][1..] == [];
  }

  lemma ChurnMasquerade(t: Tables)
    ensures Churn([Masquerade], t) == t.(nat4 := Again(Masquerade, t.nat4))
  {
    ChurnOne(Masquerade, t);
  }

  lemma ChurnChecksum(t: Tables)
    ensures Churn([DhcpChecksum], t) == t.(mangle := Again(DhcpChecksum, t.mangle))
  {
    ChurnOne(DhcpChecksum, t);
  }

  lemma ChurnPair(t: Tables)
    ensures Churn([Masquerade] + [DhcpChecksum], t) ==
            t.(nat4 := Again(Masquerade, t.nat4), mangle := Again(DhcpChecksum, t.mangle))
  {
    ChurnAppend([Masquerade], [DhcpChecksum], t);
    ChurnMasquerade(t);
    ChurnChecksum(t.(nat4 := Again(Masquerade, t.nat4)));
  }

  lemma ChurnSteps(t: Tables)
    ensures Churn(V4_RULES, t) ==
            t.(nat4 := Again(Masquerade, t.nat4), mangle := Again(DhcpChecksum, t.mangle))
  {
    var filter := [InUdp67, InTcp67, InUdp53, InTcp53, ForwardIn, ForwardOut];
    var appended := [Masquerade] + [DhcpChecksum];
    assert V4_RULES == filter + appended;
    ChurnAppend(filter, appended, t);
    ChurnPrepended(filter, t);
    ChurnPair(t);
  }

  lemma V4Undone(v4: seq<Rule>, t: Tables)
    requires v4 == V4_RULES
    ensures DelAll(v4, AddAll(v4, t)) ==
            t.(nat4 := Again(Masquerade, t.nat4), mangle := Again(DhcpChecksum, t.mangle))
  {
    assert Distinct(V4_RULES);
    DeleteAllAfterAddAll(v4, t);
    ChurnSteps(t);
  }

  /** Without IPv6: INPUT and FORWARD come back as exact sequences even when identical foreign
      rules are already there, the POSTROUTING chains as multisets, and in the same order exactly
      when everything from the first identical rule on is that rule. */
  lemma StopUndoesStart(t: Tables)
    ensures var t1 := DelAll(V4_RULES, AddAll(V4_RULES, t));
            && t1.input == t.input && t1.forward == t.forward && t1.nat6 == t.nat6
            && multiset(t1.nat4) == multiset(t.nat4) && multiset(t1.mangle) == multiset(t.mangle)
            && (t1 == t <==> EndsIn(t.nat4, Masquerade) && EndsIn(t.mangle, DhcpChecksum))
  {
    V4Undone(V4_RULES, t);
    AppendDeleteExact(t.nat4, Masquerade);
    AppendDeleteExact(t.mangle, DhcpChecksum);
  }

  /** With LXC_IPV6_NAT=true: the IPv4 chains as above, and the IPv6 chain as a multiset if the
      addresses were set. If they were not, `start` adds nothing there but `stop` still deletes
      one identical foreign rule, so the chain survives exactly when there is none. */
  lemma StopUndoesStart6(e: Env, t: Tables)
    requires e.nat6
    ensures var r := Masquerade6(e.network6);
            var t1 := DelAll(StopRules(e), AddAll(StartRules(e), t));
            && t1.input == t.input && t1.forward == t.forward
            && t1.nat4 == Again(Masquerade, t.nat4) && t1.mangle == Again(DhcpChecksum, t.mangle)
            && (multiset(t1.nat6) == multiset(t.nat6) <==> e.v6 || r !in t.nat6)
  {
    StopAfterStart6(e, t);
    ChainAgain(e.v6, t.nat6, Masquerade6(e.network6));
  }

  lemma StopAfterStart6(e: Env, t: Tables)
    requires e.nat6
    ensures var r := Masquerade6(e.network6);
            DelAll(StopRules(e), AddAll(StartRules(e), t)) ==
            t.(nat4 := Again(Masquerade, t.nat4), mangle := Again(DhcpChecksum, t.mangle),
               nat6 := RemoveFirst(if e.v6 then t.nat6 + [r] else t.nat6, r))
  {
    var r := Masquerade6(e.network6);
    var t0 := if e.v6 then Add(r, t) else t;
    var t1 := t0.(nat4 := Again(Masquerade, t0.nat4), mangle := Again(DhcpChecksum, t0.mangle));
    Rule6Around(r, V4_RULES, e.v6, t);
    V4Undone(V4_RULES, t0);
    assert StopRules(e) == V4_RULES + [r];
    assert StartRules(e) == (if e.v6 then [r] else []) + V4_RULES;
    assert DelAll(StopRules(e), AddAll(StartRules(e), t)) == Del(r, t1);
    assert t0 == t.(nat6 := if e.v6 then t.nat6 + [r] else t.nat6);
    Del6(r, t1);
  }

  lemma Del6(r: Rule, t: Tables)
    requires r.Masquerade6?
    ensures Del(r, t) == t.(nat6 := RemoveFirst(t.nat6, r))
  {}

  lemma Rule6Around(r: Rule, vs: seq<Rule>, added: bool, t: Tables)
    ensures DelAll(vs + [r], AddAll((if added then [r] else []) + vs, t)) ==
            Del(r, DelAll(vs, AddAll(vs, if added then Add(r, t) else t)))
  {
    AddAllAppend([r], vs, t);
    assert [r][1..] == [];
    assert [] + vs == vs;
    DelAllAppend(vs, [r], AddAll(vs, if added then Add(r, t) else t));
  }

  lemma ChainAgain(added: bool, s: seq<Rule>, r: Rule)
    ensures multiset(RemoveFirst(if added then s + [r] else s, r)) == multiset(s) <==> added || r !in s
  {
    RemoveFirstCounts(s + [r], r);
    RemoveFirstCounts(s, r);
    if r in s {
      assert multiset(s)[r] > 0;
      assert (multiset(s) - multiset{r})[r] == multiset(s)[r] - 1;
    }
  }

  lemma {:induction false} AddAllAppend(a: seq<Rule>, b: seq<Rule>, t: Tables)
    ensures AddAll(a + b, t) == AddAll(b, AddAll(a, t))
  {
    if a == [] {
      assert a + b == b;
    } else {
      assert (a + b)[1..] == a[1..] + b;
      AddAllAppend(a[1..], b, Add(a[0], t));
    }
  }

  lemma {:induction false} DelAllAppend(a: seq<Rule>, b: seq<Rule>, t: Tables)
    ensures DelAll(a + b, t) == DelAll(b, DelAll(a, t))
  {
    if a == [] {
      assert a + b == b;
    } else {
      assert (a + b)[1..] == a[1..] + b;
      DelAllAppend(a[1..], b, Del(a[0], t));
    }
  }
}
