/** kill_command and kill_process_tree of tools/helpers/run_core.py. */
module ProcessTree {

  /** One line of `ps -e -o pid,ppid`. */
  datatype Row = Row(pid: string, ppid: string)

  /** `q` is reached from `p` by `n` steps from parent to child. */
  ghost predicate Reach(ps: seq<Row>, p: string, q: string, n: nat)
    decreases n
  {
    if n == 0 then p == q
    else exists i :: 0 <= i < |ps| && ps[i].pid == q && Reach(ps, p, ps[i].ppid, n - 1)
  }

  /** `q` is a child of `p`, or a child's child, and so on. */
  ghost predicate Descends(ps: seq<Row>, p: string, q: string) {
    exists n: nat :: n > 0 && Reach(ps, p, q, n)
  }

  ghost predicate Acyclic(ps: seq<Row>) {
    forall p :: !Descends(ps, p, p)
  }

  ghost predicate DistinctPids(ps: seq<Row>) {
    forall i, j :: 0 <= i < j < |ps| ==> ps[i].pid != ps[j].pid
  }

  ghost function Descendants(ps: seq<Row>, p: string): set<string> {
    set i | 0 <= i < |ps| && Descends(ps, p, ps[i].pid) :: ps[i].pid
  }

  lemma {:induction false} ReachJoin(ps: seq<Row>, p: string, q: string, r: string, m: nat, n: nat)
    requires Reach(ps, p, q, m) && Reach(ps, q, r, n)
    ensures Reach(ps, p, r, m + n)
    decreases n
  {
    if n > 0 {
      var i :| 0 <= i < |ps| && ps[i].pid == r && Reach(ps, q, ps[i].ppid, n - 1);
      ReachJoin(ps, p, q, ps[i].ppid, m, n - 1);
    }
  }

  lemma ChildReached(ps: seq<Row>, i: nat)
    requires i < |ps|
    ensures Reach(ps, ps[i].ppid, ps[i].pid, 1) && Descends(ps, ps[i].ppid, ps[i].pid)
  {
    assert Reach(ps, ps[i].ppid, ps[i].ppid, 0);
  }

  /** A child's descendants are fewer than its parent's: the measure of the recursion. */
  lemma ChildHasFewer(ps: seq<Row>, i: nat)
    requires Acyclic(ps) && i < |ps|
    ensures Descendants(ps, ps[i].pid) < Descendants(ps, ps[i].ppid)
  {
    ChildReached(ps, i);
    forall q | q in Descendants(ps, ps[i].pid) ensures q in Descendants(ps, ps[i].ppid) {
      var n: nat :| n > 0 && Reach(ps, ps[i].pid, q, n);
      ReachJoin(ps, ps[i].ppid, ps[i].pid, q, 1, n);
    }
    assert ps[i].pid in Descendants(ps, ps[i].ppid);
  }

  /** The kills of kill_process_tree, in order. */
  ghost function KillOrder(ps: seq<Row>, p: string): seq<string>
    requires Acyclic(ps)
    decreases Descendants(ps, p), |ps| + 1
  {
    [p] + KillChildren(ps, p, |ps|)
  }

  /** ... of its loop, over the first `n` rows. */
  ghost function KillChildren(ps: seq<Row>, p: string, n: nat): seq<string>
    requires Acyclic(ps) && n <= |ps|
    decreases Descendants(ps, p), n
  {
    if n == 0 then []
    else KillChildren(ps, p, n - 1) +
         if ps[n - 1].ppid == p then ChildHasFewer(ps, n - 1); KillOrder(ps, ps[n - 1].pid) else []
  }

  class Killer {
    /** Every pid a `kill -9` was run for, oldest first; its exit code is not looked at. */
    var killed: seq<string>

    constructor ()
      ensures killed == []
    {
      killed := [];
    }

    method KillProcessTree(pid: string, ppids: seq<Row>)
      requires Acyclic(ppids)
      modifies this
      ensures killed == old(killed) + KillOrder(ppids, pid)
      decreases Descendants(ppids, pid)
    {
      killed := killed + [pid];
      for i := 0 to |ppids|
        invariant killed == old(killed) + ([pid] + KillChildren(ppids, pid, i))
      {
        if ppids[i].ppid == pid {
          ChildHasFewer(ppids, i);
          KillProcessTree(ppids[i].pid, ppids);
        }
      }
    }

    /** `rows` are the lines of ps split into words; a line that is not a pair raises before
        anything is killed. */
    method KillCommand(pid: string, rows: seq<seq<string>>) returns (raised: bool)
      requires Acyclic(Pairs(rows))
      modifies this
      ensures raised <==> exists i :: 0 <= i < |rows| && |rows[i]| != 2
      ensures killed == if raised then old(killed) else old(killed) + KillOrder(Pairs(rows), pid)
    {
      var ppids := [];
      for i := 0 to |rows|
        invariant killed == old(killed)
        invariant ppids == Pairs(rows[..i])
        invariant forall j :: 0 <= j < i ==> |rows[j]| == 2
      {
        if |rows[i]| != 2 { return true; }
        assert rows[..i + 1][..i] == rows[..i];
        ppids := ppids + [Row(rows[i][0], rows[i][1])];
      }
      assert rows[..|rows|] == rows;
      KillProcessTree(pid, ppids);
      return false;
    }
  }

  function Pairs(rows: seq<seq<string>>): seq<Row> {
    if rows == [] then []
    else
      var last := rows[|rows| - 1];
      Pairs(rows[..|rows| - 1]) + if |last| == 2 then [Row(last[0], last[1])] else []
  }

  /** The first column is the pid, the second the parent's, line by line. */
  lemma {:induction false} PairsAreRows(rows: seq<seq<string>>)
    requires forall i :: 0 <= i < |rows| ==> |rows[i]| == 2
    ensures |Pairs(rows)| == |rows|
    ensures forall i :: 0 <= i < |rows| ==> Pairs(rows)[i] == Row(rows[i][0], rows[i][1])
  {
    if rows != [] {
      var n := |rows| - 1;
      PairsAreRows(rows[..n]);
      assert forall i :: 0 <= i < n ==> rows[..n][i] == rows[i];
    }
  }

  // ----- which pids, how often, in which order -----

  lemma {:induction false} FirstStep(ps: seq<Row>, p: string, q: string, n: nat) returns (i: nat)
    requires n > 0 && Reach(ps, p, q, n)
    ensures i < |ps| && ps[i].ppid == p && Reach(ps, ps[i].pid, q, n - 1)
    decreases n
  {
    var k :| 0 <= k < |ps| && ps[k].pid == q && Reach(ps, p, ps[k].ppid, n - 1);
    if n == 1 {
      i := k;
    } else {
      i := FirstStep(ps, p, ps[k].ppid, n - 1);
    }
  }

  ghost predicate InTree(ps: seq<Row>, p: string, q: string) { exists n: nat :: Reach(ps, p, q, n) }

  /** Exactly the root and its transitive descendants are killed. */
  lemma {:induction false} KillsExactlyTheTree(ps: seq<Row>, p: string, q: string)
    requires Acyclic(ps)
    ensures q in KillOrder(ps, p) <==> q == p || Descends(ps, p, q)
    ensures q in KillOrder(ps, p) <==> InTree(ps, p, q)
    decreases Descendants(ps, p), |ps| + 1
  {
    ChildrenKilled(ps, p, q, |ps|);
    assert Reach(ps, p, p, 0);
    if n: nat :| Reach(ps, p, q, n) {
      if n > 0 {
        var i := FirstStep(ps, p, q, n);
        assert InTree(ps, ps[i].pid, q);
      }
    }
  }

  lemma {:induction false} ChildrenKilled(ps: seq<Row>, p: string, q: string, n: nat)
    requires Acyclic(ps) && n <= |ps|
    ensures q in KillChildren(ps, p, n) <==>
            exists i :: 0 <= i < n && ps[i].ppid == p && InTree(ps, ps[i].pid, q)
    ensures q in KillChildren(ps, p, n) ==> Descends(ps, p, q)
    decreases Descendants(ps, p), n
  {
    if n > 0 {
      ChildrenKilled(ps, p, q, n - 1);
      if ps[n - 1].ppid == p {
        var c := ps[n - 1].pid;
        ChildHasFewer(ps, n - 1);
        KillsExactlyTheTree(ps, c, q);
        if k: nat :| Reach(ps, c, q, k) {
          ChildReached(ps, n - 1);
          ReachJoin(ps, p, c, q, 1, k);
        }
      }
    }
  }

  /** With distinct pids every process has one parent, so of two ancestors one reaches the other. */
  lemma {:induction false} AncestorsInLine(ps: seq<Row>, a: string, b: string, q: string, m: nat, n: nat)
    requires DistinctPids(ps) && m <= n && Reach(ps, a, q, m) && Reach(ps, b, q, n)
    ensures Reach(ps, b, a, n - m)
    decreases m
  {
    if m > 0 {
      var i :| 0 <= i < |ps| && ps[i].pid == q && Reach(ps, a, ps[i].ppid, m - 1);
      var j :| 0 <= j < |ps| && ps[j].pid == q && Reach(ps, b, ps[j].ppid, n - 1);
      assert i == j;
      AncestorsInLine(ps, a, b, ps[i].ppid, m - 1, n - 1);
    }
  }

  lemma SiblingNotBelow(ps: seq<Row>, i: nat, j: nat, n: nat)
    requires Acyclic(ps) && DistinctPids(ps) && i < |ps| && j < |ps| && i != j && ps[i].ppid == ps[j].ppid
    ensures !Reach(ps, ps[j].pid, ps[i].pid, n)
  {
    assert !Descends(ps, ps[j].ppid, ps[j].ppid);
    if Reach(ps, ps[j].pid, ps[i].pid, n) {
      assert n > 0;
      var k :| 0 <= k < |ps| && ps[k].pid == ps[i].pid && Reach(ps, ps[j].pid, ps[k].ppid, n - 1);
      assert k == i;
      ChildReached(ps, j);
      ReachJoin(ps, ps[j].ppid, ps[j].pid, ps[j].ppid, 1, n - 1);
    }
  }

  lemma SiblingTreesApart(ps: seq<Row>, i: nat, j: nat, q: string)
    requires Acyclic(ps) && DistinctPids(ps) && i < |ps| && j < |ps| && i != j && ps[i].ppid == ps[j].ppid
    ensures !(InTree(ps, ps[i].pid, q) && InTree(ps, ps[j].pid, q))
  {
    if InTree(ps, ps[i].pid, q) && InTree(ps, ps[j].pid, q) {
      var m: nat :| Reach(ps, ps[i].pid, q, m);
      var n: nat :| Reach(ps, ps[j].pid, q, n);
      if m <= n {
        SiblingNotBelow(ps, i, j, n - m);
        AncestorsInLine(ps, ps[i].pid, ps[j].pid, q, m, n);
      } else {
        SiblingNotBelow(ps, j, i, m - n);
        AncestorsInLine(ps, ps[j].pid, ps[i].pid, q, n, m);
      }
    }
  }

  ghost predicate NoRepeat(s: seq<string>) {
    forall i, j :: 0 <= i < j < |s| ==> s[i] != s[j]
  }

  lemma NoRepeatAppend(a: seq<string>, b: seq<string>)
    requires NoRepeat(a) && NoRepeat(b) && forall q :: !(q in a && q in b)
    ensures NoRepeat(a + b)
  {
    forall i, j | 0 <= i < j < |a + b| ensures (a + b)[i] != (a + b)[j] {
      if i < |a| <= j { assert a[i] in a && b[j - |a|] in b; }
    }
  }

  /** Each is killed once. */
  lemma {:induction false} KillsOnce(ps: seq<Row>, p: string)
    requires Acyclic(ps) && DistinctPids(ps)
    ensures NoRepeat(KillOrder(ps, p))
    decreases Descendants(ps, p), |ps| + 1
  {
    KillsChildrenOnce(ps, p, |ps|);
    ChildrenKilled(ps, p, p, |ps|);
  }

  lemma {:induction false} KillsChildrenOnce(ps: seq<Row>, p: string, n: nat)
    requires Acyclic(ps) && DistinctPids(ps) && n <= |ps|
    ensures NoRepeat(KillChildren(ps, p, n))
    decreases Descendants(ps, p), n
  {
    if n > 0 {
      KillsChildrenOnce(ps, p, n - 1);
      if ps[n - 1].ppid == p {
        var a, b := KillChildren(ps, p, n - 1), KillOrder(ps, ps[n - 1].pid);
        ChildHasFewer(ps, n - 1);
        KillsOnce(ps, ps[n - 1].pid);
        forall q ensures !(q in a && q in b) {
          ChildrenKilled(ps, p, q, n - 1);
          KillsExactlyTheTree(ps, ps[n - 1].pid, q);
          forall i | 0 <= i < n - 1 && ps[i].ppid == p
            ensures !(InTree(ps, ps[i].pid, q) && InTree(ps, ps[n - 1].pid, q))
          {
            SiblingTreesApart(ps, i, n - 1, q);
          }
        }
        NoRepeatAppend(a, b);
      }
    }
  }

  ghost predicate IsChild(ps: seq<Row>, p: string, q: string) { Row(q, p) in ps }

  /** Every kill after the first is of a child of a process killed earlier. */
  ghost predicate ParentsFirst(ps: seq<Row>, s: seq<string>) {
    forall i :: 0 < i < |s| ==> ParentBefore(ps, s, i)
  }

  ghost predicate ParentBefore(ps: seq<Row>, s: seq<string>, i: nat)
    requires i < |s|
  {
    exists j :: 0 <= j < i && IsChild(ps, s[j], s[i])
  }

  lemma ParentsFirstAppend(ps: seq<Row>, a: seq<string>, b: seq<string>)
    requires a != [] && b != [] && ParentsFirst(ps, a) && ParentsFirst(ps, b) && IsChild(ps, a[0], b[0])
    ensures ParentsFirst(ps, a + b)
  {
    var s := a + b;
    forall i | 0 < i < |s| ensures ParentBefore(ps, s, i) {
      if i < |a| {
        assert ParentBefore(ps, a, i);
        var j :| 0 <= j < i && IsChild(ps, a[j], a[i]);
        assert IsChild(ps, s[j], s[i]);
      } else if i == |a| {
        assert IsChild(ps, s[0], s[i]);
      } else {
        var k := i - |a|;
        assert ParentBefore(ps, b, k);
        var j :| 0 <= j < k && IsChild(ps, b[j], b[k]);
        var m := |a| + j;
        assert IsChild(ps, s[m], s[i]);
      }
    }
  }

  lemma {:induction false} KillsParentsFirst(ps: seq<Row>, p: string, n: nat)
    requires Acyclic(ps) && n <= |ps|
    ensures ParentsFirst(ps, [p] + KillChildren(ps, p, n))
    ensures n == |ps| ==> ParentsFirst(ps, KillOrder(ps, p))
    decreases Descendants(ps, p), n
  {
    if n > 0 {
      KillsParentsFirst(ps, p, n - 1);
      var a := [p] + KillChildren(ps, p, n - 1);
      if ps[n - 1].ppid == p {
        ChildHasFewer(ps, n - 1);
        var b := KillOrder(ps, ps[n - 1].pid);
        KillsParentsFirst(ps, ps[n - 1].pid, |ps|);
        assert ps[n - 1] == Row(b[0], p);
        ParentsFirstAppend(ps, a, b);
        assert [p] + KillChildren(ps, p, n) == a + b;
      } else {
        assert [p] + KillChildren(ps, p, n) == a;
      }
    }
  }
}
