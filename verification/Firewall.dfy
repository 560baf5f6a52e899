/** The iptables chains touched by data/scripts/waydroid-net.sh, and what its list of
    insertions followed by its list of deletions does to them. */
module Firewall {

  /** The script's own rules, one constructor each; `Foreign` is anybody else's. */
  datatype Rule =
    | InUdp67 | InTcp67 | InUdp53 | InTcp53
    | ForwardIn | ForwardOut
    | Masquerade | DhcpChecksum
    | Masquerade6(network: string)
    | Foreign(id: nat)

  datatype Chain = Input | Forward | NatPostrouting | ManglePostrouting | Nat6Postrouting

  datatype Tables = Tables(input: seq<Rule>, forward: seq<Rule>, nat4: seq<Rule>, mangle: seq<Rule>, nat6: seq<Rule>) {
    function Of(c: Chain): seq<Rule> {
      match c
      case Input => input
      case Forward => forward
      case NatPostrouting => nat4
      case ManglePostrouting => mangle
      case Nat6Postrouting => nat6
    }

    function With(c: Chain, rules: seq<Rule>): Tables {
      match c
      case Input => this.(input := rules)
      case Forward => this.(forward := rules)
      case NatPostrouting => this.(nat4 := rules)
      case ManglePostrouting => this.(mangle := rules)
      case Nat6Postrouting => this.(nat6 := rules)
    }
  }

  function Home(r: Rule): Chain {
    match r
    case ForwardIn | ForwardOut => Forward
    case Masquerade => NatPostrouting
    case DhcpChecksum => ManglePostrouting
    case Masquerade6(_) => Nat6Postrouting
    case _ => Input
  }

  /** `-I` for the filter chains, `-A` for the POSTROUTING chains. */
  predicate Prepended(r: Rule) { Home(r) == Input || Home(r) == Forward }

  function Add(r: Rule, t: Tables): Tables {
    t.With(Home(r), if Prepended(r) then [r] + t.Of(Home(r)) else t.Of(Home(r)) + [r])
  }

  function RemoveFirst(s: seq<Rule>, r: Rule): seq<Rule> {
    if s == [] then [] else if s[0] == r then s[1..] else [s[0]] + RemoveFirst(s[1..], r)
  }

  /** `-D` takes away the first match, if there is one. */
  function Del(r: Rule, t: Tables): Tables {
    t.With(Home(r), RemoveFirst(t.Of(Home(r)), r))
  }

  function AddAll(rs: seq<Rule>, t: Tables): Tables {
    if rs == [] then t else AddAll(rs[1..], Add(rs[0], t))
  }

  function DelAll(rs: seq<Rule>, t: Tables): Tables {
    if rs == [] then t else DelAll(rs[1..], Del(rs[0], t))
  }

  function Count(t: Tables, r: Rule): nat {
    multiset(t.Of(Home(r)))[r]
  }

  predicate Distinct(rs: seq<Rule>) {
    forall i, j :: 0 <= i < j < |rs| ==> rs[i] != rs[j]
  }

  lemma DistinctSnoc(rs: seq<Rule>, r: Rule)
    requires Distinct(rs) && r !in rs
    ensures Distinct(rs + [r]) && Distinct([r] + rs)
  {}

  // ----- one command -----

  lemma {:induction false} RemoveFirstCounts(s: seq<Rule>, r: Rule)
    ensures multiset(RemoveFirst(s, r)) == multiset(s) - multiset{r}
    ensures r !in s ==> RemoveFirst(s, r) == s
  {
    if s != [] {
      assert s == [s[0]] + s[1..];
      if s[0] != r {
        RemoveFirstCounts(s[1..], r);
        CountsCons(s[0], RemoveFirst(s[1..], r), s[1..], r);
      }
    }
  }

  lemma CountsCons(x: Rule, left: seq<Rule>, tail: seq<Rule>, r: Rule)
    requires x != r && multiset(left) == multiset(tail) - multiset{r}
    ensures multiset([x] + left) == multiset([x] + tail) - multiset{r}
  {
    assert multiset([x] + left) == multiset{x} + multiset(left);
    assert multiset([x] + tail) == multiset{x} + multiset(tail);
  }

  lemma {:induction false} RemoveFirstOfAppend(s: seq<Rule>, x: Rule, r: Rule)
    ensures RemoveFirst(s + [x], r) == if r in s || r != x then RemoveFirst(s, r) + [x] else s
  {
    if s == [] {
    } else {
      assert (s + [x])[1..] == s[1..] + [x];
      RemoveFirstOfAppend(s[1..], x, r);
      if s[0] != r && r !in s && r == x {
        assert s == [s[0]] + s[1..];
      }
    }
  }

  lemma OfWith(t: Tables, c: Chain, rules: seq<Rule>, d: Chain)
    ensures t.With(c, rules).Of(d) == if d == c then rules else t.Of(d)
  {}

  lemma CountAdd(x: Rule, t: Tables, r: Rule)
    ensures Count(Add(x, t), r) == Count(t, r) + if x == r then 1 else 0
  {
    var s := t.Of(Home(x));
    OfWith(t, Home(x), if Prepended(x) then [x] + s else s + [x], Home(r));
    CountOne(x, s, r);
  }

  lemma CountOne(x: Rule, s: seq<Rule>, r: Rule)
    ensures multiset([x] + s)[r] == multiset(s)[r] + if x == r then 1 else 0
    ensures multiset(s + [x])[r] == multiset(s)[r] + if x == r then 1 else 0
  {}

  lemma CountDel(x: Rule, t: Tables, r: Rule)
    ensures Count(Del(x, t), r) == if x == r && Count(t, r) > 0 then Count(t, r) - 1 else Count(t, r)
    ensures Count(t, x) == 0 ==> Del(x, t) == t
  {
    var s := t.Of(Home(x));
    RemoveFirstCounts(s, x);
    OfWith(t, Home(x), RemoveFirst(s, x), Home(r));
    if Count(t, x) == 0 { SameWith(t, Home(x)); }
  }

  lemma SameWith(t: Tables, c: Chain)
    ensures t.With(c, t.Of(c)) == t
  {}

  /** Deleting one rule and adding another can be done in either order. */
  lemma DelAddCommute(d: Rule, x: Rule, t: Tables)
    requires d != x
    ensures Del(d, Add(x, t)) == Add(x, Del(d, t))
  {
    if Home(d) == Home(x) {
      RemoveFirstOfAppend(t.Of(Home(x)), x, d);
      RemoveFirstCounts(t.Of(Home(x)), d);
      var s := t.Of(Home(x));
      assert RemoveFirst([x] + s, d) == [x] + RemoveFirst(s, d);
    }
  }

  /** A prepended rule is its own first match; an appended one is if it was not there before. */
  lemma DelAfterAdd(x: Rule, t: Tables)
    requires Prepended(x) || Count(t, x) == 0
    ensures Del(x, Add(x, t)) == t
  {
    RemoveFirstOfAppend(t.Of(Home(x)), x, x);
    assert ([x] + t.Of(Home(x)))[1..] == t.Of(Home(x));
  }

  // ----- lists of commands -----

  lemma {:induction false} CountAddAll(rs: seq<Rule>, t: Tables, r: Rule)
    ensures Count(AddAll(rs, t), r) == Count(t, r) + multiset(rs)[r]
  {
    if rs != [] {
      assert rs == [rs[0]] + rs[1..];
      CountAdd(rs[0], t, r);
      CountAddAll(rs[1..], Add(rs[0], t), r);
    }
  }

  lemma {:induction false} CountDelAll(rs: seq<Rule>, t: Tables, r: Rule)
    ensures var n := Count(t, r) - multiset(rs)[r];
            Count(DelAll(rs, t), r) == if n > 0 then n else 0
  {
    if rs != [] {
      assert rs == [rs[0]] + rs[1..];
      CountDel(rs[0], t, r);
      CountDelAll(rs[1..], Del(rs[0], t), r);
    }
  }

  lemma {:induction false} AddAllSnoc(rs: seq<Rule>, k: nat, t: Tables)
    requires k < |rs|
    ensures AddAll(rs[..k + 1], t) == Add(rs[k], AddAll(rs[..k], t))
    decreases k
  {
    if k == 0 {
      assert rs[..1][1..] == [] && rs[..0] == [];
    } else {
      AddAllSnoc(rs[1..], k - 1, Add(rs[0], t));
      assert rs[..k + 1][1..] == rs[1..][..k] && rs[..k][1..] == rs[1..][..k - 1];
    }
  }

  lemma {:induction false} DelAllSnoc(rs: seq<Rule>, k: nat, t: Tables)
    requires k < |rs|
    ensures DelAll(rs[..k + 1], t) == Del(rs[k], DelAll(rs[..k], t))
    decreases k
  {
    if k == 0 {
      assert rs[..1][1..] == [] && rs[..0] == [];
    } else {
      DelAllSnoc(rs[1..], k - 1, Del(rs[0], t));
      assert rs[..k + 1][1..] == rs[1..][..k] && rs[..k][1..] == rs[1..][..k - 1];
    }
  }

  lemma {:induction false} DelPastAdds(d: Rule, rs: seq<Rule>, t: Tables)
    requires d !in rs
    ensures Del(d, AddAll(rs, t)) == AddAll(rs, Del(d, t))
  {
    if rs != [] {
      DelPastAdds(d, rs[1..], Add(rs[0], t));
      DelAddCommute(d, rs[0], t);
    }
  }

  lemma {:induction false} DelCancelsAdd(d: Rule, rs: seq<Rule>, t: Tables)
    requires d in rs && Distinct(rs) && Count(t, d) == 0
    ensures Del(d, AddAll(rs, t)) == AddAll(RemoveFirst(rs, d), t)
  {
    if rs[0] == d {
      assert d !in rs[1..];
      DelPastAdds(d, rs[1..], Add(d, t));
      DelAfterAdd(d, t);
    } else {
      CountAdd(rs[0], t, d);
      DelCancelsAdd(d, rs[1..], Add(rs[0], t));
      assert ([rs[0]] + RemoveFirst(rs[1..], d))[1..] == RemoveFirst(rs[1..], d);
    }
  }

  lemma {:induction false} RemoveFirstDistinct(rs: seq<Rule>, d: Rule)
    requires Distinct(rs)
    ensures Distinct(RemoveFirst(rs, d))
    ensures forall x :: x in RemoveFirst(rs, d) <==> x in rs && x != d
  {
    if rs != [] {
      assert rs == [rs[0]] + rs[1..];
      assert rs[0] !in rs[1..];
      RemoveFirstDistinct(rs[1..], d);
    }
  }

  lemma HasMember(rs: seq<Rule>)
    ensures rs != [] ==> exists r :: r in rs
  {
    if rs != [] { assert rs[0] in rs; }
  }

  /** Any distinct additions are undone exactly, wherever the foreign rules are, by a list of
      deletions that names all of them and nothing that was there before. */
  lemma {:induction false} DeletesUndoAdds(ds: seq<Rule>, rs: seq<Rule>, t: Tables)
    requires Distinct(rs) && (forall r :: r in rs ==> r in ds) && (forall d :: d in ds ==> Count(t, d) == 0)
    ensures DelAll(ds, AddAll(rs, t)) == t
  {
    if ds == [] {
      HasMember(rs);
    } else {
      assert ds == [ds[0]] + ds[1..];
      RemoveFirstDistinct(rs, ds[0]);
      if ds[0] in rs {
        DelCancelsAdd(ds[0], rs, t);
        DeletesUndoAdds(ds[1..], RemoveFirst(rs, ds[0]), t);
      } else {
        DelPastAdds(ds[0], rs, t);
        CountDel(ds[0], t, ds[0]);
        DeletesUndoAdds(ds[1..], rs, t);
      }
    }
  }

  /** One rule added and deleted again, for each rule in turn. */
  function Churn(rs: seq<Rule>, t: Tables): Tables {
    if rs == [] then t else Churn(rs[1..], Del(rs[0], Add(rs[0], t)))
  }

  /** Adding all and deleting all in the same order is the same as churning one by one. */
  lemma {:induction false} DeleteAllAfterAddAll(rs: seq<Rule>, t: Tables)
    requires Distinct(rs)
    ensures DelAll(rs, AddAll(rs, t)) == Churn(rs, t)
  {
    if rs != [] {
      assert rs[0] !in rs[1..];
      DelPastAdds(rs[0], rs[1..], Add(rs[0], t));
      DeleteAllAfterAddAll(rs[1..], Del(rs[0], Add(rs[0], t)));
    }
  }

  /** From the first `r` on, everything is `r`. */
  ghost predicate EndsIn(s: seq<Rule>, r: Rule) {
    forall i, j :: 0 <= i <= j < |s| && s[i] == r ==> s[j] == r
  }

  lemma EndsInCons(s: seq<Rule>, r: Rule)
    requires s != []
    ensures EndsIn(s, r) <==> if s[0] == r then (forall j :: 0 <= j < |s| ==> s[j] == r) else EndsIn(s[1..], r)
  {
    if s[0] != r && EndsIn(s[1..], r) {
      forall i, j | 0 <= i <= j < |s| && s[i] == r ensures s[j] == r {
        assert s[1..][i - 1] == r && s[1..][j - 1] == s[j];
      }
    }
    if s[0] != r && EndsIn(s, r) {
      forall i, j | 0 <= i <= j < |s[1..]| && s[1..][i] == r ensures s[1..][j] == r {
        assert s[i + 1] == r && s[1..][j] == s[j + 1];
      }
    }
  }

  /** Append then delete gives the chain back in the same order exactly when everything from
      the first identical rule on is that same rule. */
  lemma {:induction false} AppendDeleteExact(s: seq<Rule>, r: Rule)
    ensures multiset(RemoveFirst(s + [r], r)) == multiset(s)
    ensures RemoveFirst(s + [r], r) == s <==> EndsIn(s, r)
  {
    RemoveFirstCounts(s + [r], r);
    AppendDeleteOrder(s, r);
  }

  lemma {:induction false} AppendDeleteOrder(s: seq<Rule>, r: Rule)
    ensures RemoveFirst(s + [r], r) == s <==> EndsIn(s, r)
  {
    if s != [] {
      EndsInCons(s, r);
      assert (s + [r])[1..] == s[1..] + [r];
      if s[0] == r {
        assert RemoveFirst(s + [r], r) == s[1..] + [r];
        if s[1..] + [r] == s { AllTheSame(s, r); }
      } else {
        AppendDeleteOrder(s[1..], r);
        ConsEqual(s, RemoveFirst(s[1..] + [r], r));
      }
    }
  }

  lemma ConsEqual(s: seq<Rule>, tail: seq<Rule>)
    requires s != []
    ensures [s[0]] + tail == s <==> tail == s[1..]
  {
    assert ([s[0]] + tail)[1..] == tail;
    assert s == [s[0]] + s[1..];
  }

  lemma {:induction false} AllTheSame(s: seq<Rule>, r: Rule)
    requires s != [] && s[1..] + [r] == s
    ensures forall j :: 0 <= j < |s| ==> s[j] == r
  {
    var k := |s| - 1;
    assert s[k] == (s[1..] + [r])[k] == r;
    while k > 0
      invariant 0 <= k < |s|
      invariant forall j :: k <= j < |s| ==> s[j] == r
    {
      assert s[k - 1] == (s[1..] + [r])[k - 1] == s[k];
      k := k - 1;
    }
  }

  // ----- everybody else's rules -----

  /** Chain `c` without its own rules from `rs`. */
  function Others(rs: seq<Rule>, c: Chain, s: seq<Rule>): seq<Rule> {
    if s == [] then []
    else (if s[0] in rs && Home(s[0]) == c then [] else [s[0]]) + Others(rs, c, s[1..])
  }

  /** Apart from the rules in `rs`, every chain is the same sequence. */
  ghost predicate SameOthers(rs: seq<Rule>, t: Tables, t1: Tables) {
    forall c :: Others(rs, c, t.Of(c)) == Others(rs, c, t1.Of(c))
  }

  lemma {:induction false} OthersAppend(rs: seq<Rule>, c: Chain, a: seq<Rule>, x: Rule)
    ensures Others(rs, c, a + [x]) == Others(rs, c, a) + if x in rs && Home(x) == c then [] else [x]
  {
    if a != [] {
      OthersAppend(rs, c, a[1..], x);
      assert (a + [x])[1..] == a[1..] + [x];
    }
  }

  lemma {:induction false} OthersRemoveFirst(rs: seq<Rule>, c: Chain, s: seq<Rule>, x: Rule)
    requires x in rs && Home(x) == c
    ensures Others(rs, c, RemoveFirst(s, x)) == Others(rs, c, s)
  {
    if s != [] && s[0] != x {
      OthersRemoveFirst(rs, c, s[1..], x);
      assert RemoveFirst(s, x)[1..] == RemoveFirst(s[1..], x);
    }
  }

  lemma {:induction false} OthersOfNone(rs: seq<Rule>, c: Chain, s: seq<Rule>)
    requires forall r :: r in s && r in rs ==> Home(r) != c
    ensures Others(rs, c, s) == s
  {
    if s != [] {
      assert s == [s[0]] + s[1..];
      OthersOfNone(rs, c, s[1..]);
    }
  }

  lemma {:induction false} OthersCount(rs: seq<Rule>, c: Chain, s: seq<Rule>, r: Rule)
    requires r !in rs
    ensures multiset(Others(rs, c, s))[r] == multiset(s)[r]
  {
    if s != [] {
      OthersCount(rs, c, s[1..], r);
      assert s == [s[0]] + s[1..];
      CountOne(s[0], s[1..], r);
      CountOne(s[0], Others(rs, c, s[1..]), r);
    }
  }

  /** A rule outside the list is there as often as before. */
  lemma SameOthersCount(rs: seq<Rule>, t: Tables, t1: Tables, r: Rule)
    requires SameOthers(rs, t, t1) && r !in rs
    ensures Count(t1, r) == Count(t, r)
  {
    var c := Home(r);
    assert Others(rs, c, t.Of(c)) == Others(rs, c, t1.Of(c));
    OthersCount(rs, c, t.Of(c), r);
    OthersCount(rs, c, t1.Of(c), r);
  }

  lemma AddKeepsOthers(rs: seq<Rule>, x: Rule, t: Tables)
    requires x in rs
    ensures SameOthers(rs, t, Add(x, t))
  {
    OthersAppend(rs, Home(x), t.Of(Home(x)), x);
    OthersPrepend(rs, Home(x), t.Of(Home(x)), x);
    forall c ensures Others(rs, c, t.Of(c)) == Others(rs, c, Add(x, t).Of(c)) {
      if c != Home(x) { assert Add(x, t).Of(c) == t.Of(c); }
    }
  }

  lemma OthersPrepend(rs: seq<Rule>, c: Chain, s: seq<Rule>, x: Rule)
    requires x in rs && Home(x) == c
    ensures Others(rs, c, [x] + s) == Others(rs, c, s)
  {
    assert ([x] + s)[1..] == s;
  }

  lemma DelKeepsOthers(rs: seq<Rule>, x: Rule, t: Tables)
    requires x in rs
    ensures SameOthers(rs, t, Del(x, t))
  {
    OthersRemoveFirst(rs, Home(x), t.Of(Home(x)), x);
    forall c ensures Others(rs, c, t.Of(c)) == Others(rs, c, Del(x, t).Of(c)) {
      if c != Home(x) { assert Del(x, t).Of(c) == t.Of(c); }
    }
  }

  lemma {:induction false} AddAllKeepsOthers(rs: seq<Rule>, xs: seq<Rule>, t: Tables)
    requires forall x :: x in xs ==> x in rs
    ensures SameOthers(rs, t, AddAll(xs, t))
  {
    if xs != [] {
      AddKeepsOthers(rs, xs[0], t);
      AddAllKeepsOthers(rs, xs[1..], Add(xs[0], t));
    }
  }

  lemma {:induction false} DelAllKeepsOthers(rs: seq<Rule>, xs: seq<Rule>, t: Tables)
    requires forall x :: x in xs ==> x in rs
    ensures SameOthers(rs, t, DelAll(xs, t))
  {
    if xs != [] {
      DelKeepsOthers(rs, xs[0], t);
      DelAllKeepsOthers(rs, xs[1..], Del(xs[0], t));
    }
  }

  /** Where none of the rules is left, all chains are what they were where none was there. */
  lemma NoneLeftIsSame(rs: seq<Rule>, t: Tables, t1: Tables)
    requires SameOthers(rs, t, t1) && forall r :: r in rs ==> Count(t, r) == 0 && Count(t1, r) == 0
    ensures t1 == t
  {
    forall c: Chain ensures t.Of(c) == t1.Of(c) {
      NoneInChain(rs, t, c);
      NoneInChain(rs, t1, c);
      OthersOfNone(rs, c, t.Of(c));
      OthersOfNone(rs, c, t1.Of(c));
    }
    assert t.Of(Input) == t1.Of(Input) && t.Of(Forward) == t1.Of(Forward);
    assert t.Of(NatPostrouting) == t1.Of(NatPostrouting) && t.Of(ManglePostrouting) == t1.Of(ManglePostrouting);
    assert t.Of(Nat6Postrouting) == t1.Of(Nat6Postrouting);
  }

  lemma NoneInChain(rs: seq<Rule>, t: Tables, c: Chain)
    requires forall r :: r in rs ==> Count(t, r) == 0
    ensures forall r :: r in t.Of(c) && r in rs ==> Home(r) != c
  {
    forall r | r in t.Of(c) && r in rs ensures Home(r) != c {
      assert r in multiset(t.Of(c));
      assert Count(t, r) == 0;
    }
  }
}
