/** The mount table and the unmount engine of tools/helpers/mount.py.
    The table lists one entry per mount, oldest first, as /proc/mounts does. */
module MountTable {
  import opened Strings

  /** What was mounted; `Entry.device` is the first column the kernel prints for it. */
  datatype Fs =
    | Image(path: string)
    | Overlay(lower: seq<string>, upper: string, work: string)
    | BindOf(path: string)

  datatype Entry = Entry(device: string, mountpoint: string, fs: Fs)

  type Table = seq<Entry>

  /** The second and the first column both count, as in `ismount`. */
  predicate IsMounted(t: Table, folder: string) {
    exists e :: e in t && (e.mountpoint == folder || e.device == folder)
  }

  /** `q` is a path strictly inside the folder `p`. */
  predicate Below(q: string, p: string) {
    |p| < |q| && p <= q && (p == "/" || q[|p|] == '/')
  }

  function Outside(t: Table, prefix: string): Table {
    if t == [] then []
    else if prefix <= t[0].mountpoint then Outside(t[1..], prefix)
    else [t[0]] + Outside(t[1..], prefix)
  }

  /** The mountpoints that start with `prefix`, in table order. */
  function Matching(t: Table, prefix: string): seq<string> {
    if t == [] then []
    else if prefix <= t[0].mountpoint then [t[0].mountpoint] + Matching(t[1..], prefix)
    else Matching(t[1..], prefix)
  }

  // ----- the kernel's side of `umount` -----

  function RemoveNewest(t: Table, p: string): Table {
    if t == [] then []
    else if t[|t| - 1].mountpoint == p then t[..|t| - 1]
    else RemoveNewest(t[..|t| - 1], p) + [t[|t| - 1]]
  }

  /** `umount p` takes away the newest mount at `p`, and refuses when there is none
      or while something is still mounted strictly below it. */
  function KernelUmount(t: Table, p: string): Option<Table> {
    if (exists e :: e in t && e.mountpoint == p) && (forall e :: e in t ==> !Below(e.mountpoint, p))
    then Some(RemoveNewest(t, p))
    else None
  }

  /** The unmounts of `ps`, in order; None as soon as the kernel refuses one. */
  function KernelUmounts(t: Table, ps: seq<string>): Option<Table>
    decreases |ps|
  {
    if ps == [] then Some(t)
    else match KernelUmount(t, ps[0])
      case None => None
      case Some(t1) => KernelUmounts(t1, ps[1..])
  }

  // ----- list.sort(reverse=True) -----

  ghost predicate Descending(s: seq<string>) {
    forall i, j :: 0 <= i < j < |s| ==> !Less(s[i], s[j])
  }

  function InsertDescending(s: seq<string>, x: string): seq<string> {
    if s == [] || !Less(x, s[0]) then [x] + s else [s[0]] + InsertDescending(s[1..], x)
  }

  function SortDescending(s: seq<string>): seq<string> {
    if s == [] then [] else InsertDescending(SortDescending(s[1..]), s[0])
  }

  /** A string at or after the head of a descending list is at or after all of it. */
  lemma HeadIsLargest(s: seq<string>, x: string, j: nat)
    requires Descending(s) && j < |s| && !Less(x, s[0])
    ensures !Less(x, s[j])
  {
    if j > 0 && Less(x, s[j]) {
      LessTotal(s[j], s[0]);
      if Less(s[j], s[0]) { LessTransitive(x, s[j], s[0]); }
    }
  }

  lemma {:induction false} InsertKeepsEntries(s: seq<string>, x: string)
    ensures multiset(InsertDescending(s, x)) == multiset(s) + multiset{x}
    ensures forall y :: y in InsertDescending(s, x) ==> y in s || y == x
  {
    if s != [] && Less(x, s[0]) {
      InsertKeepsEntries(s[1..], x);
      assert s == [s[0]] + s[1..];
    }
  }

  lemma {:induction false} InsertKeepsOrder(s: seq<string>, x: string)
    requires Descending(s)
    ensures Descending(InsertDescending(s, x))
  {
    if s == [] {
    } else if !Less(x, s[0]) {
      forall j | 0 <= j < |s| ensures !Less(x, s[j]) { HeadIsLargest(s, x, j); }
    } else {
      InsertKeepsOrder(s[1..], x);
      InsertKeepsEntries(s[1..], x);
      NotBefore(s, x);
    }
  }

  /** Nothing that was in a descending list or goes into it behind its head comes after that head. */
  lemma NotBefore(s: seq<string>, x: string)
    requires s != [] && Descending(s) && Less(x, s[0])
    ensures forall y :: y in s[1..] || y == x ==> !Less(s[0], y)
  {
    LessIrreflexive(x);
    if Less(s[0], x) { LessTransitive(x, s[0], x); }
  }

  /** Sorting gives a descending list with the same entries, counted with repetition. */
  lemma {:induction false} SortDescendingSorts(s: seq<string>)
    ensures Descending(SortDescending(s))
    ensures multiset(SortDescending(s)) == multiset(s)
  {
    if s != [] {
      SortDescendingSorts(s[1..]);
      InsertKeepsOrder(SortDescending(s[1..]), s[0]);
      InsertKeepsEntries(SortDescending(s[1..]), s[0]);
      assert s == [s[0]] + s[1..];
    }
  }

  function UmountList(t: Table, prefix: string): seq<string> {
    SortDescending(Matching(t, prefix))
  }

  // ----- one unmount -----

  lemma {:induction false} MatchingAppend(t: Table, e: Entry, prefix: string)
    ensures Matching(t + [e], prefix) ==
            Matching(t, prefix) + (if prefix <= e.mountpoint then [e.mountpoint] else [])
    ensures Outside(t + [e], prefix) == Outside(t, prefix) + (if prefix <= e.mountpoint then [] else [e])
  {
    if t != [] {
      MatchingAppend(t[1..], e, prefix);
      assert (t + [e])[1..] == t[1..] + [e];
    }
  }

  lemma AppendBoth(a: seq<string>, b: seq<string>, p: string, tail: seq<string>)
    requires multiset(a) == multiset(b) + multiset{p}
    ensures multiset(a + tail) == multiset(b + tail) + multiset{p}
  {}

  lemma {:induction false} RemoveNewestEffect(t: Table, p: string, prefix: string)
    requires prefix <= p
    requires exists e :: e in t && e.mountpoint == p
    ensures multiset(Matching(t, prefix)) == multiset(Matching(RemoveNewest(t, p), prefix)) + multiset{p}
    ensures Outside(RemoveNewest(t, p), prefix) == Outside(t, prefix)
  {
    var init, last := t[..|t| - 1], t[|t| - 1];
    assert t == init + [last];
    MatchingAppend(init, last, prefix);
    if last.mountpoint != p {
      assert forall e :: e in t ==> e in init || e == last;
      RemoveNewestEffect(init, p, prefix);
      var left := RemoveNewest(init, p);
      MatchingAppend(left, last, prefix);
      AppendBoth(Matching(init, prefix), Matching(left, prefix), p,
                 if prefix <= last.mountpoint then [last.mountpoint] else []);
    }
  }

  lemma {:induction false} MatchingMembers(t: Table, prefix: string)
    ensures forall q :: q in Matching(t, prefix) <==> prefix <= q && exists e :: e in t && e.mountpoint == q
    ensures Matching(t, prefix) == [] <==> forall e :: e in t ==> !(prefix <= e.mountpoint)
    ensures Matching(t, prefix) == [] ==> Outside(t, prefix) == t
  {
    if t != [] {
      MatchingMembers(t[1..], prefix);
      assert t == [t[0]] + t[1..];
    }
  }

  lemma JoinIsBelow(p: string, s: string)
    requires s != [] && s[0] == '/'
    ensures Below(p + s, p)
  {}

  lemma BelowIsAfter(q: string, p: string)
    ensures Below(q, p) ==> Less(p, q)
  {
    if Below(q, p) { PrefixIsLess(p, q); }
  }

  /** A folder sorts before what is below it, so the head of a descending list of everything
      under the prefix has a mount of its own and none below. */
  lemma NothingBelowHead(t: Table, prefix: string, ps: seq<string>)
    requires Descending(ps) && ps != [] && multiset(ps) == multiset(Matching(t, prefix))
    ensures prefix <= ps[0] && (exists e :: e in t && e.mountpoint == ps[0])
    ensures forall e :: e in t ==> !Below(e.mountpoint, ps[0])
  {
    var p := ps[0];
    MatchingMembers(t, prefix);
    assert p in multiset(ps);
    assert p in Matching(t, prefix);
    LessIrreflexive(p);
    forall e | e in t ensures !Below(e.mountpoint, p) {
      BelowIsAfter(e.mountpoint, p);
      if prefix <= e.mountpoint {
        assert e.mountpoint in Matching(t, prefix);
        assert e.mountpoint in multiset(ps);
        assert !Less(p, e.mountpoint);
      }
    }
  }

  /** ... so it can be unmounted, and the rest of the list is what is left under the prefix. */
  lemma UmountHead(t: Table, prefix: string, ps: seq<string>)
    requires Descending(ps) && ps != [] && multiset(ps) == multiset(Matching(t, prefix))
    ensures KernelUmount(t, ps[0]).Some?
    ensures var t1 := KernelUmount(t, ps[0]).value;
            && Descending(ps[1..])
            && multiset(ps[1..]) == multiset(Matching(t1, prefix))
            && Outside(t1, prefix) == Outside(t, prefix)
  {
    NothingBelowHead(t, prefix, ps);
    RemoveNewestEffect(t, ps[0], prefix);
    TailOf(ps, multiset(Matching(RemoveNewest(t, ps[0]), prefix)));
  }

  lemma TailOf(ps: seq<string>, rest: multiset<string>)
    requires ps != [] && Descending(ps) && multiset(ps) == rest + multiset{ps[0]}
    ensures multiset(ps[1..]) == rest && Descending(ps[1..])
  {
    assert ps == [ps[0]] + ps[1..];
    assert multiset(ps[1..]) == multiset(ps) - multiset{ps[0]};
  }

  /** Any first part of the unmount list goes through without a refusal, and never
      touches a mount outside the prefix. */
  lemma {:induction false} UmountPrefixGoesThrough(t: Table, prefix: string, ps: seq<string>, k: nat)
    requires Descending(ps) && multiset(ps) == multiset(Matching(t, prefix)) && k <= |ps|
    decreases k
    ensures KernelUmounts(t, ps[..k]).Some?
    ensures var t1 := KernelUmounts(t, ps[..k]).value;
            && multiset(ps[k..]) == multiset(Matching(t1, prefix))
            && Outside(t1, prefix) == Outside(t, prefix)
  {
    if k == 0 {
      assert ps[0..] == ps;
    } else {
      assert ps[..k][0] == ps[0] && ps[..k][1..] == ps[1..][..k - 1] && ps[k..] == ps[1..][k - 1..];
      UmountHead(t, prefix, ps);
      UmountPrefixGoesThrough(KernelUmount(t, ps[0]).value, prefix, ps[1..], k - 1);
    }
  }

  /** Unmounting in the order of `umount_all_list` never meets a mountpoint that still has
      a mount below it, and leaves exactly the entries outside the prefix, in order. */
  lemma UmountListClears(t: Table, prefix: string)
    ensures KernelUmounts(t, UmountList(t, prefix)) == Some(Outside(t, prefix))
  {
    var ps := UmountList(t, prefix);
    SortDescendingSorts(Matching(t, prefix));
    UmountPrefixGoesThrough(t, prefix, ps, |ps|);
    assert ps[..|ps|] == ps && ps[|ps|..] == [];
    var t1 := KernelUmounts(t, ps).value;
    assert |multiset(Matching(t1, prefix))| == 0;
    MatchingMembers(t1, prefix);
  }

  // ----- prefix or folder? -----

  /** What "umount all folders that are mounted inside a given folder" should leave. */
  function NotInside(t: Table, folder: string): Table {
    if t == [] then []
    else if t[0].mountpoint == folder || Below(t[0].mountpoint, folder) then NotInside(t[1..], folder)
    else [t[0]] + NotInside(t[1..], folder)
  }

  lemma {:induction false} OutsideIsShorter(t: Table, folder: string)
    ensures |Outside(t, folder)| <= |NotInside(t, folder)|
  {
    if t != [] { OutsideIsShorter(t[1..], folder); }
  }

  /** The string prefix picks exactly the mounts inside the folder, unless some mount sits
      beside the folder under a longer name. */
  lemma {:induction false} PrefixIsFolderIffNoSibling(t: Table, folder: string)
    ensures Outside(t, folder) == NotInside(t, folder) <==>
            (forall e :: e in t && folder <= e.mountpoint ==> e.mountpoint == folder || Below(e.mountpoint, folder))
  {
    if t != [] {
      PrefixIsFolderIffNoSibling(t[1..], folder);
      OutsideIsShorter(t[1..], folder);
      assert t == [t[0]] + t[1..];
      if !(folder <= t[0].mountpoint) {
        assert Outside(t, folder)[1..] == Outside(t[1..], folder);
        assert NotInside(t, folder)[1..] == NotInside(t[1..], folder);
      }
    }
  }

  /** The hazard is real: a mount on /r2 is taken down together with /r. */
  lemma SiblingIsTakenDown()
    ensures var t := [Entry("d", "/r", Image("a")), Entry("d", "/r2", Image("b"))];
            KernelUmounts(t, UmountList(t, "/r")) == Some([]) && NotInside(t, "/r") == [t[1]]
  {
    var t := [Entry("d", "/r", Image("a")), Entry("d", "/r2", Image("b"))];
    UmountListClears(t, "/r");
    assert t[1..] == [t[1]] && t[1..][1..] == [];
    assert "/r" <= "/r" && "/r" <= "/r2";
    assert Outside(t[1..], "/r") == [];
    assert NotInside(t[1..], "/r") == [t[1]];
  }

  lemma {:induction false} KernelUmountsSnoc(t: Table, ps: seq<string>, k: nat)
    requires k < |ps| && KernelUmounts(t, ps[..k]).Some?
    ensures KernelUmounts(t, ps[..k + 1]) == KernelUmount(KernelUmounts(t, ps[..k]).value, ps[k])
    decreases k
  {
    assert ps[..k + 1][0] == ps[0] && ps[..k + 1][1..] == ps[1..][..k];
    if k == 0 {
      assert ps[1..][..0] == [];
    } else {
      assert ps[..k][0] == ps[0] && ps[..k][1..] == ps[1..][..k - 1];
      KernelUmountsSnoc(KernelUmount(t, ps[0]).value, ps[1..], k - 1);
    }
  }

  /** After the first `k` unmounts of `umount_all(folder)`. */
  ghost predicate UnmountedUpTo(t: Table, folder: string, k: nat, t1: Table) {
    k <= |UmountList(t, folder)| && KernelUmounts(t, UmountList(t, folder)[..k]) == Some(t1)
  }

  lemma NextUmount(t: Table, folder: string, k: nat, t1: Table)
    requires UnmountedUpTo(t, folder, k, t1) && k < |UmountList(t, folder)|
    ensures KernelUmount(t1, UmountList(t, folder)[k]).Some?
    ensures UnmountedUpTo(t, folder, k + 1, KernelUmount(t1, UmountList(t, folder)[k]).value)
  {
    SortDescendingSorts(Matching(t, folder));
    UmountPrefixGoesThrough(t, folder, UmountList(t, folder), k + 1);
    KernelUmountsSnoc(t, UmountList(t, folder), k);
  }

  lemma AllUnmounted(t: Table, folder: string, t1: Table)
    requires UnmountedUpTo(t, folder, |UmountList(t, folder)|, t1)
    ensures t1 == Outside(t, folder)
  {
    UmountListClears(t, folder);
    assert UmountList(t, folder)[..|UmountList(t, folder)|] == UmountList(t, folder);
  }

  /** As long as the list is not through, something is still mounted under the folder. */
  lemma SomethingLeft(t: Table, folder: string, k: nat, t1: Table)
    requires UnmountedUpTo(t, folder, k, t1) && k < |UmountList(t, folder)|
    ensures Matching(t1, folder) != []
  {
    var ps := UmountList(t, folder);
    LeftInTable(t, folder, k, t1);
    assert ps[k] in ps[k..];
  }

  ghost predicate PartlyUnmounted(t: Table, folder: string, t1: Table) {
    exists k: nat :: UnmountedUpTo(t, folder, k, t1)
  }

  lemma {:induction false} RemoveNewestMembers(t: Table, p: string)
    ensures forall e :: e in RemoveNewest(t, p) ==> e in t
  {
    if t != [] { RemoveNewestMembers(t[..|t| - 1], p); }
  }

  lemma {:induction false} KernelUmountsMembers(t: Table, ps: seq<string>)
    ensures KernelUmounts(t, ps).Some? ==> forall e :: e in KernelUmounts(t, ps).value ==> e in t
    decreases |ps|
  {
    if ps != [] && KernelUmount(t, ps[0]).Some? {
      RemoveNewestMembers(t, ps[0]);
      KernelUmountsMembers(KernelUmount(t, ps[0]).value, ps[1..]);
    }
  }

  lemma PartlyUnmountedMembers(t: Table, folder: string, t1: Table)
    requires PartlyUnmounted(t, folder, t1)
    ensures forall e :: e in t1 ==> e in t
  {
    var k: nat :| UnmountedUpTo(t, folder, k, t1);
    KernelUmountsMembers(t, UmountList(t, folder)[..k]);
  }

  lemma PartlyUnmountedKeepsOutside(t: Table, folder: string, t1: Table)
    requires PartlyUnmounted(t, folder, t1)
    ensures Outside(t1, folder) == Outside(t, folder)
  {
    var k: nat :| UnmountedUpTo(t, folder, k, t1);
    SortDescendingSorts(Matching(t, folder));
    UmountPrefixGoesThrough(t, folder, UmountList(t, folder), k);
  }

  // ----- the root of a folder goes last -----

  predicate Inside(p: string, root: string) { p == root || Below(p, root) }

  /** Any mount below the folder implies a mount at the folder itself. */
  ghost predicate Rooted(t: Table, root: string) {
    (exists e :: e in t && Inside(e.mountpoint, root)) ==> (exists e :: e in t && e.mountpoint == root)
  }

  ghost predicate NoSiblings(t: Table, root: string) {
    forall e :: e in t && root <= e.mountpoint ==> Inside(e.mountpoint, root)
  }

  lemma RootIsLast(ps: seq<string>, root: string)
    requires Descending(ps) && root in ps && forall p :: p in ps ==> root <= p
    ensures ps[|ps| - 1] == root
  {
    var last := ps[|ps| - 1];
    assert last in ps;
    var j :| 0 <= j < |ps| && ps[j] == root;
    if last != root {
      PrefixIsLess(root, last);
    }
  }

  lemma LeftInTable(t: Table, root: string, k: nat, t1: Table)
    requires UnmountedUpTo(t, root, k, t1)
    ensures forall q :: q in UmountList(t, root) <==> q in Matching(t, root)
    ensures forall q :: q in UmountList(t, root)[k..] <==> q in Matching(t1, root)
  {
    var ps := UmountList(t, root);
    SortDescendingSorts(Matching(t, root));
    UmountPrefixGoesThrough(t, root, ps, k);
    forall q ensures q in ps <==> q in Matching(t, root) {
      assert q in ps <==> q in multiset(ps);
    }
    forall q ensures q in ps[k..] <==> q in Matching(t1, root) {
      assert q in ps[k..] <==> q in multiset(ps[k..]);
    }
  }

  /** The folder sorts before everything inside it, so it is the last thing to go: stopping
      the unmount anywhere keeps the table rooted. */
  lemma RootGoesLast(t: Table, root: string, k: nat, t1: Table)
    requires Rooted(t, root) && UnmountedUpTo(t, root, k, t1)
    ensures Rooted(t1, root)
  {
    if e :| e in t1 && Inside(e.mountpoint, root) {
      var ps := UmountList(t, root);
      LeftInTable(t, root, k, t1);
      MatchingMembers(t1, root);
      MatchingMembers(t, root);
      SortDescendingSorts(Matching(t, root));
      assert e.mountpoint in Matching(t1, root);
      assert e.mountpoint in ps[k..] && e.mountpoint in ps && e.mountpoint in Matching(t, root);
      assert root in Matching(t, root);
      RootIsLast(ps, root);
      assert ps[|ps| - 1] in ps[k..];
    }
  }
}
