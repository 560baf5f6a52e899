/** tools/services/user_manager.py: the desktop files that stand for installed Android apps. */
module DesktopIndex {
  import opened Strings
  import opened Lines

  const PREFIX := "waydroid."
  const SUFFIX := ".desktop"
  const LAUNCHER := "android.intent.category.LAUNCHER"

  type Package = string

  datatype AppInfo = AppInfo(packageName: Package, name: string, categories: seq<string>)

  /** A desktop file: the keys this service writes, and whatever else the user put in. */
  datatype DesktopFile = DesktopFile(
    package: Package, name: string, categories: seq<string>, actions: seq<string>,
    noDisplay: Option<string>, rest: map<string, string>)

  type Files = map<string, DesktopFile>

  function FileName(p: Package): string { PREFIX + p + SUFFIX }

  /** The names that match the pattern waydroid.*.desktop. */
  predicate IsAppFile(name: string) {
    |PREFIX| + |SUFFIX| <= |name| && PREFIX <= name && name[|name| - |SUFFIX|..] == SUFFIX
  }

  lemma AppFilesAreNamed(name: string, p: Package, q: Package)
    ensures IsAppFile(FileName(p))
    ensures FileName(p) == FileName(q) ==> p == q
    ensures IsAppFile(name) ==> exists r :: FileName(r) == name
  {
    var s := FileName(p);
    assert s[|s| - |SUFFIX|..] == SUFFIX;
    assert s[|PREFIX|..|s| - |SUFFIX|] == p;
    assert FileName(q)[|PREFIX|..|FileName(q)| - |SUFFIX|] == q;
    if IsAppFile(name) {
      assert FileName(name[|PREFIX|..|name| - |SUFFIX|]) == name;
    }
  }

  predicate Launchable(info: AppInfo) {
    exists c :: c in info.categories && Strip(c) == LAUNCHER
  }

  // ----- prepend_list -----

  function Prepended(present: seq<string>, wanted: seq<string>): seq<string> {
    if wanted == [] then present
    else
      var r := Prepended(present, wanted[1..]);
      if wanted[0] in r then r else [wanted[0]] + r
  }

  method PrependList(oldList: seq<string>, newList: seq<string>) returns (list: seq<string>)
    ensures list == Prepended(oldList, newList)
  {
    list := oldList;
    for i := |newList| downto 0
      invariant list == Prepended(oldList, newList[i..])
    {
      assert newList[i..][1..] == newList[i + 1..];
      if newList[i] !in list {
        list := [newList[i]] + list;
      }
    }
    assert newList[0..] == newList;
  }

  /** `a` is `b` with some entries left out. */
  predicate IsSubsequence(a: seq<string>, b: seq<string>) {
    a == [] || (b != [] && ((a[0] == b[0] && IsSubsequence(a[1..], b[1..])) || IsSubsequence(a, b[1..])))
  }

  /** The old list stays as it is at the end; what is put before it is new and in the order of the new
      list, all of the new list is there, and nothing is put in twice. */
  lemma {:induction false} PrependedAddsMissing(present: seq<string>, wanted: seq<string>) returns (added: seq<string>)
    ensures Prepended(present, wanted) == added + present
    ensures forall i :: 0 <= i < |added| ==> added[i] in wanted && added[i] !in present
    ensures forall i, j :: 0 <= i < j < |added| ==> added[i] != added[j]
    ensures forall s :: s in wanted ==> s in added + present
    ensures IsSubsequence(added, wanted)
  {
    if wanted == [] {
      added := [];
      assert [] + present == present;
    } else {
      var tail := PrependedAddsMissing(present, wanted[1..]);
      if wanted[0] in tail + present {
        added := tail;
      } else {
        added := [wanted[0]] + tail;
        assert added[1..] == tail;
        assert [wanted[0]] + (tail + present) == added + present;
      }
    }
  }

  lemma {:induction false} PrependedOfPresent(present: seq<string>, wanted: seq<string>)
    requires forall s :: s in wanted ==> s in present
    ensures Prepended(present, wanted) == present
  {
    if wanted != [] {
      assert wanted[0] in wanted;
      PrependedOfPresent(present, wanted[1..]);
    }
  }

  // ----- updateDesktopFile -----

  const SYSTEM_APPS: seq<string> := [
    "com.android.calculator2", "com.android.camera2", "com.android.contacts", "com.android.deskclock",
    "com.android.documentsui", "com.android.email", "com.android.gallery3d", "com.android.inputmethod.latin",
    "com.android.settings", "com.google.android.gms", "org.lineageos.aperture", "org.lineageos.eleven",
    "org.lineageos.etar", "org.lineageos.jelly", "org.lineageos.recorder"]

  const EMPTY_FILE := DesktopFile("", "", [], [], None, map[])

  function Written(f: DesktopFile, info: AppInfo): DesktopFile {
    DesktopFile(
      info.packageName, info.name,
      Prepended(f.categories, ["X-WayDroid-App"]),
      Prepended(f.actions, ["app-settings"]),
      if info.packageName in SYSTEM_APPS && f.noDisplay.None? then Some("true") else f.noDisplay,
      f.rest)
  }

  function Updated(files: Files, info: AppInfo): Files {
    var path := FileName(info.packageName);
    if !Launchable(info) then files - {path}
    else files[path := Written(if path in files then files[path] else EMPTY_FILE, info)]
  }

  /** Writing a file again changes nothing, and the user's own additions survive. */
  lemma UpdateTwiceIsOnce(files: Files, info: AppInfo)
    ensures Updated(Updated(files, info), info) == Updated(files, info)
    ensures var path := FileName(info.packageName);
            Launchable(info) && path in files ==>
              var f, g := files[path], Updated(files, info)[path];
              && g.rest == f.rest && (f.noDisplay.Some? ==> g.noDisplay == f.noDisplay)
              && (forall c :: c in f.categories ==> c in g.categories)
              && (forall a :: a in f.actions ==> a in g.actions)
  {
    var path := FileName(info.packageName);
    var f := if path in files then files[path] else EMPTY_FILE;
    WrittenTwice(f, info);
    if Launchable(info) {
      var after := files[path := Written(f, info)];
      assert after[path := Written(f, info)] == after;
    }
  }

  lemma WrittenTwice(f: DesktopFile, info: AppInfo)
    ensures var g := Written(f, info);
            && Written(g, info) == g
            && (forall c :: c in f.categories ==> c in g.categories)
            && (forall a :: a in f.actions ==> a in g.actions)
  {
    var g := Written(f, info);
    PrependedKeeps(f.categories, ["X-WayDroid-App"]);
    PrependedKeeps(f.actions, ["app-settings"]);
    PrependedOfPresent(g.categories, ["X-WayDroid-App"]);
    PrependedOfPresent(g.actions, ["app-settings"]);
  }

  lemma PrependedKeeps(present: seq<string>, wanted: seq<string>)
    ensures forall x :: x in present || x in wanted ==> x in Prepended(present, wanted)
  {
    var added := PrependedAddsMissing(present, wanted);
  }

  /** What a file written for a launchable app holds, given what was there before. */
  ghost predicate StandsFor(f: DesktopFile, was: Option<DesktopFile>, info: AppInfo) {
    && f.package == info.packageName && f.name == info.name
    && "X-WayDroid-App" in f.categories && "app-settings" in f.actions
    && (var hidden := if was.None? then None else was.value.noDisplay;
        && (f.noDisplay == Some("true") <==>
              hidden == Some("true") || (hidden.None? && info.packageName in SYSTEM_APPS))
        && (f.noDisplay != Some("true") ==> f.noDisplay == hidden))
    && (match was
        case None => f.rest == map[] && f.categories == ["X-WayDroid-App"] && f.actions == ["app-settings"]
        case Some(g) => f.rest == g.rest && EndsWith(f.categories, g.categories) && EndsWith(f.actions, g.actions))
  }

  predicate EndsWith(s: seq<string>, tail: seq<string>) {
    |tail| <= |s| && s[|s| - |tail|..] == tail
  }

  function At(files: Files, path: string): Option<DesktopFile> {
    if path in files then Some(files[path]) else None
  }

  /** The new content of one file, spelled out; every other file keeps its content. */
  lemma FileHolds(files: Files, info: AppInfo)
    ensures var path, after := "waydroid." + info.packageName + ".desktop", Updated(files, info);
            && (if exists c :: c in info.categories && Strip(c) == "android.intent.category.LAUNCHER"
                then path in after && StandsFor(after[path], At(files, path), info)
                else path !in after)
            && forall name :: name != path ==> At(after, name) == At(files, name)
  {
    WrittenStands(At(files, FileName(info.packageName)), info);
  }

  lemma WrittenStands(was: Option<DesktopFile>, info: AppInfo)
    ensures StandsFor(Written(if was.Some? then was.value else EMPTY_FILE, info), was, info)
  {
    var f := if was.Some? then was.value else EMPTY_FILE;
    PrependedOne(f.categories, "X-WayDroid-App");
    PrependedOne(f.actions, "app-settings");
  }

  lemma PrependedOne(present: seq<string>, wanted: string)
    ensures var r := Prepended(present, [wanted]);
            wanted in r && EndsWith(r, present) && (present == [] ==> r == [wanted])
  {
    assert [wanted][1..] == [];
    assert ([wanted] + present)[1..] == present;
  }

  /** What the platform service last said about a package. */
  function LastInfo(apps: seq<AppInfo>, p: Package): Option<AppInfo> {
    if apps == [] then None
    else if apps[|apps| - 1].packageName == p then Some(apps[|apps| - 1])
    else LastInfo(apps[..|apps| - 1], p)
  }

  predicate Shown(info: Option<AppInfo>) { info.Some? && Launchable(info.value) }

  class UserManager {
    var files: Files

    constructor (files: Files)
      ensures this.files == files
    {
      this.files := files;
    }

    method UpdateDesktopFile(appInfo: Option<AppInfo>)
      modifies this
      ensures files == if appInfo.None? then old(files) else Updated(old(files), appInfo.value)
    {
      if appInfo.None? { return; }
      var info := appInfo.value;
      var path := FileName(info.packageName);
      var showApp := false;
      for i := 0 to |info.categories|
        invariant showApp <==> exists j :: 0 <= j < i && Strip(info.categories[j]) == LAUNCHER
      {
        if Strip(info.categories[i]) == LAUNCHER {
          showApp := true;
          break;
        }
      }
      if !showApp {
        files := files - {path};
        return;
      }
      var f := if path in files then files[path] else EMPTY_FILE;
      f := f.(package := info.packageName, name := info.name);
      var list := PrependList(f.categories, ["X-WayDroid-App"]);
      f := f.(categories := list);
      list := PrependList(f.actions, ["app-settings"]);
      f := f.(actions := list);
      if info.packageName in SYSTEM_APPS && f.noDisplay.None? {
        f := f.(noDisplay := Some("true"));
      }
      files := files[path := f];
    }

    /** `apps` is None when the platform service cannot be reached. */
    method UserUnlocked(apps: Option<seq<AppInfo>>)
      modifies this
      ensures apps.None? ==> files == old(files)
      ensures apps.Some? ==> forall p :: FileName(p) in files <==> Shown(LastInfo(apps.value, p))
      ensures SameElsewhere(files, old(files))
      ensures apps.Some? ==> ListedHold(files, old(files), apps.value)
    {
      if apps.None? { return; }
      ghost var was := files;
      var appsList := apps.value;
      for i := 0 to |appsList|
        invariant ListedAgree(files, appsList[..i])
        invariant SameElsewhere(files, was)
        invariant ListedHold(files, was, appsList[..i])
      {
        ListedAgreeAppend(files, appsList[..i], appsList[i]);
        ListedHoldAppend(files, was, appsList[..i], appsList[i]);
        assert appsList[..i + 1] == appsList[..i] + [appsList[i]];
        UpdateDesktopFile(Some(appsList[i]));
      }
      assert appsList[..|appsList|] == appsList;
      var globbed := set name | name in files && IsAppFile(name);
      while globbed != {}
        invariant forall name :: name in globbed ==> IsAppFile(name)
        invariant forall name :: name in files && IsAppFile(name) && name !in globbed ==> name in Names(appsList)
        invariant ListedAgree(files, appsList)
        invariant SameElsewhere(files, was)
        invariant ListedHold(files, was, appsList)
        decreases globbed
      {
        var existing :| existing in globbed;
        globbed := globbed - {existing};
        if existing !in Names(appsList) {
          DropUnlisted(files, appsList, existing);
          ListedHoldDrop(files, was, appsList, existing);
          files := files - {existing};
        }
      }
      AllAgree(files, appsList);
    }

    /** `platform` is what the service would answer, None when it cannot be reached. */
    method PackageStateChanged(mode: Mode, packageName: Package, platform: Option<map<Package, AppInfo>>)
      modifies this
      ensures files == Handled(old(files), Changed(mode, packageName), platform)
    {
      if platform.None? { return; }
      var path := FileName(packageName);
      if mode == REMOVED {
        files := files - {path};
      } else {
        var appInfo := if packageName in platform.value then Some(platform.value[packageName]) else None;
        UpdateDesktopFile(appInfo);
      }
    }
  }

  /** Outside the pattern the directory is as it was. */
  ghost predicate SameElsewhere(files: Files, was: Files) {
    forall name :: !IsAppFile(name) ==>
      (name in files <==> name in was) && (name in files ==> files[name] == was[name])
  }

  lemma UpdateTouchesOne(files: Files, info: AppInfo)
    ensures FileName(info.packageName) in Updated(files, info) <==> Launchable(info)
    ensures forall p :: p != info.packageName ==> (FileName(p) in Updated(files, info) <==> FileName(p) in files)
    ensures SameElsewhere(Updated(files, info), files)
  {
    forall p ensures p != info.packageName ==> FileName(p) != FileName(info.packageName) {
      AppFilesAreNamed("", p, info.packageName);
    }
    AppFilesAreNamed("", info.packageName, info.packageName);
  }

  function Names(apps: seq<AppInfo>): set<string> { set a | a in apps :: FileName(a.packageName) }

  /** The packages the service listed agree with the directory. */
  ghost predicate ListedAgree(files: Files, apps: seq<AppInfo>) {
    forall p :: LastInfo(apps, p).Some? ==> (FileName(p) in files <==> Shown(LastInfo(apps, p)))
  }

  lemma ListedAgreeAppend(files: Files, apps: seq<AppInfo>, info: AppInfo)
    requires ListedAgree(files, apps)
    ensures ListedAgree(Updated(files, info), apps + [info])
    ensures SameElsewhere(Updated(files, info), files)
  {
    UpdateTouchesOne(files, info);
    assert (apps + [info])[..|apps|] == apps;
  }

  /** The file of each shown package carries its name and marks; it is hidden if it is a system app, and
      if not, only if it was there before. */
  ghost predicate ListedHold(files: Files, was: Files, apps: seq<AppInfo>) {
    forall p :: FileName(p) in files ==> Holds(files[FileName(p)], FileName(p) in was, LastInfo(apps, p), p)
  }

  ghost predicate Holds(f: DesktopFile, was: bool, info: Option<AppInfo>, p: Package) {
    && (Shown(info) ==>
          && f.package == p && f.name == info.value.name
          && "X-WayDroid-App" in f.categories && "app-settings" in f.actions
          && (p in SYSTEM_APPS ==> f.noDisplay.Some?))
    && (p !in SYSTEM_APPS && !was ==> f.noDisplay.None?)
  }

  lemma LastInfoIsNamed(apps: seq<AppInfo>, p: Package)
    ensures LastInfo(apps, p).Some? ==> LastInfo(apps, p).value.packageName == p
  {}

  lemma ListedHoldAppend(files: Files, was: Files, apps: seq<AppInfo>, info: AppInfo)
    requires ListedHold(files, was, apps)
    ensures ListedHold(Updated(files, info), was, apps + [info])
  {
    var after, q := Updated(files, info), info.packageName;
    FileHolds(files, info);
    assert (apps + [info])[..|apps|] == apps;
    forall p | FileName(p) in after
      ensures Holds(after[FileName(p)], FileName(p) in was, LastInfo(apps + [info], p), p)
    {
      AppFilesAreNamed("", p, q);
      if p == q {
        assert FileName(q) in files ==> Holds(files[FileName(q)], FileName(q) in was, LastInfo(apps, q), q);
      } else {
        assert At(after, FileName(p)) == At(files, FileName(p));
      }
    }
  }

  lemma ListedHoldDrop(files: Files, was: Files, apps: seq<AppInfo>, name: string)
    requires ListedHold(files, was, apps)
    ensures ListedHold(files - {name}, was, apps)
  {}

  lemma DropUnlisted(files: Files, apps: seq<AppInfo>, name: string)
    requires ListedAgree(files, apps) && IsAppFile(name) && name !in Names(apps)
    ensures ListedAgree(files - {name}, apps) && SameElsewhere(files - {name}, files)
  {
    ListedNames(apps);
  }

  lemma AllAgree(files: Files, apps: seq<AppInfo>)
    requires ListedAgree(files, apps)
    requires forall name :: name in files && IsAppFile(name) ==> name in Names(apps)
    ensures forall p :: FileName(p) in files <==> Shown(LastInfo(apps, p))
  {
    ListedNames(apps);
    forall p ensures FileName(p) in files <==> Shown(LastInfo(apps, p)) {
      AppFilesAreNamed("", p, p);
    }
  }

  lemma {:induction false} ListedNames(apps: seq<AppInfo>)
    ensures forall p :: LastInfo(apps, p).Some? <==> exists a :: a in apps && a.packageName == p
    ensures forall p :: LastInfo(apps, p).Some? <==> exists a :: a in apps && FileName(a.packageName) == FileName(p)
  {
    if apps != [] {
      var n := |apps| - 1;
      ListedNames(apps[..n]);
      assert apps == apps[..n] + [apps[n]];
    }
    forall p, q ensures FileName(p) == FileName(q) <==> p == q {
      AppFilesAreNamed("", p, q);
    }
  }

  // ----- events against the current package state -----

  datatype Mode = ADDED | REMOVED | UPDATED

  datatype Event = Changed(mode: Mode, package: Package)

  function Handled(files: Files, e: Event, platform: Option<map<Package, AppInfo>>): Files {
    if platform.None? then files
    else if e.mode == REMOVED then files - {FileName(e.package)}
    else if e.package in platform.value then Updated(files, platform.value[e.package])
    else files
  }

  /** Android's packages, the events not yet handled (oldest first), the desktop files. */
  datatype World = World(installed: map<Package, AppInfo>, queue: seq<Event>, files: Files)

  datatype Move =
    | Install(info: AppInfo, update: bool)
    | Remove(package: Package)
    | Handle(answers: bool)
    | Resync(apps: seq<AppInfo>, files: Files)

  /** `apps` is a listing of the installed packages, in some order. */
  ghost predicate Lists(apps: seq<AppInfo>, installed: map<Package, AppInfo>) {
    forall p :: LastInfo(apps, p) == if p in installed then Some(installed[p]) else None
  }

  ghost predicate Step(m: Move, w: World, w1: World) {
    match m
    case Install(info, update) =>
      w1 == w.(installed := w.installed[info.packageName := info],
               queue := w.queue + [Changed(if update then UPDATED else ADDED, info.packageName)])
    case Remove(p) =>
      p in w.installed && w1 == w.(installed := w.installed - {p}, queue := w.queue + [Changed(REMOVED, p)])
    case Handle(answers) =>
      w.queue != [] && w1 == w.(queue := w.queue[1..],
                                files := Handled(w.files, w.queue[0], if answers then Some(w.installed) else None))
    case Resync(apps, files) =>
      && Lists(apps, w.installed)
      && (forall p :: FileName(p) in files <==> Shown(LastInfo(apps, p)))
      && w1 == w.(files := files)
  }

  ghost predicate Agrees(w: World, p: Package) {
    FileName(p) in w.files <==> p in w.installed && Launchable(w.installed[p])
  }

  predicate Pending(q: seq<Event>, p: Package) {
    exists e :: e in q && e.package == p
  }

  function LastEvent(q: seq<Event>, p: Package): Option<Mode> {
    if q == [] then None
    else if q[|q| - 1].package == p then Some(q[|q| - 1].mode)
    else LastEvent(q[..|q| - 1], p)
  }

  /** The newest queued event of a package tells whether it is installed, and a package with no
      queued event agrees with the directory. */
  ghost predicate Tracked(w: World, p: Package) {
    match LastEvent(w.queue, p)
    case None => Agrees(w, p)
    case Some(mode) => mode == REMOVED <==> p !in w.installed
  }

  ghost predicate Good(w: World) {
    && (forall p :: p in w.installed ==> w.installed[p].packageName == p)
    && (forall p :: Tracked(w, p))
  }

  lemma {:induction false} LastEventPending(q: seq<Event>, p: Package)
    ensures LastEvent(q, p).Some? <==> Pending(q, p)
  {
    if q != [] {
      var n := |q| - 1;
      LastEventPending(q[..n], p);
      assert q == q[..n] + [q[n]];
    }
  }

  /** Only the newest event of a package counts, however many older ones have been handled. */
  lemma {:induction false} LastEventOfTail(h: Event, t: seq<Event>, p: Package)
    ensures LastEvent([h] + t, p) ==
            if LastEvent(t, p).Some? then LastEvent(t, p) else if h.package == p then Some(h.mode) else None
  {
    if t == [] {
      assert [h] + t == [h] && [h][..0] == [];
    } else {
      var n := |t| - 1;
      LastEventOfTail(h, t[..n], p);
      assert ([h] + t)[..n + 1] == [h] + t[..n];
    }
  }

  /** Handling one event, for one package, with the service answering or not. */
  lemma HandleTracks(w: World, w1: World, answers: bool, p: Package)
    requires Step(Handle(answers), w, w1) && Good(w)
    ensures answers || w.queue[0].package != p ==> Tracked(w1, p)
    ensures !answers && w.queue[0].package == p ==> (Tracked(w1, p) <==> Pending(w1.queue, p) || Agrees(w, p))
  {
    var e := w.queue[0];
    assert Tracked(w, p);
    assert w.queue == [e] + w1.queue;
    LastEventOfTail(e, w1.queue, p);
    LastEventPending(w1.queue, p);
    AppFilesAreNamed("", p, e.package);
    if answers && e.mode != REMOVED && e.package in w.installed {
      UpdateTouchesOne(w.files, w.installed[e.package]);
    }
  }

  /** A lost event: the package is gone, the service does not answer, and the file stays with nothing
      queued that would remove it. */
  lemma DroppedEventMisleads(p: Package, f: DesktopFile)
    ensures var w := World(map[], [Changed(REMOVED, p)], map[FileName(p) := f]);
            var w1 := w.(queue := []);
            && Good(w) && Step(Handle(false), w, w1)
            && !Pending(w1.queue, p) && !Agrees(w1, p) && !Good(w1)
  {
    var w := World(map[], [Changed(REMOVED, p)], map[FileName(p) := f]);
    forall q ensures Tracked(w, q) {
      AppFilesAreNamed("", p, q);
      assert LastEvent(w.queue, q) == if q == p then Some(REMOVED) else None;
    }
    assert !Tracked(w.(queue := []), p);
  }

  lemma StepKeepsGood(m: Move, w: World, w1: World)
    requires Step(m, w, w1) && Good(w) && !(m.Handle? && !m.answers)
    ensures Good(w1)
  {
    forall p ensures Tracked(w1, p) {
      assert Tracked(w, p);
      match m
      case Install(info, update) => assert w1.queue[..|w.queue|] == w.queue;
      case Remove(q) => assert w1.queue[..|w.queue|] == w.queue;
      case Handle(answers) => HandleTracks(w, w1, answers, p);
      case Resync(apps, files) => assert LastInfo(apps, p) == if p in w.installed then Some(w.installed[p]) else None;
    }
  }

  ghost predicate History(ms: seq<Move>, ws: seq<World>) {
    |ws| == |ms| + 1 && forall i :: 0 <= i < |ms| ==> Step(ms[i], ws[i], ws[i + 1])
  }

  /** Eventual agreement: with the service answering, every package with no queued event has a
      desktop file exactly when it is installed and has the LAUNCHER category, at every moment. */
  lemma {:induction false} IndexAgrees(ms: seq<Move>, ws: seq<World>, p: Package)
    requires History(ms, ws) && Good(ws[0])
    requires forall i :: 0 <= i < |ms| && ms[i].Handle? ==> ms[i].answers
    ensures Good(ws[|ms|])
    ensures !Pending(ws[|ms|].queue, p) ==> Agrees(ws[|ms|], p)
  {
    if ms != [] {
      var n := |ms| - 1;
      assert History(ms[..n], ws[..n + 1]);
      IndexAgrees(ms[..n], ws[..n + 1], p);
      StepKeepsGood(ms[n], ws[n], ws[n + 1]);
    }
    LastEventPending(ws[|ms|].queue, p);
    assert Tracked(ws[|ms|], p);
  }

  /** The half of `Good` that does not depend on the directory. */
  ghost predicate QueueGood(w: World) {
    && (forall p :: p in w.installed ==> w.installed[p].packageName == p)
    && (forall p :: LastEvent(w.queue, p).Some? ==> (LastEvent(w.queue, p).value == REMOVED <==> p !in w.installed))
  }

  lemma StepKeepsQueueGood(m: Move, w: World, w1: World)
    requires Step(m, w, w1) && QueueGood(w)
    ensures QueueGood(w1)
    ensures m.Resync? ==> Good(w1)
  {
    forall p
      ensures LastEvent(w1.queue, p).Some? ==> (LastEvent(w1.queue, p).value == REMOVED <==> p !in w1.installed)
    {
      if m.Handle? {
        assert w.queue == [w.queue[0]] + w1.queue;
        LastEventOfTail(w.queue[0], w1.queue, p);
      } else if !m.Resync? {
        assert w1.queue[..|w.queue|] == w.queue;
      }
    }
    if m.Resync? {
      forall p ensures Tracked(w1, p) { ResyncAgrees(m.apps, m.files, w, w1, p); }
    }
  }

  /** Events lost while the service did not answer are made good by the next full resync: from
      there on the index agrees again as above. */
  lemma {:induction false} ResyncRepairs(ms: seq<Move>, ws: seq<World>)
    requires History(ms, ws) && QueueGood(ws[0])
    ensures QueueGood(ws[|ms|])
    ensures ms != [] && ms[|ms| - 1].Resync? ==> Good(ws[|ms|])
  {
    if ms != [] {
      var n := |ms| - 1;
      assert History(ms[..n], ws[..n + 1]);
      ResyncRepairs(ms[..n], ws[..n + 1]);
      StepKeepsQueueGood(ms[n], ws[n], ws[n + 1]);
    }
  }

  /** A full resync makes every package agree, whatever the directory held. */
  lemma ResyncAgrees(apps: seq<AppInfo>, files: Files, w: World, w1: World, p: Package)
    requires Step(Resync(apps, files), w, w1)
    ensures Agrees(w1, p)
  {
    assert LastInfo(apps, p) == if p in w.installed then Some(w.installed[p]) else None;
  }
}
