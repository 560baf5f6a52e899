/** mount_rootfs and umount_rootfs of tools/helpers/images.py over the mount table. */
module Rootfs {
  import opened Strings
  import opened MountTable
  import opened MountHost

  const WORK := "/var/lib/waydroid"
  const ROOTFS := "/var/lib/waydroid/rootfs"
  const OVERLAY := "/var/lib/waydroid/overlay"
  const OVERLAY_RW := "/var/lib/waydroid/overlay_rw"
  const OVERLAY_WORK := "/var/lib/waydroid/overlay_work"

  /** The image directory and which of the host's optional folders exist. */
  datatype HostDirs = HostDirs(images: string, egl: bool, egl64: bool, vendorOdm: bool)

  const SYSTEM_OVERLAY := Overlay([OVERLAY, ROOTFS], OVERLAY_RW + "/system", OVERLAY_WORK + "/system")
  const VENDOR_OVERLAY :=
    Overlay([OVERLAY + "/vendor", ROOTFS + "/vendor"], OVERLAY_RW + "/vendor", OVERLAY_WORK + "/vendor")

  // ----- the mounts of an undisturbed run on table `t` -----

  function Images(m: Host, d: HostDirs, t: Table, overlays: bool): Table {
    t + [m.Mounted(Image(d.images + "/system.img"), ROOTFS)]
    + (if overlays then [m.Mounted(SYSTEM_OVERLAY, ROOTFS)] else [])
    + [m.Mounted(Image(d.images + "/vendor.img"), ROOTFS + "/vendor")]
    + (if overlays then [m.Mounted(VENDOR_OVERLAY, ROOTFS + "/vendor")] else [])
  }

  function WithEgl(m: Host, d: HostDirs, t: Table): Table {
    var t1 := if d.egl then m.Bound(t, "/vendor/lib/egl", ROOTFS + "/vendor/lib/egl") else t;
    if d.egl64 then m.Bound(t1, "/vendor/lib64/egl", ROOTFS + "/vendor/lib64/egl") else t1
  }

  function WithOdm(m: Host, d: HostDirs, t: Table): Table {
    if IsMounted(t, "/odm") then m.Bound(t, "/odm", ROOTFS + "/odm_extra")
    else if d.vendorOdm then m.Bound(t, "/vendor/odm", ROOTFS + "/odm_extra")
    else t
  }

  function Binds(m: Host, d: HostDirs, t: Table): Table {
    m.Bound(WithOdm(m, d, WithEgl(m, d, t)), WORK + "/waydroid.prop", ROOTFS + "/vendor/waydroid.prop")
  }

  function CleanRun(m: Host, d: HostDirs, t: Table, overlays: bool): Table {
    Binds(m, d, Images(m, d, t, overlays))
  }

  /** Everything an attempt can leave behind, however far it got. */
  ghost predicate Attempted(m: Host, d: HostDirs, t: Table, t1: Table) {
    || PartlyUnmounted(t, ROOTFS, t1)
    || PartlyMounted(m, d, Cleared(t, ROOTFS), t1)
  }

  ghost predicate PartlyMounted(m: Host, d: HostDirs, base: Table, t1: Table) {
    exists overlays :: base <= t1 <= CleanRun(m, d, base, overlays)
  }

  /** If no command fails, an attempt goes through with the overlays as configured, exactly unless
      `ismount` is fooled while clearing. */
  ghost predicate Undisturbed(t: Table, failures: nat, failures1: nat, overlays: bool, overlays1: bool, r: Outcome) {
    && failures <= failures1
    && (failures1 == failures ==>
          overlays1 == overlays && (r.Done? <==> !(IsMounted(t, ROOTFS) && Fooled(t, ROOTFS))))
  }

  /** A first overlay that cannot be mounted is no failure of the run: it never ends there because of that,
      and if nothing else fails it goes through without overlays. */
  ghost predicate FallsBack(t0: Table, system: Entry, t: Table, failures: nat, overlays: bool, overlays1: bool,
                            r: Outcome) {
    && (overlays && failures <= 1 && !r.Done? ==>
          t != Cleared(t0, ROOTFS) + [system] || PartlyUnmounted(t0, ROOTFS, t))
    && (overlays && !overlays1 && failures == 1 ==> r.Done?)
  }

  class ImagesHelper {
    const host: Host
    const dirs: HostDirs
    /** cfg["waydroid"]["mount_overlays"], as saved. */
    var mountOverlays: bool
    /** How often the session's property file has been written. */
    var propsMade: nat

    constructor (host: Host, dirs: HostDirs, mountOverlays: bool)
      ensures this.host == host && this.dirs == dirs && this.mountOverlays == mountOverlays && propsMade == 0
    {
      this.host, this.dirs, this.mountOverlays, propsMade := host, dirs, mountOverlays, 0;
    }

    method MakeProp() returns (r: Outcome)
      modifies this`propsMade, host`failures
      ensures r.Done? || r.CommandFailed?
      ensures host.failures == old(host.failures) + if r.Done? then 0 else 1
      ensures propsMade == old(propsMade) + if r.Done? then 1 else 0
    {
      r := host.Run(["make_prop"]);
      if r.Done? { propsMade := propsMade + 1; }
    }

    method MountRootfs() returns (r: Outcome)
      modifies this`mountOverlays, this`propsMade, host`table, host`failures
      ensures r.Done? ==> propsMade == old(propsMade) + 1
      ensures r.Done? ==>
                host.table == CleanRun(host, dirs, Cleared(old(host.table), ROOTFS), mountOverlays)
      ensures Attempted(host, dirs, old(host.table), host.table)
      ensures Undisturbed(old(host.table), old(host.failures), host.failures, old(mountOverlays), mountOverlays, r)
      ensures FallsBack(old(host.table), host.Mounted(Image(dirs.images + "/system.img"), ROOTFS),
                        host.table, host.failures - old(host.failures), old(mountOverlays), mountOverlays, r)
      ensures mountOverlays ==> old(mountOverlays)
    {
      ghost var base := Cleared(host.table, ROOTFS);
      :- MountImages();
      BindsExtend(host, dirs, host.table);
      r := MountBinds();
      assert PartlyMounted(host, dirs, base, host.table) by {
        assert base <= host.table <= CleanRun(host, dirs, base, mountOverlays);
      }
    }

    /** The first half of mount_rootfs: the two images with their overlays. */
    method MountImages() returns (r: Outcome)
      modifies this`mountOverlays, host`table, host`failures
      ensures r.Done? ==>
                host.table == Images(host, dirs, Cleared(old(host.table), ROOTFS), mountOverlays)
      ensures Attempted(host, dirs, old(host.table), host.table)
      ensures Undisturbed(old(host.table), old(host.failures), host.failures, old(mountOverlays), mountOverlays, r)
      ensures FallsBack(old(host.table), host.Mounted(Image(dirs.images + "/system.img"), ROOTFS),
                        host.table, host.failures - old(host.failures), old(mountOverlays), mountOverlays, r)
      ensures mountOverlays ==> old(mountOverlays)
    {
      ghost var base := Cleared(host.table, ROOTFS);
      ImagesAttempted(host, dirs, base);
      assert base <= base <= Images(host, dirs, base, mountOverlays);
      :- host.Mount(Image(dirs.images + "/system.img"), ROOTFS, umount := true);
      var overlays;
      r, overlays := MountSystemOverlay();
      if !r.Done? { return; }
      :- host.Mount(Image(dirs.images + "/vendor.img"), ROOTFS + "/vendor");
      if overlays {
        :- host.MountOverlay(VENDOR_OVERLAY.lower, ROOTFS + "/vendor", VENDOR_OVERLAY.upper, VENDOR_OVERLAY.work);
      }
      return Done;
    }

    /** The first overlay, if configured; if it cannot be mounted, overlays are switched off. */
    method MountSystemOverlay() returns (r: Outcome, overlays: bool)
      modifies this`mountOverlays, host`table, host`failures
      ensures host.table ==
              old(host.table) + if overlays then [host.Mounted(SYSTEM_OVERLAY, ROOTFS)] else []
      ensures r.Done? ==> mountOverlays == overlays && (overlays ==> old(mountOverlays))
      ensures overlays == (old(mountOverlays) && host.failures == old(host.failures))
      ensures host.failures >= old(host.failures) && (!old(mountOverlays) ==> host.failures == old(host.failures))
      ensures !r.Done? ==> host.failures >= old(host.failures) + 2 && mountOverlays == old(mountOverlays)
    {
      overlays := mountOverlays;
      r := Done;
      if overlays {
        r := host.MountOverlay(SYSTEM_OVERLAY.lower, ROOTFS, SYSTEM_OVERLAY.upper, SYSTEM_OVERLAY.work);
        if !r.Done? {
          overlays := false;
          r := host.Run(["save", "mount_overlays=False"]);
          if r.Done? { mountOverlays := false; }
        }
      }
    }

    /** The second half: bind mounts of the host's libraries and of the property file. */
    method MountBinds() returns (r: Outcome)
      modifies this`propsMade, host`table, host`failures
      ensures r.Done? ==> propsMade == old(propsMade) + 1
      ensures r.Done? ==> host.table == Binds(host, dirs, old(host.table))
      ensures host.failures >= old(host.failures) && (r.Done? <==> host.failures == old(host.failures))
      ensures old(host.table) <= host.table <= Binds(host, dirs, old(host.table))
    {
      ghost var t := host.table;
      BindsExtend(host, dirs, t);
      :- MountEgl();
      var odm := host.Ismount("/odm");
      if odm {
        :- host.Bind("/odm", ROOTFS + "/odm_extra");
      } else if dirs.vendorOdm {
        :- host.Bind("/vendor/odm", ROOTFS + "/odm_extra");
      }
      :- MakeProp();
      r := host.BindFile(WORK + "/waydroid.prop", ROOTFS + "/vendor/waydroid.prop", ROOTFS + "/vendor");
    }

    method MountEgl() returns (r: Outcome)
      modifies host`table, host`failures
      ensures r.Done? ==> host.table == WithEgl(host, dirs, old(host.table))
      ensures host.failures >= old(host.failures) && (r.Done? <==> host.failures == old(host.failures))
      ensures old(host.table) <= host.table <= WithEgl(host, dirs, old(host.table))
    {
      if dirs.egl {
        :- host.Bind("/vendor/lib/egl", ROOTFS + "/vendor/lib/egl");
      }
      if dirs.egl64 {
        :- host.Bind("/vendor/lib64/egl", ROOTFS + "/vendor/lib64/egl");
      }
      return Done;
    }

    method UmountRootfs() returns (r: Outcome)
      modifies host`table, host`failures
      ensures r.Done? || r.CommandFailed? || r.StillMounted?
      ensures r.CommandFailed? ==> PartlyUnmounted(old(host.table), ROOTFS, host.table)
      ensures !r.CommandFailed? ==> host.table == Outside(old(host.table), ROOTFS)
      ensures !r.CommandFailed? ==> (r.StillMounted? <==> Fooled(old(host.table), ROOTFS))
      ensures host.failures == old(host.failures) + if r.CommandFailed? then 1 else 0
      ensures r.Done? <==> Matching(host.table, ROOTFS) == [] && !Fooled(old(host.table), ROOTFS)
    {
      ghost var t := host.table;
      NoneMatchOutside(t);
      r := host.UmountAll(ROOTFS);
    }
  }

  lemma NoneMatchOutside(t: Table)
    ensures Matching(Outside(t, ROOTFS), ROOTFS) == []
  {
    OutsideMembers(t, ROOTFS);
    MatchingMembers(Outside(t, ROOTFS), ROOTFS);
  }

  // ----- what the stack holds -----

  /** What is mounted at `p`, the newest last. */
  function StackAt(t: Table, p: string): seq<Fs> {
    if t == [] then []
    else StackAt(t[..|t| - 1], p) + if t[|t| - 1].mountpoint == p then [t[|t| - 1].fs] else []
  }

  lemma StackAppend(t: Table, e: Entry, p: string)
    ensures StackAt(t + [e], p) == StackAt(t, p) + if e.mountpoint == p then [e.fs] else []
  {
    assert (t + [e])[..|t|] == t;
  }

  /** The source is bound to `p` on top of `base`, where nothing had the path before; or the path is
      taken, and nothing is put there. */
  ghost predicate BoundOrTaken(m: Host, base: Table, t: Table, source: string, p: string) {
    || (IsMounted(t, p) && StackAt(t, p) == StackAt(base, p))
    || (&& StackAt(t, p) == StackAt(base, p) + [BindOf(source)]
        && exists k :: |base| <= k < |t| && t[k] == m.Mounted(BindOf(source), p) && !IsMounted(t[..k], p))
  }

  /** Nothing that was put on top of `base` is hidden by something mounted later above it. */
  ghost predicate NothingHidden(base: Table, t: Table) {
    forall i, j :: |base| <= i < j < |t| ==> !Below(t[i].mountpoint, t[j].mountpoint)
  }

  const VENDOR := "/var/lib/waydroid/rootfs/vendor"
  const EGL := "/var/lib/waydroid/rootfs/vendor/lib/egl"
  const EGL64 := "/var/lib/waydroid/rootfs/vendor/lib64/egl"
  const ODM_EXTRA := "/var/lib/waydroid/rootfs/odm_extra"
  const PROP := "/var/lib/waydroid/rootfs/vendor/waydroid.prop"

  /** The six places by name, in the order in which they are mounted on. */
  datatype Places = Places(root: string, vendor: string, egl: string, egl64: string, odm: string, prop: string)

  const PLACES := Places(ROOTFS, VENDOR, EGL, EGL64, ODM_EXTRA, PROP)

  /** The system and the vendor image are there, each directly under its overlay if overlays are on. */
  ghost predicate HoldsImages(d: HostDirs, base: Table, t: Table, overlays: bool) {
    && StackAt(t, ROOTFS) == StackAt(base, ROOTFS)
         + [Image(d.images + "/system.img")]
         + (if overlays
            then [Overlay(["/var/lib/waydroid/overlay", "/var/lib/waydroid/rootfs"],
                          "/var/lib/waydroid/overlay_rw/system", "/var/lib/waydroid/overlay_work/system")]
            else [])
    && StackAt(t, VENDOR) == StackAt(base, VENDOR)
         + [Image(d.images + "/vendor.img")]
         + (if overlays
            then [Overlay(["/var/lib/waydroid/overlay/vendor", "/var/lib/waydroid/rootfs/vendor"],
                          "/var/lib/waydroid/overlay_rw/vendor", "/var/lib/waydroid/overlay_work/vendor")]
            else [])
  }

  /** Each of the host's EGL folders that exists is there; /odm if that is a mount, else /vendor/odm if
      that exists; and the property file. */
  ghost predicate HoldsBinds(m: Host, d: HostDirs, g: Places, base: Table, t: Table) {
    && (if d.egl then BoundOrTaken(m, base, t, "/vendor/lib/egl", g.egl)
        else StackAt(t, g.egl) == StackAt(base, g.egl))
    && (if d.egl64 then BoundOrTaken(m, base, t, "/vendor/lib64/egl", g.egl64)
        else StackAt(t, g.egl64) == StackAt(base, g.egl64))
    && (IsMounted(base, "/odm") ==> BoundOrTaken(m, base, t, "/odm", g.odm))
    && (!IsMounted(t, "/odm") ==>
          if d.vendorOdm then BoundOrTaken(m, base, t, "/vendor/odm", g.odm)
          else StackAt(t, g.odm) == StackAt(base, g.odm))
    && BoundOrTaken(m, base, t, "/var/lib/waydroid/waydroid.prop", g.prop)
  }

  /** Nothing is mounted anywhere else, and nothing that is new is hidden. */
  ghost predicate HoldsOnly(m: Host, base: Table, t: Table) {
    && base <= t
    && (forall k :: |base| <= k < |t| ==> t[k] == m.Mounted(t[k].fs, t[k].mountpoint))
    && (forall p :: p !in {ROOTFS, VENDOR, EGL, EGL64, ODM_EXTRA, PROP} ==> StackAt(t, p) == StackAt(base, p))
    && NothingHidden(base, t)
  }

  lemma StackOfBound(m: Host, t: Table, source: string, p: string, q: string)
    ensures StackAt(m.Bound(t, source, p), q) ==
            StackAt(t, q) + if q == p && !IsMounted(t, p) then [BindOf(source)] else []
  {
    StackAppend(t, m.Mounted(BindOf(source), p), q);
    assert StackAt(t, q) + [] == StackAt(t, q);
  }

  lemma BoundIsHeld(m: Host, base: Table, t: Table, source: string, p: string, last: Table)
    requires base <= t && StackAt(t, p) == StackAt(base, p)
    requires m.Bound(t, source, p) <= last && StackAt(last, p) == StackAt(m.Bound(t, source, p), p)
    ensures BoundOrTaken(m, base, last, source, p)
  {
    StackOfBound(m, t, source, p, p);
    var k := |t|;
    if IsMounted(t, p) {
      IsMountedLater(t, last, p);
    } else {
      assert last[k] == m.Mounted(BindOf(source), p) && last[..k] == t;
    }
  }

  lemma IsMountedLater(t: Table, last: Table, p: string)
    requires t <= last && IsMounted(t, p)
    ensures IsMounted(last, p)
  {
    var e :| e in t && (e.mountpoint == p || e.device == p);
    var i :| 0 <= i < |t| && t[i] == e;
    assert last[i] == e;
  }

  lemma PlacesAreSpelled()
    ensures ROOTFS + "/vendor" == VENDOR && ROOTFS + "/vendor/lib/egl" == EGL
    ensures ROOTFS + "/vendor/lib64/egl" == EGL64 && ROOTFS + "/odm_extra" == ODM_EXTRA
    ensures ROOTFS + "/vendor/waydroid.prop" == PROP && WORK + "/waydroid.prop" == "/var/lib/waydroid/waydroid.prop"
  {}

  lemma OverlaysAreSpelled()
    ensures OVERLAY + "/vendor" == "/var/lib/waydroid/overlay/vendor"
    ensures OVERLAY_RW + "/system" == "/var/lib/waydroid/overlay_rw/system"
    ensures OVERLAY_WORK + "/system" == "/var/lib/waydroid/overlay_work/system"
    ensures OVERLAY_RW + "/vendor" == "/var/lib/waydroid/overlay_rw/vendor"
    ensures OVERLAY_WORK + "/vendor" == "/var/lib/waydroid/overlay_work/vendor"
  {}

  lemma PlaceLengths()
    ensures |ROOTFS| == 24 && |VENDOR| == 31 && |EGL| == 39 && |EGL64| == 41 && |ODM_EXTRA| == 34 && |PROP| == 45
  {}

  lemma StackOfImages(m: Host, d: HostDirs, base: Table, overlays: bool, q: string)
    ensures StackAt(Images(m, d, base, overlays), q) == StackAt(base, q)
              + (if q == ROOTFS then [Image(d.images + "/system.img")] + (if overlays then [SYSTEM_OVERLAY] else [])
                 else if q == ROOTFS + "/vendor"
                 then [Image(d.images + "/vendor.img")] + (if overlays then [VENDOR_OVERLAY] else [])
                 else [])
  {
    var system, vendor := m.Mounted(Image(d.images + "/system.img"), ROOTFS),
                          m.Mounted(Image(d.images + "/vendor.img"), ROOTFS + "/vendor");
    StackAppend(base, system, q);
    var t := base + [system];
    if overlays {
      StackAppend(t, m.Mounted(SYSTEM_OVERLAY, ROOTFS), q);
      t := t + [m.Mounted(SYSTEM_OVERLAY, ROOTFS)];
    }
    StackAppend(t, vendor, q);
    t := t + [vendor];
    if overlays {
      StackAppend(t, m.Mounted(VENDOR_OVERLAY, ROOTFS + "/vendor"), q);
      t := t + [m.Mounted(VENDOR_OVERLAY, ROOTFS + "/vendor")];
    }
    assert t == Images(m, d, base, overlays);
  }

  ghost predicate Apart(g: Places) {
    && g.root !in {g.vendor, g.egl, g.egl64, g.odm, g.prop} && g.vendor !in {g.egl, g.egl64, g.odm, g.prop}
    && g.egl !in {g.egl64, g.odm, g.prop} && g.egl64 !in {g.odm, g.prop} && g.odm != g.prop
  }

  function Rank(g: Places, p: string): nat {
    if p == g.root then 1 else if p == g.vendor then 2 else if p == g.egl then 3 else if p == g.egl64 then 4
    else if p == g.odm then 5 else if p == g.prop then 6 else 0
  }

  lemma LaterDoesNotHide(p: string, q: string)
    requires 0 < Rank(PLACES, p) <= Rank(PLACES, q)
    ensures !Below(p, q)
  {
    PlaceLengths();
    assert ODM_EXTRA[25] != EGL[25] && ODM_EXTRA[25] != EGL64[25];
  }

  /** What is new is mounted in that order, up to place number `r`. */
  ghost predicate InOrder(m: Host, g: Places, base: Table, t: Table, r: nat) {
    && base <= t
    && (forall k :: |base| <= k < |t| ==>
          t[k] == m.Mounted(t[k].fs, t[k].mountpoint) && 0 < Rank(g, t[k].mountpoint) <= r)
    && (forall i, j :: |base| <= i < j < |t| ==> Rank(g, t[i].mountpoint) <= Rank(g, t[j].mountpoint))
  }

  lemma AppendInOrder(m: Host, g: Places, base: Table, t: Table, r: nat, fs: Fs, p: string)
    requires InOrder(m, g, base, t, r) && r <= Rank(g, p) && 0 < Rank(g, p)
    ensures InOrder(m, g, base, t + [m.Mounted(fs, p)], Rank(g, p))
  {}

  lemma BoundInOrder(m: Host, g: Places, base: Table, t: Table, r: nat, source: string, p: string)
    requires InOrder(m, g, base, t, r) && r <= Rank(g, p) && 0 < Rank(g, p)
    ensures InOrder(m, g, base, m.Bound(t, source, p), Rank(g, p))
  {
    AppendInOrder(m, g, base, t, r, BindOf(source), p);
  }

  lemma MaybeInOrder(m: Host, g: Places, base: Table, t: Table, t1: Table, r: nat, source: string, p: string)
    requires InOrder(m, g, base, t, r) && r <= Rank(g, p) && 0 < Rank(g, p)
    requires t1 == t || t1 == m.Bound(t, source, p)
    ensures InOrder(m, g, base, t1, Rank(g, p))
  {
    BoundInOrder(m, g, base, t, r, source, p);
  }

  lemma ImagesInOrder(m: Host, d: HostDirs, g: Places, base: Table, overlays: bool)
    requires g.root == ROOTFS && g.vendor == ROOTFS + "/vendor" && Apart(g)
    ensures InOrder(m, g, base, Images(m, d, base, overlays), 2)
  {
    assert InOrder(m, g, base, base, 1);
    AppendInOrder(m, g, base, base, 1, Image(d.images + "/system.img"), g.root);
    var t := base + [m.Mounted(Image(d.images + "/system.img"), g.root)];
    if overlays {
      AppendInOrder(m, g, base, t, 1, SYSTEM_OVERLAY, g.root);
      t := t + [m.Mounted(SYSTEM_OVERLAY, g.root)];
    }
    AppendInOrder(m, g, base, t, 1, Image(d.images + "/vendor.img"), g.vendor);
    t := t + [m.Mounted(Image(d.images + "/vendor.img"), g.vendor)];
    if overlays {
      AppendInOrder(m, g, base, t, 2, VENDOR_OVERLAY, g.vendor);
      t := t + [m.Mounted(VENDOR_OVERLAY, g.vendor)];
    }
    assert t == Images(m, d, base, overlays);
  }

  /** The tables after the images, after either EGL folder, after /odm, and at the end. */
  ghost predicate Stages(m: Host, d: HostDirs, g: Places, t1: Table, t2: Table, t3: Table, t4: Table, t: Table) {
    && t2 == (if d.egl then m.Bound(t1, "/vendor/lib/egl", g.egl) else t1)
    && t3 == (if d.egl64 then m.Bound(t2, "/vendor/lib64/egl", g.egl64) else t2)
    && t4 == (if IsMounted(t3, "/odm") then m.Bound(t3, "/odm", g.odm)
              else if d.vendorOdm then m.Bound(t3, "/vendor/odm", g.odm) else t3)
    && t == m.Bound(t4, "/var/lib/waydroid/waydroid.prop", g.prop)
  }

  /** The stacks differ at most at `p`. */
  ghost predicate SameBut(t: Table, t1: Table, p: string) {
    t <= t1 && forall q :: q != p ==> StackAt(t1, q) == StackAt(t, q)
  }

  lemma BoundElsewhere(m: Host, t: Table, source: string, p: string)
    ensures SameBut(t, m.Bound(t, source, p), p)
  {
    forall q ensures q != p ==> StackAt(m.Bound(t, source, p), q) == StackAt(t, q) {
      StackOfBound(m, t, source, p, q);
      assert StackAt(t, q) + [] == StackAt(t, q);
    }
  }

  lemma StagesDiffer(m: Host, d: HostDirs, g: Places, t1: Table, t2: Table, t3: Table, t4: Table, t: Table)
    requires Stages(m, d, g, t1, t2, t3, t4, t)
    ensures SameBut(t1, t2, g.egl) && SameBut(t2, t3, g.egl64) && SameBut(t3, t4, g.odm) && SameBut(t4, t, g.prop)
    ensures (!d.egl ==> t2 == t1) && (!d.egl64 ==> t3 == t2)
  {
    BoundElsewhere(m, t1, "/vendor/lib/egl", g.egl);
    BoundElsewhere(m, t2, "/vendor/lib64/egl", g.egl64);
    BoundElsewhere(m, t3, "/odm", g.odm);
    BoundElsewhere(m, t3, "/vendor/odm", g.odm);
    BoundElsewhere(m, t4, "/var/lib/waydroid/waydroid.prop", g.prop);
  }

  lemma StagesInOrder(m: Host, d: HostDirs, g: Places, base: Table, t1: Table, t2: Table, t3: Table, t4: Table,
                      t: Table)
    requires Stages(m, d, g, t1, t2, t3, t4, t) && Apart(g) && InOrder(m, g, base, t1, 2)
    ensures InOrder(m, g, base, t, 6)
  {
    MaybeInOrder(m, g, base, t1, t2, 2, "/vendor/lib/egl", g.egl);
    MaybeInOrder(m, g, base, t2, t3, 3, "/vendor/lib64/egl", g.egl64);
    MaybeInOrder(m, g, base, t3, t4, 4, if IsMounted(t3, "/odm") then "/odm" else "/vendor/odm", g.odm);
    MaybeInOrder(m, g, base, t4, t, 5, "/var/lib/waydroid/waydroid.prop", g.prop);
  }

  lemma EglIsHeld(m: Host, d: HostDirs, g: Places, base: Table, t1: Table, t2: Table, t3: Table, t4: Table, t: Table)
    requires Stages(m, d, g, t1, t2, t3, t4, t) && Apart(g) && base <= t1
    requires StackAt(t1, g.egl) == StackAt(base, g.egl) && StackAt(t1, g.egl64) == StackAt(base, g.egl64)
    ensures if d.egl then BoundOrTaken(m, base, t, "/vendor/lib/egl", g.egl)
            else StackAt(t, g.egl) == StackAt(base, g.egl)
    ensures if d.egl64 then BoundOrTaken(m, base, t, "/vendor/lib64/egl", g.egl64)
            else StackAt(t, g.egl64) == StackAt(base, g.egl64)
  {
    StagesDiffer(m, d, g, t1, t2, t3, t4, t);
    if d.egl { BoundIsHeld(m, base, t1, "/vendor/lib/egl", g.egl, t); }
    if d.egl64 { BoundIsHeld(m, base, t2, "/vendor/lib64/egl", g.egl64, t); }
  }

  lemma OdmIsHeld(m: Host, d: HostDirs, g: Places, base: Table, t1: Table, t2: Table, t3: Table, t4: Table, t: Table)
    requires Stages(m, d, g, t1, t2, t3, t4, t) && Apart(g) && base <= t1
    requires StackAt(t1, g.odm) == StackAt(base, g.odm)
    ensures IsMounted(base, "/odm") ==> BoundOrTaken(m, base, t, "/odm", g.odm)
    ensures !IsMounted(t, "/odm") ==>
              if d.vendorOdm then BoundOrTaken(m, base, t, "/vendor/odm", g.odm)
              else StackAt(t, g.odm) == StackAt(base, g.odm)
  {
    StagesDiffer(m, d, g, t1, t2, t3, t4, t);
    if IsMounted(base, "/odm") { IsMountedLater(base, t3, "/odm"); }
    if IsMounted(t3, "/odm") {
      IsMountedLater(t3, t, "/odm");
      BoundIsHeld(m, base, t3, "/odm", g.odm, t);
    } else if d.vendorOdm {
      BoundIsHeld(m, base, t3, "/vendor/odm", g.odm, t);
    }
  }

  lemma PropIsHeld(m: Host, d: HostDirs, g: Places, base: Table, t1: Table, t2: Table, t3: Table, t4: Table, t: Table)
    requires Stages(m, d, g, t1, t2, t3, t4, t) && Apart(g) && base <= t1
    requires StackAt(t1, g.prop) == StackAt(base, g.prop)
    ensures BoundOrTaken(m, base, t, "/var/lib/waydroid/waydroid.prop", g.prop)
  {
    StagesDiffer(m, d, g, t1, t2, t3, t4, t);
    BoundIsHeld(m, base, t4, "/var/lib/waydroid/waydroid.prop", g.prop, t);
  }

  lemma ElsewhereAsBefore(m: Host, d: HostDirs, g: Places, t1: Table, t2: Table, t3: Table, t4: Table, t: Table,
                          p: string)
    requires Stages(m, d, g, t1, t2, t3, t4, t) && p !in {g.egl, g.egl64, g.odm, g.prop}
    ensures StackAt(t, p) == StackAt(t1, p)
  {
    StagesDiffer(m, d, g, t1, t2, t3, t4, t);
  }

  /** The stages of an undisturbed run. */
  lemma CleanRunStages(m: Host, d: HostDirs, base: Table, overlays: bool)
    returns (t1: Table, t2: Table, t3: Table, t4: Table)
    ensures t1 == Images(m, d, base, overlays)
    ensures Stages(m, d, PLACES, t1, t2, t3, t4, CleanRun(m, d, base, overlays))
  {
    PlacesAreSpelled();
    t1 := Images(m, d, base, overlays);
    t2 := if d.egl then m.Bound(t1, "/vendor/lib/egl", EGL) else t1;
    t3 := if d.egl64 then m.Bound(t2, "/vendor/lib64/egl", EGL64) else t2;
    assert t3 == WithEgl(m, d, t1);
    t4 := WithOdm(m, d, t3);
  }

  lemma PlacesAreApart()
    ensures Apart(PLACES)
  {
    PlaceLengths();
  }

  /** An undisturbed run puts everything there that Android needs and nothing else, whatever it runs
      on. */
  lemma CleanRunHoldsAll(m: Host, d: HostDirs, base: Table, overlays: bool)
    ensures HoldsImages(d, base, CleanRun(m, d, base, overlays), overlays)
    ensures HoldsBinds(m, d, PLACES, base, CleanRun(m, d, base, overlays))
    ensures HoldsOnly(m, base, CleanRun(m, d, base, overlays))
  {
    var t := CleanRun(m, d, base, overlays);
    var t1, t2, t3, t4 := CleanRunStages(m, d, base, overlays);
    RunHoldsImages(m, d, base, t1, t2, t3, t4, t, overlays);
    PlacesAreApart();
    ImagesHoldAll(m, d, base, t1, overlays);
    RunHoldsBinds(m, d, PLACES, base, t1, t2, t3, t4, t);
    RunHoldsOnly(m, d, base, t1, t2, t3, t4, t, overlays);
  }

  lemma RunHoldsImages(m: Host, d: HostDirs, base: Table, t1: Table, t2: Table, t3: Table, t4: Table, t: Table,
                       overlays: bool)
    requires t1 == Images(m, d, base, overlays) && Stages(m, d, PLACES, t1, t2, t3, t4, t)
    ensures HoldsImages(d, base, t, overlays)
  {
    PlacesAreApart();
    ImagesHoldAll(m, d, base, t1, overlays);
    ElsewhereAsBefore(m, d, PLACES, t1, t2, t3, t4, t, ROOTFS);
    ElsewhereAsBefore(m, d, PLACES, t1, t2, t3, t4, t, VENDOR);
  }

  lemma RunHoldsBinds(m: Host, d: HostDirs, g: Places, base: Table, t1: Table, t2: Table, t3: Table, t4: Table,
                      t: Table)
    requires Stages(m, d, g, t1, t2, t3, t4, t) && Apart(g) && base <= t1
    requires forall p :: p != g.root && p != g.vendor ==> StackAt(t1, p) == StackAt(base, p)
    ensures HoldsBinds(m, d, g, base, t)
  {
    EglIsHeld(m, d, g, base, t1, t2, t3, t4, t);
    OdmIsHeld(m, d, g, base, t1, t2, t3, t4, t);
    PropIsHeld(m, d, g, base, t1, t2, t3, t4, t);
  }

  lemma RunHoldsOnly(m: Host, d: HostDirs, base: Table, t1: Table, t2: Table, t3: Table, t4: Table, t: Table,
                     overlays: bool)
    requires t1 == Images(m, d, base, overlays) && Stages(m, d, PLACES, t1, t2, t3, t4, t)
    ensures HoldsOnly(m, base, t)
  {
    PlacesAreApart();
    ImagesHoldAll(m, d, base, t1, overlays);
    StagesInOrder(m, d, PLACES, base, t1, t2, t3, t4, t);
    OrderHidesNothing(m, base, t);
    forall p ensures p !in {ROOTFS, VENDOR, EGL, EGL64, ODM_EXTRA, PROP} ==> StackAt(t, p) == StackAt(base, p) {
      if p !in {EGL, EGL64, ODM_EXTRA, PROP} { ElsewhereAsBefore(m, d, PLACES, t1, t2, t3, t4, t, p); }
    }
  }

  lemma OrderHidesNothing(m: Host, base: Table, t: Table)
    requires InOrder(m, PLACES, base, t, 6)
    ensures NothingHidden(base, t)
  {
    forall i, j | |base| <= i < j < |t| ensures !Below(t[i].mountpoint, t[j].mountpoint) {
      LaterDoesNotHide(t[i].mountpoint, t[j].mountpoint);
    }
  }

  lemma ImagesHoldAll(m: Host, d: HostDirs, base: Table, t1: Table, overlays: bool)
    requires t1 == Images(m, d, base, overlays)
    ensures InOrder(m, PLACES, base, t1, 2)
    ensures StackAt(t1, ROOTFS) == StackAt(base, ROOTFS) + [Image(d.images + "/system.img")]
              + (if overlays
                 then [Overlay(["/var/lib/waydroid/overlay", "/var/lib/waydroid/rootfs"],
                               "/var/lib/waydroid/overlay_rw/system", "/var/lib/waydroid/overlay_work/system")]
                 else [])
    ensures StackAt(t1, VENDOR) == StackAt(base, VENDOR) + [Image(d.images + "/vendor.img")]
              + (if overlays
                 then [Overlay(["/var/lib/waydroid/overlay/vendor", "/var/lib/waydroid/rootfs/vendor"],
                               "/var/lib/waydroid/overlay_rw/vendor", "/var/lib/waydroid/overlay_work/vendor")]
                 else [])
    ensures forall p :: p != ROOTFS && p != VENDOR ==> StackAt(t1, p) == StackAt(base, p)
  {
    PlacesAreSpelled();
    PlacesAreApart();
    ImagesInOrder(m, d, PLACES, base, overlays);
    StackOfImages(m, d, base, overlays, ROOTFS);
    StackOfImages(m, d, base, overlays, VENDOR);
    StacksAreSpelled(d, StackAt(base, ROOTFS), StackAt(base, VENDOR), overlays);
    forall p ensures p != ROOTFS && p != VENDOR ==> StackAt(t1, p) == StackAt(base, p) {
      StackOfImages(m, d, base, overlays, p);
      assert StackAt(base, p) + [] == StackAt(base, p);
    }
  }

  lemma StacksAreSpelled(d: HostDirs, a: seq<Fs>, b: seq<Fs>, overlays: bool)
    ensures a + ([Image(d.images + "/system.img")] + if overlays then [SYSTEM_OVERLAY] else []) ==
            a + [Image(d.images + "/system.img")]
            + (if overlays
               then [Overlay(["/var/lib/waydroid/overlay", "/var/lib/waydroid/rootfs"],
                             "/var/lib/waydroid/overlay_rw/system", "/var/lib/waydroid/overlay_work/system")]
               else [])
    ensures b + ([Image(d.images + "/vendor.img")] + if overlays then [VENDOR_OVERLAY] else []) ==
            b + [Image(d.images + "/vendor.img")]
            + (if overlays
               then [Overlay(["/var/lib/waydroid/overlay/vendor", "/var/lib/waydroid/rootfs/vendor"],
                             "/var/lib/waydroid/overlay_rw/vendor", "/var/lib/waydroid/overlay_work/vendor")]
               else [])
  {
    PlacesAreSpelled();
    OverlaysAreSpelled();
  }

  lemma BindsExtend(m: Host, d: HostDirs, t: Table)
    ensures var t1 := WithEgl(m, d, t);
            t <= t1 <= WithOdm(m, d, t1) <= Binds(m, d, t)
  {}

  /** Any first part of the image mounts is an attempt. */
  lemma ImagesAttempted(m: Host, d: HostDirs, base: Table)
    ensures forall t1, overlays :: base <= t1 <= Images(m, d, base, overlays) ==> PartlyMounted(m, d, base, t1)
  {
    forall t1, overlays | base <= t1 <= Images(m, d, base, overlays) ensures PartlyMounted(m, d, base, t1) {
      BindsExtend(m, d, Images(m, d, base, overlays));
      assert base <= t1 <= CleanRun(m, d, base, overlays);
    }
  }

  // ----- retry safety -----

  predicate InRootfs(p: string) { Inside(p, ROOTFS) }

  /** Under a rooted table the clearing step of `mount(umount=True)` leaves nothing inside, and,
      with no mount beside rootfs under a longer name, the outside only. */
  lemma RootedClears(t: Table)
    requires Rooted(t, ROOTFS)
    ensures forall e :: e in Cleared(t, ROOTFS) ==> e in t && !InRootfs(e.mountpoint)
    ensures NoSiblings(t, ROOTFS) ==> Cleared(t, ROOTFS) == Outside(t, ROOTFS)
  {
    OutsideMembers(t, ROOTFS);
    MatchingMembers(t, ROOTFS);
  }

  ghost predicate AddsInside(base: Table, t: Table) {
    base <= t && forall i :: |base| <= i < |t| ==> InRootfs(t[i].mountpoint)
  }

  /** An undisturbed run first mounts rootfs itself and adds nothing outside. */
  lemma InsideOnly(m: Host, d: HostDirs, base: Table, overlays: bool)
    ensures var t := CleanRun(m, d, base, overlays);
            AddsInside(base, t) && base < t && t[|base|].mountpoint == ROOTFS
  {
    JoinIsBelow(ROOTFS, "/vendor");
    var t := Images(m, d, base, overlays);
    assert AddsInside(base, t) && t[|base|].mountpoint == ROOTFS;
    BindsInside(m, d, t);
    BindsExtend(m, d, t);
  }

  lemma BindsInside(m: Host, d: HostDirs, t: Table)
    ensures AddsInside(t, Binds(m, d, t))
  {
    JoinIsBelow(ROOTFS, "/vendor/lib/egl");
    JoinIsBelow(ROOTFS, "/vendor/lib64/egl");
    JoinIsBelow(ROOTFS, "/odm_extra");
    JoinIsBelow(ROOTFS, "/vendor/waydroid.prop");
    assert AddsInside(t, WithEgl(m, d, t));
    assert AddsInside(t, WithOdm(m, d, WithEgl(m, d, t)));
  }

  lemma {:induction false} OutsideOfAppend(t: Table, s: Table)
    requires forall e :: e in s ==> InRootfs(e.mountpoint)
    ensures Outside(t + s, ROOTFS) == Outside(t, ROOTFS)
  {
    if s == [] {
      assert t + s == t;
    } else {
      assert t + s == (t + s[..|s| - 1]) + [s[|s| - 1]];
      MatchingAppend(t + s[..|s| - 1], s[|s| - 1], ROOTFS);
      OutsideOfAppend(t, s[..|s| - 1]);
    }
  }

  lemma OutsideTwice(t: Table)
    ensures Outside(Outside(t, ROOTFS), ROOTFS) == Outside(t, ROOTFS)
    ensures forall e :: e in Outside(t, ROOTFS) ==> !(ROOTFS <= e.mountpoint)
  {
    OutsideMembers(t, ROOTFS);
    MatchingMembers(Outside(t, ROOTFS), ROOTFS);
  }

  /** What an attempt that got past the clearing step leaves is the base plus mounts inside. */
  lemma PartlyMountedShape(m: Host, d: HostDirs, base: Table, t1: Table)
    requires PartlyMounted(m, d, base, t1)
    ensures AddsInside(base, t1) && Outside(t1, ROOTFS) == Outside(base, ROOTFS)
    ensures base < t1 ==> t1[|base|].mountpoint == ROOTFS
  {
    var overlays :| base <= t1 <= CleanRun(m, d, base, overlays);
    InsideOnly(m, d, base, overlays);
    assert t1 == base + t1[|base|..];
    OutsideOfAppend(base, t1[|base|..]);
  }

  /** Wherever an attempt stops, from whatever table, nothing outside has moved. */
  lemma AttemptKeepsOutside(m: Host, d: HostDirs, t: Table, t1: Table)
    requires Attempted(m, d, t, t1)
    ensures Outside(t1, ROOTFS) == Outside(t, ROOTFS)
  {
    if PartlyUnmounted(t, ROOTFS, t1) {
      PartlyUnmountedKeepsOutside(t, ROOTFS, t1);
    } else {
      OutsideTwice(t);
      PartlyMountedShape(m, d, Cleared(t, ROOTFS), t1);
    }
  }

  /** Whatever an attempt adds is inside. */
  lemma AttemptMembers(m: Host, d: HostDirs, t: Table, t1: Table)
    requires Attempted(m, d, t, t1)
    ensures forall e :: e in t1 ==> e in t || InRootfs(e.mountpoint)
  {
    OutsideMembers(t, ROOTFS);
    if PartlyUnmounted(t, ROOTFS, t1) {
      PartlyUnmountedMembers(t, ROOTFS, t1);
    } else {
      PartlyMountedMembers(m, d, Cleared(t, ROOTFS), t1);
    }
  }

  lemma PartlyMountedMembers(m: Host, d: HostDirs, base: Table, t1: Table)
    requires PartlyMounted(m, d, base, t1)
    ensures forall e :: e in t1 ==> e in base || (InRootfs(e.mountpoint) && t1[|base|].mountpoint == ROOTFS)
    ensures forall e :: e in t1 && e !in base ==> t1[|base|] in t1
  {
    PartlyMountedShape(m, d, base, t1);
    forall e | e in t1
      ensures e in base || (InRootfs(e.mountpoint) && t1[|base|].mountpoint == ROOTFS && t1[|base|] in t1)
    {
      var i :| 0 <= i < |t1| && t1[i] == e;
      if i < |base| { assert e in base; } else { assert t1[|base|] in t1; }
    }
  }

  /** Wherever an attempt stops, mounts below rootfs still imply a mount at rootfs, and nothing
      outside has moved. */
  lemma AttemptKeepsRooted(m: Host, d: HostDirs, t: Table, t1: Table)
    requires Rooted(t, ROOTFS) && Attempted(m, d, t, t1)
    ensures Rooted(t1, ROOTFS) && Outside(t1, ROOTFS) == Outside(t, ROOTFS)
  {
    AttemptKeepsOutside(m, d, t, t1);
    if PartlyUnmounted(t, ROOTFS, t1) {
      var k: nat :| UnmountedUpTo(t, ROOTFS, k, t1);
      RootGoesLast(t, ROOTFS, k, t1);
    } else {
      RootedClears(t);
      PartlyMountedMembers(m, d, Cleared(t, ROOTFS), t1);
    }
  }

  // ----- the same stack, whatever is beside rootfs -----

  /** The paths that a run asks `ismount` about after clearing. */
  const CONSULTED: seq<string> := [
    ROOTFS + "/vendor/lib/egl", ROOTFS + "/vendor/lib64/egl", "/odm", ROOTFS + "/odm_extra",
    ROOTFS + "/vendor/waydroid.prop"]

  /** The mounts beside rootfs under a longer name do not have these in their first column. */
  ghost predicate SiblingsUnseen(t: Table) {
    forall e :: e in t && ROOTFS <= e.mountpoint && !InRootfs(e.mountpoint) ==> e.device !in CONSULTED
  }

  ghost predicate Agree(b1: Table, b2: Table) {
    forall p :: p in CONSULTED ==> (IsMounted(b1, p) <==> IsMounted(b2, p))
  }

  /** What an undisturbed run puts on top of `base`. */
  function Stack(m: Host, d: HostDirs, base: Table, overlays: bool): Table {
    InsideOnly(m, d, base, overlays);
    CleanRun(m, d, base, overlays)[|base|..]
  }

  lemma BoundOn(m: Host, b1: Table, b2: Table, a: Table, source: string, p: string) returns (a1: Table)
    requires IsMounted(b1, p) <==> IsMounted(b2, p)
    ensures m.Bound(b1 + a, source, p) == b1 + a1 && m.Bound(b2 + a, source, p) == b2 + a1
  {
    IsMountedOn(b1, a, p);
    IsMountedOn(b2, a, p);
    a1 := if IsMounted(b1 + a, p) then a else a + [m.Mounted(BindOf(source), p)];
    assert b1 + a1 == m.Bound(b1 + a, source, p);
    assert b2 + a1 == m.Bound(b2 + a, source, p);
  }

  lemma IsMountedOn(b: Table, a: Table, p: string)
    ensures IsMounted(b + a, p) <==> IsMounted(b, p) || IsMounted(a, p)
  {
    assert forall e :: e in b + a <==> e in b || e in a;
  }

  /** The stack depends on the rest of the table only through these paths. */
  lemma SameStack(m: Host, d: HostDirs, b1: Table, b2: Table, overlays: bool)
    requires Agree(b1, b2)
    ensures Stack(m, d, b1, overlays) == Stack(m, d, b2, overlays)
  {
    var a := Images(m, d, [], overlays);
    assert Images(m, d, b1, overlays) == b1 + a && Images(m, d, b2, overlays) == b2 + a;
    a := EglOn(m, d, b1, b2, a);
    a := OdmOn(m, d, b1, b2, a);
    assert CONSULTED[4] == ROOTFS + "/vendor/waydroid.prop";
    a := BoundOn(m, b1, b2, a, WORK + "/waydroid.prop", ROOTFS + "/vendor/waydroid.prop");
    assert CleanRun(m, d, b1, overlays) == b1 + a && CleanRun(m, d, b2, overlays) == b2 + a;
  }

  lemma EglOn(m: Host, d: HostDirs, b1: Table, b2: Table, a: Table) returns (a1: Table)
    requires Agree(b1, b2)
    ensures WithEgl(m, d, b1 + a) == b1 + a1 && WithEgl(m, d, b2 + a) == b2 + a1
  {
    a1 := a;
    assert CONSULTED[0] == ROOTFS + "/vendor/lib/egl" && CONSULTED[1] == ROOTFS + "/vendor/lib64/egl";
    if d.egl { a1 := BoundOn(m, b1, b2, a1, "/vendor/lib/egl", ROOTFS + "/vendor/lib/egl"); }
    if d.egl64 { a1 := BoundOn(m, b1, b2, a1, "/vendor/lib64/egl", ROOTFS + "/vendor/lib64/egl"); }
  }

  lemma OdmOn(m: Host, d: HostDirs, b1: Table, b2: Table, a: Table) returns (a1: Table)
    requires Agree(b1, b2)
    ensures WithOdm(m, d, b1 + a) == b1 + a1 && WithOdm(m, d, b2 + a) == b2 + a1
  {
    a1 := a;
    assert CONSULTED[2] == "/odm" && CONSULTED[3] == ROOTFS + "/odm_extra";
    IsMountedOn(b1, a, "/odm");
    IsMountedOn(b2, a, "/odm");
    if IsMounted(b1 + a, "/odm") {
      a1 := BoundOn(m, b1, b2, a, "/odm", ROOTFS + "/odm_extra");
    } else if d.vendorOdm {
      a1 := BoundOn(m, b1, b2, a, "/vendor/odm", ROOTFS + "/odm_extra");
    }
  }

  lemma ConsultedPlaces(p: string)
    requires p in CONSULTED && ROOTFS <= p
    ensures InRootfs(p)
  {
    JoinIsBelow(ROOTFS, "/vendor/lib/egl");
    JoinIsBelow(ROOTFS, "/vendor/lib64/egl");
    JoinIsBelow(ROOTFS, "/odm_extra");
    JoinIsBelow(ROOTFS, "/vendor/waydroid.prop");
  }

  lemma ClearedAgrees(t: Table)
    requires Rooted(t, ROOTFS) && SiblingsUnseen(t)
    ensures Agree(Cleared(t, ROOTFS), Outside(t, ROOTFS))
  {
    RootedClears(t);
    OutsideMembers(t, ROOTFS);
    forall p, e | p in CONSULTED && e in Cleared(t, ROOTFS) && (e.mountpoint == p || e.device == p)
      ensures e in Outside(t, ROOTFS)
    {
      if ROOTFS <= p { ConsultedPlaces(p); }
    }
    OutsideIsCleared(t);
  }

  lemma OutsideIsCleared(t: Table)
    ensures forall e :: e in Outside(t, ROOTFS) ==> e in Cleared(t, ROOTFS)
  {
    OutsideMembers(t, ROOTFS);
  }

  lemma {:induction false} AttemptsKeepRooted(m: Host, d: HostDirs, ts: seq<Table>)
    requires ts != [] && Rooted(ts[0], ROOTFS)
    requires forall i :: 0 <= i < |ts| - 1 ==> Attempted(m, d, ts[i], ts[i + 1])
    ensures var first, last := ts[0], ts[|ts| - 1];
            && Rooted(last, ROOTFS) && Outside(last, ROOTFS) == Outside(first, ROOTFS)
            && forall e :: e in last ==> e in first || InRootfs(e.mountpoint)
  {
    if |ts| > 1 {
      AttemptsKeepRooted(m, d, ts[..|ts| - 1]);
      AttemptKeepsRooted(m, d, ts[|ts| - 2], ts[|ts| - 1]);
      AttemptMembers(m, d, ts[|ts| - 2], ts[|ts| - 1]);
    }
  }

  lemma ClearedStack(m: Host, d: HostDirs, t: Table, overlays: bool)
    requires Rooted(t, ROOTFS) && SiblingsUnseen(t)
    ensures Stack(m, d, Cleared(t, ROOTFS), overlays) == Stack(m, d, Outside(t, ROOTFS), overlays)
  {
    ClearedAgrees(t);
    SameStack(m, d, Cleared(t, ROOTFS), Outside(t, ROOTFS), overlays);
  }

  /** Retry safety: after any attempts, each stopped anywhere, a successful mount_rootfs first leaves
      nothing inside, and then puts the stack there that it would put on the outside mounts alone;
      and with no mount beside rootfs under a longer name the whole table is the same. */
  lemma RetrySafety(m: Host, d: HostDirs, ts: seq<Table>)
    requires ts != [] && Rooted(ts[0], ROOTFS)
    requires forall i :: 0 <= i < |ts| - 1 ==> Attempted(m, d, ts[i], ts[i + 1])
    ensures var first, last := ts[0], ts[|ts| - 1];
            && Rooted(last, ROOTFS) && Outside(last, ROOTFS) == Outside(first, ROOTFS)
            && (forall e :: e in Cleared(last, ROOTFS) ==> !InRootfs(e.mountpoint))
            && (SiblingsUnseen(first) ==>
                  forall overlays :: Stack(m, d, Cleared(last, ROOTFS), overlays)
                                  == Stack(m, d, Outside(first, ROOTFS), overlays))
            && (NoSiblings(first, ROOTFS) ==> Cleared(last, ROOTFS) == Outside(first, ROOTFS))
  {
    AttemptsKeepRooted(m, d, ts);
    var first, last := ts[0], ts[|ts| - 1];
    RootedClears(last);
    if SiblingsUnseen(first) {
      assert SiblingsUnseen(last);
      forall overlays
        ensures Stack(m, d, Cleared(last, ROOTFS), overlays) == Stack(m, d, Outside(first, ROOTFS), overlays)
      {
        ClearedStack(m, d, last, overlays);
      }
    }
  }

  /** An attempt stopped anywhere, then umount_rootfs with no failing command: what was outside
      is as before, and nothing is left inside. */
  lemma AttemptThenUmount(m: Host, d: HostDirs, t: Table, t1: Table)
    requires Attempted(m, d, t, t1)
    ensures KernelUmounts(t1, UmountList(t1, ROOTFS)) == Some(Outside(t, ROOTFS))
    ensures forall e :: e in Outside(t, ROOTFS) ==> !InRootfs(e.mountpoint)
  {
    UmountListClears(t1, ROOTFS);
    OutsideMembers(t, ROOTFS);
    AttemptKeepsOutside(m, d, t, t1);
  }
}
