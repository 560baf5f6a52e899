/** tools/helpers/mount.py as it runs: commands that change the mount table one by one,
    any of which may fail. */
module MountHost {
  import opened Strings
  import opened MountTable

  /** `Done`, or the reason for the RuntimeError that ends the operation. */
  datatype Outcome = Done | CommandFailed | KernelRefused | StillMounted | NoFolder | NotMounted {
    predicate IsFailure() { !Done? }
    function PropagateFailure(): (r: Outcome)
      requires IsFailure()
    { this }
  }

  /** What `mount(..., umount=True)` starts from: the folder is cleared only if it is mounted. */
  function Cleared(t: Table, folder: string): Table {
    if IsMounted(t, folder) then Outside(t, folder) else t
  }

  /** Some mount that stays when everything under the folder is unmounted carries one of the
      unmounted paths in its first column, which `ismount` looks at too. */
  ghost predicate Fooled(t: Table, folder: string) {
    exists e :: e in Outside(t, folder) && e.device in Matching(t, folder)
  }

  class Host {
    /** The first column of /proc/mounts for a mount of this kind. */
    const device: Fs -> string
    var table: Table
    /** How many commands have failed so far. */
    var failures: nat

    constructor (device: Fs -> string, table: Table)
      ensures this.device == device && this.table == table && failures == 0
    {
      this.device := device;
      this.table := table;
      failures := 0;
    }

    function Mounted(fs: Fs, destination: string): Entry {
      Entry(device(fs), destination, fs)
    }

    // ----- the outside world -----

    /** The host decides whether a path exists. */
    method PathExists(path: string) returns (b: bool) {
      b := *;
    }

    /** mkdir -p, touch and other commands that leave the mount table alone. */
    method Run(command: seq<string>) returns (r: Outcome)
      modifies this`failures
      ensures r.Done? || r.CommandFailed?
      ensures failures == old(failures) + if r.Done? then 0 else 1
    {
      if * { r := Done; } else { failures := failures + 1; r := CommandFailed; }
    }

    method RunMount(fs: Fs, destination: string) returns (r: Outcome)
      modifies this`table, this`failures
      ensures r.Done? || r.CommandFailed?
      ensures failures == old(failures) + if r.Done? then 0 else 1
      ensures table == old(table) + if r.Done? then [Mounted(fs, destination)] else []
    {
      if * { table := table + [Mounted(fs, destination)]; r := Done; }
      else { failures := failures + 1; r := CommandFailed; }
    }

    /** `umount p`: refused by the kernel, or failing for an outside reason such as EBUSY. */
    method RunUmount(p: string) returns (r: Outcome)
      modifies this`table, this`failures
      ensures r.Done? || r.CommandFailed? || r.KernelRefused?
      ensures failures == old(failures) + if r.CommandFailed? then 1 else 0
      ensures r.Done? ==> KernelUmount(old(table), p) == Some(table)
      ensures !r.Done? ==> table == old(table)
      ensures r.KernelRefused? ==> KernelUmount(old(table), p).None?
    {
      match KernelUmount(table, p)
      case None => r := KernelRefused;
      case Some(t1) =>
        if * { table := t1; r := Done; } else { failures := failures + 1; r := CommandFailed; }
    }

    // ----- mount.py -----

    method Ismount(folder: string) returns (b: bool)
      ensures b == IsMounted(table, folder)
    {
      for i := 0 to |table|
        invariant forall e :: e in table[..i] ==> e.mountpoint != folder && e.device != folder
      {
        if table[i].mountpoint == folder || table[i].device == folder {
          return true;
        }
      }
      return false;
    }

    method UmountAllList(prefix: string) returns (ret: seq<string>)
      ensures ret == UmountList(table, prefix)
    {
      ret := [];
      for i := 0 to |table|
        invariant ret == Matching(table[..i], prefix)
      {
        assert table[..i + 1] == table[..i] + [table[i]];
        MatchingAppend(table[..i], table[i], prefix);
        if prefix <= table[i].mountpoint {
          ret := ret + [table[i].mountpoint];
        }
      }
      assert table[..|table|] == table;
      ret := SortDescending(ret);
    }

    method UmountAll(folder: string) returns (r: Outcome)
      modifies this`table, this`failures
      ensures r.Done? || r.CommandFailed? || r.StillMounted?
      ensures r.CommandFailed? ==> PartlyUnmounted(old(table), folder, table) && Matching(table, folder) != []
      ensures !r.CommandFailed? ==> table == Outside(old(table), folder)
      ensures !r.CommandFailed? ==> (r.StillMounted? <==> Fooled(old(table), folder))
      ensures failures == old(failures) + if r.CommandFailed? then 1 else 0
    {
      var t0 := table;
      var allList := UmountAllList(folder);
      for i := 0 to |allList|
        invariant UnmountedUpTo(t0, folder, i, table) && failures == old(failures)
      {
        NextUmount(t0, folder, i, table);
        SomethingLeft(t0, folder, i, table);
        :- RunUmount(allList[i]);
      }
      AllUnmounted(t0, folder, table);
      StillMountedMeaning(t0, folder);
      for i := 0 to |allList|
        invariant table == Outside(t0, folder) && failures == old(failures)
        invariant forall j :: 0 <= j < i ==> !IsMounted(table, allList[j])
      {
        var still := Ismount(allList[i]);
        if still {
          return StillMounted;
        }
      }
      return Done;
    }

    method Mount(fs: Fs, destination: string, createFolders: bool := true, umount: bool := false,
                 force: bool := true)
      returns (r: Outcome)
      modifies this`table, this`failures
      ensures failures == old(failures) ==>
                (r.Done? || (r.NoFolder? && !createFolders) || r.StillMounted?)
                && (r.StillMounted? <==>
                      umount && IsMounted(old(table), destination) && Fooled(old(table), destination))
      ensures failures >= old(failures) && (failures > old(failures) ==> r.CommandFailed?)
      ensures var base := if umount then Cleared(old(table), destination) else old(table);
              if r.Done? then
                table == if IsMounted(old(table), destination) && !umount && !force then old(table)
                         else base + [Mounted(fs, destination)]
              else
                table == base ||
                (umount && IsMounted(old(table), destination) && PartlyUnmounted(old(table), destination, table))
    {
      var mounted := Ismount(destination);
      if mounted {
        if umount {
          :- UmountAll(destination);
        } else if !force {
          return Done;
        }
      }
      var there := PathExists(destination);
      if !there {
        if createFolders { :- Run(["mkdir", "-p", destination]); } else { return NoFolder; }
      }
      :- RunMount(fs, destination);
      assert table[|table| - 1].mountpoint == destination;
      mounted := Ismount(destination);
      r := if mounted then Done else NotMounted;
    }

    method MountOverlay(lower: seq<string>, destination: string, upper: string, work: string,
                        createFolders: bool := true)
      returns (r: Outcome)
      modifies this`table, this`failures
      ensures failures >= old(failures)
      ensures r.Done? || (r.NoFolder? && !createFolders) <==> failures == old(failures)
      ensures table == old(table) + if r.Done? then [Mounted(Overlay(lower, upper, work), destination)] else []
    {
      var dirs := lower + [upper, work];
      for i := 0 to |dirs|
        invariant table == old(table) && failures == old(failures)
      {
        var there := PathExists(dirs[i]);
        if !there {
          if createFolders { :- Run(["mkdir", "-p", dirs[i]]); } else { return NoFolder; }
        }
      }
      r := Mount(Overlay(lower, upper, work), destination, createFolders);
    }

    method Bind(source: string, destination: string, createFolders: bool := true, umount: bool := false)
      returns (r: Outcome)
      modifies this`table, this`failures
      ensures failures == old(failures) ==>
                (r.Done? || (r.NoFolder? && !createFolders) || r.StillMounted?)
                && (r.StillMounted? <==>
                      umount && IsMounted(old(table), destination) && Fooled(old(table), destination))
      ensures failures >= old(failures) && (failures > old(failures) ==> r.CommandFailed?)
      ensures !umount ==> table == if r.Done? then Bound(old(table), source, destination) else old(table)
      ensures umount ==>
                var base := Cleared(old(table), destination);
                if r.Done? then table == base + [Mounted(BindOf(source), destination)]
                else table == base
                     || (IsMounted(old(table), destination) && PartlyUnmounted(old(table), destination, table))
    {
      var mounted := Ismount(destination);
      if mounted {
        if umount {
          :- UmountAll(destination);
        } else {
          return Done;
        }
      }
      ghost var base := table;
      var paths := [source, destination];
      for i := 0 to 2
        invariant table == base && failures == old(failures)
      {
        var there := PathExists(paths[i]);
        if !there {
          if createFolders { :- Run(["mkdir", "-p", paths[i]]); } else { return NoFolder; }
        }
      }
      :- RunMount(BindOf(source), destination);
      assert table[|table| - 1].mountpoint == destination;
      mounted := Ismount(destination);
      r := if mounted then Done else NotMounted;
    }

    /** `directory` is os.path.dirname of the destination. */
    method BindFile(source: string, destination: string, directory: string, createFolders: bool := false)
      returns (r: Outcome)
      modifies this`table, this`failures
      ensures failures >= old(failures) && (r.Done? <==> failures == old(failures))
      ensures table == if r.Done? then Bound(old(table), source, destination) else old(table)
    {
      var mounted := Ismount(destination);
      if mounted { return Done; }
      var there := PathExists(destination);
      if !there {
        if createFolders {
          var isDirectory := PathExists(directory);
          if !isDirectory { :- Run(["mkdir", "-p", directory]); }
        }
        :- Run(["touch", destination]);
      }
      r := RunMount(BindOf(source), destination);
    }

    /** A bind mount that is skipped when the destination is taken. */
    function Bound(t: Table, source: string, destination: string): Table {
      if IsMounted(t, destination) then t else t + [Mounted(BindOf(source), destination)]
    }
  }

  /** Once everything under the folder is gone, `ismount` of an unmounted path can only be true
      because a surviving mount carries that path in its first column. */
  lemma StillMountedMeaning(t: Table, folder: string)
    ensures var left := Outside(t, folder);
            (exists q :: q in UmountList(t, folder) && IsMounted(left, q)) <==> Fooled(t, folder)
  {
    var left, ps := Outside(t, folder), UmountList(t, folder);
    OutsideMembers(t, folder);
    MatchingMembers(t, folder);
    SortDescendingSorts(Matching(t, folder));
    forall q ensures q in ps <==> q in Matching(t, folder) {
      assert q in ps <==> q in multiset(ps);
    }
    if e :| e in left && e.device in Matching(t, folder) {
      assert IsMounted(left, e.device) && e.device in ps;
    }
  }

  lemma {:induction false} OutsideMembers(t: Table, prefix: string)
    ensures forall e :: e in Outside(t, prefix) <==> e in t && !(prefix <= e.mountpoint)
  {
    if t != [] {
      OutsideMembers(t[1..], prefix);
      assert t == [t[0]] + t[1..];
    }
  }

  /** A completed unmount that is reported as failed: what was mounted on /r is gone, but another
      mount has /r in its first column. */
  lemma FooledByDeviceName()
    ensures var t := [Entry("/dev/loop0", "/r", Image("a")), Entry("/r", "/x", BindOf("/r"))];
            && KernelUmounts(t, UmountList(t, "/r")) == Some([t[1]])
            && Fooled(t, "/r") && IsMounted([t[1]], "/r")
  {
    var t := [Entry("/dev/loop0", "/r", Image("a")), Entry("/r", "/x", BindOf("/r"))];
    UmountListClears(t, "/r");
    OutsideMembers(t, "/r");
    MatchingMembers(t, "/r");
    assert t[1..] == [t[1]] && t[1..][1..] == [];
    assert "/r" <= "/r" && "/x"[1] != "/r"[1];
    assert Outside(t[1..], "/r") == [t[1]];
    assert t[0] in t && t[0].mountpoint == "/r";
  }
}
