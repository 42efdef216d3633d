/**
  Construction of the ndctl device manager: the ndctl context must come up,
  and /sys must not be mounted read-only. The mount table is read once; only
  the first record that mounts sysfs on /sys is consulted.
*/
module Startup {
  import opened Outcomes
  import opened Namespaces
  import opened DeviceManager

  /** One record of the mount table. */
  datatype MountPoint = MountPoint(device: string, path: string, opts: seq<string>)

  /** The record mounts sysfs on /sys. */
  predicate IsSysfsMount(mp: MountPoint) {
    mp.device == "sysfs" && mp.path == "/sys"
  }

  /** Position `i` holds the first sysfs-on-/sys record of the table. */
  ghost predicate FirstSysfsAt(mounts: seq<MountPoint>, i: int) {
    && 0 <= i < |mounts|
    && IsSysfsMount(mounts[i])
    && forall j :: 0 <= j < i ==> !IsSysfsMount(mounts[j])
  }

  /** The first sysfs-on-/sys record lists "ro" among its options, wherever in the list. */
  ghost predicate SysMountedReadOnly(mounts: seq<MountPoint>) {
    exists i :: FirstSysfsAt(mounts, i) && "ro" in mounts[i].opts
  }

  /**
    NewPmemDeviceManagerNdctl: fails when the context cannot be created, then
    fails when the first sysfs-on-/sys record is read-only; otherwise the
    manager starts over the library's current namespaces with no calls made.
    An unreadable mount table arrives here as whatever list was returned,
    possibly empty.
  */
  method NewPmemDeviceManagerNdctl(contextOk: bool, mounts: seq<MountPoint>,
                                   existing: seq<Namespace>) returns (r: Result<Manager>)
    ensures !contextOk ==> r == Err(InitFailure(ContextUnavailable))
    ensures contextOk && SysMountedReadOnly(mounts) ==> r == Err(InitFailure(SysReadOnly))
    ensures contextOk && !SysMountedReadOnly(mounts) ==> r == Ok(Manager(existing, []))
  {
    if !contextOk {
      return Err(InitFailure(ContextUnavailable));
    }
    var i := 0;
    while i < |mounts|
      invariant 0 <= i <= |mounts|
      invariant forall j :: 0 <= j < i ==> !IsSysfsMount(mounts[j])
    {
      if IsSysfsMount(mounts[i]) {
        var opts := mounts[i].opts;
        var k := 0;
        while k < |opts|
          invariant 0 <= k <= |opts|
          invariant forall l :: 0 <= l < k ==> opts[l] != "ro"
        {
          // an "rw" option is only logged; any "ro" is fatal
          if opts[k] == "ro" {
            assert FirstSysfsAt(mounts, i);
            return Err(InitFailure(SysReadOnly));
          }
          k := k + 1;
        }
        break;
      }
      i := i + 1;
    }
    return Ok(Manager(existing, []));
  }

  /**
    Once the table holds a sysfs-on-/sys record, whatever follows it cannot
    change the verdict.
  */
  lemma LaterMountsIgnored(prefix: seq<MountPoint>, rest: seq<MountPoint>)
    requires exists i :: 0 <= i < |prefix| && IsSysfsMount(prefix[i])
    ensures SysMountedReadOnly(prefix + rest) <==> SysMountedReadOnly(prefix)
  {
    var all := prefix + rest;
    forall i | 0 <= i < |prefix| ensures all[i] == prefix[i] { }
    if SysMountedReadOnly(all) {
      var w :| FirstSysfsAt(all, w) && "ro" in all[w].opts;
      var i :| 0 <= i < |prefix| && IsSysfsMount(prefix[i]);
      assert w <= i;
      assert FirstSysfsAt(prefix, w);
    }
    if SysMountedReadOnly(prefix) {
      var w :| FirstSysfsAt(prefix, w) && "ro" in prefix[w].opts;
      assert FirstSysfsAt(all, w);
    }
  }

  /** Without any mount record (also when reading the table failed) /sys counts as writable. */
  lemma EmptyTableIsWritable()
    ensures !SysMountedReadOnly([])
  {
  }
}
