/**
  The namespaces the ndctl library reports, as the device manager sees them:
  an ordered list (the library's enumeration order) of named namespaces, the
  lookup by name, the conversion to the device information handed to callers,
  and the removal of a namespace by name.
*/
module Namespaces {
  import opened Outcomes

  /** Prefix of every device node path. */
  const DevPrefix: string := "/dev/"

  /** An active namespace: its name (the volume id), block device, size and mode. */
  datatype Namespace = Namespace(name: string, blockDeviceName: string, size: nat, mode: string)

  /** What the manager reports about a device. */
  datatype DeviceInfo = DeviceInfo(volumeId: string, path: string, size: nat)

  /** The names of the active namespaces. */
  function Names(nss: seq<Namespace>): set<string> {
    set i | 0 <= i < |nss| :: nss[i].name
  }

  /** No two active namespaces share a name. */
  predicate UniqueNames(nss: seq<Namespace>) {
    forall i, j :: 0 <= i < |nss| && 0 <= j < |nss| && nss[i].name == nss[j].name ==> i == j
  }

  /**
    namespaceToPmemInfo: the volume id is the namespace name, the path is the
    block device under /dev/, the size is the namespace size.
  */
  function NamespaceToInfo(ns: Namespace): (d: DeviceInfo)
    ensures d.volumeId == ns.name && d.size == ns.size
    ensures |d.path| == |DevPrefix| + |ns.blockDeviceName| > 0 && d.path[..|DevPrefix|] == DevPrefix
    ensures d.path[|DevPrefix|..] == ns.blockDeviceName
  {
    DeviceInfo(ns.name, DevPrefix + ns.blockDeviceName, ns.size)
  }

  /** Two namespaces get the same device path exactly when they have the same block device. */
  lemma InfoPathInjective(a: Namespace, b: Namespace)
    ensures NamespaceToInfo(a).path == NamespaceToInfo(b).path <==> a.blockDeviceName == b.blockDeviceName
  {
  }

  /** Position of the first namespace called `name`, the one a lookup by name finds. */
  function Find(nss: seq<Namespace>, name: string): (r: Option<nat>)
    ensures r.None? <==> name !in Names(nss)
    ensures r.Some? ==> r.value < |nss| && nss[r.value].name == name
    ensures r.Some? ==> forall j :: 0 <= j < r.value ==> nss[j].name != name
  {
    if |nss| == 0 then None
    else if nss[0].name == name then Some(0)
    else
      match Find(nss[1..], name)
      case None => None
      case Some(i) => Some(i + 1)
  }

  /**
    getDevice: looks the namespace up by name; an absent name is NotFound,
    a present one is reported through NamespaceToInfo.
  */
  function LookupDevice(nss: seq<Namespace>, name: string): (r: Result<DeviceInfo>)
    ensures r.Ok? <==> name in Names(nss)
    ensures r.Err? ==> r.error == NotFound
    ensures r.Ok? ==> r.value.volumeId == name
    ensures r.Ok? ==>
      exists i :: 0 <= i < |nss| && nss[i].name == name && r.value == NamespaceToInfo(nss[i])
    ensures r.Ok? && UniqueNames(nss) ==>
      forall i :: 0 <= i < |nss| && nss[i].name == name ==> r.value == NamespaceToInfo(nss[i])
    // it is the first namespace of that name, the one DestroyByName removes
    ensures r.Ok? ==> r.value == NamespaceToInfo(nss[Find(nss, name).value])
  {
    match Find(nss, name)
    case None => Err(NotFound)
    case Some(i) => Ok(NamespaceToInfo(nss[i]))
  }

  /**
    The library's destroy by name: the namespace a lookup of `name` finds
    disappears, every other namespace stays, in the same order.
  */
  function DestroyByName(nss: seq<Namespace>, name: string): (r: seq<Namespace>)
    requires name in Names(nss)
    ensures |r| == |nss| - 1
    ensures exists i ::
      && 0 <= i < |nss| && nss[i].name == name
      && (forall j :: 0 <= j < i ==> nss[j].name != name)
      && r == nss[..i] + nss[i + 1..]
    ensures Names(r) <= Names(nss)
    ensures UniqueNames(nss) ==> UniqueNames(r) && Names(r) == Names(nss) - {name}
  {
    var i := Find(nss, name).value;
    RemoveAtNames(nss, i);
    nss[..i] + nss[i + 1..]
  }

  /** Removing position `i` loses at most that position's name, and exactly it when names are unique. */
  lemma RemoveAtNames(nss: seq<Namespace>, i: nat)
    requires i < |nss|
    ensures Names(nss[..i] + nss[i + 1..]) <= Names(nss)
    ensures UniqueNames(nss) ==>
      UniqueNames(nss[..i] + nss[i + 1..]) && Names(nss[..i] + nss[i + 1..]) == Names(nss) - {nss[i].name}
  {
    var r := nss[..i] + nss[i + 1..];
    assert forall j :: 0 <= j < |r| ==> r[j] == if j < i then nss[j] else nss[j + 1];
    forall n | n in Names(r) ensures n in Names(nss) {
      var j :| 0 <= j < |r| && r[j].name == n;
      if j < i { assert nss[j].name == n; } else { assert nss[j + 1].name == n; }
    }
    if UniqueNames(nss) {
      forall n | n in Names(nss) - {nss[i].name} ensures n in Names(r) {
        var j :| 0 <= j < |nss| && nss[j].name == n;
        if j < i { assert r[j].name == n; } else { assert r[j - 1].name == n; }
      }
    }
  }

  /** Where the library enumerates a new namespace: the answered position, or the end. */
  function InsertPos(nss: seq<Namespace>, position: nat): (p: nat)
    ensures p <= |nss|
    ensures position <= |nss| ==> p == position
  {
    if position <= |nss| then position else |nss|
  }

  /**
    The library's list after it enumerates the new namespace `ns` at `position`:
    every old namespace keeps its relative order, the new one sits at the
    insertion point, and a fresh name is found there by a lookup.
  */
  function InsertAt(nss: seq<Namespace>, ns: Namespace, position: nat): (r: seq<Namespace>)
    ensures |r| == |nss| + 1
    ensures r[InsertPos(nss, position)] == ns
    ensures r[..InsertPos(nss, position)] + r[InsertPos(nss, position) + 1..] == nss
    ensures Names(r) == Names(nss) + {ns.name}
    ensures ns.name !in Names(nss) ==> Find(r, ns.name) == Some(InsertPos(nss, position))
    ensures UniqueNames(nss) && ns.name !in Names(nss) ==> UniqueNames(r)
  {
    var p := InsertPos(nss, position);
    var r := nss[..p] + [ns] + nss[p..];
    InsertFacts(nss, ns, p, r);
    r
  }

  lemma InsertFacts(nss: seq<Namespace>, ns: Namespace, p: nat, r: seq<Namespace>)
    requires p <= |nss| && r == nss[..p] + [ns] + nss[p..]
    ensures r[..p] + r[p + 1..] == nss
    ensures Names(r) == Names(nss) + {ns.name}
    ensures ns.name !in Names(nss) ==> Find(r, ns.name) == Some(p)
    ensures UniqueNames(nss) && ns.name !in Names(nss) ==> UniqueNames(r)
  {
    InsertShape(nss, ns, p, r);
    InsertNames(nss, ns, p, r);
    if ns.name !in Names(nss) {
      InsertFresh(nss, ns, p, r);
    }
  }

  lemma InsertShape(nss: seq<Namespace>, ns: Namespace, p: nat, r: seq<Namespace>)
    requires p <= |nss| && r == nss[..p] + [ns] + nss[p..]
    ensures |r| == |nss| + 1
    ensures forall j :: 0 <= j < p ==> r[j] == nss[j]
    ensures r[p] == ns
    ensures forall j :: p < j < |r| ==> r[j] == nss[j - 1]
    ensures r[..p] + r[p + 1..] == nss
  {
    assert r[..p] == nss[..p] && r[p + 1..] == nss[p..];
  }

  lemma InsertNames(nss: seq<Namespace>, ns: Namespace, p: nat, r: seq<Namespace>)
    requires p <= |nss| && |r| == |nss| + 1
    requires forall j :: 0 <= j < p ==> r[j] == nss[j]
    requires r[p] == ns
    requires forall j :: p < j < |r| ==> r[j] == nss[j - 1]
    ensures Names(r) == Names(nss) + {ns.name}
  {
    forall n | n in Names(r) ensures n in Names(nss) + {ns.name} {
      var j :| 0 <= j < |r| && r[j].name == n;
      if j < p { assert nss[j].name == n; } else if j > p { assert nss[j - 1].name == n; }
    }
    forall n | n in Names(nss) ensures n in Names(r) {
      var j :| 0 <= j < |nss| && nss[j].name == n;
      if j < p { assert r[j].name == n; } else { assert r[j + 1].name == n; }
    }
    assert r[p].name == ns.name;
  }

  lemma InsertFresh(nss: seq<Namespace>, ns: Namespace, p: nat, r: seq<Namespace>)
    requires p <= |nss| && |r| == |nss| + 1 && ns.name !in Names(nss)
    requires forall j :: 0 <= j < p ==> r[j] == nss[j]
    requires r[p] == ns
    requires forall j :: p < j < |r| ==> r[j] == nss[j - 1]
    ensures Find(r, ns.name) == Some(p)
    ensures UniqueNames(nss) ==> UniqueNames(r)
  {
    forall j | 0 <= j < |r| && j != p ensures r[j].name != ns.name {
      if j < p { assert nss[j].name in Names(nss); } else { assert nss[j - 1].name in Names(nss); }
    }
    assert r[p].name == ns.name;
  }
}
