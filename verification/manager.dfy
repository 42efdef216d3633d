/**
  The ndctl-backed device manager: namespace lifecycle operations over the
  library's namespace list. Each operation is one atomic step (the global
  ndctl mutex serialises them) from a manager state to a result and a new
  state. What the library or the device-clearing routine answers (success or
  failure, the granted size and block device of a new namespace) is an input
  of the step. Every create, clear and destroy call is appended to a trace, so
  the order of clear and destroy can be stated; lookups are not traced.
*/
module DeviceManager {
  import opened Outcomes
  import opened Namespaces
  import Capacity

  /** A call the manager makes into the ndctl library or the device-clearing routine. */
  datatype Event =
    | CreateCall(name: string, size: nat, align: nat, mode: string)
    | ClearCall(device: DeviceInfo, flush: bool)
    | DestroyCall(name: string)

  /** The library's active namespaces, in enumeration order, and the calls made so far. */
  datatype Manager = Manager(namespaces: seq<Namespace>, trace: seq<Event>)

  /** The outcome of one operation: what it returns and the state after it. */
  datatype Step<+T> = Step(result: Result<T>, next: Manager)

  /** What the library answers to a create request. */
  datatype Allocation =
    | AllocFailed
    | Allocated(blockDeviceName: string, size: nat, position: nat)

  /** The request CreateDevice sends for a caller's `size`: one alignment step more. */
  function CreateRequest(name: string, size: nat, mode: string): (e: Event)
    ensures e.CreateCall? && e.name == name && e.mode == mode
    ensures e.align == Capacity.NdctlAlign && e.size == size + e.align
  {
    CreateCall(name, size + Capacity.NdctlAlign, Capacity.NdctlAlign, mode)
  }

  /**
    CreateDevice: refuses a name that is already active without calling the
    library; otherwise requests `size + NdctlAlign` bytes and, once the
    namespace exists, clears the start of its device without flushing. A
    failed clear leaves the namespace in place.
  */
  function CreateDevice(m: Manager, name: string, size: nat, mode: string,
                        alloc: Allocation, clearOk: bool): (s: Step<()>)
    ensures name in Names(m.namespaces) ==> s == Step(Err(AlreadyExists), m)
    ensures name !in Names(m.namespaces) && alloc.AllocFailed? ==>
      s == Step(Err(AllocationFailure), m.(trace := m.trace + [CreateRequest(name, size, mode)]))
    ensures name !in Names(m.namespaces) && alloc.Allocated? ==>
      var ns := Namespace(name, alloc.blockDeviceName, alloc.size, mode);
      && s.next.namespaces == InsertAt(m.namespaces, ns, alloc.position)
      && s.next.trace == m.trace + [CreateRequest(name, size, mode), ClearCall(NamespaceToInfo(ns), false)]
      && s.result == (if clearOk then Ok(()) else Err(ZeroizeFailure))
  {
    match LookupDevice(m.namespaces, name)
    case Ok(_) => Step(Err(AlreadyExists), m)
    case Err(_) =>
      var request := CreateRequest(name, size, mode);
      var t1 := m.trace + [request];
      match alloc
      case AllocFailed => Step(Err(AllocationFailure), m.(trace := t1))
      case Allocated(dev, granted, position) =>
        var created := Namespace(name, dev, granted, mode);
        var nss := InsertAt(m.namespaces, created, position);
        CreatedIsFound(m.namespaces, created, position);
        match LookupDevice(nss, name)
        case Err(e) => Step(Err(e), Manager(nss, t1))
        case Ok(device) =>
          var t2 := t1 + [ClearCall(device, false)];
          if clearOk then Step(Ok(()), Manager(nss, t2))
          else Step(Err(ZeroizeFailure), Manager(nss, t2))
  }

  /**
    Wherever the library enumerates a namespace created under a fresh name,
    the lookup that follows the create finds exactly that namespace.
  */
  lemma CreatedIsFound(nss: seq<Namespace>, ns: Namespace, position: nat)
    requires ns.name !in Names(nss)
    ensures LookupDevice(InsertAt(nss, ns, position), ns.name) == Ok(NamespaceToInfo(ns))
  {
  }

  /**
    DeleteDevice: an absent name is NotFound and nothing happens. Otherwise the
    device is cleared with the caller's flush flag, and only if that succeeds
    is the namespace destroyed.
  */
  function DeleteDevice(m: Manager, name: string, flush: bool,
                        clearOk: bool, destroyOk: bool): (s: Step<()>)
    ensures name !in Names(m.namespaces) ==> s == Step(Err(NotFound), m)
    ensures name in Names(m.namespaces) ==>
      && |s.next.trace| == |m.trace| + (if clearOk then 2 else 1)
      && s.next.trace[..|m.trace|] == m.trace
      && s.next.trace[|m.trace|] == ClearCall(LookupDevice(m.namespaces, name).value, flush)
      && (clearOk ==> s.next.trace[|m.trace| + 1] == DestroyCall(name))
    ensures name in Names(m.namespaces) && !clearOk ==>
      s.result == Err(ZeroizeFailure) && s.next.namespaces == m.namespaces
    ensures name in Names(m.namespaces) && clearOk && !destroyOk ==>
      s.result == Err(DestroyFailure) && s.next.namespaces == m.namespaces
    ensures s.result.Ok? <==> name in Names(m.namespaces) && clearOk && destroyOk
    ensures s.result.Ok? ==> s.next.namespaces == DestroyByName(m.namespaces, name)
  {
    match LookupDevice(m.namespaces, name)
    case Err(e) => Step(Err(e), m)
    case Ok(device) =>
      var t1 := m.trace + [ClearCall(device, flush)];
      if !clearOk then Step(Err(ZeroizeFailure), m.(trace := t1))
      else
        var t2 := t1 + [DestroyCall(name)];
        if destroyOk then Step(Ok(()), Manager(DestroyByName(m.namespaces, name), t2))
        else Step(Err(DestroyFailure), m.(trace := t2))
  }

  /**
    FlushDeviceData: an absent name is NotFound and nothing happens; otherwise
    the device is cleared with flushing. The namespaces never change.
  */
  function FlushDeviceData(m: Manager, name: string, clearOk: bool): (s: Step<()>)
    ensures s.next.namespaces == m.namespaces
    ensures name !in Names(m.namespaces) ==> s == Step(Err(NotFound), m)
    ensures name in Names(m.namespaces) ==>
      && s.next.trace == m.trace + [ClearCall(LookupDevice(m.namespaces, name).value, true)]
      && s.result == (if clearOk then Ok(()) else Err(ZeroizeFailure))
  {
    match LookupDevice(m.namespaces, name)
    case Err(e) => Step(Err(e), m)
    case Ok(device) =>
      var t := m.trace + [ClearCall(device, true)];
      if clearOk then Step(Ok(()), m.(trace := t)) else Step(Err(ZeroizeFailure), m.(trace := t))
  }

  /** GetDevice: the lookup by name; it changes nothing, so it returns no new state. */
  function GetDevice(m: Manager, name: string): (r: Result<DeviceInfo>)
    ensures r.Ok? <==> name in Names(m.namespaces)
    ensures r.Err? ==> r.error == NotFound
    ensures r.Ok? ==> r.value.volumeId == name
    ensures r.Ok? ==> |DevPrefix| <= |r.value.path| && r.value.path[..|DevPrefix|] == DevPrefix
    ensures r.Ok? ==>
      exists i :: 0 <= i < |m.namespaces| && m.namespaces[i].name == name && r.value == NamespaceToInfo(m.namespaces[i])
    // the first namespace of that name, the one DeleteDevice destroys
    ensures r.Ok? ==> r.value == NamespaceToInfo(m.namespaces[Find(m.namespaces, name).value])
  {
    LookupDevice(m.namespaces, name)
  }

  /**
    ListDevices: one entry per active namespace, in enumeration order; the
    error is always nil.
  */
  method ListDevices(m: Manager) returns (r: Result<seq<DeviceInfo>>)
    ensures r.Ok?
    ensures |r.value| == |m.namespaces|
    ensures forall i :: 0 <= i < |r.value| ==> r.value[i] == NamespaceToInfo(m.namespaces[i])
    ensures (set d | d in r.value :: d.volumeId) == Names(m.namespaces)
  {
    var devices: seq<DeviceInfo> := [];
    var i := 0;
    while i < |m.namespaces|
      invariant 0 <= i <= |m.namespaces|
      invariant |devices| == i
      invariant forall k :: 0 <= k < i ==> devices[k] == NamespaceToInfo(m.namespaces[k])
    {
      devices := devices + [NamespaceToInfo(m.namespaces[i])];
      i := i + 1;
    }
    r := Ok(devices);
  }
}
