/**
  Properties of sequences of device-manager operations: the state invariants
  every operation keeps, the refusal of a second create, the create/delete
  round trip, and what get and list report after create and delete.
*/
module Lifecycle {
  import opened Outcomes
  import opened Namespaces
  import opened DeviceManager

  /** Every destroy call in the trace comes right after a clear of the same volume. */
  predicate ClearPrecedesDestroy(trace: seq<Event>) {
    forall i :: 0 <= i < |trace| && trace[i].DestroyCall? ==>
      0 < i && trace[i - 1].ClearCall? && trace[i - 1].device.volumeId == trace[i].name
  }

  /** What every reachable manager state satisfies. */
  predicate Invariant(m: Manager) {
    UniqueNames(m.namespaces) && ClearPrecedesDestroy(m.trace)
  }

  lemma CreatePreservesInvariant(m: Manager, name: string, size: nat, mode: string,
                                 alloc: Allocation, clearOk: bool)
    requires Invariant(m)
    ensures Invariant(CreateDevice(m, name, size, mode, alloc, clearOk).next)
  {
  }

  lemma DeletePreservesInvariant(m: Manager, name: string, flush: bool, clearOk: bool, destroyOk: bool)
    requires Invariant(m)
    ensures Invariant(DeleteDevice(m, name, flush, clearOk, destroyOk).next)
  {
  }

  lemma FlushPreservesInvariant(m: Manager, name: string, clearOk: bool)
    requires Invariant(m)
    ensures Invariant(FlushDeviceData(m, name, clearOk).next)
  {
  }

  /**
    Once a create has got its namespace from the library, a second create of
    the same name is refused and changes nothing, whether or not the first
    create's clear succeeded.
  */
  lemma CreateTwiceRefused(m: Manager, name: string, size: nat, mode: string, alloc: Allocation,
                           clearOk: bool, size2: nat, mode2: string, alloc2: Allocation, clearOk2: bool)
    requires alloc.Allocated?
    ensures var first := CreateDevice(m, name, size, mode, alloc, clearOk);
      CreateDevice(first.next, name, size2, mode2, alloc2, clearOk2) == Step(Err(AlreadyExists), first.next)
  {
  }

  /**
    After a successful create, GetDevice finds the namespace with the size the
    library granted, and the last call made was the clear of exactly that
    device: nothing is handed out uncleared. The granted size is the
    library's choice, so it is reported as granted, not as requested.
  */
  lemma CreateThenGet(m: Manager, name: string, size: nat, mode: string, alloc: Allocation, clearOk: bool)
    requires CreateDevice(m, name, size, mode, alloc, clearOk).result.Ok?
    ensures var s := CreateDevice(m, name, size, mode, alloc, clearOk);
      && GetDevice(s.next, name).Ok?
      && GetDevice(s.next, name).value.size == alloc.size
      && s.next.trace[|s.next.trace| - 1] == ClearCall(GetDevice(s.next, name).value, false)
  {
  }

  /**
    Deleting a namespace that a create just added, with both facility calls
    succeeding, restores the namespaces from before the create; the delete
    clears the device before destroying it.
  */
  lemma CreateThenDeleteRestores(m: Manager, name: string, size: nat, mode: string,
                                 alloc: Allocation, clearOk: bool, flush: bool)
    requires name !in Names(m.namespaces) && alloc.Allocated?
    ensures var created := CreateDevice(m, name, size, mode, alloc, clearOk).next;
      var deleted := DeleteDevice(created, name, flush, true, true);
      && deleted.result.Ok?
      && deleted.next.namespaces == m.namespaces
      && deleted.next.trace[|created.trace|..] == [ClearCall(GetDevice(created, name).value, flush), DestroyCall(name)]
  {
  }

  /**
    With distinct names, a successful delete leaves the name absent: GetDevice
    reports NotFound and no listed device carries it.
  */
  lemma DeleteThenAbsent(m: Manager, name: string, flush: bool, clearOk: bool, destroyOk: bool)
    requires UniqueNames(m.namespaces)
    requires DeleteDevice(m, name, flush, clearOk, destroyOk).result.Ok?
    ensures var after := DeleteDevice(m, name, flush, clearOk, destroyOk).next;
      && GetDevice(after, name) == Err(NotFound)
      && forall i :: 0 <= i < |after.namespaces| ==> NamespaceToInfo(after.namespaces[i]).volumeId != name
  {
  }

  /**
    A state-changing request together with the facility's answers to it.
    GetDevice and ListDevices return no new state, so a run of requests
    consists of these three.
  */
  datatype Op =
    | Create(name: string, size: nat, mode: string, alloc: Allocation, clearOk: bool)
    | Delete(name: string, flush: bool, clearOk: bool, destroyOk: bool)
    | Flush(name: string, clearOk: bool)

  function Apply(m: Manager, op: Op): Manager {
    match op
    case Create(name, size, mode, alloc, clearOk) => CreateDevice(m, name, size, mode, alloc, clearOk).next
    case Delete(name, flush, clearOk, destroyOk) => DeleteDevice(m, name, flush, clearOk, destroyOk).next
    case Flush(name, clearOk) => FlushDeviceData(m, name, clearOk).next
  }

  /** The state after serving the requests one after another, as the mutex serialises them. */
  function Run(m: Manager, ops: seq<Op>): Manager
    decreases |ops|
  {
    if ops == [] then m else Run(Apply(m, ops[0]), ops[1..])
  }

  /**
    Every state reachable from one with distinct names and a well-ordered
    trace keeps both: no two namespaces share a name, and every destroy ever
    issued came right after a clear of the same volume.
  */
  lemma {:induction false} RunPreservesInvariant(m: Manager, ops: seq<Op>)
    requires Invariant(m)
    ensures Invariant(Run(m, ops))
    decreases |ops|
  {
    if ops != [] {
      match ops[0] {
        case Create(name, size, mode, alloc, clearOk) =>
          CreatePreservesInvariant(m, name, size, mode, alloc, clearOk);
        case Delete(name, flush, clearOk, destroyOk) =>
          DeletePreservesInvariant(m, name, flush, clearOk, destroyOk);
        case Flush(name, clearOk) =>
          FlushPreservesInvariant(m, name, clearOk);
      }
      RunPreservesInvariant(Apply(m, ops[0]), ops[1..]);
    }
  }

  /** Requests only ever append to the trace: the history of calls is never rewritten. */
  lemma {:induction false} RunExtendsTrace(m: Manager, ops: seq<Op>)
    ensures |m.trace| <= |Run(m, ops).trace|
    ensures Run(m, ops).trace[..|m.trace|] == m.trace
    decreases |ops|
  {
    if ops != [] {
      var next := Apply(m, ops[0]);
      ApplyExtendsTrace(m, ops[0]);
      RunExtendsTrace(next, ops[1..]);
      assert Run(m, ops) == Run(next, ops[1..]);
    }
  }

  lemma ApplyExtendsTrace(m: Manager, op: Op)
    ensures |m.trace| <= |Apply(m, op).trace|
    ensures Apply(m, op).trace[..|m.trace|] == m.trace
  {
  }

  /** Namespaces appear only through CreateDevice: a name no request creates stays absent. */
  lemma {:induction false} OnlyCreateAddsNames(m: Manager, ops: seq<Op>, name: string)
    requires name !in Names(m.namespaces)
    requires forall k :: 0 <= k < |ops| ==> !(ops[k].Create? && ops[k].name == name)
    ensures name !in Names(Run(m, ops).namespaces)
    decreases |ops|
  {
    if ops != [] {
      var next := Apply(m, ops[0]);
      OnlyCreateAddsNames(next, ops[1..], name);
    }
  }

  /** The state a freshly constructed manager starts in satisfies the invariant when the library's names are distinct. */
  lemma StartSatisfiesInvariant(existing: seq<Namespace>)
    requires UniqueNames(existing)
    ensures Invariant(Manager(existing, []))
  {
  }
}
