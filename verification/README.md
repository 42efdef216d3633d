# ndctl persistent-memory device manager, modelled in Dafny

This project models the ndctl-backed device manager of pmem-csi
(`pkg/pmem-device-manager/pmd-ndctl.go`). That manager carves namespaces
out of persistent-memory regions and hands them to the CSI driver as block
devices. The model covers four parts:

- **Capacity** (`capacity.dfy`, module `Capacity`). Buses hold active
  regions, and each region has an interleave width and a largest free extent.
  `GetCapacity` rounds every region's free extent down to
  `ndctlAlign * interleaveWays` (ndctlAlign is 1 GiB). It takes the maximum
  over all regions and reports that one value under both the `fsdax` and the
  `sector` mode.
- **Namespace lifecycle** (`namespaces.dfy` and `manager.dfy`, modules
  `Namespaces` and `DeviceManager`). The library's active namespaces are a
  sequence in enumeration order. The lookup by name (`getDevice`) finds the
  first namespace with that name. `CreateDevice`, `DeleteDevice`,
  `FlushDeviceData`, `GetDevice` and `ListDevices` are atomic steps from a
  manager state to a result and a new state. Inputs of each step decide how
  the library and the device-clearing routine answer: whether a create
  succeeded, with which block device and granted size; whether a clear or a
  destroy succeeded. The state also holds a trace of every create, clear and
  destroy call (the create request, the clear with its flush flag, the
  destroy); lookups by name and enumeration are not traced. The trace is what lets the model state "clear before destroy".
- **Startup guard** (`startup.dfy`, module `Startup`). Construction fails when
  the ndctl context cannot be created. It also fails when the first mount
  record that mounts `sysfs` on `/sys` lists `ro` among its options.
- **Lifecycle properties** (`lifecycle.dfy`, module `Lifecycle`). These relate
  several operations: invariants every operation keeps, also over any serial
  run of requests; refusal of a second create; the create/delete round trip;
  and what get and list show afterwards.

`outcomes.dfy` (module `Outcomes`) holds the error kinds and the
`Result`/`Option` wrappers.

Facility errors are returned unchanged; the model gives each failing call its
own error kind (AllocationFailure, ZeroizeFailure, DestroyFailure).
Construction fails when `ro` appears anywhere in the options of the first
sysfs-on-`/sys` record, even after an `rw`; later records are ignored.

The manager keeps namespace names distinct only for the namespaces it creates
itself. Namespaces the library already holds at start-up may share a name;
then a lookup finds the first of them and a delete removes only that one, so
the name can still be listed afterwards. The properties "delete then get or
list never shows the id" and "names stay distinct over any run" are proved
under the condition that the starting names are distinct.

## Model

| member | source | states |
|---|---|---|
| Capacity.RealAlign | pkg/pmem-device-manager/pmd-ndctl.go:71 | the region's alignment is `ndctlAlign` times its interleave width: at least `ndctlAlign`, and a multiple both of `ndctlAlign` and of the interleave width |
| Capacity.AlignDown | pkg/pmem-device-manager/pmd-ndctl.go:71-76 | the aligned value never exceeds the free extent, is an exact multiple of the alignment, and is less than one alignment step below the extent (it is the floor) |
| Capacity.GetCapacity | pkg/pmem-device-manager/pmd-ndctl.go:62-90 | the error is nil; the map has exactly the keys `fsdax` and `sector` with the same value; that value bounds every region's aligned extent and is 0 or some region's aligned extent; it never exceeds that region's free extent and is a multiple of its `ndctlAlign * ways`; it is 0 when there are no regions |
| Capacity.CapacityUnique | pkg/pmem-device-manager/pmd-ndctl.go:68-82 | the capacity of a topology is determined uniquely (it is the maximum aligned extent), so the declarative characterisation is a complete specification of the loop |
| Capacity.CapacityExample | pkg/pmem-device-manager/pmd-ndctl.go:71-79 | one region of interleave width 2 with 10 GiB free yields a capacity of 10 GiB |
| Namespaces.NamespaceToInfo | pkg/pmem-device-manager/pmd-ndctl.go:190-196 | the device info carries the namespace's name and size, and its path is `/dev/` followed by exactly the block device name (never empty) |
| Namespaces.InfoPathInjective | pkg/pmem-device-manager/pmd-ndctl.go:193 | two namespaces get the same device path exactly when they have the same block device name |
| Namespaces.Find | pkg/pmem-device-manager/pmd-ndctl.go:182 | the lookup fails exactly when no namespace has the name; otherwise it yields the first position holding that name |
| Namespaces.LookupDevice | pkg/pmem-device-manager/pmd-ndctl.go:181-188 | `getDevice` succeeds exactly when the name is active, and then reports that namespace with that volume id; an absent name is NotFound; it reports the first namespace of that name, the one destroy by name removes, and with distinct names the unique one |
| Namespaces.InsertAt | pkg/pmem-device-manager/pmd-ndctl.go:113-118 | after `CreateNamespace` the library lists one namespace more: the new one sits at the answered position, or at the end when that position lies beyond the list; removing it gives back the old list in order; the names grow by exactly the new name; a fresh name is found at that position and keeps names distinct |
| Namespaces.DestroyByName | pkg/pmem-device-manager/pmd-ndctl.go:149 | destroying by name removes exactly the namespace the lookup finds and keeps all others in order; with distinct names the name is gone afterwards and no other name is lost |
| DeviceManager.CreateRequest | pkg/pmem-device-manager/pmd-ndctl.go:111-118 | the create request names the volume, asks for the caller's size plus one `ndctlAlign` step, with alignment `ndctlAlign` and the caller's mode |
| DeviceManager.CreateDevice | pkg/pmem-device-manager/pmd-ndctl.go:92-135 | an active name is refused with AlreadyExists and no call is made; a refused allocation returns its error with the namespaces unchanged; a granted one inserts the new namespace at the position the library enumerates it, every old namespace keeping its order, and clears it with flush=false; a failed clear is returned and leaves the namespace in place |
| DeviceManager.CreatedIsFound | pkg/pmem-device-manager/pmd-ndctl.go:125-128 | wherever the library enumerates a namespace created under a fresh name, the lookup after the create finds exactly that namespace |
| DeviceManager.DeleteDevice | pkg/pmem-device-manager/pmd-ndctl.go:137-150 | an absent name is NotFound and nothing happens; otherwise a clear with the caller's flag is made first, and only if it succeeds a destroy of that name; each failure leaves the namespaces unchanged; success happens exactly when the name is active and both calls succeed, and then the namespace is removed |
| DeviceManager.FlushDeviceData | pkg/pmem-device-manager/pmd-ndctl.go:152-161 | the namespaces never change; an absent name is NotFound with no call; otherwise exactly one clear with flush=true is made and its outcome returned |
| DeviceManager.GetDevice | pkg/pmem-device-manager/pmd-ndctl.go:163-168 | succeeds exactly when the name is active; reports that namespace's volume id, `/dev/` path and size, and it is the first namespace of that name, the one a delete destroys; NotFound otherwise |
| DeviceManager.ListDevices | pkg/pmem-device-manager/pmd-ndctl.go:170-179 | the error is nil; one entry per active namespace, in enumeration order; the reported volume ids are exactly the active names |
| Startup.NewPmemDeviceManagerNdctl | pkg/pmem-device-manager/pmd-ndctl.go:31-60 | a context failure is reported first; otherwise construction fails exactly when the first sysfs-on-`/sys` mount record has `ro` among its options; on success the manager starts over the library's namespaces with no calls made |
| Startup.LaterMountsIgnored | pkg/pmem-device-manager/pmd-ndctl.go:42-55 | once the table holds a sysfs-on-`/sys` record, records after it cannot change the verdict (the `break`) |
| Startup.EmptyTableIsWritable | pkg/pmem-device-manager/pmd-ndctl.go:40-42 | an empty mount table, also one left empty by a failed read, never counts as read-only |
| Lifecycle.CreatePreservesInvariant | pkg/pmem-device-manager/pmd-ndctl.go:95-134 | create keeps namespace names distinct and keeps every destroy in the trace right after a clear of the same volume |
| Lifecycle.DeletePreservesInvariant | pkg/pmem-device-manager/pmd-ndctl.go:141-149 | delete keeps names distinct and appends its destroy only directly after the clear of that volume |
| Lifecycle.FlushPreservesInvariant | pkg/pmem-device-manager/pmd-ndctl.go:156-160 | flush keeps both invariants |
| Lifecycle.CreateTwiceRefused | pkg/pmem-device-manager/pmd-ndctl.go:95-104 | once a create got its namespace from the library, a second create of the same name is refused with AlreadyExists and changes nothing, even when the first create's clear failed |
| Lifecycle.CreateThenGet | pkg/pmem-device-manager/pmd-ndctl.go:111-134 | after a successful create, GetDevice finds the namespace with the granted size; the last call made was the clear (flush=false) of exactly that device |
| Lifecycle.CreateThenDeleteRestores | pkg/pmem-device-manager/pmd-ndctl.go:113-149 | deleting a just-created namespace with both calls succeeding restores the namespaces from before the create, issuing a clear and then a destroy |
| Lifecycle.DeleteThenAbsent | pkg/pmem-device-manager/pmd-ndctl.go:141-149 | with distinct names, after a successful delete GetDevice reports NotFound and no listed device carries the name |
| Lifecycle.RunPreservesInvariant | pkg/pmem-device-manager/pmd-ndctl.go:92-161 | over any serial run of create, delete and flush requests with any facility answers, names stay distinct and every destroy comes right after a clear of the same volume |
| Lifecycle.RunExtendsTrace | pkg/pmem-device-manager/pmd-ndctl.go:92-161 | a run only appends calls to the trace; earlier calls are never undone or reordered |
| Lifecycle.OnlyCreateAddsNames | pkg/pmem-device-manager/pmd-ndctl.go:113-118 | a name that no create request in a run names, and that was absent at the start, is absent at the end |
| Lifecycle.StartSatisfiesInvariant | pkg/pmem-device-manager/pmd-ndctl.go:57-59 | the state a freshly constructed manager starts in satisfies the invariant when the library's names are distinct |

## Left out

- The global `ndctlMutex` and concurrency: the mutex only serialises the operations, so each operation is one atomic step of a sequential model.
- ndctl library internals: context creation, namespace creation, destroy, lookup and region enumeration. The library is a namespace sequence. Its answers (success, granted size, block device name, enumeration position of a new namespace) are step inputs. How ndctl rounds sizes or stores metadata is not modelled.
- DeviceManager.CreateDevice: the library is modelled as consistent: a granted create yields an active namespace of that name at the position the library answers, so the lookup failure handled at lines 125-127 cannot occur in the model.
- A failed library or clearing call is assumed to leave the namespace list as it was; the code does not say otherwise.
- `ClearDevice` internals are not part of this model. A clear is a recorded call (device, flush) whose success is an input, so "the first bytes read as zero" is stated as "the clear of that device was the last call before success".
- Reading the mount table is I/O. The table is an input sequence, and an ignored `List()` error is whatever list came back, possibly empty.
- Logging, the JSON marshalling of the new namespace (line 122), and the exact error strings: only the kind of error is modelled.
- DeviceManager.CreateDevice: `size += ndctlAlign` is computed on unbounded integers, so the Go `uint64` wrap-around for sizes within one alignment step of 2^64 is not modelled.
- Capacity.GetCapacity: requires every active region to have a positive interleave width, since the Go division would panic on width 0. The `uint64` wrap of `ndctlAlign * InterleaveWays()` for widths of 2^34 or more is not modelled.
- The `nsmode` string is passed to the library unchecked, as in the code; which modes the library accepts belongs to the allocation input.
