/**
  The capacity calculation of the ndctl device manager: every active region's
  largest free extent is rounded down to the region's real alignment
  (the fixed ndctl alignment times the region's interleave width), the
  maximum over all regions of all buses is taken, and that single value is
  reported for both namespace modes.
*/
module Capacity {
  import opened Outcomes

  /** Alignment of every namespace creation request: 1 GiB. */
  const NdctlAlign: nat := 1024 * 1024 * 1024

  /** The namespace modes a capacity is reported for, as ndctl spells them. */
  const FsdaxMode: string := "fsdax"
  const SectorMode: string := "sector"

  /** A region as far as the capacity calculation sees it (read-only). */
  datatype Region = Region(interleaveWays: nat, maxAvailableExtent: nat)

  /** A bus together with its currently active regions. */
  datatype Bus = Bus(activeRegions: seq<Region>)

  /**
    Every active region has a positive interleave width; with width 0 the
    division in the calculation would fail.
  */
  predicate ValidTopology(buses: seq<Bus>) {
    forall b, k :: 0 <= b < |buses| && 0 <= k < |buses[b].activeRegions| ==>
      buses[b].activeRegions[k].interleaveWays > 0
  }

  /**
    The alignment a region imposes: ndctl's alignment times the interleave
    width, so a step of it is aligned both to ndctl and to every interleave set.
  */
  function RealAlign(r: Region): (a: nat)
    requires r.interleaveWays > 0
    ensures a >= NdctlAlign > 0
    ensures a % NdctlAlign == 0 && a % r.interleaveWays == 0
  {
    MultipleModulo(r.interleaveWays, NdctlAlign);
    MultipleModulo(NdctlAlign, r.interleaveWays);
    NdctlAlign * r.interleaveWays
  }

  /** Round `available` down to a multiple of `align`. */
  function AlignDown(available: nat, align: nat): (r: nat)
    requires align > 0
    ensures r <= available
    ensures r % align == 0
    ensures available < r + align
  {
    var q := available / align;
    assert (q * align) % align == 0 by { MultipleModulo(q, align); }
    q * align
  }

  /** A multiple of `align` leaves no remainder (Euclidean division is unique). */
  lemma MultipleModulo(q: nat, align: nat)
    requires align > 0
    ensures (q * align) % align == 0
  {
    var x := q * align;
    var d, r := x / align, x % align;
    assert x == d * align + r && 0 <= r < align;
    var e := q - d;
    assert e * align == r by {
      assert q * align - d * align == (q - d) * align;
    }
    if e >= 1 {
      ScaleAtLeast(e, align);
    }
  }

  lemma ScaleAtLeast(e: int, a: nat)
    requires e >= 1
    ensures e * a >= a
  {
  }

  /** What one region contributes: its free extent rounded down to its real alignment. */
  function AlignedExtent(r: Region): nat
    requires r.interleaveWays > 0
  {
    AlignDown(r.maxAvailableExtent, RealAlign(r))
  }

  /**
    `cap` is the capacity of the topology: no region's aligned extent exceeds
    it, and it is 0 or the aligned extent of some region.
  */
  ghost predicate IsCapacityOf(buses: seq<Bus>, cap: nat)
    requires ValidTopology(buses)
  {
    && (forall b, k :: 0 <= b < |buses| && 0 <= k < |buses[b].activeRegions| ==>
          AlignedExtent(buses[b].activeRegions[k]) <= cap)
    && (cap == 0 ||
          exists b, k :: 0 <= b < |buses| && 0 <= k < |buses[b].activeRegions| &&
            cap == AlignedExtent(buses[b].activeRegions[k]))
  }

  /** No active region on any bus. */
  predicate NoRegions(buses: seq<Bus>) {
    forall b :: 0 <= b < |buses| ==> buses[b].activeRegions == []
  }

  /**
    GetCapacity: walks all buses and their active regions, keeps the largest
    aligned extent, and reports it under both modes. The error is always nil.
  */
  method GetCapacity(buses: seq<Bus>) returns (r: Result<map<string, nat>>)
    requires ValidTopology(buses)
    ensures r.Ok?
    ensures r.value.Keys == {FsdaxMode, SectorMode}
    ensures r.value[FsdaxMode] == r.value[SectorMode]
    ensures IsCapacityOf(buses, r.value[FsdaxMode])
    // never more than some region can serve, and an exact multiple of its alignment
    ensures var cap := r.value[FsdaxMode];
      cap == 0 ||
        exists b, k :: 0 <= b < |buses| && 0 <= k < |buses[b].activeRegions| &&
          cap <= buses[b].activeRegions[k].maxAvailableExtent &&
          cap % RealAlign(buses[b].activeRegions[k]) == 0
    ensures NoRegions(buses) ==> r.value[FsdaxMode] == 0
  {
    var capacity: nat := 0;
    ghost var wb: nat, wk: nat := 0, 0;
    var i := 0;
    while i < |buses|
      invariant 0 <= i <= |buses|
      invariant forall b, k :: 0 <= b < i && 0 <= k < |buses[b].activeRegions| ==>
        AlignedExtent(buses[b].activeRegions[k]) <= capacity
      invariant capacity == 0 ||
        (wb < i && wk < |buses[wb].activeRegions| && capacity == AlignedExtent(buses[wb].activeRegions[wk]))
    {
      var regions := buses[i].activeRegions;
      var j := 0;
      while j < |regions|
        invariant 0 <= j <= |regions|
        invariant forall b, k :: 0 <= b < i && 0 <= k < |buses[b].activeRegions| ==>
          AlignedExtent(buses[b].activeRegions[k]) <= capacity
        invariant forall k :: 0 <= k < j ==> AlignedExtent(regions[k]) <= capacity
        invariant capacity == 0 ||
          (wb <= i && wk < |buses[wb].activeRegions| && capacity == AlignedExtent(buses[wb].activeRegions[wk]))
      {
        var region := regions[j];
        var realalign := NdctlAlign * region.interleaveWays;
        var available := region.maxAvailableExtent;
        // align down, never claim more than the region can serve
        available := available / realalign;
        available := available * realalign;
        if available > capacity {
          capacity := available;
          wb, wk := i, j;
        }
        j := j + 1;
      }
      i := i + 1;
    }
    r := Ok(map[FsdaxMode := capacity, SectorMode := capacity]);
  }

  /** The capacity of a topology is determined uniquely: it is the maximum. */
  lemma CapacityUnique(buses: seq<Bus>, c1: nat, c2: nat)
    requires ValidTopology(buses)
    requires IsCapacityOf(buses, c1) && IsCapacityOf(buses, c2)
    ensures c1 == c2
  {
  }

  /**
    One bus, one region of interleave width 2 with 10 GiB free: the
    capacity is 10 GiB, since 10 GiB is already a multiple of 2 GiB.
  */
  lemma CapacityExample()
    ensures ValidTopology([Bus([Region(2, 10 * NdctlAlign)])])
    ensures IsCapacityOf([Bus([Region(2, 10 * NdctlAlign)])], 10 * NdctlAlign)
  {
    var region := Region(2, 10 * NdctlAlign);
    var buses := [Bus([region])];
    assert RealAlign(region) == 2 * NdctlAlign;
    assert (10 * NdctlAlign) / (2 * NdctlAlign) == 5;
    assert AlignedExtent(buses[0].activeRegions[0]) == 10 * NdctlAlign;
  }
}
