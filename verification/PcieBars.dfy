/**
 PCIe base address registers: sizing by read-back and placement in the 32-bit
 window, over all devices (section 6.2.5.1 of PCI Local Bus Specification 3.0).
 */
module PcieBars {
  import opened Bits

  /** A function on the bus: what each register reads after all ones were written, and what was recorded. */
  datatype Device = Device(
    readback: seq<nat>, bar: seq<nat>, barSize: seq<nat>, barIsIo: seq<bool>, barIs64: seq<bool>)

  predicate WellFormed(d: Device) {
    Readable(d.readback) && |d.bar| == |d.barSize| == |d.barIsIo| == |d.barIs64| == 6
  }

  function IsIo(r: nat): bool { And(r, 1) != 0 }

  function Is64(r: nat): bool { And(r, 6) == 4 }

  function Mask(r: nat): (m: nat)
    ensures m <= r
  {
    if IsIo(r) then And(r, 0xFFFF_FFFC) else And(r, 0xFFFF_FFF0)
  }

  /** ~mask + 1 in 32-bit arithmetic. */
  function SizeOf(r: nat): (s: nat)
    requires r < U32
    ensures s < U32
  {
    (U32 - Mask(r)) % U32
  }

  /** A memory register that gets an address. */
  predicate Placeable(r: nat)
    requires r < U32
  {
    r != 0 && !IsIo(r) && SizeOf(r) > 0
  }

  /** The next register to visit: the high half of a 64-bit pair is skipped. */
  function Following(r: nat, i: nat): (j: nat)
    ensures i < j <= i + 2
  {
    if r != 0 && Is64(r) then i + 2 else i + 1
  }

  /** The cursor rounded up for a size. */
  function Base(cursor: nat, size: nat): nat
    requires 0 < size < U32
  {
    Powers();
    AlignUp(64, cursor, size)
  }

  /** What six registers read back. */
  predicate Readable(rb: seq<nat>) {
    |rb| == 6 && forall i :: 0 <= i < 6 ==> rb[i] < U32
  }

  /** The registers the sizing loop visits, from register i on. */
  function Visits(rb: seq<nat>, i: nat): (v: seq<nat>)
    requires Readable(rb)
    ensures forall k :: k in v ==> i <= k < 6
    decreases 6 - i
  {
    if i >= 6 then [] else [i] + Visits(rb, Following(rb[i], i))
  }

  /** The registers that get an address, from register i on. */
  function Wanted(rb: seq<nat>, i: nat): (w: seq<nat>)
    requires Readable(rb)
    ensures forall p :: 0 <= p < |w| ==> i <= w[p] < 6
    decreases 6 - i
  {
    if i >= 6 then []
    else (if Placeable(rb[i]) then [i] else []) + Wanted(rb, Following(rb[i], i))
  }

  /** Their sizes. */
  function SizesFrom(rb: seq<nat>, i: nat): (s: seq<nat>)
    requires Readable(rb)
    ensures |s| == |Wanted(rb, i)|
    ensures forall p :: 0 <= p < |s| ==> 0 < s[p] < U32
    decreases 6 - i
  {
    if i >= 6 then []
    else (if Placeable(rb[i]) then [SizeOf(rb[i])] else []) + SizesFrom(rb, Following(rb[i], i))
  }

  /** Register k is the p-th in use from register i on: it was visited, it answered, and its size is in the list. */
  ghost predicate UsedAt(rb: seq<nat>, i: nat, p: nat, k: nat)
    requires Readable(rb) && k < 6 && p < |SizesFrom(rb, i)|
  {
    k in Visits(rb, i) && rb[k] != 0 && SizesFrom(rb, i)[p] == SizeOf(rb[k])
  }

  lemma {:induction false} WantedAt(rb: seq<nat>, i: nat, p: nat)
    requires Readable(rb) && p < |Wanted(rb, i)|
    ensures UsedAt(rb, i, p, Wanted(rb, i)[p])
    decreases 6 - i
  {
    hide *;
    NoneBeyond(rb, i);
    FirstRegister(rb, i);
    var j := Following(rb[i], i);
    if !Placeable(rb[i]) {
      WantedAt(rb, j, p);
      LaterUsed(rb, i, j, p, p, Wanted(rb, i)[p]);
    } else if p > 0 {
      WantedAt(rb, j, p - 1);
      LaterUsed(rb, i, j, p, p - 1, Wanted(rb, i)[p]);
    } else {
      FirstUsed(rb, i);
    }
  }

  lemma {:induction false} NoneBeyond(rb: seq<nat>, i: nat)
    requires Readable(rb) && Wanted(rb, i) != []
    ensures |rb| == 6 && i < 6 && rb[i] < U32
  {
  }

  lemma {:induction false} LaterUsed(rb: seq<nat>, i: nat, j: nat, p: nat, q: nat, k: nat)
    requires Readable(rb) && k < 6 && p < |SizesFrom(rb, i)| && q < |SizesFrom(rb, j)|
    requires Visits(rb, i) == [i] + Visits(rb, j) && SizesFrom(rb, i)[p] == SizesFrom(rb, j)[q]
    requires UsedAt(rb, j, q, k)
    ensures UsedAt(rb, i, p, k)
  {
    hide SizeOf, Wanted, Visits, SizesFrom;
  }

  lemma {:induction false} FirstUsed(rb: seq<nat>, i: nat)
    requires Readable(rb) && i < 6 && Placeable(rb[i])
    ensures |SizesFrom(rb, i)| > 0 && UsedAt(rb, i, 0, i)
  {
    hide SizeOf, IsIo;
  }

  function Sizes(d: Device): (s: seq<nat>)
    requires WellFormed(d)
    ensures forall k :: 0 <= k < |s| ==> 0 < s[k] < U32
  {
    SizesFrom(d.readback, 0)
  }

  /** The addresses given to a list of sizes. */
  function Bases(cursor: nat, sizes: seq<nat>): (b: seq<nat>)
    requires forall k :: 0 <= k < |sizes| ==> 0 < sizes[k] < U32
    ensures |b| == |sizes|
    decreases sizes
  {
    if sizes == [] then []
    else [Base(cursor, sizes[0])] + Bases((Base(cursor, sizes[0]) + sizes[0]) % U64, sizes[1..])
  }

  /** The cursor afterwards. */
  function Cursor(cursor: nat, sizes: seq<nat>): nat
    requires forall k :: 0 <= k < |sizes| ==> 0 < sizes[k] < U32
    decreases sizes
  {
    if sizes == [] then cursor else Cursor((Base(cursor, sizes[0]) + sizes[0]) % U64, sizes[1..])
  }

  /** The sizes asked for by all devices, in order. */
  function AllSizes(ds: seq<Device>): (s: seq<nat>)
    requires forall d :: 0 <= d < |ds| ==> WellFormed(ds[d])
    ensures forall k :: 0 <= k < |s| ==> 0 < s[k] < U32
  {
    if ds == [] then [] else AllSizes(ds[..|ds| - 1]) + Sizes(ds[|ds| - 1])
  }

  // ----- one device -----

  /** The size and kind recorded for register k: of a visited register that answers, else as before. */
  predicate Recorded(d0: Device, d: Device, k: nat, visited: bool)
    requires WellFormed(d0) && WellFormed(d) && k < 6
  {
    var r := d0.readback[k];
    if visited && r != 0
    then d.barSize[k] == SizeOf(r) && d.barIsIo[k] == IsIo(r) && d.barIs64[k] == Is64(r)
    else d.barSize[k] == d0.barSize[k] && d.barIsIo[k] == d0.barIsIo[k] && d.barIs64[k] == d0.barIs64[k]
  }

  /** The placed registers hold their addresses, in order. */
  predicate Holds(d: Device, wanted: seq<nat>, bases: seq<nat>)
    requires WellFormed(d) && |wanted| == |bases|
  {
    forall k :: 0 <= k < |wanted| ==> wanted[k] < 6 && d.bar[wanted[k]] == bases[k]
  }

  /** From d0 with the cursor at start, registers from i on were sized and placed, and nothing else changed. */
  ghost predicate Settled(d0: Device, start: nat, i: nat, d: Device, cursor: nat)
    requires WellFormed(d0)
  {
    && WellFormed(d) && d.readback == d0.readback
    && (forall k :: 0 <= k < 6 ==> Recorded(d0, d, k, k in Visits(d0.readback, i)))
    && (forall k :: 0 <= k < 6 && k !in Wanted(d0.readback, i) ==> d.bar[k] == d0.bar[k])
    && Holds(d, Wanted(d0.readback, i), Bases(start, SizesFrom(d0.readback, i)))
    && cursor == Cursor(start, SizesFrom(d0.readback, i))
  }

  /** The record and the cursor after one register. */
  function Visit(d: Device, cursor: nat, i: nat): (v: (Device, nat))
    requires WellFormed(d) && cursor < U64 && i < 6
    ensures WellFormed(v.0) && v.0.readback == d.readback && v.1 < U64
  {
    var r := d.readback[i];
    if r == 0 then (d, cursor)
    else
      var e := d.(barIsIo := d.barIsIo[i := IsIo(r)], barIs64 := d.barIs64[i := Is64(r)],
                  barSize := d.barSize[i := SizeOf(r)]);
      if !Placeable(r) then (e, cursor)
      else
        var base := Base(cursor, SizeOf(r));
        (e.(bar := e.bar[i := base]), (base + SizeOf(r)) % U64)
  }

  /** The record and the cursor after the registers from i on. */
  function Assign(d: Device, cursor: nat, i: nat): (Device, nat)
    requires WellFormed(d) && cursor < U64
    decreases 6 - i
  {
    if i >= 6 then (d, cursor)
    else
      var v := Visit(d, cursor, i);
      Assign(v.0, v.1, Following(d.readback[i], i))
  }

  /** The register loop settles the device. */
  lemma {:induction false} AssignSettles(d: Device, cursor: nat, i: nat)
    requires WellFormed(d) && cursor < U64
    ensures var v := Assign(d, cursor, i); Settled(d, cursor, i, v.0, v.1)
    decreases 6 - i
  {
    hide Settled, Visit, Following;
    if i >= 6 {
      NoRegisters(d, cursor, i);
    } else {
      var v, j := Visit(d, cursor, i), Following(d.readback[i], i);
      AssignSettles(v.0, v.1, j);
      VisitSettles(d, cursor, i, Assign(v.0, v.1, j));
    }
  }

  lemma NoRegisters(d: Device, cursor: nat, i: nat)
    requires WellFormed(d) && i >= 6
    ensures Settled(d, cursor, i, d, cursor)
  {
  }

  /** One register, then those that follow it. */
  lemma VisitSettles(d: Device, cursor: nat, i: nat, z: (Device, nat))
    requires WellFormed(d) && cursor < U64 && i < 6
    requires var v := Visit(d, cursor, i); Settled(v.0, v.1, Following(d.readback[i], i), z.0, z.1)
    ensures Settled(d, cursor, i, z.0, z.1)
  {
    hide IsIo, Is64, SizeOf, Base, Bases, Cursor, Wanted, SizesFrom, Visits, Following;
    FirstRegister(d.readback, i);
    VisitRecords(d, cursor, i, z.0);
    VisitPlaces(d, cursor, i, z.0, z.1);
  }

  lemma {:induction false} VisitRecords(d: Device, cursor: nat, i: nat, e: Device)
    requires WellFormed(d) && cursor < U64 && i < 6 && WellFormed(e)
    requires var v, j := Visit(d, cursor, i).0, Following(d.readback[i], i);
             && (forall k :: 0 <= k < 6 ==> Recorded(v, e, k, k in Visits(d.readback, j)))
             && (forall k :: 0 <= k < 6 && k !in Wanted(d.readback, j) ==> e.bar[k] == v.bar[k])
    ensures forall k :: 0 <= k < 6 ==> Recorded(d, e, k, k in Visits(d.readback, i))
    ensures forall k :: 0 <= k < 6 && k !in Wanted(d.readback, i) ==> e.bar[k] == d.bar[k]
  {
    hide IsIo, Is64, SizeOf, Base, Wanted, Visits, Following;
    var rb, j := d.readback, Following(d.readback[i], i);
    var v := Visit(d, cursor, i).0;
    FirstRegister(rb, i);
    assert i !in Visits(rb, j) && i !in Wanted(rb, j);
    forall k | 0 <= k < 6 ensures Recorded(d, e, k, k in Visits(rb, i)) {
      assert Recorded(v, e, k, k in Visits(rb, j));
    }
  }

  lemma {:induction false} VisitPlaces(d: Device, cursor: nat, i: nat, e: Device, end: nat)
    requires WellFormed(d) && cursor < U64 && i < 6 && WellFormed(e)
    requires var v, j := Visit(d, cursor, i), Following(d.readback[i], i);
             && (forall k :: 0 <= k < 6 && k !in Wanted(d.readback, j) ==> e.bar[k] == v.0.bar[k])
             && Holds(e, Wanted(d.readback, j), Bases(v.1, SizesFrom(d.readback, j)))
             && end == Cursor(v.1, SizesFrom(d.readback, j))
    ensures Holds(e, Wanted(d.readback, i), Bases(cursor, SizesFrom(d.readback, i)))
    ensures end == Cursor(cursor, SizesFrom(d.readback, i))
  {
    hide IsIo, Is64, SizeOf, Base, Bases, Cursor, Wanted, SizesFrom, Following, Holds;
    var rb, j := d.readback, Following(d.readback[i], i);
    var w, rest := Wanted(rb, j), SizesFrom(rb, j);
    FirstRegister(rb, i);
    if Placeable(rb[i]) {
      var s := SizesFrom(rb, i);
      assert s[0] == SizeOf(rb[i]) && s[1..] == rest;
      Splitting(cursor, s);
      assert i !in w;
      HoldsMore(e, i, Base(cursor, s[0]), w, Bases(Visit(d, cursor, i).1, rest));
    } else {
      assert [] + rest == rest && [] + w == w;
    }
  }

  lemma HoldsMore(e: Device, i: nat, b: nat, w: seq<nat>, bs: seq<nat>)
    requires WellFormed(e) && i < 6 && e.bar[i] == b && |w| == |bs| && Holds(e, w, bs)
    ensures Holds(e, [i] + w, [b] + bs)
  {
  }

  lemma {:induction false} FirstRegister(rb: seq<nat>, i: nat)
    requires Readable(rb) && i < 6
    ensures var j := Following(rb[i], i); i < j && Visits(rb, i) == [i] + Visits(rb, j)
    ensures var j := Following(rb[i], i);
            if Placeable(rb[i])
            then Wanted(rb, i) == [i] + Wanted(rb, j) && SizesFrom(rb, i) == [SizeOf(rb[i])] + SizesFrom(rb, j)
            else Wanted(rb, i) == Wanted(rb, j) && SizesFrom(rb, i) == SizesFrom(rb, j)
  {
    hide IsIo, Is64, SizeOf;
  }

  lemma Splitting(cursor: nat, s: seq<nat>)
    requires s != [] && forall k :: 0 <= k < |s| ==> 0 < s[k] < U32
    ensures var next := (Base(cursor, s[0]) + s[0]) % U64;
            && Bases(cursor, s) == [Base(cursor, s[0])] + Bases(next, s[1..])
            && Cursor(cursor, s) == Cursor(next, s[1..])
  {
    hide Base;
  }

  class Controller {
    var mem32Alloc: nat
    var devices: seq<Device>

    ghost predicate Valid()
      reads this
    {
      mem32Alloc < U64 && forall d :: 0 <= d < |devices| ==> WellFormed(devices[d])
    }

    constructor (start: nat, found: seq<Device>)
      requires start < U64 && forall d :: 0 <= d < |found| ==> WellFormed(found[d])
      ensures Valid() && mem32Alloc == start && devices == found
    {
      mem32Alloc, devices := start, found;
    }

    /** uiox_fw_pcie_assign_bars on device d. */
    method AssignBars(d: nat)
      requires Valid() && d < |devices|
      modifies this
      ensures Valid() && |devices| == |old(devices)| && devices == old(devices)[d := devices[d]]
      ensures Settled(old(devices[d]), old(mem32Alloc), 0, devices[d], mem32Alloc)
    {
      hide IsIo, Is64, SizeOf, Base, Assign, Settled;
      ghost var dev0, start := devices[d], mem32Alloc;
      var i := 0;
      while i < 6
        invariant 0 <= i && Valid() && |devices| == |old(devices)| && devices == old(devices)[d := devices[d]]
        invariant Assign(devices[d], mem32Alloc, i) == Assign(dev0, start, 0)
        decreases 6 - i
      {
        var dev := devices[d];
        var r := dev.readback[i];
        OneRegister(dev, mem32Alloc, i);
        if r == 0 {
          i := i + 1;
          continue;
        }
        var size := SizeOf(r);
        dev := dev.(barIsIo := dev.barIsIo[i := IsIo(r)], barIs64 := dev.barIs64[i := Is64(r)],
                    barSize := dev.barSize[i := size]);
        if !IsIo(r) && size > 0 {
          BaseInRange(mem32Alloc, size);
          mem32Alloc := Base(mem32Alloc, size);
          dev := dev.(bar := dev.bar[i := mem32Alloc]);
          mem32Alloc := (mem32Alloc + size) % U64;
        }
        devices := devices[d := dev];
        i := if Is64(r) then i + 2 else i + 1;
      }
      LastRegister(devices[d], mem32Alloc, i);
      AssignSettles(dev0, start, 0);
    }

    /** The device loop of fw_stage_pcie: each device continues where the ones before it left the cursor. */
    method AssignAll()
      requires Valid()
      modifies this
      ensures Valid() && |devices| == |old(devices)|
      ensures mem32Alloc == Cursor(old(mem32Alloc), AllSizes(old(devices)))
      ensures forall d :: 0 <= d < |devices| ==> Assigned(old(mem32Alloc), old(devices), d, devices[d])
      ensures forall size :: Roomy(old(mem32Alloc), AllSizes(old(devices)), size) ==>
                Laid(old(mem32Alloc), size, devices)
    {
      hide Laid, Roomy;
      hide Base, Bases, Cursor, Sizes, WellFormed, Assigned, Settled;
      ghost var ds, start := devices, mem32Alloc;
      assert ds[..0] == [];
      NoDevices(start);
      var i := 0;
      while i < |devices|
        invariant 0 <= i <= |devices| == |ds| && Valid()
        invariant forall d :: i <= d < |ds| ==> devices[d] == ds[d]
        invariant mem32Alloc == Cursor(start, AllSizes(ds[..i]))
        invariant forall d :: 0 <= d < i ==> Assigned(start, ds, d, devices[d])
      {
        AssignBars(i);
        OneMoreDevice(start, ds, i, devices[i], mem32Alloc);
        i := i + 1;
      }
      assert ds[..i] == ds;
      forall size: nat | Roomy(start, AllSizes(ds), size) ensures Laid(start, size, devices) {
        AllLaid(start, size, ds, devices);
      }
    }
  }

  lemma {:induction false} OneRegister(d: Device, cursor: nat, i: nat)
    requires WellFormed(d) && cursor < U64 && i < 6
    ensures var v := Visit(d, cursor, i); Assign(d, cursor, i) == Assign(v.0, v.1, Following(d.readback[i], i))
  {
    hide IsIo, Is64, SizeOf, Base;
  }

  lemma {:induction false} LastRegister(d: Device, cursor: nat, i: nat)
    requires WellFormed(d) && cursor < U64 && i >= 6
    ensures Assign(d, cursor, i) == (d, cursor)
  {
  }

  // ----- all devices -----

  /** Device d was settled from where the devices before it left the cursor. */
  ghost predicate Assigned(start: nat, ds: seq<Device>, d: nat, now: Device)
    requires d < |ds| && forall e :: 0 <= e < |ds| ==> WellFormed(ds[e])
  {
    exists cursor :: Settled(ds[d], Cursor(start, AllSizes(ds[..d])), 0, now, cursor)
  }

  lemma {:induction false} NoDevices(start: nat)
    ensures Cursor(start, AllSizes([])) == start
  {
  }

  lemma {:induction false} OneMoreDevice(start: nat, ds: seq<Device>, i: nat, now: Device, cursor: nat)
    requires i < |ds| && forall e :: 0 <= e < |ds| ==> WellFormed(ds[e])
    requires Settled(ds[i], Cursor(start, AllSizes(ds[..i])), 0, now, cursor)
    ensures Assigned(start, ds, i, now)
    ensures cursor == Cursor(start, AllSizes(ds[..i + 1]))
  {
    hide Base, Bases, Cursor, WellFormed, Wanted, Holds;
    assert ds[..i + 1][..i] == ds[..i];
    CursorConcat(start, AllSizes(ds[..i]), Sizes(ds[i]));
  }

  lemma {:induction false} CursorConcat(cursor: nat, a: seq<nat>, b: seq<nat>)
    requires forall k :: 0 <= k < |a| ==> 0 < a[k] < U32
    requires forall k :: 0 <= k < |b| ==> 0 < b[k] < U32
    ensures Cursor(cursor, a + b) == Cursor(Cursor(cursor, a), b)
    ensures Bases(cursor, a + b) == Bases(cursor, a) + Bases(Cursor(cursor, a), b)
    decreases a
  {
    hide Base;
    if a == [] {
      assert a + b == b;
    } else {
      assert (a + b)[1..] == a[1..] + b;
      CursorConcat((Base(cursor, a[0]) + a[0]) % U64, a[1..], b);
    }
  }

  lemma BaseInRange(cursor: nat, size: nat)
    requires 0 < size < U32
    ensures Base(cursor, size) < U64
  {
    Powers();
  }

  // ----- placement -----

  ghost predicate PowerOfTwo(s: nat) {
    exists k: nat :: k < 32 && Pow2(k) == s
  }

  function Sum(s: seq<nat>): nat {
    if s == [] then 0 else s[0] + Sum(s[1..])
  }

  /** What a device that decodes correctly asks for, and no address that wraps. */
  ghost predicate Decodable(cursor: nat, sizes: seq<nat>) {
    && (forall k :: 0 <= k < |sizes| ==> 0 < sizes[k] < U32 && PowerOfTwo(sizes[k]))
    && cursor + 2 * Sum(sizes) < U64
  }

  /** Such devices, and a window twice as large as their sizes. */
  ghost predicate Roomy(cursor: nat, sizes: seq<nat>, window: nat) {
    Decodable(cursor, sizes) && 2 * Sum(sizes) <= window
  }

  lemma BaseAligned(cursor: nat, size: nat)
    requires PowerOfTwo(size) && 0 < size < U32 && cursor + 2 * size < U64
    ensures Base(cursor, size) % size == 0 && cursor <= Base(cursor, size) < cursor + size
  {
    var k :| k < 32 && Pow2(k) == size;
    Powers();
    AlignUpLeast(64, cursor, k);
  }

  /** Over the whole list: aligned, in increasing order without overlap, and at most twice the sizes are consumed. */
  lemma {:induction false} Placement(cursor: nat, sizes: seq<nat>)
    requires Decodable(cursor, sizes)
    ensures var b := Bases(cursor, sizes);
            && (forall k :: 0 <= k < |b| ==> b[k] % sizes[k] == 0)
            && (forall k :: 0 <= k < |b| ==> cursor <= b[k] && b[k] + sizes[k] <= Cursor(cursor, sizes))
            && (forall j, k :: 0 <= j < k < |b| ==> b[j] + sizes[j] <= b[k])
    ensures cursor <= Cursor(cursor, sizes) <= cursor + 2 * Sum(sizes)
    decreases sizes
  {
    hide Base, PowerOfTwo;
    if sizes != [] {
      var s, rest := sizes[0], sizes[1..];
      BaseAligned(cursor, s);
      var next := Base(cursor, s) + s;
      DivideUnique(next, U64, 0, next);
      Placement(next, rest);
    }
  }

  /** All memory registers of all devices lie in the window when it is twice as large as their sizes. */
  lemma {:induction false} WindowHolds(cursor: nat, size: nat, ds: seq<Device>)
    requires forall d :: 0 <= d < |ds| ==> WellFormed(ds[d])
    requires Roomy(cursor, AllSizes(ds), size)
    ensures var s := AllSizes(ds);
            var b := Bases(cursor, s);
            && (forall k :: 0 <= k < |b| ==> cursor <= b[k] && b[k] + s[k] <= cursor + size)
            && (forall j, k :: 0 <= j < k < |b| ==> b[j] + s[j] <= b[k])
  {
    hide Bases, Cursor, AllSizes, Decodable, Sum;
    Placement(cursor, AllSizes(ds));
  }

  /** Device d's addresses are its stretch of the one list of all addresses. */
  lemma {:induction false} Stretch(cursor: nat, ds: seq<Device>, d: nat)
    requires d < |ds| && forall e :: 0 <= e < |ds| ==> WellFormed(ds[e])
    ensures var before := |AllSizes(ds[..d])|;
            && before + |Sizes(ds[d])| <= |AllSizes(ds)|
            && AllSizes(ds)[before..before + |Sizes(ds[d])|] == Sizes(ds[d])
            && Bases(cursor, AllSizes(ds))[before..before + |Sizes(ds[d])|] ==
               Bases(Cursor(cursor, AllSizes(ds[..d])), Sizes(ds[d]))
    decreases |ds|
  {
    hide Bases, Cursor, Sizes, WellFormed;
    var n := |ds| - 1;
    CursorConcat(cursor, AllSizes(ds[..n]), Sizes(ds[n]));
    if d < n {
      Stretch(cursor, ds[..n], d);
      assert ds[..n][..d] == ds[..d];
    }
  }

  // ----- the final records -----

  /** Register k of device d was given an address. */
  ghost predicate InUse(ds: seq<Device>, d: int, k: int) {
    0 <= d < |ds| && WellFormed(ds[d]) && k in Wanted(ds[d].readback, 0)
  }

  /** An address range of the window, a multiple of its size. */
  ghost predicate WellPlaced(start: nat, size: nat, d: Device, k: nat)
    requires WellFormed(d) && k < 6
  {
    && d.barSize[k] > 0 && d.bar[k] % d.barSize[k] == 0
    && start <= d.bar[k] && d.bar[k] + d.barSize[k] <= start + size
  }

  ghost predicate Clear(d: Device, k: nat, e: Device, l: nat)
    requires WellFormed(d) && WellFormed(e) && k < 6 && l < 6
  {
    d.bar[k] + d.barSize[k] <= e.bar[l] || e.bar[l] + e.barSize[l] <= d.bar[k]
  }

  /** All registers in use lie in the window, aligned, and no two of them overlap. */
  ghost predicate Laid(start: nat, size: nat, ds: seq<Device>) {
    && (forall d, k :: InUse(ds, d, k) ==> WellPlaced(start, size, ds[d], k))
    && (forall d, k, e, l :: InUse(ds, d, k) && InUse(ds, e, l) && !(d == e && k == l) ==> Clear(ds[d], k, ds[e], l))
  }

  /** How many registers of earlier devices are in use. */
  function Before(ds: seq<Device>, d: nat): nat
    requires d <= |ds| && forall e :: 0 <= e < |ds| ==> WellFormed(ds[e])
  {
    |AllSizes(ds[..d])|
  }

  lemma {:induction false} SettledAt(d0: Device, start: nat, d: Device, cursor: nat, p: nat)
    requires WellFormed(d0) && Settled(d0, start, 0, d, cursor) && p < |Sizes(d0)|
    ensures p < |Wanted(d.readback, 0)| && Wanted(d.readback, 0)[p] < 6
    ensures var k := Wanted(d.readback, 0)[p]; d.bar[k] == Bases(start, Sizes(d0))[p] && d.barSize[k] == Sizes(d0)[p]
  {
    hide Bases, Cursor, Wanted, Visits, SizesFrom, SizeOf, IsIo, Is64;
    var k := Wanted(d.readback, 0)[p];
    WantedAt(d.readback, 0, p);
    assert Recorded(d0, d, k, k in Visits(d0.readback, 0));
  }

  /** The p-th register in use of device d, in the one list of all registers in use. */
  lemma PlaceOf(start: nat, ds: seq<Device>, d: nat, now: Device, p: nat) returns (r: nat)
    requires d < |ds| && (forall e :: 0 <= e < |ds| ==> WellFormed(ds[e])) && Assigned(start, ds, d, now)
    requires WellFormed(now) && p < |Wanted(now.readback, 0)|
    ensures r == Before(ds, d) + p < Before(ds, d + 1) && r < |AllSizes(ds)|
    ensures now.bar[Wanted(now.readback, 0)[p]] == Bases(start, AllSizes(ds))[r]
    ensures now.barSize[Wanted(now.readback, 0)[p]] == AllSizes(ds)[r]
  {
    hide Bases, Cursor, AllSizes, Wanted, Sizes, SizesFrom, Placeable;
    var at := Cursor(start, AllSizes(ds[..d]));
    var cursor :| Settled(ds[d], at, 0, now, cursor);
    assert |Sizes(ds[d])| == |Wanted(now.readback, 0)| by { SettledCount(ds[d], at, now, cursor); }
    hide Settled;
    SettledAt(ds[d], at, now, cursor, p);
    Stretch(start, ds, d);
    OneLonger(ds, d);
    r := Before(ds, d) + p;
    var n := Before(ds, d) + |Sizes(ds[d])|;
    assert AllSizes(ds)[Before(ds, d)..n][p] == AllSizes(ds)[r];
    assert Bases(start, AllSizes(ds))[Before(ds, d)..n][p] == Bases(start, AllSizes(ds))[r];
  }

  lemma SettledCount(d0: Device, start: nat, d: Device, cursor: nat)
    requires WellFormed(d0) && Settled(d0, start, 0, d, cursor)
    ensures |Sizes(d0)| == |Wanted(d.readback, 0)|
  {
    hide Bases, Cursor, Wanted, Visits, SizesFrom, Recorded, Holds;
  }

  lemma OneLonger(ds: seq<Device>, d: nat)
    requires d < |ds| && forall e :: 0 <= e < |ds| ==> WellFormed(ds[e])
    ensures AllSizes(ds[..d + 1]) == AllSizes(ds[..d]) + Sizes(ds[d])
  {
    hide WellFormed, Sizes;
    assert ds[..d + 1][..d] == ds[..d];
  }

  lemma {:induction false} LaterPlaces(ds: seq<Device>, d: nat, e: nat)
    requires d <= e <= |ds| && forall e :: 0 <= e < |ds| ==> WellFormed(ds[e])
    ensures Before(ds, d) <= Before(ds, e)
    decreases e
  {
    hide WellFormed, Sizes, AllSizes;
    if d < e {
      LaterPlaces(ds, d, e - 1);
      OneLonger(ds, e - 1);
    }
  }

  /** The same for register k. */
  lemma PlaceOfRegister(start: nat, ds: seq<Device>, now: seq<Device>, d: int, k: int)
    returns (r: nat, p: nat)
    requires (forall e :: 0 <= e < |ds| ==> WellFormed(ds[e])) && |now| == |ds| && InUse(now, d, k)
    requires Assigned(start, ds, d, now[d])
    ensures r == Before(ds, d) + p < Before(ds, d + 1) && r < |AllSizes(ds)|
    ensures now[d].bar[k] == Bases(start, AllSizes(ds))[r] && now[d].barSize[k] == AllSizes(ds)[r]
    ensures p < |Wanted(now[d].readback, 0)| && Wanted(now[d].readback, 0)[p] == k
  {
    UsedMeans(now, d, k);
    hide *;
    p := IndexOf(Wanted(now[d].readback, 0), k);
    r := PlaceOf(start, ds, d, now[d], p);
  }

  lemma UsedMeans(ds: seq<Device>, d: int, k: int)
    requires InUse(ds, d, k)
    ensures 0 <= d < |ds| && 0 <= k < 6 && WellFormed(ds[d]) && |ds[d].bar| == |ds[d].barSize| == 6
    ensures Readable(ds[d].readback) && k in Wanted(ds[d].readback, 0)
  {
    hide Wanted;
  }

  lemma IndexOf(w: seq<nat>, k: int) returns (p: nat)
    requires k in w
    ensures p < |w| && w[p] == k
  {
    p :| p < |w| && w[p] == k;
  }

  /** After the device loop, when the window is twice as large as all sizes together. */
  lemma {:induction false} AllLaid(start: nat, size: nat, ds: seq<Device>, now: seq<Device>)
    requires (forall e :: 0 <= e < |ds| ==> WellFormed(ds[e])) && |now| == |ds|
    requires forall d :: 0 <= d < |ds| ==> Assigned(start, ds, d, now[d])
    requires Roomy(start, AllSizes(ds), size)
    ensures Laid(start, size, now)
  {
    hide Bases, Cursor, AllSizes, Assigned, WellPlaced, Clear, Decodable, Sum, Wanted, Visits, Before;
    forall d, k | InUse(now, d, k) ensures WellPlaced(start, size, now[d], k) {
      OneLaid(start, size, ds, now, d, k);
    }
    forall d, k, e, l | InUse(now, d, k) && InUse(now, e, l) && !(d == e && k == l)
      ensures Clear(now[d], k, now[e], l)
    {
      TwoClear(start, ds, now, d, k, e, l);
    }
  }

  lemma {:induction false} OneLaid(start: nat, size: nat, ds: seq<Device>, now: seq<Device>, d: int, k: int)
    requires (forall e :: 0 <= e < |ds| ==> WellFormed(ds[e])) && |now| == |ds| && InUse(now, d, k)
    requires Assigned(start, ds, d, now[d])
    requires Roomy(start, AllSizes(ds), size)
    ensures WellPlaced(start, size, now[d], k)
  {
    hide Bases, Cursor, AllSizes, Assigned, Decodable, Sum, Wanted, Visits, Before;
    Placement(start, AllSizes(ds));
    var r, p := PlaceOfRegister(start, ds, now, d, k);
  }

  lemma {:induction false} TwoClear(start: nat, ds: seq<Device>, now: seq<Device>, d: int, k: int, e: int, l: int)
    requires (forall e :: 0 <= e < |ds| ==> WellFormed(ds[e])) && |now| == |ds|
    requires InUse(now, d, k) && InUse(now, e, l) && !(d == e && k == l)
    requires Assigned(start, ds, d, now[d]) && Assigned(start, ds, e, now[e]) && Decodable(start, AllSizes(ds))
    ensures Clear(now[d], k, now[e], l)
  {
    hide Bases, Cursor, AllSizes, Assigned, Decodable, Sum, Wanted, Visits, Before;
    Placement(start, AllSizes(ds));
    var r, p := PlaceOfRegister(start, ds, now, d, k);
    var q, o := PlaceOfRegister(start, ds, now, e, l);
    if d < e { LaterPlaces(ds, d + 1, e); } else if e < d { LaterPlaces(ds, e + 1, d); }
    assert r != q;
  }

  /** Below 4 GiB the 32-bit write of an address to its register cuts nothing off. */
  lemma {:induction false} NothingCut(start: nat, size: nat, ds: seq<Device>)
    requires Laid(start, size, ds) && start + size <= U32
    ensures forall d, k :: InUse(ds, d, k) ==> ds[d].bar[k] % U32 == ds[d].bar[k]
  {
    hide Wanted, Clear;
    forall d, k | InUse(ds, d, k) ensures ds[d].bar[k] % U32 == ds[d].bar[k] {
      UsedMeans(ds, d, k);
      assert WellPlaced(start, size, ds[d], k);
      DivideUnique(ds[d].bar[k], U32, 0, ds[d].bar[k]);
    }
  }

  /** A register whose read-back keeps exactly its upper bits asks for a power of two. */
  lemma {:induction false} SizeOfMask(r: nat, k: nat)
    requires k < 32 && r < U32 && Mask(r) == U32 - Pow2(k)
    ensures SizeOf(r) == Pow2(k) && PowerOfTwo(SizeOf(r))
  {
    Powers();
    PowMonotone(k, 31);
    assert Pow2(32) == 2 * Pow2(31);
    DivideUnique(Pow2(k), U32, 0, Pow2(k));
  }

  // ----- the bits of a register -----

  /** Bit 0 is the kind, bits 1 and 2 the width, and the rest of the address bits give the size. */
  lemma RegisterBits(r: nat)
    requires r < U32
    ensures IsIo(r) <==> r % 2 == 1
    ensures Is64(r) <==> r / 2 % 4 == 2
    ensures Mask(r) == if r % 2 == 1 then r / 4 * 4 else r / 16 * 16
    ensures SizeOf(r) == if Mask(r) == 0 then 0 else U32 - Mask(r)
  {
    AndOne(r);
    AddressBits(r);
    WidthBits(r);
    NegatedMask(Mask(r));
    hide And, Is64;
  }

  lemma WidthBits(r: nat)
    ensures Is64(r) <==> r / 2 % 4 == 2
  {
    AndEven(r, 3);
    AndThree(r / 2);
    hide And;
  }

  lemma NegatedMask(m: nat)
    requires m < U32
    ensures (U32 - m) % U32 == if m == 0 then 0 else U32 - m
  {
  }

  lemma {:induction false} AddressBits(r: nat)
    requires r < U32
    ensures And(r, 0xFFFF_FFFC) == r / 4 * 4 && And(r, 0xFFFF_FFF0) == r / 16 * 16
  {
    Powers();
    PowSum(2, 2);
    MaskDown(32, r, 2);
    MaskDown(32, r, 4);
    hide And;
  }

  /** A register is in use exactly if it was visited, reads 0 in bit 0 and has a size. */
  lemma {:induction false} InUseExactly(rb: seq<nat>, i: nat, k: nat)
    requires Readable(rb) && k < 6
    ensures k in Wanted(rb, i) <==> k in Visits(rb, i) && rb[k] % 2 == 0 && rb[k] / 16 != 0
    decreases 6 - i
  {
    if i < 6 {
      FirstRegister(rb, i);
      PlaceableBits(rb[i]);
      InUseExactly(rb, Following(rb[i], i), k);
      hide Wanted, Visits, Following, Placeable, SizesFrom;
    }
  }

  lemma PlaceableBits(r: nat)
    requires r < U32
    ensures Placeable(r) <==> r % 2 == 0 && r / 16 != 0
  {
    RegisterBits(r);
    hide IsIo, Mask, SizeOf;
  }

  /** The first register is visited, and so is every one but the upper half of a visited 64-bit pair. */
  lemma {:induction false} VisitedExactly(rb: seq<nat>, k: nat)
    requires Readable(rb) && k < 5
    ensures 0 in Visits(rb, 0)
    ensures k + 1 in Visits(rb, 0) <==> !(k in Visits(rb, 0) && rb[k] / 2 % 4 == 2)
  {
    hide Visits;
    FirstRegister(rb, 0);
    VisitedFrom(rb, 0, k);
  }

  lemma {:induction false} VisitedFrom(rb: seq<nat>, i: nat, k: nat)
    requires Readable(rb) && i <= k < 5
    ensures k + 1 in Visits(rb, i) <==> !(k in Visits(rb, i) && rb[k] / 2 % 4 == 2)
    decreases 6 - i
  {
    hide *;
    FirstVisit(rb, i);
    var j := Following(rb[i], i);
    if j <= k {
      VisitedFrom(rb, j, k);
    } else if j < 6 {
      FirstVisit(rb, j);
    }
  }

  /** Register i is visited first, then those from the next one on. */
  lemma {:induction false} FirstVisit(rb: seq<nat>, i: nat)
    requires Readable(rb) && i < 6
    ensures |rb| == 6
    ensures Following(rb[i], i) == if rb[i] / 2 % 4 == 2 then i + 2 else i + 1
    ensures forall k :: k in Visits(rb, i) <==> k == i || k in Visits(rb, Following(rb[i], i))
    ensures forall k :: k in Visits(rb, Following(rb[i], i)) ==> k >= Following(rb[i], i)
  {
    FirstRegister(rb, i);
    FollowingBits(rb[i], i);
    hide Visits, Following;
  }

  lemma FollowingBits(r: nat, i: nat)
    requires r < U32
    ensures Following(r, i) == if r / 2 % 4 == 2 then i + 2 else i + 1
  {
    RegisterBits(r);
    hide Is64;
  }
}
