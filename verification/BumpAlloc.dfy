/**
 The boot-time bump allocator: an arena chosen from the memory map, and
 allocations that only move the top. Addresses are 64-bit words.
 */
module BumpAlloc {
  import opened Bits
  import opened Options
  import opened Bytes
  import opened Memory
  import opened MemoryMap

  const ARENA_MIN: nat := 256 * 1024

  /** A block handed out. */
  datatype Grant = Grant(at: nat, size: nat, align: nat)

  predicate InsideArena(g: Grant, base: nat, limit: nat) {
    base <= g.at && g.at + g.size <= limit && g.align > 0 && g.at % g.align == 0
  }

  /** Blocks in the order they were handed out: aligned, inside the arena and one above the other. */
  ghost predicate Stacked(gs: seq<Grant>, base: nat, top: nat, limit: nat) {
    && (forall i :: 0 <= i < |gs| ==> InsideArena(gs[i], base, limit) && gs[i].at + gs[i].size <= top)
    && (forall i, j :: 0 <= i < j < |gs| ==> gs[i].at + gs[i].size <= gs[j].at)
  }

  class Allocator {
    var base: nat
    var top: nat
    var limit: nat
    /** Every block handed out so far. */
    ghost var grants: seq<Grant>

    ghost predicate Valid()
      reads this
    {
      base <= top && limit < U64 && Stacked(grants, base, top, limit)
    }

    /** An arena between two addresses. */
    constructor (start: nat, end: nat)
      requires end < U64
      ensures Valid() && base == top == start && limit == end && grants == []
    {
      base, top, limit, grants := start, start, end, [];
    }

    /** uiox_boot_mem_alloc, for alignments that are powers of two and where no wrapped end passes for a fit. */
    method Alloc(mem: array<byte>, size: nat, align: nat, ghost k: nat) returns (r: Option<nat>)
      requires Valid() && align == Pow2(k) && k < 64
      requires top + align - 1 < U64 && limit <= mem.Length
      requires forall p :: RoundedUp(p, top, align) ==> !WrapsToFit(p, size, limit)
      modifies this, mem
      ensures Valid() && base == old(base) && limit == old(limit)
      ensures r.Some? <==> exists p :: Suitable(p, old(top), size, align, limit)
      ensures r.Some? ==>
                && Suitable(r.value, old(top), size, align, limit)
                && (forall p :: Suitable(p, old(top), size, align, limit) ==> r.value <= p)
                && top == r.value + size && grants == old(grants) + [Grant(r.value, size, align)]
                && mem[..] == Overlay(old(mem[..]), r.value, Zeros(size))
      ensures r.None? ==> top == old(top) && grants == old(grants) && mem[..] == old(mem[..])
    {
      hide AlignUp, Stacked, Suitable, Pow2;
      Powers();
      PowMonotone(k, 64);
      AlignUpLeast(64, top, k);
      var ptr := AlignUp(64, top, align);
      assert RoundedUp(ptr, top, align);
      LeastSuitable(top, ptr, size, align, limit);
      if (ptr + size) % U64 > limit { return None; }
      MoreStacked(grants, base, top, limit, Grant(ptr, size, align));
      top := ptr + size;
      grants := grants + [Grant(ptr, size, align)];
      ZeroBytes(mem, ptr, size);
      return Some(ptr);
    }
  }

  /** The multiple of the alignment that the top is rounded up to. */
  predicate RoundedUp(p: int, top: nat, align: nat) {
    align > 0 && p % align == 0 && top <= p < top + align
  }

  /** The end of a block passes 2^64 and the code's test takes what is left of it for a fit. */
  predicate WrapsToFit(ptr: int, size: nat, limit: nat) {
    ptr + size >= U64 && (ptr + size) % U64 <= limit
  }

  /** The test lets a block pass exactly if it fits, or its end wraps to at most the limit and it does not fit. */
  lemma TestPassesIff(ptr: nat, size: nat, limit: nat)
    requires ptr < U64 && size < U64 && limit < U64
    ensures (ptr + size) % U64 <= limit <==> ptr + size <= limit || WrapsToFit(ptr, size, limit)
    ensures WrapsToFit(ptr, size, limit) ==> ptr + size > limit
  {
  }

  /** Such a block: it starts in an arena that ends at 0x2000 and would reach past the last address. */
  lemma WrappedEndPasses()
    ensures WrapsToFit(0x1000, 0xFFFF_FFFF_FFFF_F800, 0x2000)
  {
  }

  lemma MoreStacked(gs: seq<Grant>, base: nat, top: nat, limit: nat, g: Grant)
    requires Stacked(gs, base, top, limit) && base <= top <= g.at && g.at + g.size <= limit
    requires g.align > 0 && g.at % g.align == 0
    ensures Stacked(gs + [g], base, g.at + g.size, limit)
  {
  }

  /** An aligned address at or above the top where the block fits. */
  predicate Suitable(p: int, top: nat, size: nat, align: nat, limit: nat) {
    align > 0 && top <= p && p % align == 0 && p + size <= limit
  }

  lemma LeastSuitable(top: nat, ptr: nat, size: nat, align: nat, limit: nat)
    requires align > 0 && ptr % align == 0 && top <= ptr < top + align
    ensures ptr + size <= limit <==> exists p :: Suitable(p, top, size, align, limit)
    ensures ptr + size <= limit ==> Suitable(ptr, top, size, align, limit)
    ensures forall p :: Suitable(p, top, size, align, limit) ==> ptr <= p
  {
    forall p | Suitable(p, top, size, align, limit) ensures ptr <= p {
      if p < ptr { MultipleLess(p, ptr, align); }
    }
    if ptr + size <= limit { assert Suitable(ptr, top, size, align, limit); }
  }

  // ----- choosing the arena -----

  /** The first usable region that is large enough. */
  predicate LargeEnough(r: Region, reservedSize: nat) {
    r.kind == USABLE && r.size >= (reservedSize + ARENA_MIN) % U64
  }

  /** The end of a region as a machine word. */
  function End(r: Region): (e: nat)
    ensures e < U64
  {
    (r.base + r.size) % U64
  }

  predicate Contains(r: Region, a: nat) {
    r.base <= a < End(r)
  }

  /** Where the arena of a region starts: behind the reserved range if that starts inside the region. */
  function ArenaBase(r: Region, reservedStart: nat, reservedSize: nat): nat {
    if Contains(r, reservedStart)
    then And((reservedStart + reservedSize + 4095) % U64, 0xFFFF_F000)
    else r.base
  }

  ghost predicate ArenaOf(a: Allocator, r: Region, reservedStart: nat, reservedSize: nat)
    reads a
  {
    a.base == ArenaBase(r, reservedStart, reservedSize) && a.limit == End(r)
  }

  /** uiox_boot_mem_alloc_init. */
  method AllocInit(regions: seq<Region>, reservedStart: nat, reservedSize: nat) returns (a: Option<Allocator>)
    ensures a.Some? <==> exists i :: 0 <= i < |regions| && LargeEnough(regions[i], reservedSize)
    ensures a.Some? ==> fresh(a.value) && a.value.Valid() && a.value.grants == [] && a.value.top == a.value.base
    ensures a.Some? ==>
              exists i :: Chosen(regions, reservedSize, i) && ArenaOf(a.value, regions[i], reservedStart, reservedSize)
  {
    hide And;
    var i := 0;
    while i < |regions|
      invariant 0 <= i <= |regions|
      invariant forall j :: 0 <= j < i ==> !LargeEnough(regions[j], reservedSize)
    {
      var r := regions[i];
      if r.kind == USABLE && r.size >= (reservedSize + ARENA_MIN) % U64 {
        var base := r.base;
        if reservedStart >= base && reservedStart < (base + r.size) % U64 {
          base := And((reservedStart + reservedSize + 4095) % U64, 0xFFFF_F000);
        }
        assert Chosen(regions, reservedSize, i);
        var alloc := new Allocator(base, (r.base + r.size) % U64);
        return Some(alloc);
      }
      i := i + 1;
    }
    return None;
  }

  ghost predicate Chosen(regions: seq<Region>, reservedSize: nat, i: int) {
    && 0 <= i < |regions| && LargeEnough(regions[i], reservedSize)
    && forall j :: 0 <= j < i ==> !LargeEnough(regions[j], reservedSize)
  }

  predicate Between(low: int, a: int, high: int) {
    low <= a < high
  }

  /** No address is both in the arena and in the reserved range. */
  ghost predicate Apart(base: nat, limit: nat, reservedStart: nat, reservedSize: nat) {
    forall a :: Between(base, a, limit) ==> !Between(reservedStart, a, reservedStart + reservedSize)
  }

  lemma {:induction false} PageMask(v: nat)
    requires v < U32
    ensures And(v, 0xFFFF_F000) == v / 4096 * 4096
  {
    Powers();
    MaskDown(32, v, 12);
  }

  /** Below 4 GiB the arena avoids the reserved range unless that starts below the region and reaches into it. */
  lemma ReservedAvoidedIff(r: Region, reservedStart: nat, reservedSize: nat)
    requires r.size > 0 && r.base + r.size < U32 && reservedStart + reservedSize + 4095 < U32
    ensures Apart(ArenaBase(r, reservedStart, reservedSize), r.base + r.size, reservedStart, reservedSize) <==>
            reservedStart >= r.base || reservedStart + reservedSize <= r.base
  {
    hide And;
    PageMask(reservedStart + reservedSize + 4095);
    if reservedStart < r.base < reservedStart + reservedSize {
      assert Between(r.base, r.base, r.base + r.size);
    }
  }

  /** Blocks inside an arena apart from the reserved range do not meet it. */
  lemma GrantsAvoidReserved(
      gs: seq<Grant>, base: nat, top: nat, limit: nat, reservedStart: nat, reservedSize: nat, i: nat, a: nat)
    requires Stacked(gs, base, top, limit) && Apart(base, limit, reservedStart, reservedSize)
    requires i < |gs| && Between(gs[i].at, a, gs[i].at + gs[i].size)
    ensures !Between(reservedStart, a, reservedStart + reservedSize)
    ensures forall j :: 0 <= j < |gs| && j != i ==> !Between(gs[j].at, a, gs[j].at + gs[j].size)
  {
    assert InsideArena(gs[i], base, limit) && Between(base, a, limit);
  }

  /** A range that starts below the region and reaches into it is met by the arena. */
  lemma ReservedMissed()
    ensures var r := Region(0x1000, 0x10_0000, USABLE);
            !Apart(ArenaBase(r, 0x800, 0x1000), End(r), 0x800, 0x1000)
  {
    ReservedAvoidedIff(Region(0x1000, 0x10_0000, USABLE), 0x800, 0x1000);
  }

  // ----- the arena in plain arithmetic -----

  /** A region is taken if it is usable and has 256 KiB more than the reserved size. */
  lemma LargeEnoughExactly(r: Region, reservedSize: nat)
    requires reservedSize + 262144 < U64
    ensures LargeEnough(r, reservedSize) <==> r.kind == 0 && r.size >= reservedSize + 262144
  {
  }

  /** The arena starts at the first page behind a reserved range that starts in the region, else at its base. */
  lemma ArenaBaseExactly(r: Region, reservedStart: nat, reservedSize: nat)
    requires r.base + r.size < U32 && reservedStart + reservedSize + 4095 < U32
    ensures var b := ArenaBase(r, reservedStart, reservedSize);
            if r.base <= reservedStart < r.base + r.size
            then b % 4096 == 0 && reservedStart + reservedSize <= b < reservedStart + reservedSize + 4096
            else b == r.base
  {
    hide And;
    var x := reservedStart + reservedSize + 4095;
    PageMask(x);
    DivideUnique(x, U64, 0, x);
    RoundDown(x, 4096);
  }
}
