/**
 The extent map of an inode: which physical block holds a logical block.
 */
module UnfsExtents {
  import opened Bits
  import opened UnfsFormat

  /** Whether an extent covers a logical block; the end of the extent wraps at 32 bits. */
  predicate Covers(e: Extent, l: nat) {
    e.logical <= l < (e.logical + e.len) % U32
  }

  /** The block an extent maps l to; 0 means a hole. */
  function MappedTo(e: Extent, l: nat): (r: nat)
    requires e.logical <= l
    ensures r < U32
  {
    if And(e.flags, EXT_HOLE) != 0 then 0 else (e.physical + (l - e.logical)) % U32
  }

  /** The first covering extent decides; no extent means a hole. */
  function MapBlock(es: seq<Extent>, l: nat): (r: nat)
    ensures r < U32
  {
    if es == [] then 0
    else if Covers(es[0], l) then MappedTo(es[0], l)
    else MapBlock(es[1..], l)
  }

  /** The used inline slots, from slot i on. */
  function InlineExtents(inode: Inode, i: nat): seq<Extent>
    requires i <= 4
    decreases 4 - i
  {
    if i == 4 then []
    else
      var e := ExtentAt(inode, 68 + 12 * i);
      (if e.len == 0 then [] else [e]) + InlineExtents(inode, i + 1)
  }

  /** The overflow entries from entry i on, up to the first of length zero. */
  function TreeExtents(b: Block, i: nat): seq<Extent>
    requires i <= 341
    decreases 341 - i
  {
    if i == 341 || ExtentAt(b, 12 * i).len == 0 then []
    else [ExtentAt(b, 12 * i)] + TreeExtents(b, i + 1)
  }

  /** The overflow extents of an inode; an unreadable overflow block counts as none. */
  function Overflow(dev: Device, inode: Inode): seq<Extent> {
    if ExtentTree(inode) == 0 || ExtentTree(inode) !in dev then []
    else TreeExtents(dev[ExtentTree(inode)], 0)
  }

  /** All usable extents of an inode, in search order. */
  function Usable(dev: Device, inode: Inode): seq<Extent> {
    InlineExtents(inode, 0) + Overflow(dev, inode)
  }

  /** The physical block of a logical block, 0 for a hole or an unmapped block. */
  function Physical(dev: Device, inode: Inode, l: nat): (r: nat)
    ensures r < U32
  {
    MapBlock(Usable(dev, inode), l)
  }

  lemma {:induction false} MapBlockConcat(es: seq<Extent>, fs: seq<Extent>, l: nat)
    ensures MapBlock(es + fs, l) ==
            if exists e :: e in es && Covers(e, l) then MapBlock(es, l) else MapBlock(fs, l)
  {
    hide Covers, MappedTo;
    if es == [] {
      assert es + fs == fs;
    } else {
      assert (es + fs)[1..] == es[1..] + fs;
      MapBlockConcat(es[1..], fs, l);
      assert es == [es[0]] + es[1..];
    }
  }

  // ----- the search order does not matter -----

  ghost predicate Disjoint(es: seq<Extent>) {
    forall i, j, l :: 0 <= i < j < |es| && Covers(es[i], l) ==> !Covers(es[j], l)
  }

  /** With disjoint extents the answer is that of the one covering extent. */
  lemma {:induction false} UniqueCover(es: seq<Extent>, e: Extent, l: nat)
    requires Disjoint(es) && e in es && Covers(e, l)
    ensures MapBlock(es, l) == MappedTo(e, l)
  {
    hide Covers, MappedTo;
    if es[0] != e {
      var j :| 0 <= j < |es| && es[j] == e;
      assert !Covers(es[0], l);
      assert e == es[1..][j - 1];
      forall i, k, m | 0 <= i < k < |es[1..]| && Covers(es[1..][i], m) ensures !Covers(es[1..][k], m) {
        assert es[1..][i] == es[i + 1] && es[1..][k] == es[k + 1];
      }
      UniqueCover(es[1..], e, l);
    }
  }

  lemma {:induction false} NoCover(es: seq<Extent>, l: nat)
    requires forall e :: e in es ==> !Covers(e, l)
    ensures MapBlock(es, l) == 0
  {
    hide Covers;
    if es != [] {
      assert es[0] in es;
      NoCover(es[1..], l);
    }
  }

  /** Whatever the table, the answer is that of some covering extent, if there is one. */
  lemma {:induction false} SomeCover(es: seq<Extent>, l: nat) returns (e: Extent)
    requires exists f :: f in es && Covers(f, l)
    ensures e in es && Covers(e, l) && MapBlock(es, l) == MappedTo(e, l)
  {
    hide Covers, MappedTo;
    if Covers(es[0], l) {
      e := es[0];
    } else {
      assert es == [es[0]] + es[1..];
      e := SomeCover(es[1..], l);
    }
  }

  /** Two tables of the same extents, disjoint in one of them, map every block alike in any order. */
  lemma {:induction false} OrderIndependent(es: seq<Extent>, fs: seq<Extent>, l: nat)
    requires Disjoint(es) && multiset(es) == multiset(fs)
    ensures MapBlock(es, l) == MapBlock(fs, l)
  {
    hide Covers, MappedTo, MapBlock, Disjoint;
    assert forall e :: e in es <==> e in multiset(es);
    assert forall e :: e in fs <==> e in multiset(fs);
    if exists e :: e in es && Covers(e, l) {
      var e := SomeCover(fs, l);
      assert e in multiset(es);
      UniqueCover(es, e, l);
    } else {
      NoCover(es, l);
      NoCover(fs, l);
    }
  }

  /** Permuting the inline slots of an inode changes no file block. */
  lemma {:induction false} InlineOrderIndependent(dev: Device, a: Inode, b: Inode, l: nat)
    requires ExtentTree(a) == ExtentTree(b)
    ensures Disjoint(Usable(dev, a)) && multiset(InlineExtents(a, 0)) == multiset(InlineExtents(b, 0)) ==>
              Physical(dev, a, l) == Physical(dev, b, l)
  {
    hide MapBlock, InlineExtents, ExtentTree, Disjoint;
    if Disjoint(Usable(dev, a)) && multiset(InlineExtents(a, 0)) == multiset(InlineExtents(b, 0)) {
      OrderIndependent(Usable(dev, a), Usable(dev, b), l);
    }
  }

  // ----- no two file blocks share a physical block -----

  predicate Mapped(e: Extent) {
    And(e.flags, EXT_HOLE) == 0
  }

  predicate Occupies(e: Extent, p: nat) {
    Mapped(e) && e.physical <= p < e.physical + e.len
  }

  /** No physical block belongs to two data extents, and none wraps. */
  ghost predicate PhysicallyDisjoint(es: seq<Extent>) {
    && (forall e :: e in es ==> e.physical + e.len <= U32 && e.logical + e.len < U32)
    && (forall e, f, p :: e in es && f in es && Occupies(e, p) && Occupies(f, p) ==> e == f)
  }

  lemma MappedPlace(e: Extent, l: nat)
    requires e.physical + e.len <= U32 && e.logical + e.len < U32
    requires Covers(e, l) && MappedTo(e, l) != 0
    ensures Occupies(e, MappedTo(e, l)) && MappedTo(e, l) == e.physical + (l - e.logical)
  {
    hide And;
  }

  /** The extent map is injective on the blocks that hold data. */
  lemma {:induction false} MapInjective(es: seq<Extent>, l: nat, m: nat)
    requires PhysicallyDisjoint(es)
    requires MapBlock(es, l) == MapBlock(es, m) != 0
    ensures l == m
  {
    hide Covers, MappedTo, Occupies, MapBlock;
    if !exists e :: e in es && Covers(e, l) { NoCover(es, l); assert false; }
    if !exists e :: e in es && Covers(e, m) { NoCover(es, m); assert false; }
    var e := SomeCover(es, l);
    var f := SomeCover(es, m);
    MappedPlace(e, l);
    MappedPlace(f, m);
  }
}
