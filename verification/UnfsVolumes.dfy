/**
 Whole directories and volumes: which record a search finds when the data
 blocks hold record lists, and when a successful read of a partly readable
 volume delivers what the volume holds.
 */
module UnfsVolumes {
  import opened Bits
  import opened Bytes
  import opened UnfsFormat
  import opened UnfsExtents
  import opened UnfsDir
  import opened UnfsClient
  import opened UnfsTheorems

  // ----- directories of record lists -----

  /** Where record i of a list starts, after a number of bytes. */
  function Offset(ds: seq<Dirent>, off: nat, i: nat): nat
    requires i <= |ds|
  {
    if i == 0 then off else Offset(ds[1..], off + RecLen(ds[0]), i - 1)
  }

  predicate Live(d: Dirent, name: seq<byte>) {
    d.ino != 0 && d.name == name
  }

  /** Record i is the first live one of that name, and the scan reaches it. */
  ghost predicate FirstOfName(ds: seq<Dirent>, name: seq<byte>, off: nat, i: int) {
    && 0 <= i < |ds| && Live(ds[i], name) && Offset(ds, off, i) + 264 <= 4096
    && forall j :: 0 <= j < i ==> !Live(ds[j], name)
  }

  ghost predicate AllStorable(ds: seq<Dirent>) {
    forall i :: 0 <= i < |ds| ==> Storable(ds[i])
  }

  lemma {:induction false} FirstLiveMeans(ds: seq<Dirent>, name: seq<byte>, off: nat)
    requires AllStorable(ds)
    ensures forall i :: FirstOfName(ds, name, off, i) ==> FirstLive(ds, name, off) == AsInt32(ds[i].ino)
    ensures (forall i :: !FirstOfName(ds, name, off, i)) ==> FirstLive(ds, name, off) == 0
    decreases ds
  {
    hide AsInt32, Live;
    if ds != [] && off <= LAST_RECORD {
      assert Storable(ds[0]);
      if Live(ds[0], name) {
        assert FirstOfName(ds, name, off, 0) by { assert Offset(ds, off, 0) == off; }
        LiveFirst(ds, name, off);
      } else {
        var rest, next := ds[1..], off + RecLen(ds[0]);
        FirstLiveMeans(rest, name, next);
        forall i: int ensures FirstOfName(ds, name, off, i) <==> FirstOfName(rest, name, next, i - 1) {
          FirstShift(ds, name, off, i);
        }
        forall i: int ensures FirstOfName(rest, name, next, i) <==> FirstOfName(ds, name, off, i + 1) {
          FirstShift(ds, name, off, i + 1);
        }
        NotLive(ds, name, off);
      }
    } else {
      forall i | FirstOfName(ds, name, off, i) ensures false { OffsetGrows(ds, off, i); }
    }
  }

  lemma {:induction false} LiveFirst(ds: seq<Dirent>, name: seq<byte>, off: nat)
    requires AllStorable(ds) && ds != [] && off <= LAST_RECORD && Live(ds[0], name)
    ensures FirstLive(ds, name, off) == AsInt32(ds[0].ino)
  {
  }

  lemma NotLive(ds: seq<Dirent>, name: seq<byte>, off: nat)
    requires AllStorable(ds) && ds != [] && off <= LAST_RECORD && !Live(ds[0], name)
    ensures FirstLive(ds, name, off) == FirstLive(ds[1..], name, off + RecLen(ds[0]))
  {
  }

  lemma FirstShift(ds: seq<Dirent>, name: seq<byte>, off: nat, i: int)
    requires ds != [] && !Live(ds[0], name)
    ensures FirstOfName(ds, name, off, i) <==> FirstOfName(ds[1..], name, off + RecLen(ds[0]), i - 1)
  {
    hide Live;
    if 0 < i < |ds| {
      if forall j :: 0 <= j < i - 1 ==> !Live(ds[1..][j], name) {
        forall j | 0 <= j < i ensures !Live(ds[j], name) {
          if j > 0 { assert ds[1..][j - 1] == ds[j]; }
        }
      }
    }
  }

  lemma {:induction false} OffsetGrows(ds: seq<Dirent>, off: nat, i: nat)
    requires i <= |ds|
    ensures Offset(ds, off, i) >= off
    decreases i
  {
    if i > 0 { OffsetGrows(ds[1..], off + RecLen(ds[0]), i - 1); }
  }

  /** Every data block of a directory is readable and holds a list of records. */
  ghost predicate LaidOut(dev: Device, inode: Inode, records: nat -> seq<Dirent>) {
    forall b :: 0 <= b < DirBlocks(inode) && Physical(dev, inode, b) != 0 ==>
      Physical(dev, inode, b) in dev && Holds(dev[Physical(dev, inode, b)], records(b))
  }

  ghost predicate Holds(blk: Block, ds: seq<Dirent>) {
    AllStorable(ds) && exists rest :: blk == Layout(ds) + rest && Ends(rest)
  }

  /** Block b gives number k for a name: its first live record of that name has it, and a C int can hold it. */
  ghost predicate Gives(dev: Device, inode: Inode, records: nat -> seq<Dirent>, name: seq<byte>, b: nat, k: int) {
    && Physical(dev, inode, b) != 0 && k < INT_LIMIT
    && exists i :: FirstOfName(records(b), name, 0, i) && records(b)[i].ino == k
  }

  /** Block b gives nothing: a hole, no live record of that name, or one whose number is 2^31 or more. */
  ghost predicate GivesNone(dev: Device, inode: Inode, records: nat -> seq<Dirent>, name: seq<byte>, b: nat) {
    Physical(dev, inode, b) == 0 || forall i :: FirstOfName(records(b), name, 0, i) ==> records(b)[i].ino >= INT_LIMIT
  }

  lemma BlockGives(dev: Device, inode: Inode, records: nat -> seq<Dirent>, name: seq<byte>, b: nat)
    requires |name| <= NAME_MAX && LaidOut(dev, inode, records) && b < DirBlocks(inode)
    ensures PassedOver(dev, inode, name, b) <==> GivesNone(dev, inode, records, name, b)
    ensures forall k :: HitAt(dev, inode, name, b, k) <==> Gives(dev, inode, records, name, b, k)
  {
    hide Physical, DirBlocks, Layout, Ends, Scan, FirstLive, FirstOfName;
    var phys, ds := Physical(dev, inode, b), records(b);
    if phys != 0 {
      var rest :| dev[phys] == Layout(ds) + rest && Ends(rest);
      assert dev[phys][0..] == dev[phys];
      ScanLayout(dev[phys], ds, rest, name, 0);
      FirstLiveMeans(ds, name, 0);
      forall i | FirstOfName(ds, name, 0, i) ensures 0 <= i < |ds| && Storable(ds[i]) && ds[i].ino > 0 {
        LiveNumber(ds, name, i);
      }
    }
  }

  lemma LiveNumber(ds: seq<Dirent>, name: seq<byte>, i: int)
    requires AllStorable(ds) && FirstOfName(ds, name, 0, i)
    ensures 0 <= i < |ds| && Storable(ds[i]) && ds[i].ino > 0
  {
  }

  /** Block b is the first that gives something, and it gives k. */
  ghost predicate FirstGives(dev: Device, inode: Inode, records: nat -> seq<Dirent>, name: seq<byte>, b: nat, k: int) {
    && b < DirBlocks(inode) && Gives(dev, inode, records, name, b, k)
    && forall c: nat :: c < b ==> GivesNone(dev, inode, records, name, c)
  }

  /** A search of such a directory finds exactly what the first giving block gives, and no entry if none gives. */
  lemma DirFindInRecords(dev: Device, inode: Inode, records: nat -> seq<Dirent>, name: seq<byte>, k: int)
    requires |name| <= NAME_MAX && LaidOut(dev, inode, records) && FileMode(inode) == IFDIR
    ensures DirFind(dev, inode, name) == Ok(k) <==> exists b :: FirstGives(dev, inode, records, name, b, k)
    ensures DirFind(dev, inode, name) == Err(NoEntry) <==>
              forall b: nat :: b < DirBlocks(inode) ==> GivesNone(dev, inode, records, name, b)
  {
    hide Physical, DirBlocks, PassedOver, HitAt, Gives, GivesNone, LaidOut, FileMode;
    forall b: nat | b < DirBlocks(inode)
      ensures PassedOver(dev, inode, name, b) <==> GivesNone(dev, inode, records, name, b)
      ensures HitAt(dev, inode, name, b, k) <==> Gives(dev, inode, records, name, b, k)
    {
      BlockGives(dev, inode, records, name, b);
    }
    FoundExactly(dev, inode, name, 0, k);
    AbsentExactly(dev, inode, name, 0);
    if b :| FirstHit(dev, inode, name, 0, b, k) { assert FirstGives(dev, inode, records, name, b, k); }
    if b :| FirstGives(dev, inode, records, name, b, k) { assert FirstHit(dev, inode, name, 0, b, k); }
  }

  // ----- a record whose number is too large -----

  const LOST: Dirent := Dirent(0x8000_0000, 1, [0x61], [])

  /** A directory of one block, held by device block 5. */
  function LostDirectory(): Inode {
    seq(256, i => if i == 1 then 0x40 else if i == 9 then 0x10 else if i == 72 then 5 else if i == 76 then 1 else 0)
  }

  /** That block: the record and nothing else. */
  function LostBlock(): Block {
    Encode(LOST) + seq(4096 - RecLen(LOST), _ => 0)
  }

  function LostDevice(): Device {
    map[5 := LostBlock()]
  }

  /** A live record of that name is there, in a readable block, and no entry is reported. */
  lemma LargeNumberNeverFound()
    ensures LaidOut(LostDevice(), LostDirectory(), _ => [LOST]) && Live(LOST, LOST.name)
    ensures DirFind(LostDevice(), LostDirectory(), LOST.name) == Err(NoEntry)
  {
    var inode := LostDirectory();
    assert LOST.ino >= INT_LIMIT && |LOST.name| <= NAME_MAX;
    LostHolds();
    assert LostDevice() == map[5 := LostBlock()];
    hide Physical, FileMode, DirFind, DirBlocks, LostDirectory, LostBlock, Holds;
    LostFields(LostDevice(), inode, 0);
    OnlyLarge(LostDevice(), inode, LostBlock(), LOST);
  }

  /** A directory of one block that holds one record with a number of 2^31 or more. */
  lemma OnlyLarge(dev: Device, inode: Inode, blk: Block, d: Dirent)
    requires FileMode(inode) == IFDIR && DirBlocks(inode) == 1 && Physical(dev, inode, 0) == 5
    requires dev == map[5 := blk] && Holds(blk, [d]) && d.ino >= INT_LIMIT && |d.name| <= NAME_MAX
    ensures LaidOut(dev, inode, _ => [d]) && DirFind(dev, inode, d.name) == Err(NoEntry)
  {
    hide Physical, FileMode, DirFind, DirBlocks, Holds;
    var records: nat -> seq<Dirent> := _ => [d];
    assert LaidOut(dev, inode, records);
    DirFindInRecords(dev, inode, records, d.name, 0);
    forall b: nat | b < DirBlocks(inode) ensures GivesNone(dev, inode, records, d.name, b) {}
  }

  /** The masks of the examples. */
  lemma Masks()
    ensures And(0x4000, IFMT) == IFDIR && And(0x8000, IFMT) == IFREG && And(0, EXT_HOLE) == 0
  {
    hide And, Shl;
    SmallMasks();
    ShiftedMasks();
    AndShifted(4, 15, 12);
    AndShifted(8, 15, 12);
  }

  lemma ShiftedMasks()
    ensures Shl(4, 12) == 0x4000 && Shl(8, 12) == 0x8000 && Shl(15, 12) == IFMT
  {
  }

  lemma SmallMasks()
    ensures And(4, 15) == 4 && And(8, 15) == 8 && And(0, EXT_HOLE) == 0
  {
  }

  lemma LostFields(dev: Device, n: Inode, l: nat)
    requires n == LostDirectory() && l == 0
    ensures FileMode(n) == IFDIR && DirBlocks(n) == 1 && Physical(dev, n, l) == 5
  {
    LostMode(n);
    LostSize(n);
    LostExtent(n);
    hide *;
    FirstInline(dev, n, l);
  }

  lemma LostMode(n: Inode)
    requires n == LostDirectory()
    ensures FileMode(n) == IFDIR
  {
    Masks();
    hide And;
    assert Le16(n, 0) == 0x4000;
  }

  lemma LostSize(n: Inode)
    requires n == LostDirectory()
    ensures DirBlocks(n) == 1
  {
    assert Le32(n, 8) == 0x1000 && Le32(n, 12) == 0;
    hide Le32, LostDirectory;
  }

  lemma LostExtent(n: Inode)
    requires n == LostDirectory()
    ensures ExtentAt(n, 68) == Extent(0, 5, 1, 0)
  {
    hide And;
    assert Le32(n, 68) == 0 && Le32(n, 72) == 5;
    assert Le16(n, 76) == 1 && Le16(n, 78) == 0;
  }

  lemma FirstInline(dev: Device, n: Inode, l: nat)
    requires ExtentAt(n, 68) == Extent(0, 5, 1, 0) && l == 0
    ensures Physical(dev, n, l) == 5
  {
    Masks();
    hide And, ExtentAt, Overflow, InlineExtents, MapBlock;
    InlineStep(n, l, Overflow(dev, n), l);
  }

  lemma LostHolds()
    ensures Holds(LostBlock(), [LOST])
  {
    hide Encode;
    var rest := seq(4096 - RecLen(LOST), _ => 0);
    assert Le16(rest, 4) == 0;
    assert [LOST][1..] == [];
    assert Layout([LOST]) == Encode(LOST) + Layout([]);
    assert LostBlock() == Layout([LOST]) + rest && Ends(rest);
  }

  // ----- volumes that can be read in part -----

  /** The volume holds every block the device can read. */
  ghost predicate Extends(vol: Device, dev: Device) {
    forall b :: b in dev ==> b in vol && vol[b] == dev[b]
  }

  /** The inline extents alone decide logical block l; the last 32-bit number is covered by no extent at all. */
  ghost predicate DecidedInline(inode: Inode, l: nat) {
    l == U32 - 1 || exists e :: e in InlineExtents(inode, 0) && Covers(e, l)
  }

  /** No block of the first n bytes needs an overflow block that cannot be read. */
  ghost predicate OverflowAtHand(dev: Device, inode: Inode, n: nat) {
    || ExtentTree(inode) == 0 || ExtentTree(inode) in dev
    || forall k :: 0 <= k < n ==> DecidedInline(inode, BlockOf(k))
  }

  /** A successful read delivers the volume's bytes, whatever the unreadable blocks hold, exactly under that test. */
  lemma DeliversVolumeIff(dev: Device, inode: Inode, n: nat)
    requires Readable(dev, inode, n)
    ensures (forall vol :: Extends(vol, dev) ==> Contents(vol, inode, n) == Contents(dev, inode, n)) <==>
            OverflowAtHand(dev, inode, n)
  {
    hide Contents, InlineExtents, ExtentTree, FileByte, Readable;
    if OverflowAtHand(dev, inode, n) {
      forall vol | Extends(vol, dev) ensures Contents(vol, inode, n) == Contents(dev, inode, n) {
        SameContents(dev, vol, inode, n);
      }
    } else {
      var k :| 0 <= k < n && !DecidedInline(inode, BlockOf(k));
      var vol := OtherVolume(dev, inode, n, k);
    }
  }

  lemma SameContents(dev: Device, vol: Device, inode: Inode, n: nat)
    requires Readable(dev, inode, n) && OverflowAtHand(dev, inode, n) && Extends(vol, dev)
    ensures Contents(vol, inode, n) == Contents(dev, inode, n)
  {
    hide InlineExtents, ExtentTree, Physical, BlockOf;
    forall k | 0 <= k < n ensures FileByte(vol, inode, k) == FileByte(dev, inode, k) {
      assert BlockBytes(dev, inode, BlockOf(k)).Ok?;
      SamePlace(dev, vol, inode, BlockOf(k));
    }
  }

  lemma SamePlace(dev: Device, vol: Device, inode: Inode, l: nat)
    requires Extends(vol, dev) && l < U32
    requires ExtentTree(inode) == 0 || ExtentTree(inode) in dev || DecidedInline(inode, l)
    ensures Physical(vol, inode, l) == Physical(dev, inode, l)
  {
    hide InlineExtents, ExtentTree, MapBlock, TreeExtents, Covers;
    if ExtentTree(inode) != 0 && ExtentTree(inode) !in dev {
      var es := InlineExtents(inode, 0);
      if l == U32 - 1 {
        forall e ensures !Covers(e, l) { LastUncovered(e); }
        NoCover(es + Overflow(vol, inode), l);
        NoCover(es + Overflow(dev, inode), l);
      } else {
        MapBlockConcat(es, Overflow(vol, inode), l);
        MapBlockConcat(es, Overflow(dev, inode), l);
      }
    }
  }

  lemma LastUncovered(e: Extent)
    ensures !Covers(e, U32 - 1)
  {
  }

  // ----- what an unreadable overflow block may hide -----

  /** An overflow block that maps l to itself, and whose first byte is not zero. */
  function SelfBlock(l: nat, tree: nat): Block
    requires l < U32 && tree < U32
  {
    Filler(l) + PutLe32(l) + PutLe32(tree) + PutLe16(1) + PutLe16(0) + seq(4072, _ => 1)
  }

  /** An entry without zero bytes that does not cover l. */
  function Filler(l: nat): (s: seq<byte>)
    ensures |s| == 12
  {
    if 0x0101_0101 <= l < 0x0201_0101 then seq(12, _ => 2) else seq(12, _ => 1)
  }

  lemma SelfBlockFields(l: nat, tree: nat)
    requires l < U32 && tree < U32
    ensures var b := SelfBlock(l, tree);
            && b[0] != 0 && ExtentAt(b, 0).len != 0 && !Covers(ExtentAt(b, 0), l)
            && ExtentAt(b, 12) == Extent(l, tree, 1, 0)
  {
    hide PutLe16, PutLe32, Le16, Le32;
    var b := SelfBlock(l, tree);
    assert b[12..16] == PutLe32(l) && b[16..20] == PutLe32(tree) && b[20..22] == PutLe16(1) && b[22..24] == PutLe16(0);
    DecodeLe32(l, b, 12);
    DecodeLe32(tree, b, 16);
    DecodeLe16(1, b, 20);
    DecodeLe16(0, b, 22);
    FillerFields(b, l);
  }

  lemma FillerFields(b: Block, l: nat)
    requires l < U32 && b[..12] == Filler(l)
    ensures b[0] != 0 && ExtentAt(b, 0).len != 0 && !Covers(ExtentAt(b, 0), l)
  {
    assert forall i :: 0 <= i < 12 ==> b[i] == b[..12][i];
  }

  lemma {:induction false} SelfBlockMaps(l: nat, tree: nat)
    requires l < U32 - 1 && tree < U32
    ensures MapBlock(TreeExtents(SelfBlock(l, tree), 0), l) == tree
  {
    hide *;
    var b := SelfBlock(l, tree);
    SelfBlockFields(l, tree);
    NextEntry(b, 0);
    NextEntry(b, 1);
    SecondMaps(TreeExtents(b, 0), l, tree);
  }

  lemma {:induction false} SecondMaps(es: seq<Extent>, l: nat, tree: nat)
    requires |es| >= 2 && !Covers(es[0], l) && es[1] == Extent(l, tree, 1, 0) && l < U32 - 1 && tree < U32
    ensures MapBlock(es, l) == tree
  {
    Masks();
    hide And;
    assert Covers(es[1], l) && MappedTo(es[1], l) == tree;
    hide Covers, MappedTo;
    PassOver(es, l);
    TakeFirst(es[1..], l);
  }

  lemma NextEntry(b: Block, i: nat)
    requires i < 341 && ExtentAt(b, 12 * i).len != 0
    ensures var es := TreeExtents(b, i); es != [] && es[0] == ExtentAt(b, 12 * i) && es[1..] == TreeExtents(b, i + 1)
  {
    hide ExtentAt;
  }

  lemma {:induction false} PassOver(es: seq<Extent>, l: nat)
    requires es != [] && !Covers(es[0], l)
    ensures MapBlock(es, l) == MapBlock(es[1..], l)
  {
  }

  lemma {:induction false} TakeFirst(es: seq<Extent>, l: nat)
    requires es != [] && Covers(es[0], l)
    ensures MapBlock(es, l) == MappedTo(es[0], l)
  {
    hide Covers, MappedTo;
  }

  lemma BlockStart(k: nat)
    ensures var j := k - k % BLOCK_SIZE; BlockOf(j) == BlockOf(k) && j % BLOCK_SIZE == 0
  {
  }

  /** Where the inline extents do not decide, the overflow block does. */
  lemma {:induction false} PhysicalBeyond(dev: Device, inode: Inode, l: nat)
    requires !DecidedInline(inode, l)
    ensures Physical(dev, inode, l) == MapBlock(Overflow(dev, inode), l)
  {
    hide InlineExtents, MapBlock, Overflow, Covers;
    MapBlockConcat(InlineExtents(inode, 0), Overflow(dev, inode), l);
  }

  /** A volume that the device reads in part, and whose file differs in the block of byte k. */
  lemma OtherVolume(dev: Device, inode: Inode, n: nat, k: nat) returns (vol: Device)
    requires k < n && !DecidedInline(inode, BlockOf(k)) && ExtentTree(inode) != 0 && ExtentTree(inode) !in dev
    ensures Extends(vol, dev) && Contents(vol, inode, n) != Contents(dev, inode, n)
  {
    hide InlineExtents, ExtentTree, MapBlock, TreeExtents, Covers, SelfBlock, Contents, BlockOf, Physical;
    var l, tree, j := BlockOf(k), ExtentTree(inode), k - k % BLOCK_SIZE;
    var b := SelfBlock(l, tree);
    vol := dev[tree := b];
    SelfBlockFields(l, tree);
    SelfBlockMaps(l, tree);
    BlockStart(k);
    PhysicalBeyond(vol, inode, l);
    PhysicalBeyond(dev, inode, l);
    hide DecidedInline;
    assert Physical(dev, inode, l) == 0 by { NoCover([], l); }
    assert FileByte(vol, inode, j) == b[0] && FileByte(dev, inode, j) == 0;
    assert Contents(vol, inode, n)[j] != Contents(dev, inode, n)[j];
  }

  // ----- a file that reads as zeros -----

  /** A regular file of one block whose only extent is in overflow block 7. */
  function HiddenFile(): Inode {
    seq(256, i => if i == 1 then 0x80 else if i == 9 then 0x10 else if i == 116 then 7 else 0)
  }

  /** With that block unreadable a read still succeeds, with a zero where the volume may hold another byte. */
  lemma UnreadableOverflowReadsZeros()
    ensures FileMode(HiddenFile()) == IFREG
    ensures Readable(map[], HiddenFile(), 1) && Contents(map[], HiddenFile(), 1) == [0]
    ensures exists vol :: Extends(vol, map[]) && Contents(vol, HiddenFile(), 1) != [0]
  {
    hide *;
    var n := HiddenFile();
    HiddenFields(n);
    var vol := HidesData(n, map[], 1);
  }

  lemma HidesData(n: Inode, dev: Device, k: nat) returns (vol: Device)
    requires dev == map[] && k == 1 && ExtentTree(n) == 7 && InlineExtents(n, 0) == []
    ensures Readable(dev, n, k) && Contents(dev, n, k) == [0]
    ensures Extends(vol, dev) && Contents(vol, n, k) != [0]
  {
    hide InlineExtents, ExtentTree, FileMode, MapBlock, BlockOf;
    assert Usable(dev, n) == [];
    forall l ensures Physical(dev, n, l) == 0 { NoCover([], l); }
    hide Physical;
    assert Contents(dev, n, k) == [0];
    assert !DecidedInline(n, BlockOf(0)) by { FirstBlock(); }
    hide Contents;
    vol := OtherVolume(dev, n, k, 0);
  }

  lemma FirstBlock()
    ensures BlockOf(0) == 0
  {
  }

  lemma {:induction false} HiddenFields(n: Inode)
    requires n == HiddenFile()
    ensures FileMode(n) == IFREG && ExtentTree(n) == 7 && InlineExtents(n, 0) == []
  {
    Masks();
    hide And, InlineExtents;
    assert Le16(n, 0) == 0x8000;
    assert Le16(n, 76) == 0 && Le16(n, 88) == 0 && Le16(n, 100) == 0 && Le16(n, 112) == 0;
    assert Le32(n, 116) == 7;
    hide HiddenFile;
    NoInline(n);
  }

  lemma {:induction false} NoInline(n: Inode)
    requires Le16(n, 76) == 0 && Le16(n, 88) == 0 && Le16(n, 100) == 0 && Le16(n, 112) == 0
    ensures InlineExtents(n, 0) == []
  {
    hide Le16, Le32;
    assert InlineExtents(n, 4) == [];
    assert InlineExtents(n, 3) == [];
    assert InlineExtents(n, 2) == [];
    assert InlineExtents(n, 1) == [];
  }
}
