/**
 The on-disk structures written field by field, in the order of their
 declarations, and read back by the client.
 */
module UnfsLayout {
  import opened Bits
  import opened Bytes
  import opened Packed
  import opened UnfsFormat
  import opened UnfsExtents
  import opened UnfsClient
  import Crc32c

  /** A checksum word, least significant byte first. */
  function PutWord(w: bv32): (s: seq<byte>)
    ensures |s| == 4
  {
    [(w & 0xFF) as byte, ((w >> 8) & 0xFF) as byte, ((w >> 16) & 0xFF) as byte, ((w >> 24) & 0xFF) as byte]
  }

  lemma StoredWord(s: seq<byte>, at: nat, w: bv32)
    requires at + 4 <= |s| && s[at..at + 4] == PutWord(w)
    ensures Stored(s, at) == w
  {
    assert s[at] == PutWord(w)[0] && s[at + 1] == PutWord(w)[1];
    assert s[at + 2] == PutWord(w)[2] && s[at + 3] == PutWord(w)[3];
  }

  // ----- the inode -----

  datatype InodeFields = InodeFields(
    mode: nat, uid: nat, gid: nat, nlink: nat, size: nat, atime: nat, mtime: nat, ctime: nat, blocks: nat, flags: nat,
    macLabel: seq<byte>, macFlags: nat, extents: seq<Extent>, tree: nat, target: seq<byte>,
    checksum: bv32, pad: seq<byte>)

  predicate StorableExtent(e: Extent) {
    e.logical < U32 && e.physical < U32 && e.len < U16 && e.flags < U16
  }

  predicate StorableInode(f: InodeFields) {
    && f.mode < U16 && f.size < U64 && f.tree < U32
    && |f.macLabel| == 16 && |f.target| == 60 && |f.pad| == 72
    && |f.extents| == 4 && forall i :: 0 <= i < 4 ==> StorableExtent(f.extents[i])
  }

  function PutExtent(e: Extent): (s: seq<byte>)
    requires StorableExtent(e)
    ensures |s| == 12
  {
    PutLe32(e.logical) + PutLe32(e.physical) + PutLe16(e.len) + PutLe16(e.flags)
  }

  function PutInode(f: InodeFields): (s: seq<seq<byte>>)
    requires StorableInode(f)
    ensures |s| == 20
  {
    [PutLe16(f.mode), PutLe16(f.uid), PutLe16(f.gid), PutLe16(f.nlink), PutLe64(f.size),
     PutLe64(f.atime), PutLe64(f.mtime), PutLe64(f.ctime), PutLe32(f.blocks), PutLe32(f.flags),
     f.macLabel, PutLe32(f.macFlags),
     PutExtent(f.extents[0]), PutExtent(f.extents[1]), PutExtent(f.extents[2]), PutExtent(f.extents[3]),
     PutLe32(f.tree), f.target, PutWord(f.checksum), f.pad]
  }

  lemma InodeStarts(f: InodeFields)
    requires StorableInode(f)
    ensures var s := PutInode(f);
            && Start(s, 0) == 0 && Start(s, 4) == 8 && Start(s, 12) == 68 && Start(s, 13) == 80
            && Start(s, 14) == 92 && Start(s, 15) == 104 && Start(s, 16) == 116 && Start(s, 18) == 180
            && Start(s, 20) == 256
  {
    hide PutLe16, PutLe32, PutLe64, PutWord, PutExtent, Start;
    var s := PutInode(f);
    NextStart(s, 0);
    NextStart(s, 1);
    NextStart(s, 2);
    NextStart(s, 3);
    NextStart(s, 4);
    NextStart(s, 5);
    NextStart(s, 6);
    NextStart(s, 7);
    NextStart(s, 8);
    NextStart(s, 9);
    NextStart(s, 10);
    NextStart(s, 11);
    NextStart(s, 12);
    NextStart(s, 13);
    NextStart(s, 14);
    NextStart(s, 15);
    NextStart(s, 16);
    NextStart(s, 17);
    NextStart(s, 18);
    NextStart(s, 19);
  }

  lemma ExtentRead(e: Extent, s: seq<byte>, at: nat)
    requires StorableExtent(e) && at + 12 <= |s| && s[at..at + 12] == PutExtent(e)
    ensures ExtentAt(s, at) == e
  {
    hide PutLe16, PutLe32, Le16, Le32;
    var p := PutExtent(e);
    assert p[0..4] == PutLe32(e.logical) && p[4..8] == PutLe32(e.physical);
    assert p[8..10] == PutLe16(e.len) && p[10..12] == PutLe16(e.flags);
    Sub(s, at, 12, 0, 4);
    Sub(s, at, 12, 4, 8);
    Sub(s, at, 12, 8, 10);
    Sub(s, at, 12, 10, 12);
    DecodeLe32(e.logical, s, at);
    DecodeLe32(e.physical, s, at + 4);
    DecodeLe16(e.len, s, at + 8);
    DecodeLe16(e.flags, s, at + 10);
  }

  /** The used ones of a list of extents. */
  function InUse(es: seq<Extent>): seq<Extent> {
    if es == [] then [] else (if es[0].len == 0 then [] else [es[0]]) + InUse(es[1..])
  }

  /** The client reads of an inode record what was written, and takes the used inline extents in order. */
  lemma InodeRoundTrip(f: InodeFields)
    requires StorableInode(f)
    ensures var r := Join(PutInode(f));
            && |r| == 256 && FileMode(r) == And(f.mode, 0xF000) && FileSize(r) == f.size
            && InlineExtents(r, 0) == InUse(f.extents) && ExtentTree(r) == f.tree
            && (InodeAccepted(r) <==> Crc32c.Crc(r[..252]) == f.checksum)
  {
    hide PutLe16, PutLe32, PutLe64, PutExtent, PutWord, Join, Start;
    hide Stored, Le16, Le32, Le64, ExtentAt, Crc32c.Crc, And;
    var s := PutInode(f);
    var r := Join(s);
    InodeStarts(f);
    JoinLength(s);
    FieldAt(s, 0);
    FieldAt(s, 4);
    FieldAt(s, 16);
    FieldAt(s, 18);
    DecodeLe16(f.mode, r, 0);
    DecodeLe64(f.size, r, 8);
    DecodeLe32(f.tree, r, 116);
    StoredWord(r, 180, f.checksum);
    InlineRoundTrip(f, r);
  }

  lemma {:induction false} InlineRoundTrip(f: InodeFields, r: Inode)
    requires StorableInode(f) && r == Join(PutInode(f))
    ensures InlineExtents(r, 0) == InUse(f.extents)
  {
    hide PutLe16, PutLe32, PutLe64, PutExtent, PutWord, Join, Start, ExtentAt;
    var s, es := PutInode(f), f.extents;
    InodeStarts(f);
    FieldAt(s, 12);
    FieldAt(s, 13);
    FieldAt(s, 14);
    FieldAt(s, 15);
    ExtentRead(es[0], r, 68);
    ExtentRead(es[1], r, 80);
    ExtentRead(es[2], r, 92);
    ExtentRead(es[3], r, 104);
    hide PutInode;
    InUseSuffix(r, es, 4);
  }

  lemma {:induction false} InUseSuffix(r: Inode, es: seq<Extent>, i: nat)
    requires |es| == 4 && i <= 4
    requires forall k :: 0 <= k < 4 ==> ExtentAt(r, 68 + 12 * k) == es[k]
    ensures InlineExtents(r, 4 - i) == InUse(es[4 - i..])
  {
    hide ExtentAt;
    if i > 0 {
      InUseSuffix(r, es, i - 1);
      assert es[4 - i..][1..] == es[5 - i..];
    }
  }

  // ----- the overflow block -----

  function PutExtents(es: seq<Extent>): (s: seq<byte>)
    requires forall i :: 0 <= i < |es| ==> StorableExtent(es[i])
    ensures |s| == 12 * |es|
  {
    if es == [] then [] else PutExtents(es[..|es| - 1]) + PutExtent(es[|es| - 1])
  }

  lemma {:induction false} ExtentsAt(es: seq<Extent>, b: seq<byte>, i: nat)
    requires forall i :: 0 <= i < |es| ==> StorableExtent(es[i])
    requires |b| >= 12 * |es| && b[..12 * |es|] == PutExtents(es) && i < |es|
    ensures ExtentAt(b, 12 * i) == es[i]
    decreases |es|
  {
    hide PutExtent, ExtentAt;
    var n := |es| - 1;
    assert b[..12 * n] == b[..12 * |es|][..12 * n];
    if i < n {
      ExtentsAt(es[..n], b, i);
    } else {
      assert b[12 * n..12 * n + 12] == b[..12 * |es|][12 * n..];
      ExtentRead(es[n], b, 12 * n);
    }
  }

  /** The entries up to the first of length zero. */
  function Leading(es: seq<Extent>): seq<Extent> {
    if es == [] || es[0].len == 0 then [] else [es[0]] + Leading(es[1..])
  }

  /** An overflow block of up to 341 entries, the last of length zero if it is not full, is read up to there. */
  lemma {:induction false} TreeRoundTrip(es: seq<Extent>, b: Block)
    requires forall i :: 0 <= i < |es| ==> StorableExtent(es[i])
    requires 0 < |es| <= 341 && (|es| == 341 || es[|es| - 1].len == 0) && b[..12 * |es|] == PutExtents(es)
    ensures TreeExtents(b, 0) == Leading(es)
  {
    hide ExtentAt, TreeExtents, Leading;
    forall i | 0 <= i < |es| ensures ExtentAt(b, 12 * i) == es[i] { ExtentsAt(es, b, i); }
    TreeFrom(es, b, 0);
    assert es[0..] == es;
  }

  lemma {:induction false} TreeFrom(es: seq<Extent>, b: Block, i: nat)
    requires 0 < |es| <= 341 && (|es| == 341 || es[|es| - 1].len == 0) && i <= |es|
    requires forall k :: 0 <= k < |es| ==> ExtentAt(b, 12 * k) == es[k]
    ensures i < |es| || |es| == 341 ==> TreeExtents(b, i) == Leading(es[i..])
    decreases |es| - i
  {
    hide ExtentAt;
    if i < |es| && es[i].len != 0 {
      TreeFrom(es, b, i + 1);
      assert es[i..][1..] == es[i + 1..];
    }
  }

  // ----- superblock and group descriptors -----

  datatype SuperFields = SuperFields(
    magic: nat, major: nat, minor: nat, blockSize: nat, inodeSize: nat, blockCount: nat, freeBlocks: nat,
    inodeCount: nat, freeInodes: nat, inodesPerGroup: nat, blocksPerGroup: nat, groupCount: nat,
    jrBlock: nat, jrSize: nat,
    mountTime: nat, writeTime: nat, mountCount: nat, maxMountCount: nat, modes: seq<byte>, volumeName: seq<byte>,
    uuid: seq<byte>, checksum: bv32, pad: seq<byte>)

  predicate StorableSuper(f: SuperFields) {
    && f.magic < U32 && f.blockSize < U32 && f.inodeSize < U32
    && f.inodeCount < U32 && f.inodesPerGroup < U32 && f.groupCount < U32
    && |f.modes| == 4 && |f.volumeName| == 64 && |f.uuid| == 16 && |f.pad| == 3924
  }

  function PutSuper(f: SuperFields): (s: seq<seq<byte>>)
    requires StorableSuper(f)
    ensures |s| == 23
  {
    [PutLe32(f.magic), PutLe16(f.major), PutLe16(f.minor), PutLe32(f.blockSize), PutLe32(f.inodeSize),
     PutLe64(f.blockCount), PutLe64(f.freeBlocks),
     PutLe32(f.inodeCount), PutLe32(f.freeInodes), PutLe32(f.inodesPerGroup), PutLe32(f.blocksPerGroup),
     PutLe32(f.groupCount), PutLe32(f.jrBlock), PutLe32(f.jrSize),
     PutLe64(f.mountTime), PutLe64(f.writeTime), PutLe32(f.mountCount), PutLe32(f.maxMountCount),
     f.modes, f.volumeName, f.uuid, PutWord(f.checksum), f.pad]
  }

  lemma SuperStarts(f: SuperFields)
    requires StorableSuper(f)
    ensures var s := PutSuper(f);
            && Start(s, 0) == 0 && Start(s, 3) == 8 && Start(s, 4) == 12 && Start(s, 7) == 32
            && Start(s, 9) == 40 && Start(s, 11) == 48 && Start(s, 21) == 168 && Start(s, 23) == 4096
  {
    hide PutLe16, PutLe32, PutLe64, PutWord, Start;
    var s := PutSuper(f);
    NextStart(s, 0);
    NextStart(s, 1);
    NextStart(s, 2);
    NextStart(s, 3);
    NextStart(s, 4);
    NextStart(s, 5);
    NextStart(s, 6);
    NextStart(s, 7);
    NextStart(s, 8);
    NextStart(s, 9);
    NextStart(s, 10);
    NextStart(s, 11);
    NextStart(s, 12);
    NextStart(s, 13);
    NextStart(s, 14);
    NextStart(s, 15);
    NextStart(s, 16);
    NextStart(s, 17);
    NextStart(s, 18);
    NextStart(s, 19);
    NextStart(s, 20);
    NextStart(s, 21);
    NextStart(s, 22);
  }

  lemma SuperRoundTrip(f: SuperFields)
    requires StorableSuper(f)
    ensures var b := Join(PutSuper(f));
            && |b| == 4096 && Le32(b, 0) == f.magic && Le32(b, 8) == f.blockSize && Le32(b, 12) == f.inodeSize
            && InodeCount(b) == f.inodeCount && InodesPerGroup(b) == f.inodesPerGroup && GroupCount(b) == f.groupCount
            && (SuperAccepted(b) <==> Crc32c.Crc(b[..4092]) == f.checksum)
  {
    hide PutLe16, PutLe32, PutLe64, PutWord, Join, Start, Stored, Le32, Crc32c.Crc;
    var s := PutSuper(f);
    var b := Join(s);
    SuperStarts(f);
    JoinLength(s);
    FieldAt(s, 0);
    FieldAt(s, 3);
    FieldAt(s, 4);
    FieldAt(s, 7);
    FieldAt(s, 9);
    FieldAt(s, 11);
    FieldAt(s, 21);
    DecodeLe32(f.magic, b, 0);
    DecodeLe32(f.blockSize, b, 8);
    DecodeLe32(f.inodeSize, b, 12);
    DecodeLe32(f.inodeCount, b, 32);
    DecodeLe32(f.inodesPerGroup, b, 40);
    DecodeLe32(f.groupCount, b, 48);
    StoredWord(b, 168, f.checksum);
  }

  datatype GroupFields = GroupFields(
    blockBitmap: nat, inodeBitmap: nat, inodeTable: nat, freeBlocks: nat, freeInodes: nat, usedDirs: nat,
    checksum: bv32, pad: seq<byte>)

  predicate StorableGroup(f: GroupFields) {
    f.inodeTable < U32 && |f.pad| == 8
  }

  function PutGroup(f: GroupFields): (s: seq<seq<byte>>)
    requires StorableGroup(f)
    ensures |s| == 8
  {
    [PutLe32(f.blockBitmap), PutLe32(f.inodeBitmap), PutLe32(f.inodeTable), PutLe32(f.freeBlocks),
     PutLe32(f.freeInodes), PutLe32(f.usedDirs), PutWord(f.checksum), f.pad]
  }

  lemma GroupRoundTrip(f: GroupFields)
    requires StorableGroup(f)
    ensures var g := Join(PutGroup(f));
            && |g| == 36 && InodeTable(g) == f.inodeTable
            && (GroupAccepted(g) <==> Crc32c.Crc(g[..32]) == f.checksum)
  {
    hide PutLe32, PutWord, Join, Stored, Le32, Crc32c.Crc;
    var s := PutGroup(f);
    var g := Join(s);
    assert Start(s, 1) == 4 && Start(s, 2) == 8 && Start(s, 3) == 12 && Start(s, 4) == 16;
    assert Start(s, 5) == 20 && Start(s, 6) == 24 && Start(s, 7) == 28 && Start(s, 8) == 36;
    hide Start;
    JoinLength(s);
    FieldAt(s, 2);
    FieldAt(s, 6);
    DecodeLe32(f.inodeTable, g, 8);
    StoredWord(g, 24, f.checksum);
  }

  // ----- mounting a written volume -----

  /** The descriptors of a table one after the other. */
  function PutGroups(fs: seq<GroupFields>): (s: seq<byte>)
    requires forall i :: 0 <= i < |fs| ==> StorableGroup(fs[i])
  {
    if fs == [] then [] else PutGroups(fs[..|fs| - 1]) + Join(PutGroup(fs[|fs| - 1]))
  }

  lemma {:induction false} GroupsLength(fs: seq<GroupFields>)
    requires forall i :: 0 <= i < |fs| ==> StorableGroup(fs[i])
    ensures |PutGroups(fs)| == 36 * |fs|
    decreases |fs|
  {
    hide PutGroup, Join;
    if fs != [] {
      GroupsLength(fs[..|fs| - 1]);
      GroupRoundTrip(fs[|fs| - 1]);
    }
  }

  lemma {:induction false} GroupsAt(fs: seq<GroupFields>, b: Block, g: nat)
    requires (forall i :: 0 <= i < |fs| ==> StorableGroup(fs[i])) && g < |fs| <= 16
    requires b[..36 * |fs|] == PutGroups(fs)
    ensures GroupAt(b, g) == Join(PutGroup(fs[g]))
    decreases |fs|
  {
    hide PutGroup, Join;
    var n := |fs| - 1;
    GroupsLength(fs[..n]);
    GroupRoundTrip(fs[n]);
    assert b[..36 * n] == b[..36 * |fs|][..36 * n];
    if g < n {
      GroupsAt(fs[..n], b, g);
    } else {
      assert b[36 * n..36 * n + 36] == b[..36 * |fs|][36 * n..];
    }
  }

  /** A volume with this superblock in block 0 and these descriptors in block 258. */
  ghost predicate Written(dev: Device, f: SuperFields, fs: seq<GroupFields>) {
    && StorableSuper(f) && (forall i :: 0 <= i < |fs| ==> StorableGroup(fs[i]))
    && |fs| == (if f.groupCount > 16 then 16 else f.groupCount)
    && 0 in dev && 258 in dev && dev[0] == Join(PutSuper(f)) && dev[258][..36 * |fs|] == PutGroups(fs)
  }

  ghost predicate SuperSound(f: SuperFields) {
    && StorableSuper(f)
    && f.magic == 0x554E_4653 && f.blockSize == 4096 && f.inodeSize == 256
    && Checksum(PutSuper(f), 4092) == f.checksum
  }

  ghost predicate GroupSound(f: GroupFields) {
    StorableGroup(f) && Checksum(PutGroup(f), 32) == f.checksum
  }

  /** The checksum over the first n bytes of a structure. */
  function Checksum(fields: seq<seq<byte>>, n: nat): bv32 {
    if n <= |Join(fields)| then Crc32c.Crc(Join(fields)[..n]) else 0
  }

  lemma SuperChecks(dev: Device)
    ensures SuperOf(dev).Ok? <==>
            && 0 in dev && Le32(dev[0], 0) == 0x554E_4653 && Le32(dev[0], 8) == 4096 && Le32(dev[0], 12) == 256
            && SuperAccepted(dev[0])
    ensures SuperOf(dev).Ok? ==> SuperOf(dev) == Ok(dev[0])
  {
    hide Le32, SuperAccepted;
  }

  lemma SuperWritten(dev: Device, f: SuperFields)
    requires StorableSuper(f) && 0 in dev && dev[0] == Join(PutSuper(f))
    ensures SuperOf(dev).Ok? <==> SuperSound(f)
    ensures SuperOf(dev).Ok? ==> SuperOf(dev) == Ok(dev[0])
    ensures InodeCount(dev[0]) == f.inodeCount && InodesPerGroup(dev[0]) == f.inodesPerGroup
    ensures GroupCount(dev[0]) == f.groupCount
  {
    SuperRoundTrip(f);
    SuperChecks(dev);
    hide SuperOf, PutSuper, Join, SuperAccepted, Crc32c.Crc, Le32, StorableSuper;
    hide InodeCount, InodesPerGroup, GroupCount;
  }

  lemma {:induction false} GroupsWritten(dev: Device, fs: seq<GroupFields>)
    requires (forall i :: 0 <= i < |fs| ==> StorableGroup(fs[i])) && |fs| <= 16
    requires 258 in dev && dev[258][..36 * |fs|] == PutGroups(fs)
    ensures GroupsOf(dev, |fs|).Ok? <==> forall i :: 0 <= i < |fs| ==> GroupSound(fs[i])
    ensures GroupsOf(dev, |fs|).Ok? ==>
              forall i :: 0 <= i < |fs| ==> InodeTable(GroupsOf(dev, |fs|).value[i]) == fs[i].inodeTable
  {
    hide PutGroup, Join, PutGroups, GroupAccepted, Crc32c.Crc, GroupAt, InodeTable, StorableGroup;
    forall g | 0 <= g < |fs|
      ensures GroupAccepted(GroupAt(dev[258], g)) <==> GroupSound(fs[g])
      ensures InodeTable(GroupAt(dev[258], g)) == fs[g].inodeTable
    {
      GroupsAt(fs, dev[258], g);
      GroupRoundTrip(fs[g]);
    }
    if i :| 0 <= i < |fs| && !GroupSound(fs[i]) { assert !GroupAccepted(GroupAt(dev[258], i)); }
  }

  /** It mounts if and only if magic, sizes and checksums are right, with its counts and tables as written. */
  lemma MountsWritten(dev: Device, f: SuperFields, fs: seq<GroupFields>)
    requires Written(dev, f, fs)
    ensures MountOf(dev).Ok? <==> SuperSound(f) && forall i :: 0 <= i < |fs| ==> GroupSound(fs[i])
    ensures MountOf(dev).Ok? ==> AsWritten(MountOf(dev).value, f, fs)
  {
    WrittenParts(dev, f, fs);
    hide *;
    SuperWritten(dev, f);
    GroupsWritten(dev, fs);
    MountParts(dev);
    Kept(dev[0], f, fs);
    if MountOf(dev).Ok? { Assemble(MountOf(dev).value, f, fs); }
  }

  ghost predicate AsWritten(m: Mount, f: SuperFields, fs: seq<GroupFields>) {
    && InodeCount(m.sb) == f.inodeCount && InodesPerGroup(m.sb) == f.inodesPerGroup
    && |m.groups| == |fs| && forall i :: 0 <= i < |fs| ==> InodeTable(m.groups[i]) == fs[i].inodeTable
  }

  lemma Assemble(m: Mount, f: SuperFields, fs: seq<GroupFields>)
    requires InodeCount(m.sb) == f.inodeCount && InodesPerGroup(m.sb) == f.inodesPerGroup && |m.groups| == |fs|
    requires forall i :: 0 <= i < |fs| ==> InodeTable(m.groups[i]) == fs[i].inodeTable
    ensures AsWritten(m, f, fs)
  {
  }

  lemma {:induction false} WrittenParts(dev: Device, f: SuperFields, fs: seq<GroupFields>)
    requires Written(dev, f, fs)
    ensures StorableSuper(f) && 0 in dev && dev[0] == Join(PutSuper(f))
    ensures (forall i :: 0 <= i < |fs| ==> StorableGroup(fs[i])) && |fs| <= 16
    ensures |fs| == (if f.groupCount > 16 then 16 else f.groupCount)
    ensures 258 in dev && dev[258][..36 * |fs|] == PutGroups(fs)
  {
    hide StorableSuper, StorableGroup, Join, PutSuper, PutGroups;
  }

  lemma MountParts(dev: Device)
    ensures MountOf(dev).Ok? <==> SuperOf(dev).Ok? && GroupsOf(dev, GroupsKept(SuperOf(dev).value)).Ok?
    ensures MountOf(dev).Ok? ==>
              MountOf(dev).value == Mount(SuperOf(dev).value, GroupsOf(dev, GroupsKept(SuperOf(dev).value)).value)
    ensures SuperOf(dev).Ok? ==>
              var n := GroupsKept(SuperOf(dev).value);
              GroupsOf(dev, n).Ok? ==> |GroupsOf(dev, n).value| == n
  {
    hide SuperOf, GroupAccepted, GroupAt, GroupCount;
  }

  lemma Kept(b: Block, f: SuperFields, fs: seq<GroupFields>)
    requires GroupCount(b) == f.groupCount && |fs| == (if f.groupCount > 16 then 16 else f.groupCount)
    ensures GroupsKept(b) == |fs|
  {
    hide GroupCount;
  }

  /** A volume that does not mount reports the first thing that is wrong. */
  lemma MountErrors(dev: Device)
    ensures MountOf(dev).Err? ==>
              MountOf(dev).error ==
              if 0 !in dev then Io
              else if Le32(dev[0], 0) != 0x554E_4653 then Invalid
              else if Le32(dev[0], 8) != 4096 || Le32(dev[0], 12) != 256 then NotSupported
              else if Crc32c.Crc(dev[0][..4092]) != Stored(dev[0], 168) then Corrupt
              else if 258 !in dev then Io
              else Corrupt
  {
    hide Le32, Crc32c.Crc, Stored, GroupAccepted, GroupAt, GroupCount;
  }
}
