/**
 What the client's functions mean for the file system: paths compose, inodes
 come from checked records, numbers name disjoint records, and a file's bytes
 are the device bytes its extents assign.
 */
module UnfsTheorems {
  import opened Bits
  import opened Bytes
  import opened UnfsFormat
  import opened UnfsExtents
  import opened UnfsDir
  import opened UnfsClient
  import UnfsPath
  import Division
  import Crc32c

  // ----- paths -----

  /** Resolving a path is folding directory lookup over its components, when no name exceeds 255 bytes. */
  lemma {:induction false} ResolveFoldsComponents(dev: Device, m: Mount, path: seq<byte>)
    requires UnfsPath.AllShort(UnfsPath.Components(path))
    ensures Resolve(dev, m, UnfsPath.SkipSlash(path)) ==
            Walk(dev, m, InodeAt(dev, m, 2), UnfsPath.Components(path))
  {
    hide Walk, InodeAt, UnfsPath.Components, UnfsPath.Pieces;
    UnfsPath.ExtraSlashes(path, []);
    UnfsPath.PiecesAreComponents(UnfsPath.SkipSlash(path));
  }

  /** Two spellings of a path with the same components resolve alike. */
  lemma {:induction false} SlashesDoNotMatter(dev: Device, m: Mount, a: seq<byte>, b: seq<byte>)
    requires UnfsPath.AllShort(UnfsPath.Components(a + [0x2F] + b))
    ensures Resolve(dev, m, UnfsPath.SkipSlash(a + [0x2F, 0x2F] + b)) ==
            Resolve(dev, m, UnfsPath.SkipSlash(a + [0x2F] + b))
    ensures Resolve(dev, m, UnfsPath.SkipSlash(a + [0x2F] + b + [0x2F])) ==
            Resolve(dev, m, UnfsPath.SkipSlash(a + [0x2F] + b))
  {
    hide *;
    UnfsPath.ExtraSlashes(a, b);
    UnfsPath.ExtraSlashes(a + [0x2F] + b, []);
    ResolveFoldsComponents(dev, m, a + [0x2F] + b);
    ResolveFoldsComponents(dev, m, a + [0x2F, 0x2F] + b);
    ResolveFoldsComponents(dev, m, a + [0x2F] + b + [0x2F]);
  }

  /** No name is looked up behind an error; otherwise the first name's inode is where the rest goes on. */
  lemma {:induction false} WalkSteps(dev: Device, m: Mount, dir: Inode, name: seq<byte>, names: seq<seq<byte>>,
                                    e: Errno)
    requires |name| <= NAME_MAX && UnfsPath.AllShort(names)
    ensures UnfsPath.AllShort([name] + names)
    ensures Walk(dev, m, Err(e), names) == Err(e) && Walk(dev, m, Ok(dir), []) == Ok(dir)
    ensures var found := DirFind(dev, dir, name);
            Walk(dev, m, Ok(dir), [name] + names) ==
            if found.Err? then Err(found.error) else Walk(dev, m, InodeAt(dev, m, found.value), names)
  {
    hide DirFind, InodeAt;
    assert ([name] + names)[1..] == names;
    assert forall i :: 0 < i < |[name] + names| ==> ([name] + names)[i] == names[i - 1];
  }

  /** A longer path is resolved from where the shorter one ended. */
  lemma {:induction false} WalkCompose(dev: Device, m: Mount, r: Result<Inode>, a: seq<seq<byte>>, b: seq<seq<byte>>)
    requires UnfsPath.AllShort(a) && UnfsPath.AllShort(b)
    ensures UnfsPath.AllShort(a + b)
    ensures Walk(dev, m, r, a + b) == Walk(dev, m, Walk(dev, m, r, a), b)
    decreases a
  {
    hide Child;
    if a == [] {
      assert a + b == b;
    } else if r.Ok? {
      assert (a + b)[1..] == a[1..] + b;
      WalkCompose(dev, m, Child(dev, m, r.value, a[0]), a[1..], b);
    }
  }

  /** An inode is a byte-exact copy of a 256-byte record of the device that passed the checksum. */
  ghost predicate Genuine(dev: Device, inode: Inode) {
    InodeAccepted(inode) && exists blk, index :: blk in dev && index < 16 && inode == InodeRecord(dev[blk], index)
  }

  lemma InodeAtGenuine(dev: Device, m: Mount, ino: nat)
    requires InodeAt(dev, m, ino).Ok?
    ensures Genuine(dev, InodeAt(dev, m, ino).value)
  {
    hide InodeAccepted, InodeRecord;
    var s := SlotOf(InodesPerGroup(m.sb), ino);
    var blk := (InodeTable(m.groups[s.group]) + s.block) % U32;
    assert blk in dev && s.index < 16;
  }

  /** Whatever a path resolves to is genuine, and so was every directory on the way. */
  lemma {:induction false} WalkGenuine(dev: Device, m: Mount, r: Result<Inode>, names: seq<seq<byte>>, k: nat)
    requires UnfsPath.AllShort(names) && k <= |names|
    requires r.Ok? ==> Genuine(dev, r.value)
    ensures UnfsPath.AllShort(names[..k])
    ensures Walk(dev, m, r, names).Ok? ==>
              Walk(dev, m, r, names[..k]).Ok? && Genuine(dev, Walk(dev, m, r, names[..k]).value)
    decreases k
  {
    hide Genuine, DirFind, InodeAt;
    if k > 0 && r.Ok? {
      var c := Child(dev, m, r.value, names[0]);
      var d := DirFind(dev, r.value, names[0]);
      if d.Ok? && InodeAt(dev, m, d.value).Ok? { InodeAtGenuine(dev, m, d.value); }
      WalkGenuine(dev, m, c, names[1..], k - 1);
      assert names[..k][1..] == names[1..][..k - 1];
    }
  }

  // ----- directories -----

  /** Block b of a directory is passed over: a hole, or readable without a positive hit. */
  ghost predicate PassedOver(dev: Device, inode: Inode, name: seq<byte>, b: nat)
    requires |name| <= NAME_MAX
  {
    var phys := Physical(dev, inode, b);
    phys == 0 || (phys in dev && Scan(dev[phys], name, 0) <= 0)
  }

  ghost predicate HitAt(dev: Device, inode: Inode, name: seq<byte>, b: nat, ino: int)
    requires |name| <= NAME_MAX
  {
    var phys := Physical(dev, inode, b);
    phys != 0 && phys in dev && Scan(dev[phys], name, 0) == ino && ino > 0
  }

  /** Block b is the first one from a start that is not passed over, and it has a hit. */
  ghost predicate FirstHit(dev: Device, inode: Inode, name: seq<byte>, from: nat, b: nat, ino: int)
    requires |name| <= NAME_MAX
  {
    && from <= b < DirBlocks(inode) && HitAt(dev, inode, name, b, ino)
    && forall c :: from <= c < b ==> PassedOver(dev, inode, name, c)
  }

  /** A directory search succeeds exactly at the first block that is not passed over, if that block has a hit. */
  lemma {:induction false} FoundExactly(dev: Device, inode: Inode, name: seq<byte>, from: nat, ino: int)
    requires |name| <= NAME_MAX
    ensures DirFindFrom(dev, inode, name, from) == Ok(ino) <==>
            exists b :: FirstHit(dev, inode, name, from, b, ino)
    decreases DirBlocks(inode) - from
  {
    hide Physical, Scan, DirBlocks;
    if from < DirBlocks(inode) {
      if PassedOver(dev, inode, name, from) {
        FoundExactly(dev, inode, name, from + 1, ino);
        if b :| FirstHit(dev, inode, name, from, b, ino) {
          assert FirstHit(dev, inode, name, from + 1, b, ino);
        }
        var next := from + 1;
        if b :| FirstHit(dev, inode, name, next, b, ino) {
          assert FirstHit(dev, inode, name, from, b, ino);
        }
      } else if HitAt(dev, inode, name, from, ino) {
        assert FirstHit(dev, inode, name, from, from, ino);
      }
    }
  }

  /** No entry is reported exactly when every block is passed over. */
  lemma {:induction false} AbsentExactly(dev: Device, inode: Inode, name: seq<byte>, from: nat)
    requires |name| <= NAME_MAX
    ensures DirFindFrom(dev, inode, name, from) == Err(NoEntry) <==>
            forall c :: from <= c < DirBlocks(inode) ==> PassedOver(dev, inode, name, c)
    decreases DirBlocks(inode) - from
  {
    hide Physical, Scan, DirBlocks;
    if from < DirBlocks(inode) && PassedOver(dev, inode, name, from) {
      AbsentExactly(dev, inode, name, from + 1);
    }
  }

  /** The first block that is not passed over cannot be read exactly when the search fails with an I/O error. */
  lemma {:induction false} UnreadableExactly(dev: Device, inode: Inode, name: seq<byte>, from: nat)
    requires |name| <= NAME_MAX
    ensures DirFindFrom(dev, inode, name, from) == Err(Io) <==>
            exists b :: FirstUnreadable(dev, inode, name, from, b)
    decreases DirBlocks(inode) - from
  {
    hide Physical, Scan, DirBlocks;
    if from < DirBlocks(inode) {
      if PassedOver(dev, inode, name, from) {
        var next := from + 1;
        UnreadableExactly(dev, inode, name, next);
        if b :| FirstUnreadable(dev, inode, name, from, b) { assert FirstUnreadable(dev, inode, name, next, b); }
        if b :| FirstUnreadable(dev, inode, name, next, b) { assert FirstUnreadable(dev, inode, name, from, b); }
      } else if Physical(dev, inode, from) !in dev {
        assert FirstUnreadable(dev, inode, name, from, from);
      }
    }
  }

  ghost predicate FirstUnreadable(dev: Device, inode: Inode, name: seq<byte>, from: nat, b: nat)
    requires |name| <= NAME_MAX
  {
    && from <= b < DirBlocks(inode) && Physical(dev, inode, b) != 0 && Physical(dev, inode, b) !in dev
    && forall c :: from <= c < b ==> PassedOver(dev, inode, name, c)
  }

  /** Only directories are searched, over every block that holds a byte of them, from the first. */
  lemma {:induction false} DirFindSearches(dev: Device, inode: Inode, name: seq<byte>, b: nat)
    requires |name| <= NAME_MAX && FileSize(inode) <= 4096 * (U32 - 1)
    ensures DirFind(dev, inode, name) ==
            if FileMode(inode) == 0x4000 then DirFindFrom(dev, inode, name, 0) else Err(NotDir)
    ensures b < DirBlocks(inode) <==> 4096 * b < FileSize(inode)
  {
    hide DirFindFrom, FileMode, FileSize;
    var n := FileSize(inode) + 4095;
    DivideUnique(n, U64, 0, n);
    DivideUnique(n / 4096, U32, 0, n / 4096);
  }

  // ----- inode numbers -----

  /** Numbering is onto slots and back: the slot determines the number. */
  lemma SlotRoundTrip(ipg: nat, ino: nat)
    requires ipg > 0 && ino >= 1
    ensures var s := SlotOf(ipg, ino);
            && ino - 1 == s.group * ipg + INODES_PER_BLOCK * s.block + s.index
            && s.index < INODES_PER_BLOCK && INODES_PER_BLOCK * s.block + s.index < ipg
  {
    var n := ino - 1;
    assert n == ipg * (n / ipg) + n % ipg;
    assert n / ipg * ipg == ipg * (n / ipg);
    hide *;
    Sixteen(n % ipg);
  }

  lemma Sixteen(n: nat)
    ensures n == INODES_PER_BLOCK * (n / INODES_PER_BLOCK) + n % INODES_PER_BLOCK
    ensures n % INODES_PER_BLOCK < INODES_PER_BLOCK
  {
  }

  /** And every slot below the group size has a number. */
  lemma SlotOnto(ipg: nat, s: Slot)
    requires s.index < INODES_PER_BLOCK && INODES_PER_BLOCK * s.block + s.index < ipg
    ensures SlotOf(ipg, s.group * ipg + INODES_PER_BLOCK * s.block + s.index + 1) == s
  {
    var l := INODES_PER_BLOCK * s.block + s.index;
    assert s.group * ipg == ipg * s.group;
    DivideUnique(s.group * ipg + l, ipg, s.group, l);
    DivideUnique(l, INODES_PER_BLOCK, s.block, s.index);
  }

  /** The 32-bit ARM form, by shift and subtract, finds the same slot, also when the divisor is zero. */
  method SlotBySubtraction(ipg: nat, ino: nat) returns (s: Slot)
    requires 1 <= ino < U32 && ipg < U32
    ensures s == SlotOf(ipg, ino)
  {
    var group, local := Division.Udiv32(ino - 1, ipg);
    var block, index := Division.Udiv32(local, INODES_PER_BLOCK);
    return Slot(group, block, index);
  }

  /** Each group's table has its own blocks, and none wraps. */
  ghost predicate TablesDisjoint(m: Mount, ipg: nat) {
    && (forall g :: 0 <= g < |m.groups| ==> InodeTable(m.groups[g]) + (ipg + 15) / 16 <= U32)
    && (forall g, h :: 0 <= g < h < |m.groups| ==>
          InodeTable(m.groups[g]) + (ipg + 15) / 16 <= InodeTable(m.groups[h]) ||
          InodeTable(m.groups[h]) + (ipg + 15) / 16 <= InodeTable(m.groups[g]))
  }

  function TableBlock(m: Mount, s: Slot): nat
    requires s.group < |m.groups|
  {
    (InodeTable(m.groups[s.group]) + s.block) % U32
  }

  /** Whether two slots are the same 256 bytes of the device. */
  ghost predicate SameRecord(m: Mount, s: Slot, t: Slot) {
    && s.group < |m.groups| && t.group < |m.groups|
    && TableBlock(m, s) == TableBlock(m, t) && s.index == t.index
  }

  /** Distinct inode numbers have distinct slots in disjoint tables. */
  lemma RecordsDisjoint(m: Mount, ipg: nat, i: nat, j: nat)
    requires ipg > 0 && i >= 1 && j >= 1
    ensures TablesDisjoint(m, ipg) && SameRecord(m, SlotOf(ipg, i), SlotOf(ipg, j)) ==> i == j
  {
    SlotRoundTrip(ipg, i);
    SlotRoundTrip(ipg, j);
    var s, t := SlotOf(ipg, i), SlotOf(ipg, j);
    WithinTable(ipg, s);
    WithinTable(ipg, t);
    hide SlotOf, InodeTable;
    if TablesDisjoint(m, ipg) && SameRecord(m, s, t) { TablesApart(m, ipg, s, t); }
  }

  lemma TablesApart(m: Mount, ipg: nat, s: Slot, t: Slot)
    requires TablesDisjoint(m, ipg) && s.group < |m.groups| && t.group < |m.groups|
    requires s.block < (ipg + 15) / 16 && t.block < (ipg + 15) / 16
    requires TableBlock(m, s) == TableBlock(m, t)
    ensures s.group == t.group && s.block == t.block
  {
    hide InodeTable;
    var k := (ipg + 15) / 16;
    assert TableBlock(m, s) == InodeTable(m.groups[s.group]) + s.block;
    assert TableBlock(m, t) == InodeTable(m.groups[t.group]) + t.block;
  }

  lemma WithinTable(ipg: nat, s: Slot)
    requires INODES_PER_BLOCK * s.block + s.index < ipg
    ensures s.block < (ipg + 15) / 16
  {
  }

  /** Number ino is slot i of block b of group g, in plain arithmetic. */
  ghost predicate Numbered(m: Mount, ino: nat, g: nat, b: nat, i: nat) {
    && 1 <= ino <= InodeCount(m.sb) && g < |m.groups|
    && ino - 1 == g * InodesPerGroup(m.sb) + 16 * b + i && i < 16 && 16 * b + i < InodesPerGroup(m.sb)
  }

  /** The record of such a number: 256 bytes of one block of the group's table, behind the code's checksum test. */
  lemma InodeAtExactly(dev: Device, m: Mount, ino: nat, g: nat, b: nat, i: nat)
    requires Numbered(m, ino, g, b, i)
    ensures var p := (InodeTable(m.groups[g]) + b) % U32;
            if p !in dev then InodeAt(dev, m, ino) == Err(Io)
            else
              var r := dev[p][256 * i..256 * i + 256];
              InodeAt(dev, m, ino) == if Crc32c.Crc(r[..252]) == Stored(r, 180) then Ok(r) else Err(Corrupt)
  {
    var ipg := InodesPerGroup(m.sb);
    hide InodeCount, InodesPerGroup, InodeTable, Stored, Crc32c.Crc;
    NumberedSlot(ipg, ino, g, b, i);
    hide SlotOf;
  }

  lemma NumberedSlot(ipg: nat, ino: nat, g: nat, b: nat, i: nat)
    requires ino >= 1 && ino - 1 == g * ipg + 16 * b + i && i < 16 && 16 * b + i < ipg
    ensures SlotOf(ipg, ino) == Slot(g, b, i)
  {
    hide SlotOf;
    SlotOnto(ipg, Slot(g, b, i));
  }

  /** Every other number is refused. */
  lemma InodeAtRefused(dev: Device, m: Mount, ino: nat)
    requires InodesPerGroup(m.sb) > 0
    ensures InodeAt(dev, m, ino) == Err(Invalid) <==>
            ino < 1 || ino > InodeCount(m.sb) || (ino - 1) / InodesPerGroup(m.sb) >= |m.groups|
  {
    hide InodeCount, InodesPerGroup, InodeTable, InodeAccepted;
  }

  /** The device with other bytes in the record at slot i of a block. */
  function Rewritten(dev: Device, p: nat, i: nat, r: Inode): Device
    requires p in dev && i < 16
  {
    dev[p := dev[p][..256 * i] + r + dev[p][256 * i + 256..]]
  }

  /** Rewriting the record of one number changes no other number's inode. */
  lemma RecordsIndependent(dev: Device, m: Mount, ino: nat, g: nat, b: nat, i: nat,
                           jno: nat, h: nat, c: nat, j: nat, r: Inode)
    requires Numbered(m, ino, g, b, i) && Numbered(m, jno, h, c, j) && TablesDisjoint(m, InodesPerGroup(m.sb))
    requires (InodeTable(m.groups[h]) + c) % U32 in dev && ino != jno
    ensures InodeAt(Rewritten(dev, (InodeTable(m.groups[h]) + c) % U32, j, r), m, ino) == InodeAt(dev, m, ino)
  {
    var p, q := (InodeTable(m.groups[g]) + b) % U32, (InodeTable(m.groups[h]) + c) % U32;
    PlacesApart(m, ino, g, b, i, jno, h, c, j);
    InodeAtExactly(dev, m, ino, g, b, i);
    InodeAtExactly(Rewritten(dev, q, j, r), m, ino, g, b, i);
    hide InodeAt, Numbered, InodeTable, InodesPerGroup, InodeCount, Crc32c.Crc, Stored, TablesDisjoint;
    if p == q { OtherRecord(dev[q], i, j, r); }
  }

  lemma PlacesApart(m: Mount, ino: nat, g: nat, b: nat, i: nat, jno: nat, h: nat, c: nat, j: nat)
    requires Numbered(m, ino, g, b, i) && Numbered(m, jno, h, c, j) && TablesDisjoint(m, InodesPerGroup(m.sb))
    requires ino != jno
    ensures !((InodeTable(m.groups[g]) + b) % U32 == (InodeTable(m.groups[h]) + c) % U32 && i == j)
  {
    var ipg := InodesPerGroup(m.sb);
    hide InodeTable, InodesPerGroup, InodeCount, TablesDisjoint, SlotOf;
    NumberedSlot(ipg, ino, g, b, i);
    NumberedSlot(ipg, jno, h, c, j);
    RecordsDisjoint(m, ipg, ino, jno);
  }

  /** What was written is what is read: the number's inode becomes the new record, if that is accepted. */
  lemma RecordReplaced(dev: Device, m: Mount, ino: nat, g: nat, b: nat, i: nat, r: Inode)
    requires Numbered(m, ino, g, b, i) && (InodeTable(m.groups[g]) + b) % U32 in dev && InodeAccepted(r)
    ensures InodeAt(Rewritten(dev, (InodeTable(m.groups[g]) + b) % U32, i, r), m, ino) == Ok(r)
  {
    var p := (InodeTable(m.groups[g]) + b) % U32;
    InodeAtExactly(Rewritten(dev, p, i, r), m, ino, g, b, i);
    hide InodeAt, Numbered, InodeTable, Crc32c.Crc, Stored;
    assert Rewritten(dev, p, i, r)[p][256 * i..256 * i + 256] == r;
  }

  lemma OtherRecord(blk: Block, i: nat, j: nat, r: Inode)
    requires i < 16 && j < 16 && i != j
    ensures (blk[..256 * j] + r + blk[256 * j + 256..])[256 * i..256 * i + 256] == blk[256 * i..256 * i + 256]
  {
  }

  // ----- file contents -----

  /** Reading less is a prefix of reading more. */
  lemma ReadPrefix(dev: Device, inode: Inode, m: nat, n: nat)
    requires m <= n
    ensures Contents(dev, inode, m) == Contents(dev, inode, n)[..m]
    ensures Readable(dev, inode, n) ==> Readable(dev, inode, m)
  {
    hide FileByte, BlockBytes;
  }

  /** The first n bytes can be read exactly if each of their blocks is a hole or a readable device block. */
  lemma ReadableBlocks(dev: Device, inode: Inode, n: nat)
    requires n <= 4096 * U32
    ensures Readable(dev, inode, n) <==>
            forall l: nat :: 4096 * l < n ==> Physical(dev, inode, l) == 0 || Physical(dev, inode, l) in dev
  {
    hide Physical, BlockOf;
    if Readable(dev, inode, n) {
      forall l: nat | 4096 * l < n ensures Physical(dev, inode, l) == 0 || Physical(dev, inode, l) in dev {
        OffsetBlock(l, 0);
        assert BlockBytes(dev, inode, BlockOf(4096 * l)).Ok?;
      }
    }
    if forall l: nat :: 4096 * l < n ==> Physical(dev, inode, l) == 0 || Physical(dev, inode, l) in dev {
      forall k | 0 <= k < n ensures BlockBytes(dev, inode, BlockOf(k)).Ok? {
        var l: nat := k / 4096;
        OffsetBlock(l, k % 4096);
        assert 4096 * l + k % 4096 == k;
      }
    }
  }

  /** Extent e holds the data of logical block l: it is usable, covers the block, is no hole and does not wrap. */
  ghost predicate DataExtent(dev: Device, inode: Inode, e: Extent, l: nat) {
    && Disjoint(Usable(dev, inode)) && e in Usable(dev, inode)
    && Covers(e, l) && Mapped(e) && 0 < e.physical && e.physical + e.len <= U32
  }

  /** Byte o of logical block l, covered by a data extent, is byte o of the device block the extent assigns. */
  lemma ByteOfExtent(dev: Device, inode: Inode, e: Extent, l: nat, o: nat)
    requires e.logical <= l < U32 && o < BLOCK_SIZE
    ensures var p := e.physical + (l - e.logical);
            DataExtent(dev, inode, e, l) && p in dev ==> FileByte(dev, inode, BLOCK_SIZE * l + o) == dev[p][o]
  {
    hide DataExtent, Physical, BlockOf;
    PhysicalOfExtent(dev, inode, e, l);
    OffsetBlock(l, o);
  }

  lemma PhysicalOfExtent(dev: Device, inode: Inode, e: Extent, l: nat)
    requires l >= e.logical
    ensures DataExtent(dev, inode, e, l) ==> 0 < Physical(dev, inode, l) == e.physical + (l - e.logical)
  {
    hide Disjoint, Usable, MapBlock, And;
    if DataExtent(dev, inode, e, l) {
      UniqueCover(Usable(dev, inode), e, l);
      ExtentPlace(e, l);
    }
  }

  lemma ExtentPlace(e: Extent, l: nat)
    requires Covers(e, l) && Mapped(e) && 0 < e.physical && e.physical + e.len <= U32
    ensures MappedTo(e, l) == e.physical + (l - e.logical)
  {
    hide And;
  }

  lemma OffsetBlock(l: nat, o: nat)
    requires l < U32 && o < BLOCK_SIZE
    ensures BlockOf(BLOCK_SIZE * l + o) == l && (BLOCK_SIZE * l + o) % BLOCK_SIZE == o
  {
  }

  /** A byte of a block that no extent covers, or only a hole covers, reads as zero. */
  lemma ByteOfHole(dev: Device, inode: Inode, l: nat, o: nat)
    requires l < U32 && o < BLOCK_SIZE
    requires forall e :: e in Usable(dev, inode) && Covers(e, l) ==> !Mapped(e)
    ensures FileByte(dev, inode, BLOCK_SIZE * l + o) == 0
  {
    hide Usable, MapBlock, And, Covers, MappedTo, BlockOf, Mapped;
    var es := Usable(dev, inode);
    OffsetBlock(l, o);
    if exists e :: e in es && Covers(e, l) {
      var e := SomeCover(es, l);
      HoleMapsToZero(e, l);
    } else {
      NoCover(es, l);
    }
  }

  lemma HoleMapsToZero(e: Extent, l: nat)
    requires Covers(e, l) && !Mapped(e)
    ensures MappedTo(e, l) == 0
  {
  }

  // ----- the same in plain arithmetic -----

  /** Block l lies in the interval of an extent that does not reach the last 32-bit number. */
  predicate Inside(e: Extent, l: nat) {
    e.logical <= l < e.logical + e.len && e.logical + e.len < U32
  }

  predicate HoleBit(e: Extent) {
    e.flags / 2 % 2 == 1
  }

  lemma CoversExactly(e: Extent, l: nat)
    requires e.logical < U32 && e.len < U16
    ensures Covers(e, l) <==> Inside(e, l)
  {
  }

  lemma MappedExactly(e: Extent)
    ensures Mapped(e) <==> !HoleBit(e)
  {
    var x := e.flags / 2;
    AndEven(e.flags, 1);
    AndOne(x);
    hide And;
  }

  /** The numbers of a usable extent come from 32- and 16-bit fields. */
  lemma UsableFields(dev: Device, inode: Inode, e: Extent)
    requires e in Usable(dev, inode)
    ensures e.logical < U32 && e.physical < U32 && 0 < e.len < U16
  {
    InlineFields(inode, 0, e);
    if ExtentTree(inode) in dev { TreeFields(dev[ExtentTree(inode)], 0, e); }
  }

  lemma {:induction false} InlineFields(inode: Inode, i: nat, e: Extent)
    requires i <= 4
    ensures e in InlineExtents(inode, i) ==> e.logical < U32 && e.physical < U32 && 0 < e.len < U16
    decreases 4 - i
  {
    hide ExtentAt;
    if i < 4 { InlineFields(inode, i + 1, e); }
  }

  lemma {:induction false} TreeFields(b: Block, i: nat, e: Extent)
    requires i <= 341
    ensures e in TreeExtents(b, i) ==> e.logical < U32 && e.physical < U32 && 0 < e.len < U16
    decreases 341 - i
  {
    hide ExtentAt;
    if i < 341 { TreeFields(b, i + 1, e); }
  }

  /** Of the usable extents only e contains block l, and it is no hole. */
  ghost predicate OnlyData(dev: Device, inode: Inode, e: Extent, l: nat) {
    && e in Usable(dev, inode) && Inside(e, l) && !HoleBit(e)
    && 0 < e.physical && e.physical + (l - e.logical) < U32
    && forall f :: f in Usable(dev, inode) && f != e ==> !Inside(f, l)
  }

  /** Byte o of block l is byte o of the device block that lies as far into the extent's physical run. */
  lemma ByteOfBlock(dev: Device, inode: Inode, e: Extent, l: nat, o: nat)
    requires e.logical <= l < U32 && o < 4096
    ensures OnlyData(dev, inode, e, l) && e.physical + (l - e.logical) in dev ==>
              FileByte(dev, inode, 4096 * l + o) == dev[e.physical + (l - e.logical)][o]
  {
    hide OnlyData, Physical, BlockOf;
    PlaceOfBlock(dev, inode, e, l);
    OffsetBlock(l, o);
  }

  lemma PlaceOfBlock(dev: Device, inode: Inode, e: Extent, l: nat)
    requires e.logical <= l
    ensures OnlyData(dev, inode, e, l) ==> 0 < Physical(dev, inode, l) == e.physical + (l - e.logical)
  {
    hide Usable, MapBlock, Covers, MappedTo, Inside, Mapped, HoleBit;
    if OnlyData(dev, inode, e, l) {
      OnlyCover(dev, inode, e, l);
      var f := SomeCover(Usable(dev, inode), l);
      MappedExactly(e);
      MappedRun(e, l);
    }
  }

  lemma OnlyCover(dev: Device, inode: Inode, e: Extent, l: nat)
    requires OnlyData(dev, inode, e, l)
    ensures Covers(e, l) && forall f :: f in Usable(dev, inode) && f != e ==> !Covers(f, l)
  {
    hide Usable, Covers, Inside;
    UsableFields(dev, inode, e);
    CoversExactly(e, l);
    forall f | f in Usable(dev, inode) && f != e ensures !Covers(f, l) {
      UsableFields(dev, inode, f);
      CoversExactly(f, l);
    }
  }

  lemma MappedRun(e: Extent, l: nat)
    requires e.logical <= l && Mapped(e) && e.physical + (l - e.logical) < U32
    ensures MappedTo(e, l) == e.physical + (l - e.logical)
  {
    hide And;
  }

  /** A block that lies in no usable extent, or in holes only, reads as zeros. */
  lemma ZeroBlock(dev: Device, inode: Inode, l: nat, o: nat)
    requires l < U32 && o < 4096
    ensures (forall f :: f in Usable(dev, inode) && Inside(f, l) ==> HoleBit(f)) ==>
              FileByte(dev, inode, 4096 * l + o) == 0
  {
    if forall f :: f in Usable(dev, inode) && Inside(f, l) ==> HoleBit(f) {
      hide Usable, FileByte, Covers, Inside, Mapped, HoleBit;
      forall f | f in Usable(dev, inode) && Covers(f, l) ensures !Mapped(f) {
        UsableFields(dev, inode, f);
        CoversExactly(f, l);
        MappedExactly(f);
      }
      ByteOfHole(dev, inode, l, o);
    }
  }
}
