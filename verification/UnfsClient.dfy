/**
 The read-only UNFS client: mount, path lookup and file read-out. Every block
 read goes through one scratch buffer that all the functions overwrite.
 */
module UnfsClient {
  import opened Bits
  import opened Bytes
  import opened Memory
  import opened UnfsFormat
  import opened UnfsExtents
  import opened UnfsDir
  import Crc32c
  import Division
  import UnfsPath

  /** The mount context: the superblock block and the group descriptors kept from it. */
  datatype Mount = Mount(sb: Block, groups: seq<GroupDesc>)

  // ----- what the volume says -----

  /** The group descriptor at an index of the descriptor table block. */
  function GroupAt(b: Block, g: nat): GroupDesc
    requires g < 16
  {
    b[36 * g..36 * g + 36]
  }

  function GroupsUpTo(b: Block, n: nat): (gs: seq<GroupDesc>)
    requires n <= 16
    ensures |gs| == n && forall g :: 0 <= g < n ==> gs[g] == GroupAt(b, g)
  {
    seq(n, g requires 0 <= g < n => GroupAt(b, g))
  }

  function GroupsKept(sb: Block): (n: nat)
    ensures n <= 16
  {
    if GroupCount(sb) > 16 then 16 else GroupCount(sb)
  }

  /** The superblock, if it passes every check; otherwise the error of the first that fails. */
  function SuperOf(dev: Device): Result<Block> {
    if SB_BLOCK !in dev then Err(Io)
    else if Le32(dev[SB_BLOCK], 0) != UNFS_MAGIC then Err(Invalid)
    else if Le32(dev[SB_BLOCK], 8) != BLOCK_SIZE then Err(NotSupported)
    else if Le32(dev[SB_BLOCK], 12) != INODE_SIZE then Err(NotSupported)
    else if !SuperAccepted(dev[SB_BLOCK]) then Err(Corrupt)
    else Ok(dev[SB_BLOCK])
  }

  /** The first n group descriptors, if every one passes its checksum. */
  function GroupsOf(dev: Device, n: nat): Result<seq<GroupDesc>>
    requires n <= 16
  {
    if GDT_BLOCK !in dev then Err(Io)
    else if exists g :: 0 <= g < n && !GroupAccepted(GroupAt(dev[GDT_BLOCK], g)) then Err(Corrupt)
    else Ok(GroupsUpTo(dev[GDT_BLOCK], n))
  }

  /** What mounting a volume gives. */
  function MountOf(dev: Device): Result<Mount> {
    var sb := SuperOf(dev);
    if sb.Err? then Err(sb.error)
    else
      var gs := GroupsOf(dev, GroupsKept(sb.value));
      if gs.Err? then Err(gs.error) else Ok(Mount(sb.value, gs.value))
  }

  /** Group, block offset in the group's table, and slot in that block, of an inode number. */
  datatype Slot = Slot(group: nat, block: nat, index: nat)

  function SlotOf(ipg: nat, ino: nat): Slot
    requires ino >= 1
  {
    if ipg == 0 then Slot(0, 0, 0)
    else Slot((ino - 1) / ipg, (ino - 1) % ipg / INODES_PER_BLOCK, (ino - 1) % ipg % INODES_PER_BLOCK)
  }

  /** The 256-byte record at a slot of a block. */
  function InodeRecord(b: Block, index: nat): Inode
    requires index < 16
  {
    b[index * 256..index * 256 + 256]
  }

  /** The inode with a number, as the volume holds it. */
  function InodeAt(dev: Device, m: Mount, ino: nat): Result<Inode> {
    if ino < 1 || ino > InodeCount(m.sb) then Err(Invalid)
    else
      var s := SlotOf(InodesPerGroup(m.sb), ino);
      if s.group >= |m.groups| then Err(Invalid)
      else
        var blk := (InodeTable(m.groups[s.group]) + s.block) % U32;
        if blk !in dev then Err(Io)
        else
          assert s.index < 16;
          if !InodeAccepted(InodeRecord(dev[blk], s.index)) then Err(Corrupt)
          else Ok(InodeRecord(dev[blk], s.index))
  }

  /** The number of directory blocks, in the code's 64- and 32-bit arithmetic. */
  function DirBlocks(inode: Inode): nat {
    (FileSize(inode) + 4095) % U64 / BLOCK_SIZE % U32
  }

  /** The search of a directory from block b on: holes are skipped, the first positive hit is returned. */
  function DirFindFrom(dev: Device, inode: Inode, name: seq<byte>, b: nat): (r: Result<int>)
    requires |name| <= NAME_MAX
    ensures r.Ok? ==> 0 < r.value < INT_LIMIT
    decreases DirBlocks(inode) - b
  {
    if b >= DirBlocks(inode) then Err(NoEntry)
    else
      var phys := Physical(dev, inode, b);
      if phys == 0 then DirFindFrom(dev, inode, name, b + 1)
      else if phys !in dev then Err(Io)
      else
        var ino := Scan(dev[phys], name, 0);
        if ino > 0 then ScanBound(dev[phys], name, 0); Ok(ino)
        else DirFindFrom(dev, inode, name, b + 1)
  }

  lemma {:induction false} ScanBound(blk: Block, name: seq<byte>, off: nat)
    requires |name| <= NAME_MAX
    ensures -INT_LIMIT <= Scan(blk, name, off) < INT_LIMIT
    decreases 4096 - off
  {
    hide Matches, Le16, Le32;
    if off <= LAST_RECORD && Le16(blk, off + 4) != 0 && !Matches(blk, off, name) {
      ScanBound(blk, name, off + Le16(blk, off + 4));
    }
  }

  function DirFind(dev: Device, inode: Inode, name: seq<byte>): (r: Result<int>)
    requires |name| <= NAME_MAX
    ensures r.Ok? ==> 0 < r.value < INT_LIMIT
  {
    if FileMode(inode) != IFDIR then Err(NotDir) else DirFindFrom(dev, inode, name, 0)
  }

  /** One step of a path: the named child of a directory. */
  function Child(dev: Device, m: Mount, inode: Inode, name: seq<byte>): Result<Inode>
    requires |name| <= NAME_MAX
  {
    var r := DirFind(dev, inode, name);
    if r.Err? then Err(r.error) else InodeAt(dev, m, r.value)
  }

  /** A path resolved by folding directory lookup over its names; the first error is the result. */
  function Walk(dev: Device, m: Mount, from: Result<Inode>, names: seq<seq<byte>>): Result<Inode>
    requires UnfsPath.AllShort(names)
    decreases names
  {
    if names == [] || from.Err? then from
    else Walk(dev, m, Child(dev, m, from.value, names[0]), names[1..])
  }

  /** The bytes of a logical block: zeros for a hole, nothing if the block cannot be read. */
  function BlockBytes(dev: Device, inode: Inode, l: nat): (r: Result<Block>) {
    var phys := Physical(dev, inode, l);
    if phys == 0 then Ok(Zeros(4096))
    else if phys !in dev then Err(Io)
    else Ok(dev[phys])
  }

  /** The logical block of a file offset, cut to 32 bits as the code cuts it. */
  function BlockOf(k: nat): (l: nat)
    ensures l < U32
  {
    k / BLOCK_SIZE % U32
  }

  /** Whether the first n bytes of a file can all be read. */
  ghost predicate Readable(dev: Device, inode: Inode, n: nat) {
    forall k :: 0 <= k < n ==> BlockBytes(dev, inode, BlockOf(k)).Ok?
  }

  /** The first byte of the file that cannot be read. */
  ghost predicate StopsAt(dev: Device, inode: Inode, n: nat) {
    Readable(dev, inode, n) && !Readable(dev, inode, n + 1)
  }

  /** The abstract file: a byte for every offset. */
  function FileByte(dev: Device, inode: Inode, k: nat): byte {
    var b := BlockBytes(dev, inode, BlockOf(k));
    if b.Ok? then b.value[k % BLOCK_SIZE] else 0
  }

  function Contents(dev: Device, inode: Inode, n: nat): (s: seq<byte>)
    ensures |s| == n && forall k :: 0 <= k < n ==> s[k] == FileByte(dev, inode, k)
  {
    seq(n, k requires 0 <= k < n => FileByte(dev, inode, k))
  }

  // ----- the client -----

  class Client {
    const dev: Device
    const blkbuf: array<byte>
    var mounted: bool
    var mnt: Mount

    ghost predicate Valid()
      reads this
    {
      blkbuf.Length == 4096 && (mounted ==> MountOf(dev) == Ok(mnt))
    }

    constructor (device: Device, start: Mount)
      ensures Valid() && !mounted && dev == device && fresh(blkbuf)
    {
      dev, mounted, mnt := device, false, start;
      blkbuf := new byte[4096];
    }

    /** The block-read callback: what a failed read leaves in the buffer is not specified. */
    method ReadBlockInto(blk: nat, buf: array<byte>) returns (ok: bool)
      requires buf.Length == 4096
      modifies buf
      ensures ok <==> blk in dev
      ensures ok ==> buf[..] == dev[blk]
    {
      if blk !in dev { return false; }
      var b := dev[blk];
      var i := 0;
      while i < 4096
        invariant 0 <= i <= 4096 && buf[..i] == b[..i]
      {
        buf[i] := b[i];
        i := i + 1;
        assert buf[..i] == buf[..i - 1] + [b[i - 1]];
      }
      return true;
    }

    /** unfs_mount. */
    method Mounting() returns (r: Result<()>)
      requires Valid()
      modifies this, blkbuf
      ensures Valid() && (mounted <==> r.Ok?)
      ensures mounted <==> MountOf(dev).Ok?
      ensures r.Err? ==> MountOf(dev) == Err(r.error)
    {
      hide SuperOf, GroupsOf;
      mounted := false;
      var s := ReadSuper();
      if s.Err? { return Err(s.error); }
      var n := if GroupCount(s.value) > 16 then 16 else GroupCount(s.value);
      var g := ReadGroups(n);
      if g.Err? { return Err(g.error); }
      mnt := Mount(s.value, g.value);
      mounted := true;
      return Ok(());
    }

    /** The superblock part of unfs_mount. */
    method ReadSuper() returns (r: Result<Block>)
      requires Valid()
      modifies blkbuf
      ensures r == SuperOf(dev)
    {
      hide Le32, Accepted, Stored;
      var ok := ReadBlockInto(SB_BLOCK, blkbuf);
      if !ok { return Err(Io); }
      if Le32(blkbuf[..], 0) != UNFS_MAGIC { return Err(Invalid); }
      if Le32(blkbuf[..], 8) != BLOCK_SIZE { return Err(NotSupported); }
      if Le32(blkbuf[..], 12) != INODE_SIZE { return Err(NotSupported); }
      var crc := Crc32c.UnfsCrc32c(blkbuf, 0, 4092);
      SuperTest(blkbuf[..], crc);
      if crc != Stored(blkbuf[..], 168) { return Err(Corrupt); }
      return Ok(blkbuf[..]);
    }

    /** The group descriptor part of unfs_mount. */
    method ReadGroups(n: nat) returns (r: Result<seq<GroupDesc>>)
      requires Valid() && n <= 16
      modifies blkbuf
      ensures r == GroupsOf(dev, n)
    {
      hide GroupAccepted, GroupAt, Stored;
      var ok := ReadBlockInto(GDT_BLOCK, blkbuf);
      if !ok { return Err(Io); }
      var groups: seq<GroupDesc> := [];
      ghost var b := dev[GDT_BLOCK];
      var g := 0;
      while g < n
        invariant 0 <= g <= n
        invariant blkbuf[..] == b
        invariant forall h :: 0 <= h < g ==> GroupAccepted(GroupAt(b, h))
        invariant groups == GroupsUpTo(b, g)
      {
        var gcrc := Crc32c.UnfsCrc32c(blkbuf, 36 * g, 32);
        GroupTest(b, g, gcrc);
        if gcrc != Stored(blkbuf[..], 36 * g + 24) { return Err(Corrupt); }
        groups := groups + [GroupAt(blkbuf[..], g)];
        g := g + 1;
      }
      return Ok(groups);
    }

    /** read_inode. */
    method ReadInode(ino: nat) returns (r: Result<Inode>)
      requires Valid() && mounted && ino < U32
      modifies blkbuf
      ensures r == InodeAt(dev, mnt, ino)
    {
      hide MountOf, Accepted, Stored, InodeAccepted, Le32;
      if ino < 1 || ino > InodeCount(mnt.sb) { return Err(Invalid); }
      var grp, local := Division.Udiv32(ino - 1, InodesPerGroup(mnt.sb));
      var blkOffset, index := Division.Udiv32(local, INODES_PER_BLOCK);
      assert Slot(grp, blkOffset, index) == SlotOf(InodesPerGroup(mnt.sb), ino);
      if grp >= |mnt.groups| { return Err(Invalid); }
      var tableBlk := (InodeTable(mnt.groups[grp]) + blkOffset) % U32;
      var ok := ReadBlockInto(tableBlk, blkbuf);
      if !ok { return Err(Io); }
      var expected := Crc32c.UnfsCrc32c(blkbuf, index * INODE_SIZE, INODE_SIZE - 4);
      InodeTest(blkbuf[..], index, expected);
      if expected != Stored(blkbuf[..], index * INODE_SIZE + 180) { return Err(Corrupt); }
      return Ok(blkbuf[index * 256..index * 256 + 256]);
    }

    /** extent_lookup. */
    method ExtentLookup(inode: Inode, l: nat) returns (phys: nat)
      requires Valid() && l < U32
      modifies blkbuf
      ensures phys == Physical(dev, inode, l)
    {
      hide ExtentAt, And, Covers, MappedTo, ExtentTree;
      ghost var over := Overflow(dev, inode);
      var i := 0;
      while i < 4
        invariant 0 <= i <= 4
        invariant MapBlock(InlineExtents(inode, i) + over, l) == Physical(dev, inode, l)
      {
        InlineStep(inode, i, over, l);
        var e := ExtentAt(inode, 68 + 12 * i);
        if e.len != 0 {
          if CoversTest(e, l) { return MappedTo(e, l); }
        }
        i := i + 1;
      }
      assert InlineExtents(inode, 4) + over == over;
      if ExtentTree(inode) == 0 { return 0; }
      phys := TreeLookup(ExtentTree(inode), l);
    }

    /** The overflow part of extent_lookup: it overwrites the scratch buffer. */
    method TreeLookup(tree: nat, l: nat) returns (phys: nat)
      requires Valid()
      modifies blkbuf
      ensures phys == if tree in dev then MapBlock(TreeExtents(dev[tree], 0), l) else 0
    {
      hide ExtentAt, And, Covers, MappedTo;
      var ok := ReadBlockInto(tree, blkbuf);
      if !ok { return 0; }
      ghost var b := dev[tree];
      var i := 0;
      while i < 341
        invariant 0 <= i <= 341 && blkbuf[..] == b
        invariant MapBlock(TreeExtents(b, i), l) == MapBlock(TreeExtents(b, 0), l)
      {
        var e := ExtentAt(blkbuf[..], 12 * i);
        if e.len == 0 { break; }
        if CoversTest(e, l) { return MappedTo(e, l); }
        i := i + 1;
      }
      return 0;
    }

    /** dir_lookup. Each directory block goes to a buffer of its own. */
    method DirLookup(inode: Inode, name: seq<byte>) returns (r: Result<int>)
      requires Valid() && |name| <= NAME_MAX
      modifies blkbuf
      ensures r == DirFind(dev, inode, name)
    {
      hide MountOf, FileMode, FileSize, Physical, Scan;
      if FileMode(inode) != IFDIR { return Err(NotDir); }
      var n := DirBlocks(inode);
      var b := 0;
      while b < n
        invariant 0 <= b <= n
        invariant DirFindFrom(dev, inode, name, b) == DirFindFrom(dev, inode, name, 0)
      {
        var phys := ExtentLookup(inode, b);
        if phys != 0 {
          var dirbuf := new byte[4096];
          var ok := ReadBlockInto(phys, dirbuf);
          if !ok { return Err(Io); }
          var ino := DirScanBlock(dirbuf, name);
          if ino > 0 { return Ok(ino); }
        }
        b := b + 1;
      }
      return Err(NoEntry);
    }

    /** unfs_lookup, with p the rest of the path. */
    method Lookup(path: seq<byte>) returns (r: Result<Inode>)
      requires Valid()
      modifies blkbuf
      ensures !mounted ==> r == Err(Invalid)
      ensures mounted ==> r == Resolve(dev, mnt, UnfsPath.SkipSlash(path))
    {
      hide MountOf, InodeAt, DirFind, UnfsPath.Pieces, Walk;
      if !mounted { return Err(Invalid); }
      ghost var answer := Resolve(dev, mnt, UnfsPath.SkipSlash(path));
      r := ReadInode(ROOT_INO);
      var p := UnfsPath.SkipSlash(path);
      if r.Err? {
        WalkFails(dev, mnt, r, p);
        return;
      }
      while p != []
        invariant r.Ok? && WalkRest(dev, mnt, r, p) == answer
        decreases |p|
      {
        var compLen := ComponentLength(p);
        var name := p[..compLen];
        WalkStep(dev, mnt, r, p, compLen);
        p := UnfsPath.After(p, compLen);
        if compLen == 0 { continue; }
        var child := DirLookup(r.value, name);
        if child.Err? {
          WalkFails(dev, mnt, Err(child.error), p);
          return Err(child.error);
        }
        r := ReadInode(child.value);
        if r.Err? {
          WalkFails(dev, mnt, r, p);
          return;
        }
      }
      WalkEnds(dev, mnt, r);
    }

    /** unfs_read_file into the memory from loadPa on. */
    method ReadFile(inode: Inode, mem: array<byte>, loadPa: nat, maxBytes: nat) returns (r: Result<nat>)
      requires Valid() && maxBytes < U64 && mem != blkbuf
      requires loadPa + Clipped(FileSize(inode), maxBytes) <= mem.Length
      modifies blkbuf, mem
      ensures !mounted || loadPa == 0 || FileMode(inode) != IFREG ==>
                r == Err(Invalid) && mem[..] == old(mem[..])
      ensures mounted && loadPa != 0 && FileMode(inode) == IFREG ==>
                var size := Clipped(FileSize(inode), maxBytes);
                if Readable(dev, inode, size)
                then r == Ok(size) && Delivered(old(mem[..]), mem[..], loadPa, Contents(dev, inode, size))
                else r == Err(Io) && exists n ::
                  0 <= n < size && StopsAt(dev, inode, n) &&
                  Delivered(old(mem[..]), mem[..], loadPa, Contents(dev, inode, n))
    {
      hide MountOf, FileMode, FileSize, BlockBytes, Contents, Delivered, Readable, StopsAt, BlockOf, Progress;
      if !mounted || loadPa == 0 || FileMode(inode) != IFREG { return Err(Invalid); }
      var size := FileSize(inode);
      if size > maxBytes { size := maxBytes; }
      var remaining: nat, fileOff: nat := size, 0;
      ghost var m0 := mem[..];
      NothingYet(dev, inode, m0, loadPa);
      while remaining > 0
        invariant fileOff + remaining == size
        invariant remaining > 0 ==> fileOff % BLOCK_SIZE == 0
        invariant Progress(dev, inode, m0, mem[..], loadPa, fileOff)
      {
        var l := BlockOf(fileOff);
        var blkOff := fileOff % BLOCK_SIZE;
        var canCopy := BLOCK_SIZE - blkOff;
        if canCopy > remaining { canCopy := remaining; }
        ghost var before := mem[..];
        var ok := CopyBlock(inode, mem, loadPa + fileOff, l, blkOff, canCopy);
        if !ok {
          ProgressMeans(dev, inode, m0, mem[..], loadPa, fileOff);
          UnreadableHere(dev, inode, fileOff, size);
          return Err(Io);
        }
        MoreDelivered(dev, inode, m0, before, mem[..], loadPa, fileOff, canCopy);
        fileOff := fileOff + canCopy;
        remaining := remaining - canCopy;
      }
      ProgressMeans(dev, inode, m0, mem[..], loadPa, size);
      return Ok(size);
    }

    /** One block of the read loop: zeros for a hole, else block data; both go through the scratch buffer's owner. */
    method CopyBlock(inode: Inode, mem: array<byte>, at: nat, l: nat, blkOff: nat, n: nat) returns (ok: bool)
      requires Valid() && mem != blkbuf && l < U32
      requires at + n <= mem.Length && blkOff + n <= 4096
      modifies blkbuf, mem
      ensures ok <==> BlockBytes(dev, inode, l).Ok?
      ensures ok ==> mem[..] == Overlay(old(mem[..]), at, BlockBytes(dev, inode, l).value[blkOff..blkOff + n])
      ensures !ok ==> mem[..] == old(mem[..])
    {
      hide MountOf, Physical;
      var phys := ExtentLookup(inode, l);
      if phys == 0 {
        ZeroBytes(mem, at, n);
        assert Zeros(n) == BlockBytes(dev, inode, l).value[blkOff..blkOff + n];
        return true;
      }
      ok := ReadBlockInto(phys, blkbuf);
      if ok { CopyBytes(mem, at, blkbuf[..], blkOff, n); }
    }

    /** The inner loop of the path walk: the length of the next name. */
    method ComponentLength(p: seq<byte>) returns (compLen: nat)
      ensures compLen == UnfsPath.Span(p, NAME_MAX)
    {
      compLen := 0;
      while compLen < |p| && p[compLen] != UnfsPath.SLASH && compLen < NAME_MAX
        invariant 0 <= compLen <= |p| && compLen <= NAME_MAX
        invariant forall i :: 0 <= i < compLen ==> p[i] != UnfsPath.SLASH
      {
        compLen := compLen + 1;
      }
    }
  }

  /** One inline slot: unused, covering, or passed over. */
  lemma {:induction false} InlineStep(inode: Inode, i: nat, over: seq<Extent>, l: nat)
    requires i < 4
    ensures var e := ExtentAt(inode, 68 + 12 * i);
            MapBlock(InlineExtents(inode, i) + over, l) ==
            if e.len != 0 && Covers(e, l) then MappedTo(e, l) else MapBlock(InlineExtents(inode, i + 1) + over, l)
  {
    hide ExtentAt, Covers, MappedTo;
    var e, rest := ExtentAt(inode, 68 + 12 * i), InlineExtents(inode, i + 1) + over;
    if e.len == 0 {
      assert InlineExtents(inode, i) + over == rest;
    } else {
      assert InlineExtents(inode, i) + over == [e] + rest;
      assert ([e] + rest)[1..] == rest;
    }
  }

  predicate CoversTest(e: Extent, l: nat)
    ensures CoversTest(e, l) == Covers(e, l)
  {
    e.logical <= l && l < (e.logical + e.len) % U32
  }

  lemma SuperTest(b: Block, crc: bv32)
    requires crc == Crc32c.Crc(b[0..0 + 4092])
    ensures crc == Stored(b, 168) <==> SuperAccepted(b)
  {
    hide Crc32c.Crc, Stored;
    assert b[0..0 + 4092] == b[..4092];
  }

  /** A stored word is where its four bytes are. */
  lemma StoredMoves(b: seq<byte>, at: nat, d: seq<byte>, i: nat)
    requires at + 4 <= |b| && i + 4 <= |d|
    requires d[i] == b[at] && d[i + 1] == b[at + 1] && d[i + 2] == b[at + 2] && d[i + 3] == b[at + 3]
    ensures Stored(d, i) == Stored(b, at)
  {
  }

  lemma GroupTest(b: Block, g: nat, crc: bv32)
    requires g < 16 && crc == Crc32c.Crc(b[36 * g..36 * g + 32])
    ensures crc == Stored(b, 36 * g + 24) <==> GroupAccepted(GroupAt(b, g))
  {
    hide Crc32c.Crc, Stored;
    var d := GroupAt(b, g);
    assert d[..32] == b[36 * g..36 * g + 32];
    StoredMoves(b, 36 * g + 24, d, 24);
  }

  lemma InodeTest(b: Block, index: nat, crc: bv32)
    requires index < 16 && crc == Crc32c.Crc(b[index * 256..index * 256 + 252])
    ensures crc == Stored(b, index * 256 + 180) <==> InodeAccepted(InodeRecord(b, index))
  {
    hide Crc32c.Crc, Stored;
    var d := InodeRecord(b, index);
    assert d[..252] == b[index * 256..index * 256 + 252];
    StoredMoves(b, index * 256 + 180, d, 180);
  }

  // ----- steps of the path walk -----

  /** The walk over what is left of a path. */
  function WalkRest(dev: Device, m: Mount, r: Result<Inode>, p: seq<byte>): Result<Inode> {
    UnfsPath.PiecesShort(p);
    Walk(dev, m, r, UnfsPath.Pieces(p))
  }

  /** A path resolved from the root inode. */
  function Resolve(dev: Device, m: Mount, p: seq<byte>): Result<Inode> {
    WalkRest(dev, m, InodeAt(dev, m, ROOT_INO), p)
  }

  lemma WalkFails(dev: Device, m: Mount, r: Result<Inode>, p: seq<byte>)
    requires r.Err?
    ensures WalkRest(dev, m, r, p) == r
  {
  }

  lemma WalkEnds(dev: Device, m: Mount, r: Result<Inode>)
    ensures WalkRest(dev, m, r, []) == r
  {
  }

  lemma {:induction false} WalkStep(dev: Device, m: Mount, r: Result<Inode>, p: seq<byte>, n: nat)
    requires r.Ok? && p != [] && n == UnfsPath.Span(p, NAME_MAX)
    ensures WalkRest(dev, m, r, p) ==
            WalkRest(dev, m, if n == 0 then r else Child(dev, m, r.value, p[..n]), UnfsPath.After(p, n))
  {
    hide Child, UnfsPath.After;
    var rest := UnfsPath.Pieces(UnfsPath.After(p, n));
    UnfsPath.PiecesShort(p);
    if n == 0 {
      assert UnfsPath.Pieces(p) == [] + rest == rest;
    } else {
      assert UnfsPath.Pieces(p) == [p[..n]] + rest;
      assert ([p[..n]] + rest)[1..] == rest;
    }
  }

  // ----- steps of the file read -----

  function Clipped(size: nat, maxBytes: nat): nat {
    if size > maxBytes then maxBytes else size
  }

  /** Memory after some bytes were written at an address, and nothing else. */
  ghost predicate Delivered(before: seq<byte>, now: seq<byte>, at: nat, bytes: seq<byte>) {
    at + |bytes| <= |before| && now == Overlay(before, at, bytes)
  }

  /** The loop invariant of the read: the first n bytes are readable and delivered. */
  ghost predicate Progress(dev: Device, inode: Inode, m0: seq<byte>, m: seq<byte>, at: nat, n: nat) {
    Readable(dev, inode, n) && Delivered(m0, m, at, Contents(dev, inode, n))
  }

  lemma ProgressMeans(dev: Device, inode: Inode, m0: seq<byte>, m: seq<byte>, at: nat, n: nat)
    requires Progress(dev, inode, m0, m, at, n)
    ensures Readable(dev, inode, n) && Delivered(m0, m, at, Contents(dev, inode, n))
  {
  }

  lemma NothingYet(dev: Device, inode: Inode, mem: seq<byte>, at: nat)
    requires at <= |mem|
    ensures Progress(dev, inode, mem, mem, at, 0)
  {
    assert mem[..at] + [] + mem[at..] == mem;
  }

  lemma Splice(m0: seq<byte>, m1: seq<byte>, m2: seq<byte>, at: nat, s: seq<byte>, t: seq<byte>)
    requires Delivered(m0, m1, at, s) && Delivered(m1, m2, at + |s|, t)
    ensures Delivered(m0, m2, at, s + t)
  {
  }

  lemma MoreDelivered(dev: Device, inode: Inode, m0: seq<byte>, m1: seq<byte>, m2: seq<byte>, at: nat, off: nat, n: nat)
    requires off % BLOCK_SIZE == 0 && n <= BLOCK_SIZE && at + off + n <= |m1|
    requires BlockBytes(dev, inode, BlockOf(off)).Ok?
    requires Progress(dev, inode, m0, m1, at, off)
    requires m2 == Overlay(m1, at + off, BlockBytes(dev, inode, BlockOf(off)).value[0..n])
    ensures Progress(dev, inode, m0, m2, at, off + n)
  {
    hide BlockBytes, Contents, Readable;
    BlockDelivered(dev, inode, off, n);
    Splice(m0, m1, m2, at, Contents(dev, inode, off), BlockBytes(dev, inode, BlockOf(off)).value[0..n]);
  }

  lemma UnreadableHere(dev: Device, inode: Inode, off: nat, size: nat)
    requires off < size
    ensures BlockBytes(dev, inode, BlockOf(off)).Err? && Readable(dev, inode, off) ==>
              StopsAt(dev, inode, off) && !Readable(dev, inode, size)
  {
  }

  lemma SameBlock(off: nat, k: nat)
    requires off % BLOCK_SIZE == 0 && off <= k < off + BLOCK_SIZE
    ensures k / BLOCK_SIZE == off / BLOCK_SIZE && k % BLOCK_SIZE == k - off
  {
  }

  /** The bytes of one block extend the contents. */
  lemma BlockDelivered(dev: Device, inode: Inode, off: nat, n: nat)
    requires off % BLOCK_SIZE == 0 && n <= BLOCK_SIZE
    requires BlockBytes(dev, inode, BlockOf(off)).Ok?
    ensures Readable(dev, inode, off) ==> Readable(dev, inode, off + n)
    ensures Contents(dev, inode, off + n) ==
            Contents(dev, inode, off) + BlockBytes(dev, inode, BlockOf(off)).value[0..n]
  {
    hide BlockBytes;
    forall k | off <= k < off + n
      ensures k / BLOCK_SIZE == off / BLOCK_SIZE && k % BLOCK_SIZE == k - off
    {
      SameBlock(off, k);
    }
  }
}
