/**
 On-disk layout of the UNFS volume: little-endian fields at fixed offsets of
 4096-byte blocks, and the records cut out of them.
 */
module UnfsFormat {
  import opened Bits
  import opened Bytes
  import Crc32c

  const BLOCK_SIZE: nat := 4096
  const INODE_SIZE: nat := 256
  const INODES_PER_BLOCK: nat := 16
  const SB_BLOCK: nat := 0
  const GDT_BLOCK: nat := 258
  const ROOT_INO: nat := 2
  const NAME_MAX: nat := 255
  const UNFS_MAGIC: nat := 0x554E_4653
  const IFMT: nat := 0xF000
  const IFREG: nat := 0x8000
  const IFDIR: nat := 0x4000
  const EXT_HOLE: nat := 2

  type Block = s: seq<byte> | |s| == 4096 witness seq(4096, _ => 0)
  type Inode = s: seq<byte> | |s| == 256 witness seq(256, _ => 0)
  type GroupDesc = s: seq<byte> | |s| == 36 witness seq(36, _ => 0)

  /** The readable blocks of the volume; a read of any other block fails. */
  type Device = map<nat, Block>

  /** The error codes of the client. */
  datatype Errno = NoEntry | Io | NotDir | Invalid | NotSupported | Corrupt

  datatype Result<+T> = Ok(value: T) | Err(error: Errno)

  /** A stored checksum word. */
  function Stored(s: seq<byte>, at: nat): bv32
    requires at + 4 <= |s|
  {
    ((s[at + 3] as bv32) << 24) | ((s[at + 2] as bv32) << 16) | ((s[at + 1] as bv32) << 8) | (s[at] as bv32)
  }

  /** The test the code makes: the checksum of the first n bytes against the word stored at an offset. */
  predicate Accepted(s: seq<byte>, n: nat, at: nat)
    requires n <= |s| && at + 4 <= |s|
  {
    Crc32c.Crc(s[..n]) == Stored(s, at)
  }

  /** An inode record passes over its first 252 bytes; the word is at offset 180. */
  predicate InodeAccepted(inode: Inode) {
    Accepted(inode, 252, 180)
  }

  /** A group descriptor passes over its first 32 bytes; the word is at offset 24. */
  predicate GroupAccepted(g: GroupDesc) {
    Accepted(g, 32, 24)
  }

  /** The superblock passes over its first 4092 bytes; the word is at offset 168. */
  predicate SuperAccepted(sb: Block) {
    Accepted(sb, 4092, 168)
  }

  function FileMode(inode: Inode): nat { And(Le16(inode, 0), IFMT) }

  function FileSize(inode: Inode): (r: nat)
    ensures r < U64
  {
    Le64(inode, 8)
  }

  function ExtentTree(inode: Inode): (r: nat)
    ensures r < U32
  {
    Le32(inode, 116)
  }

  function InodeTable(g: GroupDesc): nat { Le32(g, 8) }

  function InodeCount(sb: Block): nat { Le32(sb, 32) }

  function InodesPerGroup(sb: Block): nat { Le32(sb, 40) }

  function GroupCount(sb: Block): nat { Le32(sb, 48) }

  /** A run of file blocks: logical start, physical start, length, flags. */
  datatype Extent = Extent(logical: nat, physical: nat, len: nat, flags: nat)

  /** The 12-byte extent record at an offset. */
  function ExtentAt(s: seq<byte>, at: nat): (e: Extent)
    requires at + 12 <= |s|
    ensures e.logical < U32 && e.physical < U32 && e.len < U16 && e.flags < U16
  {
    Extent(Le32(s, at), Le32(s, at + 4), Le16(s, at + 8), Le16(s, at + 10))
  }
}
