/**
 Directory blocks: variable-length records scanned by their record length.
 */
module UnfsDir {
  import opened Bits
  import opened Bytes
  import opened UnfsFormat

  /** The least number that a C int cannot hold. */
  const INT_LIMIT: int := 0x8000_0000

  /** A 32-bit word returned as a C int. */
  function AsInt32(n: nat): int
    requires n < U32
  {
    if n < INT_LIMIT then n else n - U32
  }

  /** The largest offset at which a whole record structure still fits the block. */
  const LAST_RECORD: nat := 3832

  predicate Matches(blk: Block, off: nat, name: seq<byte>)
    requires off <= LAST_RECORD && |name| <= NAME_MAX
  {
    Le32(blk, off) != 0 && Octet(blk[off + 6]) == |name| && blk[off + 8..off + 8 + |name|] == name
  }

  /** The scan from an offset: the inode number of the first live match, 0 if there is none. */
  function Scan(blk: Block, name: seq<byte>, off: nat): int
    requires |name| <= NAME_MAX
    decreases 4096 - off
  {
    if off > LAST_RECORD || Le16(blk, off + 4) == 0 then 0
    else if Matches(blk, off, name) then AsInt32(Le32(blk, off))
    else Scan(blk, name, off + Le16(blk, off + 4))
  }

  /** dir_scan_block. */
  method DirScanBlock(blk: array<byte>, name: seq<byte>) returns (ino: int)
    requires blk.Length == 4096 && |name| <= NAME_MAX
    ensures ino == Scan(blk[..], name, 0)
  {
    hide Le16, Le32, Octet, AsInt32;
    var off := 0;
    while off + 264 <= BLOCK_SIZE
      invariant Scan(blk[..], name, off) == Scan(blk[..], name, 0)
      decreases BLOCK_SIZE - off
    {
      var recLen := Le16(blk[..], off + 4);
      if recLen == 0 { break; }
      if Le32(blk[..], off) != 0 && Octet(blk[off + 6]) == |name| {
        var match' := true;
        var i := 0;
        while i < |name|
          invariant 0 <= i <= |name|
          invariant match' ==> blk[off + 8..off + 8 + i] == name[..i]
          invariant !match' ==> blk[off + 8..off + 8 + |name|] != name
        {
          if blk[off + 8 + i] != name[i] {
            match' := false;
            assert blk[off + 8..off + 8 + |name|][i] != name[i];
            break;
          }
          i := i + 1;
        }
        if match' {
          assert name[..|name|] == name;
          return AsInt32(Le32(blk[..], off));
        }
      }
      off := off + recLen;
    }
    return 0;
  }

  // ----- the records as they are written -----

  datatype Dirent = Dirent(ino: nat, kind: byte, name: seq<byte>, pad: seq<byte>)

  function RecLen(d: Dirent): nat {
    8 + |d.name| + |d.pad|
  }

  predicate Storable(d: Dirent) {
    d.ino < U32 && |d.name| <= NAME_MAX && RecLen(d) < U16
  }

  function Encode(d: Dirent): (s: seq<byte>)
    requires Storable(d)
    ensures |s| == RecLen(d)
  {
    PutLe32(d.ino) + PutLe16(RecLen(d)) + [|d.name| as byte, d.kind] + d.name + d.pad
  }

  function Layout(ds: seq<Dirent>): seq<byte>
    requires forall i :: 0 <= i < |ds| ==> Storable(ds[i])
  {
    if ds == [] then [] else Encode(ds[0]) + Layout(ds[1..])
  }

  /** The first live record of that name that leaves room for the largest record, 264 bytes, in the block. */
  function FirstLive(ds: seq<Dirent>, name: seq<byte>, off: nat): int
    requires forall i :: 0 <= i < |ds| ==> Storable(ds[i])
  {
    if ds == [] || off + 264 > 4096 then 0
    else
      assert Storable(ds[0]);
      if ds[0].ino != 0 && ds[0].name == name then AsInt32(ds[0].ino)
      else FirstLive(ds[1..], name, off + RecLen(ds[0]))
  }

  /** Bytes at which a scan stops: too few for a record, or a record length of zero. */
  predicate Ends(rest: seq<byte>) {
    |rest| < 264 || Le16(rest, 4) == 0
  }

  /** The fields of an encoded record, found where the scan looks for them. */
  lemma EncodedFields(blk: Block, off: nat, d: Dirent, name: seq<byte>)
    requires off <= LAST_RECORD && Storable(d) && |name| <= NAME_MAX
    requires off + RecLen(d) <= 4096 && blk[off..off + RecLen(d)] == Encode(d)
    ensures Le16(blk, off + 4) == RecLen(d) && Le32(blk, off) == d.ino
    ensures Matches(blk, off, name) <==> d.ino != 0 && d.name == name
  {
    hide Le16, Le32, Octet, PutLe16, PutLe32, Encode, Matches;
    var e := Encode(d);
    EncodeParts(d);
    assert forall i :: 0 <= i < |e| ==> e[i] == blk[off..off + RecLen(d)][i] == blk[off + i];
    assert blk[off..off + 4] == e[0..4];
    assert blk[off + 4..off + 6] == e[4..6];
    DecodeLe32(d.ino, blk, off);
    DecodeLe16(RecLen(d), blk, off + 4);
    OctetOf(|d.name|);
    assert blk[off + 8..off + 8 + |d.name|] == e[8..8 + |d.name|];
    MatchesMeans(blk, off, d, name);
  }

  lemma MatchesMeans(blk: Block, off: nat, d: Dirent, name: seq<byte>)
    requires off <= LAST_RECORD && |d.name| <= NAME_MAX && |name| <= NAME_MAX
    requires Le32(blk, off) == d.ino && Octet(blk[off + 6]) == |d.name|
    requires blk[off + 8..off + 8 + |d.name|] == d.name
    ensures Matches(blk, off, name) <==> d.ino != 0 && d.name == name
  {
    hide Le32, Octet;
  }

  lemma EncodeParts(d: Dirent)
    requires Storable(d)
    ensures var e := Encode(d);
            && e[0..4] == PutLe32(d.ino) && e[4..6] == PutLe16(RecLen(d))
            && e[6] == |d.name| as byte && e[8..8 + |d.name|] == d.name
  {
    hide PutLe16, PutLe32;
    var e, head := Encode(d), PutLe32(d.ino) + PutLe16(RecLen(d)) + [|d.name| as byte, d.kind];
    assert e == head + (d.name + d.pad);
    assert e[0..4] == head[0..4] && e[4..6] == head[4..6];
  }

  /** Scanning records laid out back to back finds the first live one of that name, and no other. */
  lemma {:induction false} ScanLayout(blk: Block, ds: seq<Dirent>, rest: seq<byte>, name: seq<byte>, off: nat)
    requires |name| <= NAME_MAX && off <= 4096
    requires forall i :: 0 <= i < |ds| ==> Storable(ds[i])
    requires blk[off..] == Layout(ds) + rest && Ends(rest)
    ensures Scan(blk, name, off) == FirstLive(ds, name, off)
    decreases ds
  {
    hide Le16, Le32, Encode, Matches, AsInt32;
    if ds == [] {
      assert blk[off..] == rest;
      if off <= LAST_RECORD { LengthAt(blk, off, rest); }
    } else if off <= LAST_RECORD {
      var d := ds[0];
      var k := RecLen(d);
      assert blk[off..] == Encode(d) + (Layout(ds[1..]) + rest);
      assert blk[off..off + k] == blk[off..][..k];
      assert blk[off + k..] == blk[off..][k..];
      EncodedFields(blk, off, d, name);
      ScanLayout(blk, ds[1..], rest, name, off + k);
    }
  }

  lemma LengthAt(blk: Block, off: nat, rest: seq<byte>)
    requires off <= LAST_RECORD && blk[off..] == rest
    ensures Le16(blk, off + 4) == Le16(rest, 4)
  {
    assert blk[off + 4] == rest[4] && blk[off + 5] == rest[5];
    hide Octet;
  }
}
