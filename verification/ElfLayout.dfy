/**
 ELF64 file and program headers written field by field (System V gABI, chapters
 4 and 5), and what the loaders make of them in plain arithmetic.
 */
module ElfLayout {
  import opened Bits
  import opened Bytes
  import opened Packed
  import opened ElfLoad

  // ----- the headers -----

  datatype FileHeader = FileHeader(
    ident: seq<byte>, kind: nat, machine: nat, version: nat, entry: nat, phoff: nat, shoff: nat, flags: nat,
    ehsize: nat, phentsize: nat, phnum: nat, shentsize: nat, shnum: nat, shstrndx: nat)

  predicate StorableHeader(f: FileHeader) {
    |f.ident| == 16 && f.entry < U64 && f.phoff < U64 && f.phentsize < U16 && f.phnum < U16
  }

  function PutHeader(f: FileHeader): (s: seq<seq<byte>>)
    requires StorableHeader(f)
    ensures |s| == 14
  {
    [f.ident, PutLe16(f.kind), PutLe16(f.machine), PutLe32(f.version), PutLe64(f.entry), PutLe64(f.phoff),
     PutLe64(f.shoff), PutLe32(f.flags), PutLe16(f.ehsize), PutLe16(f.phentsize), PutLe16(f.phnum),
     PutLe16(f.shentsize), PutLe16(f.shnum), PutLe16(f.shstrndx)]
  }

  lemma HeaderStarts(f: FileHeader)
    requires StorableHeader(f)
    ensures var s := PutHeader(f);
            && Start(s, 0) == 0 && Start(s, 4) == 24 && Start(s, 5) == 32 && Start(s, 9) == 54 && Start(s, 10) == 56
            && Start(s, 14) == 64
  {
    hide PutLe16, PutLe32, PutLe64, Start;
    var s := PutHeader(f);
    NextStart(s, 0);
    NextStart(s, 1);
    NextStart(s, 2);
    NextStart(s, 3);
    NextStart(s, 4);
    NextStart(s, 5);
    NextStart(s, 6);
    NextStart(s, 7);
    NextStart(s, 8);
    NextStart(s, 9);
    NextStart(s, 10);
    NextStart(s, 11);
    NextStart(s, 12);
    NextStart(s, 13);
  }

  /** A field of a structure at the start of a file. */
  lemma {:induction false} Found(elf: seq<byte>, at: nat, s: seq<seq<byte>>, k: nat, n: nat)
    requires at + n <= |elf| && elf[at..at + n] == Join(s) && k < |s|
    ensures Start(s, k) + |s[k]| <= n
    ensures elf[at + Start(s, k)..at + Start(s, k) + |s[k]|] == s[k]
  {
    FieldAt(s, k);
    hide Join, Start;
    Sub(elf, at, n, Start(s, k), Start(s, k) + |s[k]|);
  }

  /** The loaders read from a file header what was written, and know the file by its first six bytes. */
  lemma HeaderRoundTrip(f: FileHeader, elf: seq<byte>)
    requires StorableHeader(f) && |elf| >= 64 && elf[..64] == Join(PutHeader(f))
    ensures Entry(elf) == f.entry && HeaderOffset(elf) == f.phoff
    ensures HeaderStride(elf) == f.phentsize && HeaderCount(elf) == f.phnum
    ensures HasMagic(elf) <==> f.ident[..4] == [0x7F, 0x45, 0x4C, 0x46]
    ensures IsElf64(elf) <==> f.ident[..6] == [0x7F, 0x45, 0x4C, 0x46, 2, 1]
  {
    hide PutLe16, PutLe32, PutLe64, Join, Start, Le16, Le32, Le64;
    var s := PutHeader(f);
    HeaderStarts(f);
    assert elf[0..0 + 64] == elf[..64];
    Found(elf, 0, s, 0, 64);
    Found(elf, 0, s, 4, 64);
    Found(elf, 0, s, 5, 64);
    Found(elf, 0, s, 9, 64);
    Found(elf, 0, s, 10, 64);
    DecodeLe64(f.entry, elf, 24);
    DecodeLe64(f.phoff, elf, 32);
    DecodeLe16(f.phentsize, elf, 54);
    DecodeLe16(f.phnum, elf, 56);
    assert elf[0..16] == f.ident;
    hide PutHeader;
    MagicBytes(elf);
    assert forall i :: 0 <= i < 16 ==> elf[i] == f.ident[i];
  }

  lemma MagicBytes(elf: seq<byte>)
    requires |elf| >= 4
    ensures HasMagic(elf) <==> elf[0] == 0x7F && elf[1] == 0x45 && elf[2] == 0x4C && elf[3] == 0x46
  {
    hide Le32;
    var a, b, c, d := 0x7F, 0x45, 0x4C, 0x46;
    WordBytes(elf, a, b, c, d);
    MagicNumber();
  }

  lemma MagicNumber()
    ensures 0x7F + 256 * 0x45 + U16 * (0x4C + 256 * 0x46) == ELF_MAGIC
    ensures (0x7F as byte) == 0x7F && (0x45 as byte) == 0x45 && (0x4C as byte) == 0x4C && (0x46 as byte) == 0x46
  {
  }

  /** A word equals a number exactly if its four bytes do. */
  lemma WordBytes(s: seq<byte>, a: nat, b: nat, c: nat, d: nat)
    requires |s| >= 4 && a < 256 && b < 256 && c < 256 && d < 256
    ensures Le32(s, 0) == a + 256 * b + U16 * (c + 256 * d) <==>
            a as byte == s[0] && b as byte == s[1] && c as byte == s[2] && d as byte == s[3]
  {
    hide Octet;
    SameByte(a, s[0]);
    SameByte(b, s[1]);
    SameByte(c, s[2]);
    SameByte(d, s[3]);
    SameDigits(Octet(s[0]), Octet(s[1]), Octet(s[2]), Octet(s[3]), a, b, c, d);
  }

  lemma SameDigits(p: nat, q: nat, r: nat, s: nat, a: nat, b: nat, c: nat, d: nat)
    requires p < 256 && q < 256 && r < 256 && s < 256 && a < 256 && b < 256 && c < 256 && d < 256
    ensures p + 256 * q + U16 * (r + 256 * s) == a + 256 * b + U16 * (c + 256 * d) <==>
            p == a && q == b && r == c && s == d
  {
  }

  datatype ProgramHeader = ProgramHeader(
    kind: nat, flags: nat, offset: nat, vaddr: nat, paddr: nat, filesz: nat, memsz: nat, align: nat)

  predicate StorableSegment(f: ProgramHeader) {
    f.kind < U32 && f.offset < U64 && f.paddr < U64 && f.filesz < U64 && f.memsz < U64
  }

  function PutSegment(f: ProgramHeader): (s: seq<seq<byte>>)
    requires StorableSegment(f)
    ensures |s| == 8
  {
    [PutLe32(f.kind), PutLe32(f.flags), PutLe64(f.offset), PutLe64(f.vaddr), PutLe64(f.paddr),
     PutLe64(f.filesz), PutLe64(f.memsz), PutLe64(f.align)]
  }

  /** The loaders read from a program header its type, offset, physical address and two sizes. */
  lemma SegmentRoundTrip(f: ProgramHeader, elf: seq<byte>, at: nat)
    requires StorableSegment(f) && at + 56 <= |elf| && elf[at..at + 56] == Join(PutSegment(f))
    ensures SegmentAt(elf, at) == Segment(f.kind, f.offset, f.paddr, f.filesz, f.memsz)
  {
    hide PutLe32, PutLe64, Join, Le32, Le64;
    var s := PutSegment(f);
    assert Start(s, 0) == 0 && Start(s, 1) == 4 && Start(s, 2) == 8 && Start(s, 3) == 16 && Start(s, 4) == 24;
    assert Start(s, 5) == 32 && Start(s, 6) == 40;
    hide Start;
    Found(elf, at, s, 0, 56);
    Found(elf, at, s, 2, 56);
    Found(elf, at, s, 4, 56);
    Found(elf, at, s, 5, 56);
    Found(elf, at, s, 6, 56);
    DecodeLe32(f.kind, elf, at);
    DecodeLe64(f.offset, elf, at + 8);
    DecodeLe64(f.paddr, elf, at + 24);
    DecodeLe64(f.filesz, elf, at + 32);
    DecodeLe64(f.memsz, elf, at + 40);
  }

  // ----- the loaded image in plain arithmetic -----

  /** A segment that is loaded: type 1, with file bytes, or with memory if the loader takes those too. */
  predicate Loads(sg: Segment, bssToo: bool) {
    sg.kind == 1 && (sg.filesz > 0 || (bssToo && sg.memsz > 0))
  }

  function End(sg: Segment): nat {
    sg.paddr + if sg.memsz > sg.filesz then sg.memsz else sg.filesz
  }

  ghost predicate Apart(sgs: seq<Segment>, bssToo: bool) {
    forall i, j :: 0 <= i < j < |sgs| && Loads(sgs[i], bssToo) && Loads(sgs[j], bssToo) ==>
      End(sgs[i]) <= sgs[j].paddr || End(sgs[j]) <= sgs[i].paddr
  }

  lemma ApartDisjoint(sgs: seq<Segment>, bssToo: bool)
    requires Apart(sgs, bssToo)
    ensures Disjoint(sgs, bssToo)
  {
  }

  /** Every loaded segment is in place: its file bytes, then zeros to its memory size; all other memory is kept. */
  lemma {:induction false} ImageInPlace(m: seq<byte>, elf: seq<byte>, sgs: seq<Segment>, bssToo: bool, a: nat)
    requires Loadable(elf, sgs, |m|, bssToo) && Apart(sgs, bssToo) && a < |m|
    ensures var r := Loaded(m, elf, sgs, bssToo);
            && (forall i :: 0 <= i < |sgs| && Loads(sgs[i], bssToo) ==>
                  var sg := sgs[i];
                  && (sg.paddr <= a < sg.paddr + sg.filesz ==>
                        sg.offset + (a - sg.paddr) < |elf| && r[a] == elf[sg.offset + (a - sg.paddr)])
                  && (sg.paddr + sg.filesz <= a < End(sg) ==> r[a] == 0))
            && ((forall i :: 0 <= i < |sgs| && Loads(sgs[i], bssToo) ==> !(sgs[i].paddr <= a < End(sgs[i]))) ==>
                  r[a] == m[a])
  {
    ApartDisjoint(sgs, bssToo);
    hide Loaded, Disjoint, Apart;
    forall i: nat | i < |sgs| && Loads(sgs[i], bssToo) && sgs[i].paddr <= a < End(sgs[i])
      ensures Loaded(m, elf, sgs, bssToo)[a] ==
              if a - sgs[i].paddr < sgs[i].filesz then elf[sgs[i].offset + (a - sgs[i].paddr)] else 0
    {
      SegmentInPlace(m, elf, sgs, bssToo, i, a);
    }
    if forall i :: 0 <= i < |sgs| && Loads(sgs[i], bssToo) ==> !(sgs[i].paddr <= a < End(sgs[i])) {
      OthersUnchanged(m, elf, sgs, bssToo, a);
    }
  }

  /** The boot loader succeeds exactly if every segment of type 1 with file bytes ends within the file. */
  lemma BootDoneIff(elf: seq<byte>, size: nat)
    requires BootCallable(elf, size) && IsElf64(elf)
    ensures BootOutcome(elf, size) == Done <==>
            forall i :: 0 <= i < HeaderCount(elf) ==>
              var sg := SegmentAt(elf, HeaderAt(elf, HeaderStride(elf), i));
              sg.kind == 1 && sg.filesz > 0 ==> sg.offset + sg.filesz <= |elf|
  {
    var sgs := Segments(elf, HeaderStride(elf));
    hide SegmentAt, HeaderAt, HeaderCount, HeaderStride, Le16, Le32, Le64, Segments, HasMagic;
    RefusedOrAll(elf, sgs);
  }

  lemma {:induction false} RefusedOrAll(elf: seq<byte>, sgs: seq<Segment>)
    ensures |Accepted(elf, sgs)| == |sgs| <==>
            forall i :: 0 <= i < |sgs| ==>
              (sgs[i].kind == 1 && sgs[i].filesz > 0 ==> sgs[i].offset + sgs[i].filesz <= |elf|)
  {
    var r := Accepted(elf, sgs);
    hide Accepted;
    if |r| == |sgs| {
      assert r == sgs;
      assert forall i :: 0 <= i < |sgs| ==> !Refused(elf, r[i]);
    }
  }
}
