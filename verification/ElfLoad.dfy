/**
 The two ELF64 loaders, of the boot loader and of the board support package:
 program headers copied to physical memory (System V gABI, chapter 5).
 */
module ElfLoad {
  import opened Bits
  import opened Bytes
  import opened Memory

  const PT_LOAD: nat := 1
  const ELF_MAGIC: nat := 0x464C_457F
  const PHDR_SIZE: nat := 56

  datatype Segment = Segment(kind: nat, offset: nat, paddr: nat, filesz: nat, memsz: nat)

  function SegmentAt(elf: seq<byte>, at: nat): Segment
    requires at + 56 <= |elf|
  {
    Segment(Le32(elf, at), Le64(elf, at + 8), Le64(elf, at + 24), Le64(elf, at + 32), Le64(elf, at + 40))
  }

  function Entry(elf: seq<byte>): nat
    requires |elf| >= 64
  {
    Le64(elf, 24)
  }

  function HeaderOffset(elf: seq<byte>): nat
    requires |elf| >= 64
  {
    Le64(elf, 32)
  }

  function HeaderStride(elf: seq<byte>): nat
    requires |elf| >= 64
  {
    Le16(elf, 54)
  }

  function HeaderCount(elf: seq<byte>): nat
    requires |elf| >= 64
  {
    Le16(elf, 56)
  }

  /** Where program header i is, at a header stride. */
  function HeaderAt(elf: seq<byte>, stride: nat, i: nat): nat
    requires |elf| >= 64
  {
    HeaderOffset(elf) + i * stride
  }

  /** Every program header lies in the image. */
  ghost predicate TableFits(elf: seq<byte>, stride: nat) {
    |elf| >= 64 && forall i :: 0 <= i < HeaderCount(elf) ==> HeaderAt(elf, stride, i) + 56 <= |elf|
  }

  ghost function Segments(elf: seq<byte>, stride: nat): (sgs: seq<Segment>)
    requires TableFits(elf, stride)
    ensures |sgs| == HeaderCount(elf)
    ensures forall i :: 0 <= i < |sgs| ==> sgs[i] == SegmentAt(elf, HeaderAt(elf, stride, i))
  {
    seq(HeaderCount(elf), i requires 0 <= i < HeaderCount(elf) => SegmentAt(elf, HeaderAt(elf, stride, i)))
  }

  predicate InFile(elf: seq<byte>, sg: Segment) {
    sg.offset + sg.filesz <= |elf|
  }

  /** The bytes a segment occupies: its file bytes, then zeros up to its memory size. */
  function Content(elf: seq<byte>, sg: Segment): (s: seq<byte>)
    requires InFile(elf, sg)
    ensures |s| == Size(sg)
  {
    elf[sg.offset..sg.offset + sg.filesz] + Zeros(Size(sg) - sg.filesz)
  }

  function Size(sg: Segment): nat {
    if sg.memsz > sg.filesz then sg.memsz else sg.filesz
  }

  predicate InMemory(sg: Segment, size: nat) {
    sg.paddr + Size(sg) <= size
  }

  /** Whether a loader writes a segment; only the second one writes segments without file bytes. */
  predicate Written(sg: Segment, bssToo: bool) {
    sg.kind == PT_LOAD && (bssToo || sg.filesz != 0)
  }

  ghost predicate Loadable(elf: seq<byte>, sgs: seq<Segment>, size: nat, bssToo: bool) {
    forall i :: 0 <= i < |sgs| && Written(sgs[i], bssToo) ==> InFile(elf, sgs[i]) && InMemory(sgs[i], size)
  }

  /** Memory after the segments were written in header order. */
  function Loaded(m: seq<byte>, elf: seq<byte>, sgs: seq<Segment>, bssToo: bool): (r: seq<byte>)
    requires Loadable(elf, sgs, |m|, bssToo)
    ensures |r| == |m|
  {
    if sgs == [] then m
    else
      var n := |sgs| - 1;
      var before := Loaded(m, elf, sgs[..n], bssToo);
      if Written(sgs[n], bssToo) then Overlay(before, sgs[n].paddr, Content(elf, sgs[n])) else before
  }

  // ----- the loaders -----

  /** File bytes, then zeros: the body of both loaders' segment step. */
  method WriteSegment(mem: array<byte>, elf: seq<byte>, sg: Segment)
    requires InFile(elf, sg) && InMemory(sg, mem.Length)
    modifies mem
    ensures mem[..] == Overlay(old(mem[..]), sg.paddr, Content(elf, sg))
  {
    hide Overlay;
    ghost var m := mem[..];
    ghost var s := elf[sg.offset..sg.offset + sg.filesz];
    CopyBytes(mem, sg.paddr, elf, sg.offset, sg.filesz);
    if sg.memsz > sg.filesz {
      ZeroBytes(mem, sg.paddr + sg.filesz, sg.memsz - sg.filesz);
      TwoParts(m, sg.paddr, s, Zeros(sg.memsz - sg.filesz));
    } else {
      assert s + Zeros(0) == s;
    }
  }

  lemma TwoParts(m: seq<byte>, at: nat, s: seq<byte>, z: seq<byte>)
    requires at + |s| + |z| <= |m|
    ensures Overlay(Overlay(m, at, s), at + |s|, z) == Overlay(m, at, s + z)
  {
  }

  datatype Outcome = Done | BadMagic | Unsupported

  /** A segment the boot loader refuses: its file bytes leave the image. */
  predicate Refused(elf: seq<byte>, sg: Segment) {
    Written(sg, false) && !InFile(elf, sg)
  }

  /** The headers before the first refused one. */
  function Accepted(elf: seq<byte>, sgs: seq<Segment>): (r: seq<Segment>)
    ensures |r| <= |sgs| && r == sgs[..|r|]
    ensures |r| < |sgs| ==> Refused(elf, sgs[|r|])
    ensures forall i :: 0 <= i < |r| ==> !Refused(elf, r[i])
  {
    if sgs == [] || Refused(elf, sgs[0]) then [] else [sgs[0]] + Accepted(elf, sgs[1..])
  }

  /** What the boot loader needs of its caller: headers in range, no 64-bit wrap, destinations in memory. */
  ghost predicate BootReady(elf: seq<byte>, size: nat)
    requires |elf| >= 64
  {
    && TableFits(elf, HeaderStride(elf))
    && forall i :: 0 <= i < HeaderCount(elf) ==>
         var sg := SegmentAt(elf, HeaderAt(elf, HeaderStride(elf), i));
         Written(sg, false) ==> sg.offset + sg.filesz < U64 && (InFile(elf, sg) ==> InMemory(sg, size))
  }

  predicate HasMagic(elf: seq<byte>)
    requires |elf| >= 4
  {
    Le32(elf, 0) == ELF_MAGIC
  }

  /** A 64-bit little-endian file. */
  predicate IsElf64(elf: seq<byte>) {
    |elf| >= 6 && HasMagic(elf) && elf[4] == 2 && elf[5] == 1
  }

  /** What the boot loader reads is there: the magic, then the class bytes, then header and segments. */
  ghost predicate BootCallable(elf: seq<byte>, size: nat) {
    |elf| >= 4 && (HasMagic(elf) ==> |elf| >= 6) && (IsElf64(elf) ==> |elf| >= 64 && BootReady(elf, size))
  }

  ghost function BootOutcome(elf: seq<byte>, size: nat): Outcome
    requires BootCallable(elf, size)
  {
    if !HasMagic(elf) then BadMagic
    else if !IsElf64(elf) then Unsupported
    else
      var sgs := Segments(elf, HeaderStride(elf));
      if |Accepted(elf, sgs)| == |sgs| then Done else BadMagic
  }

  /** The memory that the boot loader leaves: the segments before the first refused one. */
  ghost function BootMemory(elf: seq<byte>, m: seq<byte>): (r: seq<byte>)
    requires BootCallable(elf, |m|)
    ensures |r| == |m|
  {
    if !IsElf64(elf) then m
    else
      AcceptedLoads(elf, |m|);
      Loaded(m, elf, Accepted(elf, Segments(elf, HeaderStride(elf))), false)
  }

  lemma {:induction false} AcceptedLoads(elf: seq<byte>, size: nat)
    requires |elf| >= 64 && BootReady(elf, size)
    ensures Loadable(elf, Accepted(elf, Segments(elf, HeaderStride(elf))), size, false)
  {
    hide SegmentAt, InFile, InMemory, HeaderAt, HeaderStride;
  }

  /** uiox_boot_elf64_load. */
  method BootElf64Load(elf: seq<byte>, mem: array<byte>) returns (r: Outcome, entry: nat)
    requires BootCallable(elf, mem.Length)
    modifies mem
    ensures r == BootOutcome(elf, mem.Length) && mem[..] == BootMemory(elf, old(mem[..]))
    ensures IsElf64(elf) ==> entry == Entry(elf)
  {
    hide Le16, Le32, Le64, Overlay, Content, HeaderAt;
    entry := 0;
    if Le32(elf, 0) != ELF_MAGIC { return BadMagic, entry; }
    assert HasMagic(elf);
    if elf[4] != 2 { return Unsupported, entry; }
    if elf[5] != 1 { return Unsupported, entry; }
    entry := Entry(elf);
    var stride := HeaderStride(elf);
    ghost var sgs := Segments(elf, stride);
    ghost var m0 := mem[..];
    ReadyLoads(elf, mem.Length);
    var i := 0;
    assert sgs[..0] == [];
    while i < HeaderCount(elf)
      invariant 0 <= i <= HeaderCount(elf) && mem.Length == |m0|
      invariant forall j :: 0 <= j < i ==> !Refused(elf, sgs[j])
      invariant Loadable(elf, sgs[..i], |m0|, false) && mem[..] == Loaded(m0, elf, sgs[..i], false)
    {
      var sg := SegmentAt(elf, HeaderAt(elf, stride, i));
      assert sgs[..i + 1][..i] == sgs[..i] && sgs[..i + 1][i] == sg;
      if sg.kind == PT_LOAD && sg.filesz != 0 {
        assert Written(sgs[i], false);
        if (sg.offset + sg.filesz) % U64 > |elf| {
          AcceptedUpTo(elf, sgs, i);
          return BadMagic, entry;
        }
        WriteSegment(mem, elf, sg);
      }
      i := i + 1;
    }
    AcceptedUpTo(elf, sgs, i);
    assert sgs[..i] == sgs;
    return Done, entry;
  }

  lemma ReadyLoads(elf: seq<byte>, size: nat)
    requires |elf| >= 64 && BootReady(elf, size)
    ensures var sgs := Segments(elf, HeaderStride(elf));
            forall i :: 0 <= i < |sgs| && Written(sgs[i], false) ==>
              sgs[i].offset + sgs[i].filesz < U64 && (InFile(elf, sgs[i]) ==> InMemory(sgs[i], size))
  {
    hide SegmentAt, InFile, InMemory;
  }

  lemma {:induction false} AcceptedUpTo(elf: seq<byte>, sgs: seq<Segment>, k: nat)
    requires k <= |sgs| && forall j :: 0 <= j < k ==> !Refused(elf, sgs[j])
    requires k < |sgs| ==> Refused(elf, sgs[k])
    ensures Accepted(elf, sgs) == sgs[..k]
  {
  }

  /** What the second loader reads is there; it bounds nothing itself. */
  ghost predicate KernelCallable(elf: seq<byte>, size: nat) {
    && |elf| >= 4
    && (HasMagic(elf) ==> TableFits(elf, PHDR_SIZE) && Loadable(elf, Segments(elf, PHDR_SIZE), size, true))
  }

  /** The memory that the second loader leaves. */
  ghost function KernelMemory(elf: seq<byte>, m: seq<byte>): (r: seq<byte>)
    requires KernelCallable(elf, |m|)
    ensures |r| == |m|
  {
    if HasMagic(elf) then Loaded(m, elf, Segments(elf, PHDR_SIZE), true) else m
  }

  /** load_kernel_elf: it checks the magic only and steps by the structure's own size. */
  method LoadKernelElf(elf: seq<byte>, mem: array<byte>) returns (ok: bool, entry: nat)
    requires KernelCallable(elf, mem.Length)
    modifies mem
    ensures ok <==> HasMagic(elf)
    ensures mem[..] == KernelMemory(elf, old(mem[..]))
    ensures ok ==> entry == Entry(elf)
  {
    hide Le16, Le32, Le64, Overlay, Content, HeaderAt;
    entry := 0;
    if Le32(elf, 0) != ELF_MAGIC { return false, entry; }
    ghost var sgs := Segments(elf, PHDR_SIZE);
    ghost var m0 := mem[..];
    var i := 0;
    while i < HeaderCount(elf)
      invariant 0 <= i <= HeaderCount(elf) && mem.Length == |m0|
      invariant Loadable(elf, sgs[..i], |m0|, true) && mem[..] == Loaded(m0, elf, sgs[..i], true)
    {
      var sg := SegmentAt(elf, HeaderAt(elf, PHDR_SIZE, i));
      assert sgs[..i + 1][..i] == sgs[..i] && sgs[..i + 1][i] == sg;
      if sg.kind == PT_LOAD {
        assert Written(sgs[i], true);
        WriteSegment(mem, elf, sg);
      }
      i := i + 1;
    }
    assert sgs[..i] == sgs;
    entry := Entry(elf);
    return true, entry;
  }

  // ----- what is in memory afterwards -----

  predicate Occupies(sg: Segment, a: nat) {
    sg.paddr <= a < sg.paddr + Size(sg)
  }

  /** No address belongs to two written segments. */
  ghost predicate Disjoint(sgs: seq<Segment>, bssToo: bool) {
    forall i, j, a :: 0 <= i < j < |sgs| && Written(sgs[i], bssToo) && Written(sgs[j], bssToo) ==>
      !(Occupies(sgs[i], a) && Occupies(sgs[j], a))
  }

  lemma OverlayAt(m: seq<byte>, at: nat, s: seq<byte>, a: nat)
    requires at + |s| <= |m| && a < |m|
    ensures Overlay(m, at, s)[a] == if at <= a < at + |s| then s[a - at] else m[a]
  {
  }

  /** Addresses outside every written segment keep their bytes. */
  lemma {:induction false} OthersUnchanged(m: seq<byte>, elf: seq<byte>, sgs: seq<Segment>, bssToo: bool, a: nat)
    requires Loadable(elf, sgs, |m|, bssToo) && a < |m|
    requires forall i :: 0 <= i < |sgs| && Written(sgs[i], bssToo) ==> !Occupies(sgs[i], a)
    ensures Loaded(m, elf, sgs, bssToo)[a] == m[a]
    decreases |sgs|
  {
    hide Overlay, Content;
    if sgs != [] {
      var n := |sgs| - 1;
      OthersUnchanged(m, elf, sgs[..n], bssToo, a);
      if Written(sgs[n], bssToo) {
        OverlayAt(Loaded(m, elf, sgs[..n], bssToo), sgs[n].paddr, Content(elf, sgs[n]), a);
      }
    }
  }

  /** With disjoint segments each one is in place: its file bytes, then zeros. */
  lemma {:induction false} SegmentInPlace(m: seq<byte>, elf: seq<byte>, sgs: seq<Segment>, bssToo: bool, i: nat, a: nat)
    requires Loadable(elf, sgs, |m|, bssToo) && Disjoint(sgs, bssToo)
    requires i < |sgs| && Written(sgs[i], bssToo) && Occupies(sgs[i], a)
    ensures a < |m| && Loaded(m, elf, sgs, bssToo)[a] ==
              if a - sgs[i].paddr < sgs[i].filesz then elf[sgs[i].offset + (a - sgs[i].paddr)] else 0
    decreases |sgs|
  {
    hide Overlay;
    var n := |sgs| - 1;
    var before := Loaded(m, elf, sgs[..n], bssToo);
    if i == n {
      OverlayAt(before, sgs[n].paddr, Content(elf, sgs[n]), a);
    } else {
      assert Loadable(elf, sgs[..n], |m|, bssToo) && sgs[..n][i] == sgs[i];
      SegmentInPlace(m, elf, sgs[..n], bssToo, i, a);
      if Written(sgs[n], bssToo) { OverlayAt(before, sgs[n].paddr, Content(elf, sgs[n]), a); }
    }
  }

  /** A segment that has memory but no file bytes. */
  predicate BssOnly(sg: Segment) {
    sg.kind == PT_LOAD && sg.filesz == 0 < sg.memsz
  }

  /** An image that both loaders accept as it stands: 56-byte headers, every segment in range, none overlapping. */
  ghost predicate CommonImage(elf: seq<byte>, size: nat) {
    && BootCallable(elf, size) && KernelCallable(elf, size) && IsElf64(elf)
    && HeaderStride(elf) == PHDR_SIZE && Disjoint(Segments(elf, PHDR_SIZE), true)
  }

  /** Both loaders leave the same memory, whatever it held before. */
  ghost predicate SameMemory(elf: seq<byte>, size: nat)
    requires BootCallable(elf, size) && KernelCallable(elf, size)
  {
    forall m: seq<byte> :: |m| == size ==> BootMemory(elf, m) == KernelMemory(elf, m)
  }

  ghost predicate SomeBssOnly(sgs: seq<Segment>) {
    exists i :: 0 <= i < |sgs| && BssOnly(sgs[i])
  }

  /** Both loaders succeed on such an image, and leave the same memory if and only if no segment is BSS only. */
  lemma LoadersAgreeIff(elf: seq<byte>, size: nat)
    ensures CommonImage(elf, size) ==>
              && BootOutcome(elf, size) == Done && HasMagic(elf)
              && (SameMemory(elf, size) <==> !SomeBssOnly(Segments(elf, PHDR_SIZE)))
  {
    hide *;
    if CommonImage(elf, size) {
      CommonParts(elf, size);
      CommonFolds(elf, size);
      ElfMagic(elf);
      FoldsAgreeIff(elf, Segments(elf, PHDR_SIZE), size);
      SameFolds(elf, size);
    }
  }

  lemma CommonParts(elf: seq<byte>, size: nat)
    requires CommonImage(elf, size)
    ensures IsElf64(elf) && TableFits(elf, PHDR_SIZE) && Disjoint(Segments(elf, PHDR_SIZE), true)
  {
  }

  lemma ElfMagic(elf: seq<byte>)
    requires IsElf64(elf)
    ensures |elf| >= 4 && HasMagic(elf)
  {
  }

  /** On such an image the loaders are the two folds over its program headers. */
  lemma {:induction false} CommonFolds(elf: seq<byte>, size: nat)
    requires CommonImage(elf, size)
    ensures TableFits(elf, PHDR_SIZE)
    ensures var sgs := Segments(elf, PHDR_SIZE);
            Loadable(elf, sgs, size, true) && Loadable(elf, sgs, size, false) && Accepted(elf, sgs) == sgs
    ensures BootOutcome(elf, size) == Done
  {
    hide Loaded, SegmentAt, HeaderAt, Le16, Le32, Le64, Disjoint, HeaderStride, InFile, InMemory, BootReady;
    AllAccepted(elf, Segments(elf, PHDR_SIZE), size);
    AcceptedLoads(elf, size);
  }

  lemma {:induction false} CommonFold(elf: seq<byte>, m: seq<byte>)
    requires CommonImage(elf, |m|)
    ensures TableFits(elf, PHDR_SIZE)
    ensures var sgs := Segments(elf, PHDR_SIZE);
            && Loadable(elf, sgs, |m|, true) && Loadable(elf, sgs, |m|, false)
            && BootMemory(elf, m) == Loaded(m, elf, sgs, false) && KernelMemory(elf, m) == Loaded(m, elf, sgs, true)
  {
    CommonFolds(elf, |m|);
    hide Loaded, Accepted, Segments, Loadable, TableFits, Disjoint, BootReady, Le16, Le32, Le64;
  }

  lemma SameFolds(elf: seq<byte>, size: nat)
    requires CommonImage(elf, size)
    ensures TableFits(elf, PHDR_SIZE)
    ensures var sgs := Segments(elf, PHDR_SIZE);
            && Loadable(elf, sgs, size, true) && Loadable(elf, sgs, size, false)
            && (SameMemory(elf, size) <==> SameFold(elf, sgs, size))
  {
    CommonFolds(elf, size);
    hide Loaded, Accepted, Segments, BootMemory, KernelMemory, CommonImage, Loadable, TableFits, IsElf64;
    var sgs := Segments(elf, PHDR_SIZE);
    if SameMemory(elf, size) {
      forall m: seq<byte> | |m| == size ensures Loaded(m, elf, sgs, false) == Loaded(m, elf, sgs, true) {
        CommonFold(elf, m);
        assert BootMemory(elf, m) == KernelMemory(elf, m);
      }
    }
    if SameFold(elf, sgs, size) {
      forall m: seq<byte> | |m| == size ensures BootMemory(elf, m) == KernelMemory(elf, m) {
        CommonFold(elf, m);
        assert Loaded(m, elf, sgs, false) == Loaded(m, elf, sgs, true);
      }
    }
  }

  /** The two folds over one segment list agree on every memory. */
  ghost predicate SameFold(elf: seq<byte>, sgs: seq<Segment>, size: nat)
    requires Loadable(elf, sgs, size, true) && Loadable(elf, sgs, size, false)
  {
    forall m: seq<byte> :: |m| == size ==> Loaded(m, elf, sgs, false) == Loaded(m, elf, sgs, true)
  }

  lemma {:induction false} AllAccepted(elf: seq<byte>, sgs: seq<Segment>, size: nat)
    requires Loadable(elf, sgs, size, true)
    ensures Accepted(elf, sgs) == sgs
  {
    var n := |Accepted(elf, sgs)|;
    if n < |sgs| { assert Written(sgs[n], true); }
  }

  /** Over one segment list, the folds of the two loaders agree exactly when no segment is BSS only. */
  lemma FoldsAgreeIff(elf: seq<byte>, sgs: seq<Segment>, size: nat)
    requires Loadable(elf, sgs, size, true) && Disjoint(sgs, true)
    ensures Loadable(elf, sgs, size, false)
    ensures SameFold(elf, sgs, size) <==> !SomeBssOnly(sgs)
  {
    assert forall i :: 0 <= i < |sgs| && Written(sgs[i], false) ==> Written(sgs[i], true);
    if i :| 0 <= i < |sgs| && BssOnly(sgs[i]) {
      var m := seq(size, _ => 1 as byte);
      var a := sgs[i].paddr;
      assert Written(sgs[i], true) && Occupies(sgs[i], a);
      SegmentInPlace(m, elf, sgs, true, i, a);
      OthersUnchanged(m, elf, sgs, false, a);
      assert Loaded(m, elf, sgs, false)[a] != Loaded(m, elf, sgs, true)[a];
    } else {
      forall m: seq<byte> | |m| == size ensures Loaded(m, elf, sgs, false) == Loaded(m, elf, sgs, true) {
        SameWithoutBss(m, elf, sgs);
      }
    }
  }

  lemma {:induction false} SameWithoutBss(m: seq<byte>, elf: seq<byte>, sgs: seq<Segment>)
    requires Loadable(elf, sgs, |m|, true) && Loadable(elf, sgs, |m|, false)
    requires forall i :: 0 <= i < |sgs| ==> !BssOnly(sgs[i])
    ensures Loaded(m, elf, sgs, false) == Loaded(m, elf, sgs, true)
    decreases |sgs|
  {
    if sgs != [] {
      var n := |sgs| - 1;
      SameWithoutBss(m, elf, sgs[..n]);
      if Written(sgs[n], true) && !Written(sgs[n], false) {
        assert Size(sgs[n]) == 0;
        var b := Loaded(m, elf, sgs[..n], true);
        assert Overlay(b, sgs[n].paddr, Content(elf, sgs[n])) == b;
      }
    }
  }

  // ----- an image on which the loaders differ -----

  /** A file header and one program header: a segment of one byte of memory at address 0, and no file bytes. */
  function BssImage(): seq<byte> {
    seq(120, i =>
      if i == 0 then 0x7F else if i == 1 then 0x45 else if i == 2 then 0x4C else if i == 3 then 0x46
      else if i == 4 then 2 else if i == 5 then 1
      else if i == 32 then 64 else if i == 54 then 56 else if i == 56 then 1
      else if i == 64 then 1 else if i == 104 then 1 else 0)
  }

  /** Fields whose upper bytes are zero. */
  lemma LowByte(s: seq<byte>, at: nat, n: nat)
    requires at + 4 <= |s| && n < 256 && s[at] == n as byte && s[at + 1] == s[at + 2] == s[at + 3] == 0
    ensures Le16(s, at) == n && Le32(s, at) == n
  {
    OctetOf(n);
    OctetOf(0);
    hide Octet;
  }

  lemma LowByte64(s: seq<byte>, at: nat, n: nat)
    requires at + 8 <= |s| && n < 256 && s[at] == n as byte
    requires forall k :: at < k < at + 8 ==> s[k] == 0
    ensures Le64(s, at) == n
  {
    hide Le32;
    LowByte(s, at, n);
    LowByte(s, at + 4, 0);
  }

  lemma BssMagic(elf: seq<byte>)
    requires elf == BssImage()
    ensures Le32(elf, 0) == ELF_MAGIC
  {
    assert Octet(elf[0]) == 0x7F && Octet(elf[1]) == 0x45 && Octet(elf[2]) == 0x4C && Octet(elf[3]) == 0x46;
    hide Octet;
  }

  lemma BssHeader(elf: seq<byte>)
    requires elf == BssImage()
    ensures IsElf64(elf) && |elf| == 120
    ensures HeaderOffset(elf) == 64 && HeaderStride(elf) == 56 && HeaderCount(elf) == 1
  {
    BssMagic(elf);
    hide Le16, Le32, Le64;
    LowByte64(elf, 32, 64);
    LowByte(elf, 56, 1);
    TwoBytesLow(elf, 54, 56);
  }

  lemma TwoBytesLow(s: seq<byte>, at: nat, n: nat)
    requires at + 2 <= |s| && n < 256 && s[at] == n as byte && s[at + 1] == 0
    ensures Le16(s, at) == n
  {
    OctetOf(n);
    OctetOf(0);
    hide Octet;
  }

  lemma BssSegment(elf: seq<byte>)
    requires elf == BssImage()
    ensures |elf| == 120 && SegmentAt(elf, 64) == Segment(PT_LOAD, 0, 0, 0, 1)
  {
    hide Le32, Le64;
    LowByte(elf, 64, 1);
    LowByte64(elf, 72, 0);
    LowByte64(elf, 88, 0);
    LowByte64(elf, 96, 0);
    LowByte64(elf, 104, 1);
  }

  /** Both loaders take this image, and leave different memory behind. */
  lemma LoadersDiffer()
    ensures CommonImage(BssImage(), 1) && SomeBssOnly(Segments(BssImage(), PHDR_SIZE))
    ensures !SameMemory(BssImage(), 1)
  {
    var elf := BssImage();
    BssHeader(elf);
    BssSegment(elf);
    hide BssImage;
    OneBssOnly(elf);
    LoadersAgreeIff(elf, 1);
  }

  lemma OneBssOnly(elf: seq<byte>)
    requires |elf| == 120 && IsElf64(elf) && SegmentAt(elf, 64) == Segment(PT_LOAD, 0, 0, 0, 1)
    requires HeaderOffset(elf) == 64 && HeaderStride(elf) == 56 && HeaderCount(elf) == 1
    ensures CommonImage(elf, 1) && SomeBssOnly(Segments(elf, PHDR_SIZE))
  {
    hide Le16, Le32, Le64, SegmentAt;
    assert HeaderAt(elf, PHDR_SIZE, 0) == 64;
    var sgs := Segments(elf, PHDR_SIZE);
    assert sgs[0] == Segment(PT_LOAD, 0, 0, 0, 1);
    assert BssOnly(sgs[0]);
  }
}
