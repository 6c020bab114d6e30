/**
 fdt_parse_memory: a second token loop over the same structure block, which
 collects the memory regions of the tree.
 */
module FdtMemory {
  import opened Bits
  import opened Bytes
  import opened FdtFormat
  import opened FdtWalk
  import opened MemoryMap

  const MAX_REGIONS: nat := 32

  datatype MemMap = MemMap(regions: seq<Region>, totalUsable: nat)

  const NO_MEMORY := MemMap([], 0)

  /** One reg pair appended, unless the table is full; the total wraps at 64 bits. */
  function AddRegion(m: MemMap, r: Region): MemMap {
    if |m.regions| >= MAX_REGIONS then m
    else MemMap(m.regions + [r], (m.totalUsable + r.size) % U64)
  }

  function AddAll(m: MemMap, rs: seq<Region>): MemMap
    decreases rs
  {
    if rs == [] then m else AddAll(AddRegion(m, rs[0]), rs[1..])
  }

  /** The (base, size) pairs of a reg value from pair i on; a rest shorter than a pair is ignored. */
  function Pairs(value: seq<byte>, i: nat): seq<Region>
    decreases |value| / 16 - i
  {
    if i >= |value| / 16 then []
    else [Region(Be64(value, i * 16), Be64(value, i * 16 + 8), USABLE)] + Pairs(value, i + 1)
  }

  /** The loop's state after a token list. */
  function MemFold(items: seq<Item>, inMemory: bool, m: MemMap, names: Names): MemMap
    decreases items
  {
    if items == [] then m
    else
      match items[0]
      case BeginNode(name) => MemFold(items[1..], Ascii("memory") <= name, m, names)
      case EndNode => MemFold(items[1..], false, m, names)
      case Property(p) =>
        MemFold(items[1..], inMemory,
                if inMemory && names(p.nameOff) == Ascii("reg") then AddAll(m, Pairs(p.value, 0)) else m, names)
      case Nop => MemFold(items[1..], inMemory, m, names)
  }

  datatype Outcome = BadMagic | NotFound | Collected(m: MemMap) | Unsafe

  /** At the end of the tokens: an empty table is reported as not found. */
  function Done(m: MemMap): Outcome {
    if |m.regions| > 0 then Collected(m) else NotFound
  }

  /** What the loop computes from offset p on. */
  function MemFrom(blob: seq<byte>, base: nat, p: nat, inMemory: bool, m: MemMap, names: Names): Outcome
    requires Placed(base, blob)
  {
    var d := Decode(blob, base, p);
    if d.fault then Unsafe else Done(MemFold(d.items, inMemory, m, names))
  }

  lemma MemStep(blob: seq<byte>, base: nat, p: nat, inMemory: bool, m: MemMap, names: Names)
    requires Placed(base, blob)
    ensures MemFrom(blob, base, p, inMemory, m, names) ==
            match TokenAt(blob, base, p) {
              case Finish => Done(m)
              case Fault => Unsafe
              case Token(item, next) =>
                match item {
                  case BeginNode(name) => MemFrom(blob, base, next, Ascii("memory") <= name, m, names)
                  case EndNode => MemFrom(blob, base, next, false, m, names)
                  case Property(q) =>
                    MemFrom(blob, base, next, inMemory,
                            if inMemory && names(q.nameOff) == Ascii("reg") then AddAll(m, Pairs(q.value, 0)) else m,
                            names)
                  case Nop => MemFrom(blob, base, next, inMemory, m, names)
                }
            }
  {
    hide TokenAt, Ascii, AddAll, Pairs;
    match TokenAt(blob, base, p)
    case Token(item, next) =>
      var tail := Decode(blob, base, next);
      assert ([item] + tail.items)[1..] == tail.items;
    case _ =>
  }

  /** The size of a name with its NUL, rounded up to four: relative alignment. */
  lemma RelativeAlignment(base: nat, p: nat, n: nat)
    requires base % 4 == 0 && p % 4 == 0 && base + p + n + 8 <= U32
    ensures AfterName(base + p + n) == base + p + RoundUp4(n + 1)
    ensures (p + RoundUp4(n + 1)) % 4 == 0
  {
    hide And;
    Mask4(base + p + n + 4);
    Mask4(n + 1 + 3);
  }

  lemma RoundedLength(p: nat, len: nat)
    requires p % 4 == 0 && len + 3 < U32
    ensures (p + 12 + RoundUp4(len)) % 4 == 0
  {
    hide And;
    Mask4(len + 3);
  }

  /** What the loop computes for a whole structure block. */
  function MemoryIn(block: seq<byte>, names: Names): Outcome
    requires |block| + 4 <= U32
  {
    MemFrom(block, 0, 0, false, NO_MEMORY, names)
  }

  /** fdt_parse_memory: it rounds lengths, not addresses, so the block may start at any offset. */
  method ParseMemory(blob: seq<byte>) returns (r: Outcome)
    requires 16 <= |blob| <= U32 - 16
    ensures Be32(blob, 0) != 0xD00D_FEED ==> r == BadMagic
    ensures Be32(blob, 0) == 0xD00D_FEED && Be32(blob, 8) > |blob| ==> r == Unsafe
    ensures Be32(blob, 0) == 0xD00D_FEED && Be32(blob, 8) <= |blob| ==>
              r == MemoryIn(blob[Be32(blob, 8)..], NamesOf(blob, Be32(blob, 12)))
  {
    hide MemFrom, Be32, And, AddAll, Pairs, Ascii, AfterName, RoundUp4, CString, NamesOf, Done, Decode;
    if Be32(blob, 0) != DTB_MAGIC { return BadMagic; }
    if Be32(blob, 8) > |blob| { return Unsafe; }
    var block, names := blob[Be32(blob, 8)..], NamesOf(blob, Be32(blob, 12));
    var p, inMemory, m := 0, false, NO_MEMORY;
    while true
      invariant p % 4 == 0
      invariant MemFrom(block, 0, p, inMemory, m, names) == MemoryIn(block, names)
      decreases |block| - p
    {
      MemStep(block, 0, p, inMemory, m, names);
      if p + 4 > |block| { return Unsafe; }
      var token := Be32(block, p);
      if token == FDT_BEGIN_NODE {
        var nul := FindNul(block, p + 4);
        if nul >= |block| { return Unsafe; }
        var name := block[p + 4..nul];
        inMemory := Ascii("memory") <= name;
        RelativeAlignment(0, p + 4, |name|);
        p := p + 4 + RoundUp4(|name| + 1);
      } else if token == FDT_END_NODE {
        p := p + 4;
        inMemory := false;
      } else if token == FDT_PROP {
        if p + 12 > |block| { return Unsafe; }
        var len, off := Be32(block, p + 4), Be32(block, p + 8);
        if p + 12 + len > |block| { return Unsafe; }
        var value := block[p + 12..p + 12 + len];
        RoundedLength(p, len);
        p := p + 12 + RoundUp4(len);
        if inMemory && names(off) == Ascii("reg") {
          m := TakePairs(value, m);
        }
      } else if token == FDT_NOP {
        p := p + 4;
      } else {
        return Done(m);
      }
    }
  }

  /** The pair loop: it stops at the last whole pair or at a full table. */
  method TakePairs(value: seq<byte>, m0: MemMap) returns (m: MemMap)
    ensures m == AddAll(m0, Pairs(value, 0))
  {
    hide Be64;
    m := m0;
    var i := 0;
    while i < |value| / 16 && |m.regions| < MAX_REGIONS
      invariant 0 <= i
      invariant AddAll(m, Pairs(value, i)) == AddAll(m0, Pairs(value, 0))
    {
      var r := Region(Be64(value, i * 16), Be64(value, i * 16 + 8), USABLE);
      assert Pairs(value, i)[1..] == Pairs(value, i + 1);
      m := MemMap(m.regions + [r], (m.totalUsable + r.size) % U64);
      i := i + 1;
    }
    if |m.regions| >= MAX_REGIONS { FullTable(m, Pairs(value, i)); }
  }

  lemma {:induction false} FullTable(m: MemMap, rs: seq<Region>)
    requires |m.regions| >= MAX_REGIONS
    ensures AddAll(m, rs) == m
    decreases rs
  {
    if rs != [] { FullTable(m, rs[1..]); }
  }

  // ----- trees -----

  /** The pairs of a node's reg properties. */
  function RegPairs(ps: seq<Prop>, names: Names): seq<Region>
    decreases ps
  {
    if ps == [] then []
    else (if names(ps[0].nameOff) == Ascii("reg") then Pairs(ps[0].value, 0) else []) + RegPairs(ps[1..], names)
  }

  /** All memory of a tree, in pre-order: nodes at any depth whose name starts with memory. */
  function MemoryOf(n: Node, names: Names): seq<Region>
    decreases n, 1
  {
    (if Ascii("memory") <= n.name then RegPairs(n.props, names) else []) + MemoryOfAll(n.kids, names)
  }

  function MemoryOfAll(ns: seq<Node>, names: Names): seq<Region>
    decreases ns, 0
  {
    if ns == [] then [] else MemoryOf(ns[0], names) + MemoryOfAll(ns[1..], names)
  }

  function Sum(rs: seq<Region>): nat {
    if rs == [] then 0 else Sum(rs[..|rs| - 1]) + rs[|rs| - 1].size
  }

  lemma {:induction false} AddConcat(m: MemMap, rs: seq<Region>, ss: seq<Region>)
    ensures AddAll(m, rs + ss) == AddAll(AddAll(m, rs), ss)
    decreases rs
  {
    hide AddRegion;
    if rs == [] {
      assert rs + ss == ss;
    } else {
      assert (rs + ss)[1..] == rs[1..] + ss;
      AddConcat(AddRegion(m, rs[0]), rs[1..], ss);
    }
  }

  lemma {:induction false} MemNops(items: seq<Item>, inMemory: bool, m: MemMap, names: Names)
    ensures MemFold(items, inMemory, m, names) == MemFold(StripNops(items), inMemory, m, names)
    decreases items
  {
    hide Ascii, AddAll, Pairs;
    if items != [] {
      var rest := StripNops(items[1..]);
      match items[0] {
        case BeginNode(name) => MemNops(items[1..], Ascii("memory") <= name, m, names);
        case EndNode => MemNops(items[1..], false, m, names);
        case Property(p) =>
          MemNops(items[1..], inMemory,
                  if inMemory && names(p.nameOff) == Ascii("reg") then AddAll(m, Pairs(p.value, 0)) else m, names);
        case Nop => MemNops(items[1..], inMemory, m, names);
      }
      if items[0].Nop? {
        assert StripNops(items) == [] + rest == rest;
      } else {
        assert StripNops(items) == [items[0]] + rest;
        assert ([items[0]] + rest)[1..] == rest;
      }
    }
  }

  lemma {:induction false} MemProps(ps: seq<Prop>, rest: seq<Item>, inMemory: bool, m: MemMap, names: Names)
    ensures MemFold(PropItems(ps) + rest, inMemory, m, names) ==
            MemFold(rest, inMemory, if inMemory then AddAll(m, RegPairs(ps, names)) else m, names)
    decreases ps
  {
    hide Ascii, Pairs;
    if ps == [] {
      assert PropItems(ps) + rest == rest;
    } else {
      var more := PropItems(ps[1..]) + rest;
      assert PropItems(ps) + rest == [Property(ps[0])] + more;
      assert ([Property(ps[0])] + more)[1..] == more;
      var reg := names(ps[0].nameOff) == Ascii("reg");
      MemProps(ps[1..], rest, inMemory, if inMemory && reg then AddAll(m, Pairs(ps[0].value, 0)) else m, names);
      if reg {
        AddConcat(m, Pairs(ps[0].value, 0), RegPairs(ps[1..], names));
      } else {
        assert [] + RegPairs(ps[1..], names) == RegPairs(ps[1..], names);
      }
    }
  }

  lemma {:induction false} MemTree(n: Node, rest: seq<Item>, inMemory: bool, m: MemMap, names: Names)
    ensures MemFold(Flatten(n) + rest, inMemory, m, names) ==
            MemFold(rest, false, AddAll(m, MemoryOf(n, names)), names)
    decreases n, 1
  {
    hide Ascii, RegPairs, FlattenAll, PropItems, AddAll;
    var tail := [EndNode] + rest;
    var body := PropItems(n.props) + (FlattenAll(n.kids) + tail);
    assert Flatten(n) + rest == [BeginNode(n.name)] + body;
    assert ([BeginNode(n.name)] + body)[1..] == body;
    assert tail[1..] == rest;
    var mem := Ascii("memory") <= n.name;
    MemProps(n.props, FlattenAll(n.kids) + tail, mem, m, names);
    var m1 := if mem then AddAll(m, RegPairs(n.props, names)) else m;
    MemKids(n.kids, tail, mem, m1, names);
    if mem {
      AddConcat(m, RegPairs(n.props, names), MemoryOfAll(n.kids, names));
    } else {
      assert [] + MemoryOfAll(n.kids, names) == MemoryOfAll(n.kids, names);
    }
  }

  /** After the subnodes the flag may differ, but only an end token follows. */
  lemma {:induction false} MemKids(ns: seq<Node>, rest: seq<Item>, inMemory: bool, m: MemMap, names: Names)
    requires rest != [] && (rest[0].EndNode? || rest[0].BeginNode?)
    ensures MemFold(FlattenAll(ns) + rest, inMemory, m, names) ==
            MemFold(rest, false, AddAll(m, MemoryOfAll(ns, names)), names)
    decreases ns, 0
  {
    hide Ascii, Flatten, MemoryOf, Pairs;
    if ns == [] {
      assert FlattenAll(ns) + rest == rest;
    } else {
      var more := FlattenAll(ns[1..]) + rest;
      assert FlattenAll(ns) + rest == Flatten(ns[0]) + more;
      MemTree(ns[0], more, inMemory, m, names);
      MemKids(ns[1..], rest, false, AddAll(m, MemoryOf(ns[0], names)), names);
      AddConcat(m, MemoryOf(ns[0], names), MemoryOfAll(ns[1..], names));
    }
  }

  /** Adding to an empty table keeps the first 32 regions and their total. */
  lemma {:induction false} TableIsPrefix(rs: seq<Region>)
    ensures var k := if |rs| < MAX_REGIONS then |rs| else MAX_REGIONS;
            AddAll(NO_MEMORY, rs) == MemMap(rs[..k], Sum(rs[..k]) % U64)
    decreases |rs|
  {
    hide AddAll, AddRegion, Sum;
    if rs == [] {
      NothingAdded(NO_MEMORY);
    } else {
      var n := |rs| - 1;
      var es, r := rs[..n], rs[n];
      TableIsPrefix(es);
      assert rs == es + [r];
      AddConcat(NO_MEMORY, es, [r]);
      AddLast(AddAll(NO_MEMORY, es), r);
      AddOne(es, r);
      if n < MAX_REGIONS {
        assert es[..n] == es && rs[..n + 1] == rs;
      } else {
        assert es[..MAX_REGIONS] == rs[..MAX_REGIONS];
      }
    }
  }

  lemma {:induction false} NothingAdded(m: MemMap)
    ensures AddAll(m, []) == m && Sum([]) == 0
  {
  }

  lemma {:induction false} AddOne(es: seq<Region>, r: Region)
    ensures |es| < MAX_REGIONS ==>
              AddRegion(MemMap(es, Sum(es) % U64), r) == MemMap(es + [r], Sum(es + [r]) % U64)
    ensures forall m: MemMap :: |m.regions| >= MAX_REGIONS ==> AddRegion(m, r) == m
  {
    assert (es + [r])[..|es|] == es;
    WrapSum(Sum(es), r.size);
  }

  lemma WrapSum(a: nat, b: nat)
    ensures (a % U64 + b) % U64 == (a + b) % U64
  {
  }

  lemma {:induction false} AddLast(m: MemMap, r: Region)
    ensures AddAll(m, [r]) == AddRegion(m, r)
  {
    assert [r][1..] == [];
    assert AddAll(AddRegion(m, r), []) == AddRegion(m, r);
  }

  /** For every tree: the first 32 reg pairs of its memory nodes, in pre-order, and their total size. */
  lemma {:induction false} MemoryIsCollected(
      block: seq<byte>, root: Node, items: seq<Item>, rest: seq<byte>, names: Names)
    requires Holds(block, 0, 0, root, items, rest)
    ensures var rs := MemoryOf(root, names);
            var k := if |rs| < 32 then |rs| else 32;
            MemoryIn(block, names) ==
            if rs == [] then NotFound else Collected(MemMap(rs[..k], Sum(rs[..k]) % U64))
  {
    hide MemoryOf, Sum, AddAll, Decode, ItemsBytes, Flatten;
    DecodeBlock(block, 0, 0, items, rest);
    MemNops(items, false, NO_MEMORY, names);
    MemTree(root, [], false, NO_MEMORY, names);
    assert Flatten(root) + [] == Flatten(root);
    TableIsPrefix(MemoryOf(root, names));
  }

  // ----- reg values as they are written -----

  predicate StorableRegion(r: Region) {
    r.base < U64 && r.size < U64 && r.kind == USABLE
  }

  /** Base and size of every region, each as two big-endian cells. */
  function PutRegions(rs: seq<Region>): (s: seq<byte>)
    requires forall i :: 0 <= i < |rs| ==> StorableRegion(rs[i])
    ensures |s| == 16 * |rs|
  {
    if rs == [] then [] else PutBe64(rs[0].base) + PutBe64(rs[0].size) + PutRegions(rs[1..])
  }

  /** The pairs of a written value are its regions; a rest shorter than a pair is ignored. */
  lemma {:induction false} PairsRoundTrip(rs: seq<Region>, rest: seq<byte>)
    requires (forall i :: 0 <= i < |rs| ==> StorableRegion(rs[i])) && |rest| < 16
    ensures Pairs(PutRegions(rs) + rest, 0) == rs
  {
    hide Pairs, PutRegions;
    var value := PutRegions(rs) + rest;
    assert value[0..] == PutRegions(rs[0..]) + rest by { assert rs[0..] == rs && value[0..] == value; }
    PairsFrom(rs, rest, value, 0);
    assert rs[0..] == rs;
  }

  lemma {:induction false} PairsFrom(rs: seq<Region>, rest: seq<byte>, value: seq<byte>, i: nat)
    requires (forall k :: 0 <= k < |rs| ==> StorableRegion(rs[k])) && |rest| < 16 && i <= |rs|
    requires |value| == 16 * |rs| + |rest| && value[16 * i..] == PutRegions(rs[i..]) + rest
    ensures Pairs(value, i) == rs[i..]
    decreases |rs| - i
  {
    hide Be64, PutBe64;
    if i < |rs| {
      var at := 16 * i;
      var more := PutRegions(rs[i + 1..]) + rest;
      assert rs[i..][1..] == rs[i + 1..];
      FirstPair(value, at, rs[i], more);
      PairsFrom(rs, rest, value, i + 1);
    }
  }

  lemma FirstPair(value: seq<byte>, at: nat, r: Region, more: seq<byte>)
    requires StorableRegion(r) && at <= |value|
    requires value[at..] == PutBe64(r.base) + PutBe64(r.size) + more
    ensures at + 16 <= |value| && value[at + 16..] == more
    ensures Be64(value, at) == r.base && Be64(value, at + 8) == r.size
  {
    hide Be64, PutBe64;
    var s := value[at..];
    assert s[..8] == PutBe64(r.base) && s[8..16] == PutBe64(r.size) && s[16..] == more;
    assert value[at..at + 8] == s[..8] && value[at + 8..at + 16] == s[8..16] && value[at + 16..] == s[16..];
    DecodeBe64(r.base, value, at);
    DecodeBe64(r.size, value, at + 8);
  }

  /** The regions of a tree: the reg pairs of each node whose name starts with memory, before those of its subnodes. */
  lemma {:induction false} MemoryNodes(n: Node, names: Names)
    ensures MemoryOf(n, names) ==
            (if Starts(n.name, "memory") then RegPairs(n.props, names) else []) + MemoryOfAll(n.kids, names)
  {
    StartsExactly(n.name, "memory");
    hide Ascii, Starts, RegPairs, MemoryOfAll;
  }

  lemma {:induction false} MemoryProps(ps: seq<Prop>, names: Names)
    requires ps != []
    ensures var n := names(ps[0].nameOff);
            RegPairs(ps, names) ==
            (if Starts(n, "reg") && |n| == 3 then Pairs(ps[0].value, 0) else []) + RegPairs(ps[1..], names)
  {
    EqualsExactly(names(ps[0].nameOff), "reg");
    hide Ascii, Starts, Pairs;
  }
}
