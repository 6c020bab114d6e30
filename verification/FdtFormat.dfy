/**
 The flattened device tree (section 5.4 of the Devicetree Specification): the
 tokens of the structure block, their serialized form, and the token decoder.
 */
module FdtFormat {
  import opened Bits
  import opened Bytes

  const FDT_BEGIN_NODE: nat := 1
  const FDT_END_NODE: nat := 2
  const FDT_PROP: nat := 3
  const FDT_NOP: nat := 4
  const FDT_END: nat := 9
  const DTB_MAGIC: nat := 0xD00D_FEED

  datatype Prop = Prop(nameOff: nat, value: seq<byte>)

  datatype Node = Node(name: seq<byte>, props: seq<Prop>, kids: seq<Node>)

  /** The tokens of the structure block. */
  datatype Item =
    | BeginNode(name: seq<byte>)
    | EndNode
    | Property(prop: Prop)
    | Nop

  /** An ASCII string as bytes. */
  function Ascii(s: string): seq<byte>
    requires forall i :: 0 <= i < |s| ==> s[i] < 128 as char
  {
    seq(|s|, i requires 0 <= i < |s| => s[i] as int as byte)
  }

  /** Bytes that start with the characters of p. */
  predicate Starts(c: seq<byte>, p: string) {
    |p| <= |c| && forall i :: 0 <= i < |p| ==> Octet(c[i]) == p[i] as int
  }

  /** Comparing with an ASCII string byte by byte is comparing characters. */
  lemma StartsExactly(c: seq<byte>, p: string)
    requires forall i :: 0 <= i < |p| ==> p[i] < 128 as char
    ensures Ascii(p) <= c <==> Starts(c, p)
  {
    hide Octet;
    forall i | 0 <= i < |p| && i < |c| ensures Ascii(p)[i] == c[i] <==> Octet(c[i]) == p[i] as int {
      SameByte(p[i] as int, c[i]);
    }
    var a := Ascii(p);
    if Starts(c, p) { assert a == c[..|a|]; }
    if a <= c { assert forall i :: 0 <= i < |p| ==> c[i] == a[i]; }
  }

  lemma EqualsExactly(c: seq<byte>, p: string)
    requires forall i :: 0 <= i < |p| ==> p[i] < 128 as char
    ensures c == Ascii(p) <==> Starts(c, p) && |c| == |p|
  {
    StartsExactly(c, p);
    hide Starts;
  }

  // ----- serialized form -----

  /** Zeros up to the next multiple of four. */
  function Padding(n: nat): (s: seq<byte>)
    ensures (n + |s|) % 4 == 0
    ensures |s| < 4
  {
    Zeros((4 - n % 4) % 4)
  }

  predicate NoNul(s: seq<byte>) {
    forall i :: 0 <= i < |s| ==> s[i] != 0
  }

  predicate Writable(item: Item) {
    match item
    case BeginNode(name) => NoNul(name)
    case Property(p) => p.nameOff < U32 && |p.value| < U32
    case _ => true
  }

  function ItemBytes(item: Item): (s: seq<byte>)
    ensures |s| % 4 == 0 && |s| >= 4
  {
    hide PutBe32, Padding;
    match item
    case BeginNode(name) =>
      WholeWords(1, |name| + 1);
      PutBe32(FDT_BEGIN_NODE) + (name + [0] + Padding(|name| + 1))
    case EndNode => PutBe32(FDT_END_NODE)
    case Property(p) =>
      WholeWords(3, |p.value|);
      PutBe32(FDT_PROP) + (PutBe32(|p.value|) + PutBe32(p.nameOff)) + (p.value + Padding(|p.value|))
    case Nop => PutBe32(FDT_NOP)
  }

  /** Words followed by padded bytes make whole words. */
  lemma WholeWords(k: nat, n: nat)
    ensures (4 * k + (n + |Padding(n)|)) % 4 == 0
  {
    hide Padding;
    DivideUnique(4 * k + (n + |Padding(n)|), 4, k + (n + |Padding(n)|) / 4, 0);
  }

  function ItemsBytes(items: seq<Item>): seq<byte> {
    if items == [] then [] else ItemBytes(items[0]) + ItemsBytes(items[1..])
  }

  // ----- what a reader finds -----

  /** The bytes up to the first NUL, or to the end of the blob. */
  function CString(s: seq<byte>, at: nat): (r: seq<byte>)
    ensures |r| == 0 || at + |r| <= |s|
    ensures at <= |s| ==> at + |r| <= |s| && r == s[at..at + |r|]
    ensures NoNul(r)
    ensures at + |r| < |s| ==> s[at + |r|] == 0
    decreases |s| - at
  {
    if at >= |s| || s[at] == 0 then [] else [s[at]] + CString(s, at + 1)
  }

  /** ((uintptr_t)p + 4u) & ~3u for the address of the terminating NUL; the mask is a 32-bit word. */
  function AfterName(addr: nat): nat {
    And(addr + 4, 0xFFFF_FFFC)
  }

  /** (len + 3u) & ~3u in 32-bit arithmetic. */
  function RoundUp4(len: nat): nat {
    And((len + 3) % U32, 0xFFFF_FFFC)
  }

  lemma {:induction false} Mask4(v: nat)
    requires v < U32
    ensures And(v, 0xFFFF_FFFC) == v / 4 * 4
  {
    Powers();
    MaskDown(32, v, 2);
  }

  /** What decoding gives: the tokens before the end, and whether it ran off the blob. */
  datatype Parsed = Parsed(items: seq<Item>, fault: bool)

  function Prepend(item: Item, p: Parsed): Parsed {
    Parsed([item] + p.items, p.fault)
  }

  /** The blob lies in memory from a 4-aligned address and ends below 4 GiB. */
  predicate Placed(base: nat, blob: seq<byte>) {
    base % 4 == 0 && base + |blob| + 4 <= U32
  }

  /** The token at offset p and the offset behind it; an absent item means the end, or a read off the blob. */
  datatype Token = Token(item: Item, next: nat) | Finish | Fault

  function TokenAt(blob: seq<byte>, base: nat, p: nat): (t: Token)
    requires Placed(base, blob)
    ensures t.Token? ==> p < t.next
  {
    if p + 4 > |blob| then Fault
    else
      var tok := Be32(blob, p);
      if tok == FDT_BEGIN_NODE then
        var name := CString(blob, p + 4);
        var nul := p + 4 + |name|;
        if nul >= |blob| then Fault
        else
          Mask4(base + nul + 4);
          Token(BeginNode(name), AfterName(base + nul) - base)
      else if tok == FDT_END_NODE then Token(EndNode, p + 4)
      else if tok == FDT_PROP then
        if p + 12 > |blob| then Fault
        else
          var len := Be32(blob, p + 4);
          if p + 12 + len > |blob| then Fault
          else Token(Property(Prop(Be32(blob, p + 8), blob[p + 12..p + 12 + len])), p + 12 + RoundUp4(len))
      else if tok == FDT_NOP then Token(Nop, p + 4)
      else Finish
  }

  /** All tokens from offset p on. */
  function Decode(blob: seq<byte>, base: nat, p: nat): Parsed
    requires Placed(base, blob)
    decreases |blob| - p
  {
    match TokenAt(blob, base, p)
    case Finish => Parsed([], false)
    case Fault => Parsed([], true)
    case Token(item, next) => Prepend(item, Decode(blob, base, next))
  }

  // ----- serializing and decoding are inverse -----

  lemma {:induction false} CStringAt(s: seq<byte>, at: nat, name: seq<byte>)
    requires NoNul(name) && at + |name| < |s|
    requires s[at..at + |name|] == name && s[at + |name|] == 0
    ensures CString(s, at) == name
    decreases name
  {
    if name != [] {
      assert s[at] == s[at..at + |name|][0];
      assert s[at + 1..at + |name|] == s[at..at + |name|][1..];
      CStringAt(s, at + 1, name[1..]);
    }
  }

  lemma Within(blob: seq<byte>, p: nat, s: seq<byte>, i: nat, j: nat)
    requires p + |s| <= |blob| && blob[p..p + |s|] == s && i <= j <= |s|
    ensures blob[p + i..p + j] == s[i..j]
  {
    forall k | 0 <= k < j - i ensures blob[p + i..p + j][k] == s[i..j][k] {
      assert blob[p..p + |s|][i + k] == blob[p + (i + k)];
    }
  }

  /** A written token is the token found at its offset. */
  lemma TokenOfItem(blob: seq<byte>, base: nat, p: nat, item: Item)
    requires Placed(base, blob) && p % 4 == 0 && Writable(item)
    requires p + |ItemBytes(item)| <= |blob| && blob[p..p + |ItemBytes(item)|] == ItemBytes(item)
    ensures TokenAt(blob, base, p) == Token(item, p + |ItemBytes(item)|)
  {
    match item
    case BeginNode(name) => BeginToken(blob, base, p, name);
    case Property(q) => PropertyToken(blob, base, p, q);
    case EndNode => DecodeBe32(FDT_END_NODE, blob, p);
    case Nop => DecodeBe32(FDT_NOP, blob, p);
  }

  lemma BeginToken(blob: seq<byte>, base: nat, p: nat, name: seq<byte>)
    requires Placed(base, blob) && p % 4 == 0 && NoNul(name)
    requires var s := ItemBytes(BeginNode(name)); p + |s| <= |blob| && blob[p..p + |s|] == s
    ensures TokenAt(blob, base, p) == Token(BeginNode(name), p + |ItemBytes(BeginNode(name))|)
  {
    hide Be32, PutBe32, And, CString, Padding, TokenAt, AfterName;
    var s, n := ItemBytes(BeginNode(name)), |name|;
    assert |s| == 4 + n + 1 + |Padding(n + 1)|;
    BeginParts(name);
    Within(blob, p, s, 0, 4);
    DecodeBe32(FDT_BEGIN_NODE, blob, p);
    Within(blob, p, s, 4, 4 + n);
    Within(blob, p, s, 4 + n, 5 + n);
    assert blob[p + 4 + n] == blob[p + (4 + n)..p + (5 + n)][0];
    CStringAt(blob, p + 4, name);
    hide ItemBytes, NoNul;
    NextName(base, p, n);
    BeginFields(blob, base, p, name);
  }

  lemma {:induction false} BeginFields(blob: seq<byte>, base: nat, p: nat, name: seq<byte>)
    requires Placed(base, blob) && p + 4 + |name| < |blob|
    requires Be32(blob, p) == FDT_BEGIN_NODE && CString(blob, p + 4) == name
    requires AfterName(base + (p + 4 + |name|)) > base + p
    ensures TokenAt(blob, base, p) == Token(BeginNode(name), AfterName(base + (p + 4 + |name|)) - base)
  {
    hide Be32, And, CString;
  }

  lemma BeginParts(name: seq<byte>)
    ensures var s, n := ItemBytes(BeginNode(name)), |name|;
            s[0..4] == PutBe32(FDT_BEGIN_NODE) && s[4..4 + n] == name && s[4 + n..5 + n] == [0]
  {
    hide PutBe32, Padding;
  }

  lemma NextName(base: nat, p: nat, n: nat)
    requires base % 4 == 0 && p % 4 == 0 && base + (p + 4 + n) + 4 < U32
    ensures AfterName(base + (p + 4 + n)) - base == p + 4 + n + 1 + |Padding(n + 1)|
  {
    hide And, Padding;
    Mask4(base + (p + 4 + n) + 4);
    NextAligned(base + p + 4, n + 1);
  }

  lemma PropertyToken(blob: seq<byte>, base: nat, p: nat, q: Prop)
    requires Placed(base, blob) && p % 4 == 0 && q.nameOff < U32 && |q.value| < U32
    requires var s := ItemBytes(Property(q)); p + |s| <= |blob| && blob[p..p + |s|] == s
    ensures TokenAt(blob, base, p) == Token(Property(q), p + |ItemBytes(Property(q))|)
  {
    hide Be32, PutBe32, Padding, TokenAt;
    var s, n := ItemBytes(Property(q)), |q.value|;
    Within(blob, p, s, 0, 4);
    assert s[0..4] == PutBe32(FDT_PROP);
    DecodeBe32(FDT_PROP, blob, p);
    Within(blob, p, s, 4, 8);
    assert s[4..8] == PutBe32(n);
    DecodeBe32(n, blob, p + 4);
    Within(blob, p, s, 8, 12);
    assert s[8..12] == PutBe32(q.nameOff);
    DecodeBe32(q.nameOff, blob, p + 8);
    Within(blob, p, s, 12, 12 + n);
    assert s[12..12 + n] == q.value;
    RoundsUp(n);
    PropertyParts(blob, base, p, q);
  }

  lemma PropertyParts(blob: seq<byte>, base: nat, p: nat, q: Prop)
    requires Placed(base, blob) && p + 12 + |q.value| <= |blob| && q.nameOff < U32
    requires Be32(blob, p) == FDT_PROP && Be32(blob, p + 4) == |q.value| && Be32(blob, p + 8) == q.nameOff
    requires blob[p + 12..p + 12 + |q.value|] == q.value
    ensures TokenAt(blob, base, p) == Token(Property(q), p + 12 + (|q.value| + 3) / 4 * 4)
  {
    hide Be32, And;
    Mask4(|q.value| + 3);
  }

  lemma RoundsUp(n: nat)
    ensures (n + 3) / 4 * 4 == n + |Padding(n)|
  {
    var m := (n + |Padding(n)|) / 4;
    assert n + |Padding(n)| == 4 * m;
    hide Padding;
    DivideUnique(n + 3, 4, m, n + 3 - 4 * m);
  }

  lemma NextAligned(a: nat, n: nat)
    requires a % 4 == 0 && n > 0
    ensures (a + n - 1 + 4) / 4 * 4 == a + n + |Padding(n)|
  {
    hide Padding;
    var m, q := (n + |Padding(n)|) / 4, a / 4;
    assert n + |Padding(n)| == 4 * m && a == 4 * q;
    DivideUnique(a + n + 3, 4, q + m, n + 3 - 4 * m);
  }

  lemma {:induction false} DecodeStep(blob: seq<byte>, base: nat, p: nat, item: Item, next: nat)
    requires Placed(base, blob) && TokenAt(blob, base, p) == Token(item, next)
    ensures Decode(blob, base, p) == Prepend(item, Decode(blob, base, next))
  {
    hide TokenAt;
  }

  lemma Split(blob: seq<byte>, p: nat, s: seq<byte>, t: seq<byte>)
    requires p <= |blob| && blob[p..] == s + t
    ensures p + |s| <= |blob| && blob[p..p + |s|] == s && blob[p + |s|..] == t
  {
    assert blob[p..p + |s|] == blob[p..][..|s|];
    assert blob[p + |s|..] == blob[p..][|s|..];
  }

  /** Decoding what was written gives back exactly the tokens, NOPs included. */
  lemma {:induction false} DecodeItems(blob: seq<byte>, base: nat, p: nat, items: seq<Item>, rest: seq<byte>)
    requires Placed(base, blob) && p % 4 == 0 && p <= |blob|
    requires forall i :: 0 <= i < |items| ==> Writable(items[i])
    requires blob[p..] == ItemsBytes(items) + rest
    ensures p + |ItemsBytes(items)| <= |blob|
    ensures var tail := Decode(blob, base, p + |ItemsBytes(items)|);
            Decode(blob, base, p) == Parsed(items + tail.items, tail.fault)
    decreases items
  {
    hide ItemBytes, TokenAt, Decode, Writable;
    Split(blob, p, ItemsBytes(items), rest);
    if items == [] {
      assert ItemsBytes([]) == [];
      assert forall t: seq<Item> :: [] + t == t;
    } else {
      var s, more := ItemBytes(items[0]), ItemsBytes(items[1..]);
      assert s + more + rest == s + (more + rest);
      Split(blob, p, s, more + rest);
      TokenOfItem(blob, base, p, items[0]);
      DecodeStep(blob, base, p, items[0], p + |s|);
      DecodeItems(blob, base, p + |s|, items[1..], rest);
      var tail := Decode(blob, base, p + |s| + |more|);
      assert [items[0]] + (items[1..] + tail.items) == items + tail.items;
    }
  }

  /** A whole structure block: the tokens, then an end token. */
  lemma {:induction false} DecodeBlock(blob: seq<byte>, base: nat, p: nat, items: seq<Item>, rest: seq<byte>)
    requires Placed(base, blob) && p % 4 == 0 && p <= |blob|
    requires forall i :: 0 <= i < |items| ==> Writable(items[i])
    requires blob[p..] == ItemsBytes(items) + PutBe32(FDT_END) + rest
    ensures Decode(blob, base, p) == Parsed(items, false)
  {
    hide PutBe32, ItemsBytes, Writable, Decode;
    var s := ItemsBytes(items);
    assert items + [] == items;
    assert s + PutBe32(FDT_END) + rest == s + (PutBe32(FDT_END) + rest);
    DecodeItems(blob, base, p, items, PutBe32(FDT_END) + rest);
    Split(blob, p, s, PutBe32(FDT_END) + rest);
    Split(blob, p + |s|, PutBe32(FDT_END), rest);
    EndToken(blob, base, p + |s|);
  }

  lemma {:induction false} EndToken(blob: seq<byte>, base: nat, q: nat)
    requires Placed(base, blob) && q + 4 <= |blob| && blob[q..q + 4] == PutBe32(FDT_END)
    ensures Decode(blob, base, q) == Parsed([], false)
  {
    hide Be32, PutBe32;
    DecodeBe32(FDT_END, blob, q);
  }

  // ----- the tokens, byte by byte -----

  lemma TokensSpelled()
    ensures ItemBytes(BeginNode([0x61, 0x62])) == [0, 0, 0, 1, 0x61, 0x62, 0, 0]
    ensures ItemBytes(EndNode) == [0, 0, 0, 2]
    ensures ItemBytes(Nop) == [0, 0, 0, 4] && PutBe32(FDT_END) == [0, 0, 0, 9]
  {
    SmallWord(1);
    SmallWord(2);
    SmallWord(4);
    SmallWord(9);
    assert Padding(3) == [0];
    hide PutBe32, Padding;
  }

  lemma PropertySpelled()
    ensures ItemBytes(Property(Prop(6, [7, 8, 9, 10, 11]))) ==
            [0, 0, 0, 3] + [0, 0, 0, 5] + [0, 0, 0, 6] + [7, 8, 9, 10, 11, 0, 0, 0]
  {
    SmallWord(3);
    SmallWord(5);
    SmallWord(6);
    assert Padding(5) == [0, 0, 0];
    hide PutBe32, Padding;
  }

  lemma SmallWord(n: nat)
    requires n < 256
    ensures PutBe32(n) == [0, 0, 0, n as byte]
  {
    hide PutBe16;
    DivideUnique(n, U16, 0, n);
    SmallHalf(0);
    SmallHalf(n);
  }

  lemma SmallHalf(n: nat)
    requires n < 256
    ensures PutBe16(n) == [0, n as byte]
  {
    DivideUnique(n, 256, 0, n);
  }

  /** Any other token ends the block without a fault. */
  lemma {:induction false} OthersEnd(blob: seq<byte>, base: nat, p: nat)
    requires Placed(base, blob) && p + 4 <= |blob| && (Be32(blob, p) == 0 || Be32(blob, p) > 4)
    ensures Decode(blob, base, p) == Parsed([], false)
  {
    hide Be32;
  }

  /** A token, a name or a property that is cut off by the end of the blob is a fault. */
  lemma {:induction false} CutOffIsFault(blob: seq<byte>, base: nat, p: nat)
    requires Placed(base, blob)
    requires || p + 4 > |blob|
             || (Be32(blob, p) == 1 && forall i :: p + 4 <= i < |blob| ==> blob[i] != 0)
             || (Be32(blob, p) == 3 && (p + 12 > |blob| || p + 12 + Be32(blob, p + 4) > |blob|))
    ensures Decode(blob, base, p) == Parsed([], true)
  {
    hide Be32, And;
  }
}
