/**
 Which device wins: the consequences of the per-device fold when a tree carries
 several UARTs, VirtIO transports, storage controllers or interrupt controllers.
 */
module FdtSocRules {
  import opened Bits
  import opened Bytes
  import opened Options
  import opened FdtFormat
  import opened FdtWalk
  import opened FdtSoc

  /** Devices committed in order. */
  function CommitAll(m: Soc, ds: seq<Device>): Soc
    decreases ds
  {
    if ds == [] then m else CommitAll(Commit(m, ds[0]), ds[1..])
  }

  /** A subtree below soc as devices in pre-order. */
  function DevicesOf(n: Node, c: Cells, names: Names): seq<Device>
    decreases n, 1
  {
    [DeviceOf(n.props, NO_DEVICE, c, names).0] + DevicesOfAll(n.kids, c, names)
  }

  function DevicesOfAll(ns: seq<Node>, c: Cells, names: Names): seq<Device>
    decreases ns, 0
  {
    if ns == [] then [] else DevicesOf(ns[0], c, names) + DevicesOfAll(ns[1..], c, names)
  }

  function TopDevices(ns: seq<Node>, c: Cells, names: Names): seq<Device>
    decreases ns
  {
    if ns == [] then []
    else if ns[0].name == Ascii("soc") then
      var d := CellsOf(ns[0].props, c, names);
      DevicesOfAll(ns[0].kids, d, names) + TopDevices(ns[1..], d, names)
    else TopDevices(ns[1..], c, names)
  }

  /** The devices below the soc nodes of a tree, in pre-order. */
  function DeviceList(root: Node, names: Names): seq<Device> {
    TopDevices(root.kids, Cells(1, 1), names)
  }

  lemma {:induction false} CommitConcat(m: Soc, ds: seq<Device>, es: seq<Device>)
    ensures CommitAll(m, ds + es) == CommitAll(CommitAll(m, ds), es)
    decreases ds
  {
    hide Commit;
    if ds == [] {
      assert ds + es == es;
    } else {
      assert (ds + es)[1..] == ds[1..] + es;
      CommitConcat(Commit(m, ds[0]), ds[1..], es);
    }
  }

  lemma {:induction false} FoldIsCommits(a: Acc, n: Node, names: Names)
    ensures FoldDevice(a, n, names).m == CommitAll(a.m, DevicesOf(n, a.cells, names))
    ensures FoldDevice(a, n, names).cells == a.cells
    decreases n, 1
  {
    hide Commit, DeviceOf;
    var d := DeviceOf(n.props, NO_DEVICE, a.cells, names);
    var ds := DevicesOf(n, a.cells, names);
    assert ds[1..] == DevicesOfAll(n.kids, a.cells, names);
    FoldAllIsCommits(Acc(Commit(a.m, d.0), a.cells, a.fault || d.1), n.kids, names);
  }

  lemma {:induction false} FoldAllIsCommits(a: Acc, ns: seq<Node>, names: Names)
    ensures FoldDevices(a, ns, names).m == CommitAll(a.m, DevicesOfAll(ns, a.cells, names))
    ensures FoldDevices(a, ns, names).cells == a.cells
    decreases ns, 0
  {
    hide FoldDevice, DevicesOf, Commit;
    if ns != [] {
      FoldIsCommits(a, ns[0], names);
      FoldAllIsCommits(FoldDevice(a, ns[0], names), ns[1..], names);
      CommitConcat(a.m, DevicesOf(ns[0], a.cells, names), DevicesOfAll(ns[1..], a.cells, names));
    }
  }

  lemma {:induction false} TopIsCommits(a: Acc, ns: seq<Node>, names: Names)
    ensures FoldTop(a, ns, names).m == CommitAll(a.m, TopDevices(ns, a.cells, names))
    decreases ns
  {
    hide FoldDevices, DevicesOfAll, Commit, CellsOf, Ascii;
    if ns != [] {
      if ns[0].name == Ascii("soc") {
        var b := a.(cells := CellsOf(ns[0].props, a.cells, names));
        FoldAllIsCommits(b, ns[0].kids, names);
        TopIsCommits(FoldDevices(b, ns[0].kids, names), ns[1..], names);
        CommitConcat(a.m, DevicesOfAll(ns[0].kids, b.cells, names), TopDevices(ns[1..], b.cells, names));
      } else {
        TopIsCommits(a, ns[1..], names);
      }
    }
  }

  /** The extracted map is the devices below soc committed one after the other. */
  lemma SocCommitsDevices(root: Node, names: Names)
    ensures SocOf(root, names).m == CommitAll(NO_SOC, DeviceList(root, names))
  {
    TopIsCommits(Acc(NO_SOC, Cells(1, 1), false), root.kids, names);
  }

  lemma {:induction false} CommitLast(m: Soc, ds: seq<Device>)
    requires ds != []
    ensures CommitAll(m, ds) == Commit(CommitAll(m, ds[..|ds| - 1]), ds[|ds| - 1])
  {
    hide Commit;
    var d := ds[|ds| - 1];
    assert ds == ds[..|ds| - 1] + [d];
    CommitConcat(m, ds[..|ds| - 1], [d]);
    assert [d][1..] == [];
    var x := CommitAll(m, ds[..|ds| - 1]);
    assert CommitAll(x, [d]) == CommitAll(Commit(x, d), [d][1..]);
  }

  // ----- who wins -----

  predicate Is(d: Device, c: Class) {
    d.regBase != 0 && ClassOf(d.compat) == c
  }

  predicate SimpleUart(d: Device) {
    Is(d, Ns16550) || Is(d, SifiveUart)
  }

  ghost predicate FirstOf(ds: seq<Device>, i: int, c: Class) {
    0 <= i < |ds| && Is(ds[i], c) && forall j :: 0 <= j < i ==> !Is(ds[j], c)
  }

  ghost predicate LastOf(ds: seq<Device>, i: int, c: Class) {
    0 <= i < |ds| && Is(ds[i], c) && forall j :: i < j < |ds| ==> !Is(ds[j], c)
  }

  /** The VirtIO transport is the first one with an address; without one the fields stay zero. */
  lemma {:induction false} VirtioFirst(ds: seq<Device>)
    ensures forall i :: FirstOf(ds, i, Virtio) ==>
              var m := CommitAll(NO_SOC, ds);
              m.virtioBase == ds[i].regBase && m.virtioStride == ds[i].regSize && m.virtioIrq == ds[i].irq
    ensures (forall i :: 0 <= i < |ds| ==> !Is(ds[i], Virtio)) ==> CommitAll(NO_SOC, ds).virtioBase == 0
    decreases |ds|
  {
    hide ClassOf;
    if ds != [] {
      var n := |ds| - 1;
      var es := ds[..n];
      CommitLast(NO_SOC, ds);
      VirtioFirst(es);
      forall i | FirstOf(ds, i, Virtio)
        ensures var m := CommitAll(NO_SOC, ds);
                m.virtioBase == ds[i].regBase && m.virtioStride == ds[i].regSize && m.virtioIrq == ds[i].irq
      {
        if i < n {
          assert FirstOf(es, i, Virtio);
        } else {
          assert forall j :: 0 <= j < n ==> es[j] == ds[j];
        }
      }
    }
  }

  /** So is the boot storage. */
  lemma {:induction false} StorageFirst(ds: seq<Device>)
    ensures forall i :: FirstOf(ds, i, Storage) ==>
              var m := CommitAll(NO_SOC, ds);
              m.storageBase == ds[i].regBase && m.storageIrq == ds[i].irq
    ensures (forall i :: 0 <= i < |ds| ==> !Is(ds[i], Storage)) ==> CommitAll(NO_SOC, ds).storageBase == 0
    decreases |ds|
  {
    hide ClassOf;
    if ds != [] {
      var n := |ds| - 1;
      var es := ds[..n];
      CommitLast(NO_SOC, ds);
      StorageFirst(es);
      forall i | FirstOf(ds, i, Storage)
        ensures var m := CommitAll(NO_SOC, ds);
                m.storageBase == ds[i].regBase && m.storageIrq == ds[i].irq
      {
        if i < n {
          assert FirstOf(es, i, Storage);
        } else {
          assert forall j :: 0 <= j < n ==> es[j] == ds[j];
        }
      }
    }
  }

  ghost predicate FirstSimple(ds: seq<Device>, i: int) {
    0 <= i < |ds| && SimpleUart(ds[i]) && forall j :: 0 <= j < i ==> !SimpleUart(ds[j])
  }

  /** The console UART is the last PL011, if there is one. */
  lemma {:induction false} UartLast(ds: seq<Device>)
    ensures forall i :: LastOf(ds, i, Pl011) ==>
              CommitAll(NO_SOC, ds).uart0Base == ds[i].regBase && CommitAll(NO_SOC, ds).uartIrq == ds[i].irq
    decreases |ds|
  {
    hide ClassOf;
    if ds != [] {
      var n := |ds| - 1;
      var es, d := ds[..n], ds[n];
      CommitLast(NO_SOC, ds);
      UartLast(es);
      hide CommitAll;
      forall i | LastOf(ds, i, Pl011)
        ensures CommitAll(NO_SOC, ds).uart0Base == ds[i].regBase && CommitAll(NO_SOC, ds).uartIrq == ds[i].irq
      {
        if i < n { assert LastOf(es, i, Pl011); }
      }
    }
  }

  /** Without a PL011 it is the first NS16550 or SiFive UART; without any it stays zero. */
  lemma {:induction false} UartFirst(ds: seq<Device>)
    requires forall i :: 0 <= i < |ds| ==> !Is(ds[i], Pl011)
    ensures forall i :: FirstSimple(ds, i) ==>
              CommitAll(NO_SOC, ds).uart0Base == ds[i].regBase && CommitAll(NO_SOC, ds).uartIrq == ds[i].irq
    ensures (forall i :: 0 <= i < |ds| ==> !SimpleUart(ds[i])) ==> CommitAll(NO_SOC, ds).uart0Base == 0
    decreases |ds|
  {
    hide ClassOf, Commit, SimpleUart;
    if ds != [] {
      var n := |ds| - 1;
      var es := ds[..n];
      assert forall j :: 0 <= j < n ==> es[j] == ds[j];
      CommitLast(NO_SOC, ds);
      UartFirst(es);
      CommitUart(CommitAll(NO_SOC, es), ds[n]);
      hide CommitAll;
      forall i | FirstSimple(ds, i)
        ensures CommitAll(NO_SOC, ds).uart0Base == ds[i].regBase && CommitAll(NO_SOC, ds).uartIrq == ds[i].irq
      {
        HasBase(ds[i]);
        if i < n {
          assert FirstSimple(es, i);
        } else {
          assert forall j :: 0 <= j < n ==> !SimpleUart(es[j]);
        }
      }
    }
  }

  lemma HasBase(d: Device)
    requires SimpleUart(d)
    ensures d.regBase != 0
  {
  }

  lemma CommitUart(m: Soc, d: Device)
    requires !Is(d, Pl011)
    ensures var taken := SimpleUart(d) && m.uart0Base == 0;
            && Commit(m, d).uart0Base == (if taken then d.regBase else m.uart0Base)
            && Commit(m, d).uartIrq == (if taken then d.irq else m.uartIrq)
  {
    hide ClassOf;
  }

  /** The GIC distributor is the first GIC node. */
  lemma {:induction false} GicDistributor(ds: seq<Device>)
    ensures forall i :: FirstOf(ds, i, Gic) ==> CommitAll(NO_SOC, ds).gicDistBase == ds[i].regBase
    ensures (forall i :: 0 <= i < |ds| ==> !Is(ds[i], Gic)) ==>
              CommitAll(NO_SOC, ds).gicDistBase == 0 && CommitAll(NO_SOC, ds).gicCpuBase == 0
    decreases |ds|
  {
    hide ClassOf;
    if ds != [] {
      var n := |ds| - 1;
      var es := ds[..n];
      assert forall j :: 0 <= j < n ==> es[j] == ds[j];
      CommitLast(NO_SOC, ds);
      GicDistributor(es);
      CommitGic(CommitAll(NO_SOC, es), ds[n]);
      hide CommitAll, Commit;
      forall i | FirstOf(ds, i, Gic) ensures CommitAll(NO_SOC, ds).gicDistBase == ds[i].regBase {
        if i < n { assert FirstOf(es, i, Gic); }
      }
    }
  }

  /** The GIC CPU interface is the last GIC node after the first. */
  lemma {:induction false} GicCpuInterface(ds: seq<Device>, i: int, k: int)
    requires FirstOf(ds, i, Gic) && LastOf(ds, k, Gic)
    ensures CommitAll(NO_SOC, ds).gicCpuBase == if i == k then 0 else ds[k].regBase
    decreases |ds|
  {
    hide Commit, CommitAll, ClassOf, Is;
    var n := |ds| - 1;
    var m := CommitAll(NO_SOC, ds[..n]);
    if k < n {
      GicEarlier(ds, i, k);
      GicCpuInterface(ds[..n], i, k);
    } else if i < n {
      FirstEarlier(ds, i);
    } else {
      NoGicYet(ds[..n]);
    }
    hide *;
    CommitLast(NO_SOC, ds);
    CommitGic(m, ds[n]);
  }

  /** The address of an earlier GIC is in place and not zero. */
  lemma FirstEarlier(ds: seq<Device>, i: int)
    requires FirstOf(ds, i, Gic) && i < |ds| - 1
    ensures CommitAll(NO_SOC, ds[..|ds| - 1]).gicDistBase != 0
  {
    var es := ds[..|ds| - 1];
    GicDistributor(es);
    hide ClassOf, CommitAll;
    assert forall j :: 0 <= j < |es| ==> es[j] == ds[j];
    assert FirstOf(es, i, Gic);
  }

  lemma {:induction false} NoGicYet(es: seq<Device>)
    ensures (forall j :: 0 <= j < |es| ==> !Is(es[j], Gic)) ==>
              CommitAll(NO_SOC, es).gicDistBase == 0 && CommitAll(NO_SOC, es).gicCpuBase == 0
  {
    GicDistributor(es);
  }

  lemma GicEarlier(ds: seq<Device>, i: int, k: int)
    requires FirstOf(ds, i, Gic) && LastOf(ds, k, Gic) && k < |ds| - 1
    ensures FirstOf(ds[..|ds| - 1], i, Gic) && LastOf(ds[..|ds| - 1], k, Gic) && !Is(ds[|ds| - 1], Gic)
  {
    hide Is;
    var es := ds[..|ds| - 1];
    assert forall j :: 0 <= j < |es| ==> es[j] == ds[j];
  }

  lemma CommitGic(m: Soc, d: Device)
    ensures Commit(m, d).gicDistBase == if Is(d, Gic) && m.gicDistBase == 0 then d.regBase else m.gicDistBase
    ensures Commit(m, d).gicCpuBase == if Is(d, Gic) && m.gicDistBase != 0 then d.regBase else m.gicCpuBase
  {
    hide ClassOf;
  }

  // ----- the reg property -----

  /** A number as one or two big-endian cells. */
  function CellBytes(n: nat, count: nat): seq<byte> {
    if count == 2 then PutBe32(n / U32 % U32) + PutBe32(n % U32) else PutBe32(n)
  }

  lemma CellsRead(n: nat, count: nat, value: seq<byte>, at: nat)
    requires count == 1 || count == 2
    requires n < if count == 2 then U64 else U32
    requires at + 4 * count <= |value| && value[at..at + 4 * count] == CellBytes(n, count)
    ensures CellsAt(value, at, count) == Some(n)
  {
    hide PutBe32, Be32;
    if count == 2 {
      assert value[at..at + 4] == value[at..at + 8][..4] == PutBe32(n / U32 % U32);
      assert value[at + 4..at + 8] == value[at..at + 8][4..] == PutBe32(n % U32);
      DecodeBe32(n / U32 % U32, value, at);
      DecodeBe32(n % U32, value, at + 4);
    } else {
      DecodeBe32(n, value, at);
    }
  }

  /** A reg value written with the cell counts in force is read back, whatever follows its first entry. */
  lemma RegRoundTrip(base: nat, size: nat, c: Cells, more: seq<byte>)
    requires (c.addr == 1 || c.addr == 2) && (c.size == 1 || c.size == 2)
    requires base < (if c.addr == 2 then U64 else U32) && size < (if c.size == 2 then U64 else U32)
    ensures SocReg(CellBytes(base, c.addr) + CellBytes(size, c.size) + more, c) == Reg(Some(base), Some(size))
  {
    hide CellBytes, CellsAt, SocReg, PutBe32;
    var a, b := CellBytes(base, c.addr), CellBytes(size, c.size);
    var value := a + b + more;
    CellLength(base, c.addr);
    CellLength(size, c.size);
    FirstEntry(a, b, more, 4 * c.addr, 4 * c.size);
    CellsRead(base, c.addr, value, 0);
    CellsRead(size, c.size, value, 4 * c.addr);
    RegOf(value, c);
  }

  lemma CellLength(n: nat, count: nat)
    requires count == 1 || count == 2
    ensures |CellBytes(n, count)| == 4 * count
  {
    hide PutBe32;
  }

  lemma RegOf(value: seq<byte>, c: Cells)
    requires c.addr <= 2 && c.size <= 2 && |value| >= 4 * c.addr + 4 * c.size
    ensures SocReg(value, c) == Reg(CellsAt(value, 0, c.addr), CellsAt(value, 4 * c.addr, c.size))
  {
    hide CellsAt;
    SmallCells(c);
  }

  lemma SmallCells(c: Cells)
    requires c.addr <= 2 && c.size <= 2
    ensures (c.addr + c.size) % U32 * 4 % U32 == 4 * c.addr + 4 * c.size && c.addr * 4 % U32 == 4 * c.addr
  {
  }

  lemma FirstEntry(a: seq<byte>, b: seq<byte>, more: seq<byte>, m: nat, n: nat)
    requires |a| == m && |b| == n
    ensures var value := a + b + more; |value| >= m + n && value[0..0 + m] == a && value[m..m + n] == b
  {
  }

  // ----- when a tree always gets an answer -----

  /** At least one address cell, and a length test that does not wrap. */
  predicate Sane(c: Cells) {
    c.addr >= 1 && (c.addr + c.size) * 4 < U32
  }

  /** Every soc node of a list leaves sane cell counts. */
  predicate SaneTop(ns: seq<Node>, c: Cells, names: Names)
    decreases ns
  {
    if ns == [] then true
    else if ns[0].name == Ascii("soc")
    then
      var k := CellsOf(ns[0].props, c, names);
      Sane(k) && SaneTop(ns[1..], k, names)
    else SaneTop(ns[1..], c, names)
  }

  /** The base is read from inside the value, whatever its length. */
  lemma SaneReg(value: seq<byte>, c: Cells)
    requires Sane(c)
    ensures SocReg(value, c).base.Some?
  {
    hide Be32, Be64;
  }

  lemma {:induction false} SaneDevice(ps: seq<Prop>, d: Device, c: Cells, names: Names)
    requires Sane(c)
    ensures !DeviceOf(ps, d, c, names).1
    decreases ps
  {
    hide SocReg, Sane;
    if ps != [] {
      SaneReg(ps[0].value, c);
      SaneDevice(ps[1..], DeviceProp(d, c, names(ps[0].nameOff), ps[0].value).0, c, names);
    }
  }

  lemma {:induction false} SaneFold(a: Acc, n: Node, names: Names)
    requires Sane(a.cells)
    ensures FoldDevice(a, n, names).fault == a.fault
    decreases n, 1
  {
    hide Sane, Commit, DeviceOf;
    SaneDevice(n.props, NO_DEVICE, a.cells, names);
    var d := DeviceOf(n.props, NO_DEVICE, a.cells, names);
    SaneFolds(Acc(Commit(a.m, d.0), a.cells, a.fault || d.1), n.kids, names);
  }

  lemma {:induction false} SaneFolds(a: Acc, ns: seq<Node>, names: Names)
    requires Sane(a.cells)
    ensures FoldDevices(a, ns, names).fault == a.fault
    decreases ns, 0
  {
    hide Sane, FoldDevice;
    if ns != [] {
      SaneFold(a, ns[0], names);
      FoldIsCommits(a, ns[0], names);
      SaneFolds(FoldDevice(a, ns[0], names), ns[1..], names);
    }
  }

  lemma {:induction false} SaneTops(a: Acc, ns: seq<Node>, names: Names)
    requires SaneTop(ns, a.cells, names)
    ensures FoldTop(a, ns, names).fault == a.fault
    decreases ns
  {
    hide Sane, FoldDevices, CellsOf, Ascii;
    if ns != [] {
      if ns[0].name == Ascii("soc") {
        var b := a.(cells := CellsOf(ns[0].props, a.cells, names));
        SaneFolds(b, ns[0].kids, names);
        FoldAllIsCommits(b, ns[0].kids, names);
        SaneTops(FoldDevices(b, ns[0].kids, names), ns[1..], names);
      } else {
        SaneTops(a, ns[1..], names);
      }
    }
  }

  /** A tree whose soc nodes leave sane cell counts is never unsafe, even without size cells. */
  lemma SaneTreeIsAnswered(root: Node, names: Names)
    requires SaneTop(root.kids, Cells(1, 1), names)
    ensures !SocOf(root, names).fault
  {
    SaneTops(Acc(NO_SOC, Cells(1, 1), false), root.kids, names);
  }
}
