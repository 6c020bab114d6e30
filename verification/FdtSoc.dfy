/**
 uiox_boot_dt_soc: peripheral addresses collected by a pair of callbacks that
 commit a device when the next node begins, and the per-device fold they compute.
 */
module FdtSoc {
  import opened Bits
  import opened Bytes
  import opened Options
  import opened FdtFormat
  import opened FdtWalk

  /** uiox_soc_runtime_t. A stride of None was read from bytes behind its property value. */
  datatype Soc = Soc(
    uart0Base: nat, gicDistBase: nat, gicCpuBase: nat, vicBase: nat, plicBase: nat, clintBase: nat,
    timerBase: nat, virtioBase: nat, virtioStride: Option<nat>, virtioIrq: nat, storageBase: nat, storageIrq: nat,
    uartIrq: nat, timerIrq: nat, sourced: bool)

  const NO_SOC := Soc(0, 0, 0, 0, 0, 0, 0, 0, Some(0), 0, 0, 0, 0, 0, false)

  /** What the callbacks remember of one device node. */
  datatype Device = Device(regBase: nat, regSize: Option<nat>, compat: seq<byte>, irq: nat)

  const NO_DEVICE := Device(0, Some(0), [0], 0)

  /** The cell counts in force. */
  datatype Cells = Cells(addr: nat, size: nat)

  /** pfx: whether the string starts with a NUL-free prefix. */
  predicate Pfx(s: seq<byte>, p: seq<byte>) {
    p <= s
  }

  /** The driver class a compatible string selects: the first matching prefix of the code's chain. */
  datatype Class = Pl011 | Pl190 | Sp804 | Gic | Ns16550 | SifiveUart | Plic | Clint | Virtio | Storage | Other

  function ClassOf(compat: seq<byte>): Class {
    if Pfx(compat, Ascii("arm,pl011")) then Pl011
    else if Pfx(compat, Ascii("arm,pl190")) then Pl190
    else if Pfx(compat, Ascii("arm,sp804")) then Sp804
    else if Pfx(compat, Ascii("arm,gic")) then Gic
    else if Pfx(compat, Ascii("ns16550")) then Ns16550
    else if Pfx(compat, Ascii("sifive,uart")) then SifiveUart
    else if Pfx(compat, Ascii("riscv,plic")) then Plic
    else if Pfx(compat, Ascii("sifive,clint")) then Clint
    else if Pfx(compat, Ascii("virtio,mmio")) then Virtio
    else if Pfx(compat, Ascii("uiox,")) then Storage
    else Other
  }

  /** soc_commit. */
  function Commit(m: Soc, d: Device): Soc {
    if d.regBase == 0 then m
    else
      match ClassOf(d.compat)
      case Pl011 => m.(uart0Base := d.regBase, uartIrq := d.irq, sourced := true)
      case Pl190 => m.(vicBase := d.regBase, sourced := true)
      case Sp804 => m.(timerBase := d.regBase, timerIrq := d.irq, sourced := true)
      case Gic =>
        if m.gicDistBase == 0 then m.(gicDistBase := d.regBase, sourced := true)
        else m.(gicCpuBase := d.regBase, sourced := true)
      case Ns16550 =>
        if m.uart0Base == 0 then m.(uart0Base := d.regBase, uartIrq := d.irq, sourced := true)
        else m.(sourced := true)
      case SifiveUart =>
        if m.uart0Base == 0 then m.(uart0Base := d.regBase, uartIrq := d.irq, sourced := true)
        else m.(sourced := true)
      case Plic => m.(plicBase := d.regBase, sourced := true)
      case Clint => m.(clintBase := d.regBase, sourced := true)
      case Virtio =>
        if m.virtioBase == 0
        then m.(virtioBase := d.regBase, virtioStride := d.regSize, virtioIrq := d.irq, sourced := true)
        else m.(sourced := true)
      case Storage =>
        if m.storageBase == 0 then m.(storageBase := d.regBase, storageIrq := d.irq, sourced := true)
        else m.(sourced := true)
      case Other => m
  }

  // ----- one property -----

  /** What soc_reg stores; None stands for a read that leaves the property value. */
  datatype Reg = Reg(base: Option<nat>, size: Option<nat>)

  /** A one- or two-cell number at an offset, by the cell count. */
  function CellsAt(value: seq<byte>, at: nat, count: nat): Option<nat> {
    if count == 2 then if at + 8 <= |value| then Some(Be64(value, at)) else None
    else if at + 4 <= |value| then Some(Be32(value, at)) else None
  }

  /** soc_reg: the length test wraps at 32 bits. */
  function SocReg(value: seq<byte>, c: Cells): Reg {
    if |value| < (c.addr + c.size) % U32 * 4 % U32 then Reg(Some(0), Some(0))
    else Reg(CellsAt(value, 0, c.addr), CellsAt(value, c.addr * 4 % U32, c.size))
  }

  predicate StartsWith(name: seq<byte>, p: string)
    requires forall i :: 0 <= i < |p| ==> p[i] < 128 as char
  {
    Ascii(p) <= name
  }

  /** A property of the soc node itself: it may set a cell count. */
  function CellProp(c: Cells, name: seq<byte>, value: seq<byte>): Cells {
    if StartsWith(name, "#a") && |value| == 4 then c.(addr := Be32(value, 0))
    else if StartsWith(name, "#s") && |value| == 4 then c.(size := Be32(value, 0))
    else c
  }

  /** A property of a device below soc; the flag says whether the base was read from behind the value. */
  function DeviceProp(d: Device, c: Cells, name: seq<byte>, value: seq<byte>): (Device, bool) {
    if name == Ascii("reg") then
      var r := SocReg(value, c);
      if r.base.None? then (d, true) else (d.(regBase := r.base.value, regSize := r.size), false)
    else if StartsWith(name, "c") && |value| >= 2 then
      var n := if |value| < 63 then |value| else 63;
      (d.(compat := value[..n] + [0]), false)
    else if StartsWith(name, "in") && |value| >= 4 then
      (d.(irq := Be32(value, 0)), false)
    else (d, false)
  }

  // ----- the callbacks -----

  /** struct soc_ctx. */
  datatype Ctx = Ctx(m: Soc, dev: Device, cells: Cells, inSoc: bool, depthSoc: nat, fault: bool)

  function SocNode(x: Ctx, depth: nat, name: seq<byte>): (Ctx, bool) {
    var y :=
      if depth == 1 && name == Ascii("soc") then
        (if x.inSoc then x.(m := Commit(x.m, x.dev)) else x).(inSoc := true, depthSoc := depth)
      else if x.inSoc && depth <= x.depthSoc then x.(m := Commit(x.m, x.dev), inSoc := false)
      else if x.inSoc then x.(m := Commit(x.m, x.dev))
      else x;
    (y.(dev := NO_DEVICE), false)
  }

  function SocProp(x: Ctx, depth: nat, name: seq<byte>, value: seq<byte>): (Ctx, bool) {
    if !x.inSoc then (x, false)
    else if depth == x.depthSoc + 1 then (x.(cells := CellProp(x.cells, name, value)), false)
    else
      var r := DeviceProp(x.dev, x.cells, name, value);
      (x.(dev := r.0, fault := x.fault || r.1), false)
  }

  const SOC_HANDLER: Handler<Ctx> :=
    Handler((x: Ctx, d: nat, n: seq<byte>) => SocNode(x, d, n),
            (x: Ctx, d: nat, n: seq<byte>, v: seq<byte>) => SocProp(x, d, n, v))

  const START := Ctx(NO_SOC, NO_DEVICE, Cells(1, 1), false, 0, false)

  datatype Outcome = BadMagic | NotFound(soc: Soc) | Found(soc: Soc) | Unsafe

  function OutcomeOf(x: Ctx, ending: Ending): Outcome {
    if ending == Faulted || x.fault then Unsafe
    else if Commit(x.m, x.dev).sourced then Found(Commit(x.m, x.dev))
    else NotFound(Commit(x.m, x.dev))
  }

  /** uiox_boot_dt_soc. Unsafe stands for a read outside the blob, or a base read from behind its value. */
  method BootDtSoc(blob: seq<byte>, base: nat) returns (r: Outcome)
    requires Placed(base, blob) && |blob| >= 16
    ensures Be32(blob, 0) != 0xD00D_FEED ==> r == BadMagic
    ensures Be32(blob, 0) == 0xD00D_FEED ==>
              var w := WalkFrom(blob, base, NamesOf(blob, Be32(blob, 12)), SOC_HANDLER, Be32(blob, 8), 0, START);
              r == OutcomeOf(w.0, w.1)
  {
    hide WalkFrom, Be32, Commit;
    if Be32(blob, 0) != DTB_MAGIC { return BadMagic; }
    var x, ending := DtWalk(blob, base, Be32(blob, 8), NamesOf(blob, Be32(blob, 12)), SOC_HANDLER, START);
    return OutcomeOf(x, ending);
  }

  // ----- the same extraction as a fold over the devices of the tree -----

  /** The map so far, the cells in force, and whether some base was read from behind its value. */
  datatype Acc = Acc(m: Soc, cells: Cells, fault: bool)

  /** A device's own last reg, compatible and interrupt values. */
  function DeviceOf(ps: seq<Prop>, d: Device, c: Cells, names: Names): (Device, bool) {
    if ps == [] then (d, false)
    else
      var r := DeviceProp(d, c, names(ps[0].nameOff), ps[0].value);
      var t := DeviceOf(ps[1..], r.0, c, names);
      (t.0, r.1 || t.1)
  }

  function CellsOf(ps: seq<Prop>, c: Cells, names: Names): Cells {
    if ps == [] then c else CellsOf(ps[1..], CellProp(c, names(ps[0].nameOff), ps[0].value), names)
  }

  /** Below soc, every node in pre-order is one device, committed with its own values. */
  function FoldDevice(a: Acc, n: Node, names: Names): Acc
    decreases n, 1
  {
    var d := DeviceOf(n.props, NO_DEVICE, a.cells, names);
    FoldDevices(Acc(Commit(a.m, d.0), a.cells, a.fault || d.1), n.kids, names)
  }

  function FoldDevices(a: Acc, ns: seq<Node>, names: Names): Acc
    decreases ns, 0
  {
    if ns == [] then a else FoldDevices(FoldDevice(a, ns[0], names), ns[1..], names)
  }

  /** Of the root's children only those named soc count: their cells, then their devices. */
  function FoldTop(a: Acc, ns: seq<Node>, names: Names): Acc
    decreases ns
  {
    if ns == [] then a
    else if ns[0].name == Ascii("soc")
    then FoldTop(FoldDevices(a.(cells := CellsOf(ns[0].props, a.cells, names)), ns[0].kids, names), ns[1..], names)
    else FoldTop(a, ns[1..], names)
  }

  function SocOf(root: Node, names: Names): Acc {
    FoldTop(Acc(NO_SOC, Cells(1, 1), false), root.kids, names)
  }

  // ----- commit-on-next-node is that fold -----

  function Process(x: Ctx, es: seq<Event>): Ctx {
    Fold(SOC_HANDLER, x, es)
  }

  lemma {:induction false} NeverStops(x: Ctx, es: seq<Event>)
    ensures Deliver(SOC_HANDLER, x, es) == (Process(x, es), false)
    decreases es
  {
    if es != [] { NeverStops(Handle(SOC_HANDLER, x, es[0]).0, es[1..]); }
  }

  lemma {:induction false} ProcessConcat(x: Ctx, es: seq<Event>, fs: seq<Event>)
    ensures Process(x, es + fs) == Process(Process(x, es), fs)
    decreases es
  {
    if es == [] {
      assert es + fs == fs;
    } else {
      assert (es + fs)[1..] == es[1..] + fs;
      ProcessConcat(Handle(SOC_HANDLER, x, es[0]).0, es[1..], fs);
    }
  }

  lemma ProcessOne(x: Ctx, e: Event)
    ensures Process(x, [e]) == Handle(SOC_HANDLER, x, e).0
  {
    var y := Handle(SOC_HANDLER, x, e).0;
    assert [e][1..] == [];
    assert Fold(SOC_HANDLER, y, []) == y;
    assert Fold(SOC_HANDLER, x, [e]) == Fold(SOC_HANDLER, y, [e][1..]);
  }

  /** The accumulated value a context stands for: what it would be after the pending commit. */
  function Meaning(x: Ctx): Acc {
    Acc(Commit(x.m, x.dev), x.cells, x.fault)
  }

  /** Outside soc nothing is pending; inside, the soc node is at depth 1. */
  predicate Regular(x: Ctx) {
    if x.inSoc then x.depthSoc == 1 else x.dev == NO_DEVICE
  }

  lemma {:induction false} DeviceProps(x: Ctx, ps: seq<Prop>, depth: nat, names: Names)
    requires x.inSoc && depth != x.depthSoc + 1
    ensures var d := DeviceOf(ps, x.dev, x.cells, names);
            Process(x, PropEvents(ps, depth, names)) == x.(dev := d.0, fault := x.fault || d.1)
    decreases ps
  {
    hide DeviceProp;
    if ps != [] {
      var es := PropEvents(ps, depth, names);
      assert es[1..] == PropEvents(ps[1..], depth, names);
      DeviceProps(SocProp(x, depth, names(ps[0].nameOff), ps[0].value).0, ps[1..], depth, names);
    }
  }

  lemma {:induction false} CellProps(x: Ctx, ps: seq<Prop>, depth: nat, names: Names)
    requires x.inSoc && depth == x.depthSoc + 1
    ensures Process(x, PropEvents(ps, depth, names)) == x.(cells := CellsOf(ps, x.cells, names))
    decreases ps
  {
    hide CellProp;
    if ps != [] {
      var es := PropEvents(ps, depth, names);
      assert es[1..] == PropEvents(ps[1..], depth, names);
      CellProps(SocProp(x, depth, names(ps[0].nameOff), ps[0].value).0, ps[1..], depth, names);
    }
  }

  lemma {:induction false} IgnoredProps(x: Ctx, ps: seq<Prop>, depth: nat, names: Names)
    requires !x.inSoc
    ensures Process(x, PropEvents(ps, depth, names)) == x
    decreases ps
  {
    if ps != [] {
      var es := PropEvents(ps, depth, names);
      assert es[1..] == PropEvents(ps[1..], depth, names);
      IgnoredProps(x, ps[1..], depth, names);
    }
  }

  lemma {:induction false} PreOrderParts(x: Ctx, n: Node, depth: nat, names: Names)
    ensures Process(x, PreOrder(n, depth, names)) ==
            Process(Process(SocNode(x, depth, n.name).0, PropEvents(n.props, depth + 1, names)),
                    PreOrderAll(n.kids, depth + 1, names))
  {
    hide Process, SocNode, PropEvents, PreOrderAll;
    var a, b := [NodeAt(depth, n.name)], PropEvents(n.props, depth + 1, names);
    var c := PreOrderAll(n.kids, depth + 1, names);
    ProcessConcat(x, a + b, c);
    ProcessConcat(x, a, b);
    ProcessOne(x, a[0]);
  }

  /** A device subtree inside soc. */
  lemma {:induction false} DeviceTree(x: Ctx, n: Node, depth: nat, names: Names)
    requires Regular(x) && x.inSoc && depth >= 2
    ensures var y := Process(x, PreOrder(n, depth, names));
            Regular(y) && y.inSoc && Meaning(y) == FoldDevice(Meaning(x), n, names)
    decreases n, 1
  {
    hide Process, Commit, PreOrder, PropEvents, PreOrderAll, DeviceOf;
    PreOrderParts(x, n, depth, names);
    var y := SocNode(x, depth, n.name).0;
    DeviceProps(y, n.props, depth + 1, names);
    DeviceTrees(Process(y, PropEvents(n.props, depth + 1, names)), n.kids, depth + 1, names);
  }

  lemma {:induction false} DeviceTrees(x: Ctx, ns: seq<Node>, depth: nat, names: Names)
    requires Regular(x) && x.inSoc && depth >= 2
    ensures var y := Process(x, PreOrderAll(ns, depth, names));
            Regular(y) && y.inSoc && Meaning(y) == FoldDevices(Meaning(x), ns, names)
    decreases ns, 0
  {
    hide Commit, PreOrder, FoldDevice;
    if ns != [] {
      ProcessConcat(x, PreOrder(ns[0], depth, names), PreOrderAll(ns[1..], depth, names));
      DeviceTree(x, ns[0], depth, names);
      DeviceTrees(Process(x, PreOrder(ns[0], depth, names)), ns[1..], depth, names);
    }
  }

  /** A subtree outside soc below depth 1 changes nothing. */
  lemma {:induction false} OutsideTree(x: Ctx, n: Node, depth: nat, names: Names)
    requires Regular(x) && !x.inSoc && depth != 1
    ensures Process(x, PreOrder(n, depth, names)) ==
            if depth == 0 then Process(x, PreOrderAll(n.kids, 1, names)) else x
    decreases n, 1
  {
    hide Process, PreOrder, PropEvents, PreOrderAll;
    PreOrderParts(x, n, depth, names);
    IgnoredProps(x, n.props, depth + 1, names);
    if depth != 0 { OutsideTrees(x, n.kids, depth + 1, names); }
  }

  lemma {:induction false} OutsideTrees(x: Ctx, ns: seq<Node>, depth: nat, names: Names)
    requires Regular(x) && !x.inSoc && depth >= 2
    ensures Process(x, PreOrderAll(ns, depth, names)) == x
    decreases ns, 0
  {
    hide PreOrder;
    if ns != [] {
      ProcessConcat(x, PreOrder(ns[0], depth, names), PreOrderAll(ns[1..], depth, names));
      OutsideTree(x, ns[0], depth, names);
      OutsideTrees(x, ns[1..], depth, names);
    }
  }

  lemma EmptyCommit(m: Soc)
    ensures Commit(m, NO_DEVICE) == m
  {
  }

  /** One child of the root. */
  lemma {:induction false} TopTree(x: Ctx, n: Node, names: Names)
    requires Regular(x)
    ensures var y := Process(x, PreOrder(n, 1, names));
            Regular(y) && Meaning(y) ==
              if n.name == Ascii("soc")
              then FoldDevices(Meaning(x).(cells := CellsOf(n.props, x.cells, names)), n.kids, names)
              else Meaning(x)
  {
    hide Process, Commit, PreOrder, PropEvents, PreOrderAll, CellsOf, FoldDevices, Ascii;
    PreOrderParts(x, n, 1, names);
    var y := SocNode(x, 1, n.name).0;
    EmptyCommit(x.m);
    EmptyCommit(y.m);
    if n.name == Ascii("soc") {
      CellProps(y, n.props, 2, names);
      DeviceTrees(Process(y, PropEvents(n.props, 2, names)), n.kids, 2, names);
    } else {
      IgnoredProps(y, n.props, 2, names);
      OutsideTrees(y, n.kids, 2, names);
    }
  }

  lemma {:induction false} TopTrees(x: Ctx, ns: seq<Node>, names: Names)
    requires Regular(x)
    ensures var y := Process(x, PreOrderAll(ns, 1, names));
            Regular(y) && Meaning(y) == FoldTop(Meaning(x), ns, names)
    decreases ns
  {
    hide Commit, PreOrder, FoldDevices, CellsOf, Ascii;
    if ns != [] {
      ProcessConcat(x, PreOrder(ns[0], 1, names), PreOrderAll(ns[1..], 1, names));
      TopTree(x, ns[0], names);
      TopTrees(Process(x, PreOrder(ns[0], 1, names)), ns[1..], names);
    }
  }

  /** For every tree, the walk with commit-on-next-node gives the fold over the devices below soc. */
  lemma SocIsFold(blob: seq<byte>, base: nat, at: nat, root: Node, items: seq<Item>, rest: seq<byte>, names: Names)
    requires Holds(blob, base, at, root, items, rest)
    ensures var w := WalkFrom(blob, base, names, SOC_HANDLER, at, 0, START);
            var a := SocOf(root, names);
            OutcomeOf(w.0, w.1) == if a.fault then Unsafe else if a.m.sourced then Found(a.m) else NotFound(a.m)
  {
    hide Holds, WalkFrom, Deliver, PreOrder, PreOrderAll, Process, FoldTop, Commit;
    WalkReportsTree(blob, base, at, root, items, rest, names, SOC_HANDLER, START);
    NeverStops(START, PreOrder(root, 0, names));
    OutsideTree(START, root, 0, names);
    EmptyCommit(NO_SOC);
    TopTrees(START, root.kids, names);
  }
}
