/**
 Which device of a tree each peripheral address comes from, by the compatible
 strings the extraction looks for, and which properties make up a device.
 */
module FdtSocWinners {
  import opened Bits
  import opened Options
  import opened Bytes
  import opened FdtFormat
  import opened FdtWalk
  import opened FdtSoc
  import opened FdtSocRules

  // ----- compatible strings -----

  /** A device with an address whose compatible string starts with p. */
  predicate Compatible(d: Device, p: string) {
    d.regBase != 0 && Starts(d.compat, p)
  }

  lemma ArmKeys(c: seq<byte>)
    ensures Starts(c, "arm,pl011") ==> |c| > 7 && Octet(c[0]) == 0x61 && Octet(c[4]) == 0x70 && Octet(c[6]) == 0x30
    ensures Starts(c, "arm,pl190") ==> |c| > 7 && Octet(c[0]) == 0x61 && Octet(c[4]) == 0x70 && Octet(c[6]) == 0x31
    ensures Starts(c, "arm,sp804") ==> |c| > 7 && Octet(c[0]) == 0x61 && Octet(c[4]) == 0x73
    ensures Starts(c, "arm,gic") ==> |c| > 6 && Octet(c[0]) == 0x61 && Octet(c[4]) == 0x67
  {
    hide Octet;
  }

  lemma OtherKeys(c: seq<byte>)
    ensures Starts(c, "ns16550") ==> |c| > 6 && Octet(c[0]) == 0x6E
    ensures Starts(c, "sifive,uart") ==> |c| > 7 && Octet(c[0]) == 0x73 && Octet(c[7]) == 0x75
    ensures Starts(c, "riscv,plic") ==> |c| > 7 && Octet(c[0]) == 0x72
    ensures Starts(c, "sifive,clint") ==> |c| > 7 && Octet(c[0]) == 0x73 && Octet(c[7]) == 0x63
    ensures Starts(c, "virtio,mmio") ==> |c| > 7 && Octet(c[0]) == 0x76
    ensures Starts(c, "uiox,") ==> |c| > 4 && Octet(c[0]) == 0x75
  {
    hide Octet;
  }

  lemma ChainSpelled(c: seq<byte>)
    ensures ClassOf(c) ==
            if Starts(c, "arm,pl011") then Pl011
            else if Starts(c, "arm,pl190") then Pl190
            else if Starts(c, "arm,sp804") then Sp804
            else if Starts(c, "arm,gic") then Gic
            else if Starts(c, "ns16550") then Ns16550
            else if Starts(c, "sifive,uart") then SifiveUart
            else if Starts(c, "riscv,plic") then Plic
            else if Starts(c, "sifive,clint") then Clint
            else if Starts(c, "virtio,mmio") then Virtio
            else if Starts(c, "uiox,") then Storage
            else Other
  {
    hide Ascii, Starts;
    StartsExactly(c, "arm,pl011");
    StartsExactly(c, "arm,pl190");
    StartsExactly(c, "arm,sp804");
    StartsExactly(c, "arm,gic");
    StartsExactly(c, "ns16550");
    StartsExactly(c, "sifive,uart");
    StartsExactly(c, "riscv,plic");
    StartsExactly(c, "sifive,clint");
    StartsExactly(c, "virtio,mmio");
    StartsExactly(c, "uiox,");
  }

  /** No two of the ten prefixes go together, so each one decides its class. */
  lemma ClassExactly(d: Device)
    ensures Is(d, Pl011) <==> Compatible(d, "arm,pl011")
    ensures Is(d, Pl190) <==> Compatible(d, "arm,pl190")
    ensures Is(d, Sp804) <==> Compatible(d, "arm,sp804")
    ensures Is(d, Gic) <==> Compatible(d, "arm,gic")
    ensures Is(d, Ns16550) <==> Compatible(d, "ns16550")
    ensures Is(d, SifiveUart) <==> Compatible(d, "sifive,uart")
    ensures Is(d, Plic) <==> Compatible(d, "riscv,plic")
    ensures Is(d, Clint) <==> Compatible(d, "sifive,clint")
    ensures Is(d, Virtio) <==> Compatible(d, "virtio,mmio")
    ensures Is(d, Storage) <==> Compatible(d, "uiox,")
  {
    ChainSpelled(d.compat);
    ArmKeys(d.compat);
    OtherKeys(d.compat);
    hide ClassOf, Starts, Octet;
  }

  ghost predicate FirstWith(ds: seq<Device>, i: int, p: string)
  {
    0 <= i < |ds| && Compatible(ds[i], p) && forall j :: 0 <= j < i ==> !Compatible(ds[j], p)
  }

  ghost predicate LastWith(ds: seq<Device>, i: int, p: string)
  {
    0 <= i < |ds| && Compatible(ds[i], p) && forall j :: i < j < |ds| ==> !Compatible(ds[j], p)
  }

  ghost predicate NoneWith(ds: seq<Device>, p: string)
  {
    forall j :: 0 <= j < |ds| ==> !Compatible(ds[j], p)
  }

  // ----- the last device wins -----

  /** The classes for which every device overwrites the one before. */
  predicate Overwriting(c: Class) {
    c == Pl190 || c == Sp804 || c == Plic || c == Clint
  }

  /** Address and interrupt that the map keeps for such a class; only the timer has an interrupt. */
  function Kept(m: Soc, c: Class): (nat, nat) {
    match c
    case Pl190 => (m.vicBase, 0)
    case Sp804 => (m.timerBase, m.timerIrq)
    case Plic => (m.plicBase, 0)
    case Clint => (m.clintBase, 0)
    case _ => (0, 0)
  }

  function Given(d: Device, c: Class): (nat, nat) {
    (d.regBase, if c == Sp804 then d.irq else 0)
  }

  lemma CommitKeeps(m: Soc, d: Device, c: Class)
    requires Overwriting(c)
    ensures Kept(Commit(m, d), c) == if Is(d, c) then Given(d, c) else Kept(m, c)
  {
    hide ClassOf;
  }

  lemma {:induction false} LastWins(ds: seq<Device>, c: Class, i: int)
    requires Overwriting(c) && LastOf(ds, i, c)
    ensures Kept(CommitAll(NO_SOC, ds), c) == Given(ds[i], c)
    decreases |ds|
  {
    hide Is, Commit, Given, CommitAll, Kept;
    var n := |ds| - 1;
    CommitLast(NO_SOC, ds);
    CommitKeeps(CommitAll(NO_SOC, ds[..n]), ds[n], c);
    if i < n {
      LastEarlier(ds, c, i);
      LastWins(ds[..n], c, i);
    }
  }

  lemma LastEarlier(ds: seq<Device>, c: Class, i: int)
    requires LastOf(ds, i, c) && i < |ds| - 1
    ensures LastOf(ds[..|ds| - 1], i, c) && !Is(ds[|ds| - 1], c)
  {
    hide Is;
    var es := ds[..|ds| - 1];
    assert forall j :: 0 <= j < |es| ==> es[j] == ds[j];
  }

  lemma {:induction false} NoneKeeps(ds: seq<Device>, c: Class)
    requires Overwriting(c) && forall i :: 0 <= i < |ds| ==> !Is(ds[i], c)
    ensures Kept(CommitAll(NO_SOC, ds), c) == (0, 0)
    decreases |ds|
  {
    hide Is, Commit, Given;
    if ds != [] {
      var n := |ds| - 1;
      CommitLast(NO_SOC, ds);
      CommitKeeps(CommitAll(NO_SOC, ds[..n]), ds[n], c);
      NoneKeeps(ds[..n], c);
      hide CommitAll, Kept;
    }
  }

  lemma {:induction false} OverwritingNamed(ds: seq<Device>, c: Class, p: string)
    requires Overwriting(c) && Same(ds, c, p)
    ensures forall i :: LastWith(ds, i, p) ==> Kept(CommitAll(NO_SOC, ds), c) == Given(ds[i], c)
    ensures NoneWith(ds, p) ==> Kept(CommitAll(NO_SOC, ds), c) == (0, 0)
  {
    hide Is, Compatible, CommitAll, Kept, Given;
    forall i | LastWith(ds, i, p) ensures Kept(CommitAll(NO_SOC, ds), c) == Given(ds[i], c) {
      LastWins(ds, c, i);
    }
    if NoneWith(ds, p) { NoneKeeps(ds, c); }
  }

  lemma CommitSources(m: Soc, d: Device)
    ensures Commit(m, d).sourced == (m.sourced || (d.regBase != 0 && ClassOf(d.compat) != Other))
  {
    hide ClassOf;
  }

  lemma {:induction false} SomeSource(ds: seq<Device>)
    ensures CommitAll(NO_SOC, ds).sourced <==>
            exists i :: 0 <= i < |ds| && ds[i].regBase != 0 && ClassOf(ds[i].compat) != Other
    decreases |ds|
  {
    hide Commit, ClassOf;
    if ds != [] {
      var n := |ds| - 1;
      var es := ds[..n];
      assert forall j :: 0 <= j < n ==> es[j] == ds[j];
      CommitLast(NO_SOC, ds);
      SomeSource(es);
      CommitSources(CommitAll(NO_SOC, es), ds[n]);
      hide CommitAll;
    }
  }

  // ----- the winners by their strings -----

  lemma AllNamed(ds: seq<Device>)
    ensures Same(ds, Pl011, "arm,pl011") && Same(ds, Pl190, "arm,pl190") && Same(ds, Sp804, "arm,sp804")
    ensures Same(ds, Gic, "arm,gic") && Same(ds, Ns16550, "ns16550") && Same(ds, SifiveUart, "sifive,uart")
    ensures Same(ds, Plic, "riscv,plic") && Same(ds, Clint, "sifive,clint")
    ensures Same(ds, Virtio, "virtio,mmio") && Same(ds, Storage, "uiox,")
  {
    hide Is, Compatible;
    forall i: int | 0 <= i < |ds|
      ensures Is(ds[i], Pl011) <==> Compatible(ds[i], "arm,pl011")
      ensures Is(ds[i], Pl190) <==> Compatible(ds[i], "arm,pl190")
      ensures Is(ds[i], Sp804) <==> Compatible(ds[i], "arm,sp804")
      ensures Is(ds[i], Gic) <==> Compatible(ds[i], "arm,gic")
      ensures Is(ds[i], Ns16550) <==> Compatible(ds[i], "ns16550")
      ensures Is(ds[i], SifiveUart) <==> Compatible(ds[i], "sifive,uart")
      ensures Is(ds[i], Plic) <==> Compatible(ds[i], "riscv,plic")
      ensures Is(ds[i], Clint) <==> Compatible(ds[i], "sifive,clint")
      ensures Is(ds[i], Virtio) <==> Compatible(ds[i], "virtio,mmio")
      ensures Is(ds[i], Storage) <==> Compatible(ds[i], "uiox,")
    {
      ClassExactly(ds[i]);
    }
  }

  /** A class is the devices with an address whose compatible string starts with p. */
  ghost predicate Same(ds: seq<Device>, c: Class, p: string) {
    forall i :: 0 <= i < |ds| ==> (Is(ds[i], c) <==> Compatible(ds[i], p))
  }

  /** Interrupt controllers and timers of the last device that names them, and zero without one. */
  lemma {:induction false} LastsNamed(ds: seq<Device>)
    ensures var m := CommitAll(NO_SOC, ds);
            && (forall i :: LastWith(ds, i, "arm,pl190") ==> m.vicBase == ds[i].regBase)
            && (forall i :: LastWith(ds, i, "arm,sp804") ==> m.timerBase == ds[i].regBase && m.timerIrq == ds[i].irq)
            && (forall i :: LastWith(ds, i, "riscv,plic") ==> m.plicBase == ds[i].regBase)
            && (forall i :: LastWith(ds, i, "sifive,clint") ==> m.clintBase == ds[i].regBase)
    ensures var m := CommitAll(NO_SOC, ds);
            && (NoneWith(ds, "arm,pl190") ==> m.vicBase == 0)
            && (NoneWith(ds, "arm,sp804") ==> m.timerBase == 0 && m.timerIrq == 0)
            && (NoneWith(ds, "riscv,plic") ==> m.plicBase == 0)
            && (NoneWith(ds, "sifive,clint") ==> m.clintBase == 0)
  {
    AllNamed(ds);
    hide Is, Compatible, CommitAll, LastWith, NoneWith, Same;
    OverwritingNamed(ds, Pl190, "arm,pl190");
    OverwritingNamed(ds, Sp804, "arm,sp804");
    OverwritingNamed(ds, Plic, "riscv,plic");
    OverwritingNamed(ds, Clint, "sifive,clint");
  }

  /** VirtIO transport and boot storage of the first device that names them, and zero without one. */
  lemma {:induction false} FirstsNamed(ds: seq<Device>)
    ensures var m := CommitAll(NO_SOC, ds);
            && (forall i :: FirstWith(ds, i, "virtio,mmio") ==>
                  m.virtioBase == ds[i].regBase && m.virtioStride == ds[i].regSize && m.virtioIrq == ds[i].irq)
            && (forall i :: FirstWith(ds, i, "uiox,") ==> m.storageBase == ds[i].regBase && m.storageIrq == ds[i].irq)
            && (NoneWith(ds, "virtio,mmio") ==> m.virtioBase == 0) && (NoneWith(ds, "uiox,") ==> m.storageBase == 0)
  {
    AllNamed(ds);
    VirtioFirst(ds);
    StorageFirst(ds);
    hide Is, Compatible, CommitAll;
  }

  /** A UART that is no PL011. */
  predicate OtherUart(d: Device) {
    Compatible(d, "ns16550") || Compatible(d, "sifive,uart")
  }

  /** The console is the last PL011; without one the first other UART; without any it is absent. */
  lemma {:induction false} ConsoleNamed(ds: seq<Device>)
    ensures var m := CommitAll(NO_SOC, ds);
            && (forall i :: LastWith(ds, i, "arm,pl011") ==> m.uart0Base == ds[i].regBase && m.uartIrq == ds[i].irq)
            && (NoneWith(ds, "arm,pl011") ==>
                  forall i :: 0 <= i < |ds| && OtherUart(ds[i]) && (forall j :: 0 <= j < i ==> !OtherUart(ds[j])) ==>
                    m.uart0Base == ds[i].regBase && m.uartIrq == ds[i].irq)
            && (NoneWith(ds, "arm,pl011") && (forall i :: 0 <= i < |ds| ==> !OtherUart(ds[i])) ==> m.uart0Base == 0)
  {
    AllNamed(ds);
    UartLast(ds);
    if NoneWith(ds, "arm,pl011") { UartFirst(ds); }
    hide Is, Compatible, CommitAll;
    forall i: int | 0 <= i < |ds| ensures SimpleUart(ds[i]) <==> OtherUart(ds[i]) {}
    forall i: int | 0 <= i < |ds| && OtherUart(ds[i]) && (forall j :: 0 <= j < i ==> !OtherUart(ds[j]))
      ensures FirstSimple(ds, i)
    {
    }
  }

  /** The GIC distributor is the first GIC node, the CPU interface the last one after it. */
  lemma {:induction false} GicNamed(ds: seq<Device>)
    ensures var m := CommitAll(NO_SOC, ds);
            && (forall i :: FirstWith(ds, i, "arm,gic") ==> m.gicDistBase == ds[i].regBase)
            && (forall i, k :: FirstWith(ds, i, "arm,gic") && LastWith(ds, k, "arm,gic") ==>
                  m.gicCpuBase == if i == k then 0 else ds[k].regBase)
            && (NoneWith(ds, "arm,gic") ==> m.gicDistBase == 0 && m.gicCpuBase == 0)
  {
    AllNamed(ds);
    GicDistributor(ds);
    hide Is, Compatible, CommitAll;
    forall i, k | FirstWith(ds, i, "arm,gic") && LastWith(ds, k, "arm,gic")
      ensures CommitAll(NO_SOC, ds).gicCpuBase == if i == k then 0 else ds[k].regBase
    {
      GicCpuInterface(ds, i, k);
    }
  }

  /** The map counts as found exactly if some device with an address has one of the ten prefixes. */
  lemma {:induction false} SourcedExactly(ds: seq<Device>)
    ensures CommitAll(NO_SOC, ds).sourced <==> exists i :: 0 <= i < |ds| && Known(ds[i])
  {
    SomeSource(ds);
    forall i: int | 0 <= i < |ds| ensures Known(ds[i]) <==> ds[i].regBase != 0 && ClassOf(ds[i].compat) != Other {
      ClassExactly(ds[i]);
      hide ClassOf, Compatible, CommitAll;
    }
    hide ClassOf, Known, CommitAll;
  }

  predicate Known(d: Device) {
    || Compatible(d, "arm,pl011") || Compatible(d, "arm,pl190") || Compatible(d, "arm,sp804")
    || Compatible(d, "arm,gic") || Compatible(d, "ns16550") || Compatible(d, "sifive,uart")
    || Compatible(d, "riscv,plic") || Compatible(d, "sifive,clint")
    || Compatible(d, "virtio,mmio") || Compatible(d, "uiox,")
  }

  /** Without any such device the map stays empty. */
  lemma {:induction false} NothingKnown(ds: seq<Device>)
    requires forall i :: 0 <= i < |ds| ==> !Known(ds[i])
    ensures CommitAll(NO_SOC, ds) == Soc(0, 0, 0, 0, 0, 0, 0, 0, Some(0), 0, 0, 0, 0, 0, false)
    decreases |ds|
  {
    if ds != [] {
      var n := |ds| - 1;
      CommitLast(NO_SOC, ds);
      NothingKnown(ds[..n]);
      ClassExactly(ds[n]);
      assert !Known(ds[n]);
      hide Compatible, CommitAll;
    }
  }

  // ----- the properties of a device -----

  /** What a property of a device is read as: its first characters and its length decide. */
  datatype Kind = RegKind | CompatKind | IrqKind | NoKind

  function KindOf(p: Prop, names: Names): Kind {
    var n := names(p.nameOff);
    if Starts(n, "reg") && |n| == 3 then RegKind
    else if Starts(n, "c") && |p.value| >= 2 then CompatKind
    else if Starts(n, "in") && |p.value| >= 4 then IrqKind
    else NoKind
  }

  ghost predicate LastProp(ps: seq<Prop>, i: int, k: Kind, names: Names) {
    0 <= i < |ps| && KindOf(ps[i], names) == k && forall j :: i < j < |ps| ==> KindOf(ps[j], names) != k
  }

  ghost predicate NoProp(ps: seq<Prop>, k: Kind, names: Names) {
    forall j :: 0 <= j < |ps| ==> KindOf(ps[j], names) != k
  }

  lemma NamesSpelled(n: seq<byte>)
    ensures n == Ascii("reg") <==> Starts(n, "reg") && |n| == 3
    ensures StartsWith(n, "c") <==> Starts(n, "c")
    ensures StartsWith(n, "in") <==> Starts(n, "in")
    ensures StartsWith(n, "#a") <==> Starts(n, "#a")
    ensures StartsWith(n, "#s") <==> Starts(n, "#s")
  {
    StartsExactly(n, "reg");
    StartsExactly(n, "c");
    StartsExactly(n, "in");
    StartsExactly(n, "#a");
    StartsExactly(n, "#s");
    hide Starts;
    assert |Ascii("reg")| == 3;
    assert |n| == 3 && Ascii("reg") <= n ==> n == Ascii("reg");
    hide Ascii;
  }

  lemma PropByKind(d: Device, c: Cells, p: Prop, names: Names)
    ensures var r := SocReg(p.value, c);
            DeviceProp(d, c, names(p.nameOff), p.value) ==
            match KindOf(p, names) {
              case RegKind =>
                if r.base.None? then (d, true) else (d.(regBase := r.base.value, regSize := r.size), false)
              case CompatKind =>
                (d.(compat := p.value[..if |p.value| < 63 then |p.value| else 63] + [0]), false)
              case IrqKind => (d.(irq := Be32(p.value, 0)), false)
              case NoKind => (d, false)
            }
  {
    NamesSpelled(names(p.nameOff));
    hide Ascii, Starts, StartsWith, SocReg, Be32;
  }

  /** The value a device keeps of each kind of property. */
  datatype Read = RegRead(reg: Reg) | CompatRead(compat: seq<byte>) | IrqRead(irq: nat)

  function ReadOf(p: Prop, k: Kind, c: Cells): Read
    requires k != NoKind && (k == IrqKind ==> |p.value| >= 4)
  {
    match k
    case RegKind => RegRead(SocReg(p.value, c))
    case CompatKind => CompatRead(p.value[..if |p.value| < 63 then |p.value| else 63] + [0])
    case IrqKind => IrqRead(Be32(p.value, 0))
  }

  function KeptOf(d: Device, k: Kind): Read
    requires k != NoKind
  {
    match k
    case RegKind => RegRead(Reg(Some(d.regBase), d.regSize))
    case CompatKind => CompatRead(d.compat)
    case IrqKind => IrqRead(d.irq)
  }

  lemma PropKeeps(d: Device, c: Cells, p: Prop, names: Names, k: Kind)
    requires k != NoKind
    ensures var r := DeviceProp(d, c, names(p.nameOff), p.value);
            && (KindOf(p, names) == IrqKind ==> |p.value| >= 4)
            && (!r.1 ==> KeptOf(r.0, k) == if KindOf(p, names) == k then ReadOf(p, k, c) else KeptOf(d, k))
  {
    PropByKind(d, c, p, names);
    hide DeviceProp, SocReg, Be32, Starts;
  }

  /** The last property of a kind decides; without one the device keeps what it had. */
  lemma {:induction false} LastDecides(ps: seq<Prop>, d: Device, c: Cells, names: Names, k: Kind, i: int)
    requires k != NoKind && !DeviceOf(ps, d, c, names).1 && (i < 0 || LastProp(ps, i, k, names))
    requires i < 0 ==> NoProp(ps, k, names)
    ensures i >= 0 && k == IrqKind ==> |ps[i].value| >= 4
    ensures KeptOf(DeviceOf(ps, d, c, names).0, k) == if i < 0 then KeptOf(d, k) else ReadOf(ps[i], k, c)
    decreases ps
  {
    hide KindOf, DeviceProp, SocReg, Be32, KeptOf, ReadOf;
    if ps != [] {
      var r := DeviceProp(d, c, names(ps[0].nameOff), ps[0].value);
      PropKeeps(d, c, ps[0], names, k);
      RestDecides(ps, i, k, names);
      LastDecides(ps[1..], r.0, c, names, k, i - 1);
    }
  }

  lemma RestDecides(ps: seq<Prop>, i: int, k: Kind, names: Names)
    requires ps != [] && (i < 0 || LastProp(ps, i, k, names)) && (i < 0 ==> NoProp(ps, k, names))
    ensures i <= 0 ==> NoProp(ps[1..], k, names)
    ensures i > 0 ==> LastProp(ps[1..], i - 1, k, names) && ps[1..][i - 1] == ps[i]
    ensures i == 0 ==> KindOf(ps[0], names) == k
    ensures i < 0 ==> KindOf(ps[0], names) != k
  {
    hide KindOf;
    assert forall j :: 0 <= j < |ps[1..]| ==> ps[1..][j] == ps[j + 1];
  }

  // ----- the cell counts of a soc node -----

  predicate AddrCells(p: Prop, names: Names) {
    Starts(names(p.nameOff), "#a") && |p.value| == 4
  }

  predicate SizeCells(p: Prop, names: Names) {
    Starts(names(p.nameOff), "#s") && |p.value| == 4
  }

  ghost predicate LastAddr(ps: seq<Prop>, i: int, names: Names) {
    0 <= i < |ps| && AddrCells(ps[i], names) && forall j :: i < j < |ps| ==> !AddrCells(ps[j], names)
  }

  ghost predicate LastSize(ps: seq<Prop>, i: int, names: Names) {
    0 <= i < |ps| && SizeCells(ps[i], names) && forall j :: i < j < |ps| ==> !SizeCells(ps[j], names)
  }

  lemma CellByName(c: Cells, p: Prop, names: Names)
    ensures var d := CellProp(c, names(p.nameOff), p.value);
            && d.addr == (if AddrCells(p, names) then Be32(p.value, 0) else c.addr)
            && d.size == (if SizeCells(p, names) then Be32(p.value, 0) else c.size)
  {
    var n := names(p.nameOff);
    NamesSpelled(n);
    hide StartsWith, Be32, Octet;
    assert Starts(n, "#a") ==> Octet(n[1]) == 0x61;
    assert Starts(n, "#s") ==> Octet(n[1]) == 0x73;
  }

  /** The last four-byte property that starts with #a, or with #s, sets the count; without one it is kept. */
  lemma {:induction false} CellsDecide(ps: seq<Prop>, c: Cells, names: Names)
    ensures var d := CellsOf(ps, c, names);
            && (forall i :: LastAddr(ps, i, names) ==> |ps[i].value| >= 4 && d.addr == Be32(ps[i].value, 0))
            && (forall i :: LastSize(ps, i, names) ==> |ps[i].value| >= 4 && d.size == Be32(ps[i].value, 0))
            && ((forall i :: 0 <= i < |ps| ==> !AddrCells(ps[i], names)) ==> d.addr == c.addr)
            && ((forall i :: 0 <= i < |ps| ==> !SizeCells(ps[i], names)) ==> d.size == c.size)
    decreases ps
  {
    hide CellProp, Be32, Starts;
    if ps != [] {
      var rest := ps[1..];
      assert forall j :: 0 <= j < |rest| ==> rest[j] == ps[j + 1];
      CellByName(c, ps[0], names);
      CellsDecide(rest, CellProp(c, names(ps[0].nameOff), ps[0].value), names);
      assert forall j :: 0 < j < |ps| ==> ps[j] == rest[j - 1];
    }
  }

  /** A reg value too short for the cell counts stores zeros. */
  lemma ShortReg(value: seq<byte>, c: Cells)
    requires (c.addr + c.size) * 4 < U32 && |value| < (c.addr + c.size) * 4
    ensures SocReg(value, c) == Reg(Some(0), Some(0))
  {
  }

  /** The devices of a tree: all nodes below children of the root named soc, each before its subnodes.
   Counts start at one cell, a device at no address, no size, an empty string and no interrupt. */
  lemma {:induction false} DevicesNamed(ns: seq<Node>, n: Node, c: Cells, names: Names)
    ensures ns != [] ==>
              TopDevices(ns, c, names) ==
              if Starts(ns[0].name, "soc") && |ns[0].name| == 3
              then
                var k := CellsOf(ns[0].props, c, names);
                DevicesOfAll(ns[0].kids, k, names) + TopDevices(ns[1..], k, names)
              else TopDevices(ns[1..], c, names)
    ensures DeviceList(n, names) == TopDevices(n.kids, Cells(1, 1), names)
    ensures DevicesOf(n, c, names) ==
            [DeviceOf(n.props, Device(0, Some(0), [0], 0), c, names).0] + DevicesOfAll(n.kids, c, names)
    ensures ns != [] ==>
              DevicesOfAll(ns, c, names) == DevicesOf(ns[0], c, names) + DevicesOfAll(ns[1..], c, names)
  {
    if ns != [] { EqualsExactly(ns[0].name, "soc"); }
    hide Ascii, Starts, DeviceOf, CellsOf;
  }
}
