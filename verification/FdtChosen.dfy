/**
 uiox_boot_dt_chosen: the kernel command line from the first bootargs property
 of a /chosen node.
 */
module FdtChosen {
  import opened Bytes
  import opened Options
  import opened FdtFormat
  import opened FdtWalk

  /** struct chosen_ctx; out is the caller's buffer. */
  datatype Chosen = Chosen(out: seq<byte>, max: nat, inChosen: bool, found: bool)

  /** The buffer after a value was copied, cut to fit with its NUL. */
  function Written(out: seq<byte>, max: nat, value: seq<byte>): (r: seq<byte>)
    requires 2 <= max <= |out|
    ensures |r| == |out|
  {
    var n := if |value| < max - 1 then |value| else max - 1;
    value[..n] + [0] + out[n + 1..]
  }

  type Ctx = x: Chosen | 2 <= x.max <= |x.out| witness Chosen([0, 0], 2, false, false)

  function ChosenNode(x: Ctx, depth: nat, name: seq<byte>): (Ctx, bool) {
    (x.(inChosen := depth == 1 && name == Ascii("chosen")), false)
  }

  function ChosenProp(x: Ctx, name: seq<byte>, value: seq<byte>): (Ctx, bool) {
    if !x.inChosen then (x, false)
    else if name == Ascii("bootargs") then (x.(out := Written(x.out, x.max, value), found := true), true)
    else (x, false)
  }

  const CHOSEN_HANDLER: Handler<Ctx> :=
    Handler((x: Ctx, d: nat, n: seq<byte>) => ChosenNode(x, d, n),
            (x: Ctx, d: nat, n: seq<byte>, v: seq<byte>) => ChosenProp(x, n, v))

  datatype Outcome = Ok | Invalid | BadMagic | NotFound | Unsafe

  /** The walk behind uiox_boot_dt_chosen. */
  function ChosenWalk(blob: seq<byte>, base: nat, out: seq<byte>, max: nat): (Ctx, Ending)
    requires Placed(base, blob) && |blob| >= 16 && 2 <= max <= |out|
  {
    WalkFrom(blob, base, NamesOf(blob, Be32(blob, 12)), CHOSEN_HANDLER, Be32(blob, 8), 0,
             Chosen(out[0 := 0], max, false, false))
  }

  /** uiox_boot_dt_chosen. Unsafe stands for a read outside the blob. */
  method BootDtChosen(blob: seq<byte>, base: nat, out: array<byte>, maxLen: nat) returns (r: Outcome)
    requires Placed(base, blob) && |blob| >= 16 && maxLen <= out.Length
    modifies out
    ensures maxLen < 2 ==> r == Invalid && out[..] == old(out[..])
    ensures maxLen >= 2 && Be32(blob, 0) != 0xD00D_FEED ==> r == BadMagic && out[..] == old(out[..])
    ensures maxLen >= 2 && Be32(blob, 0) == 0xD00D_FEED ==>
              var w := ChosenWalk(blob, base, old(out[..]), maxLen);
              && r == (if w.1 == Faulted then Unsafe else if w.0.found then Ok else NotFound)
              && (w.1 != Faulted ==> |w.0.out| == out.Length && out[..] == w.0.out)
  {
    hide WalkFrom, Be32;
    if maxLen < 2 { return Invalid; }
    if Be32(blob, 0) != DTB_MAGIC { return BadMagic; }
    ghost var before := out[..];
    out[0] := 0;
    assert out[..] == before[0 := 0];
    var x0: Ctx := Chosen(out[..], maxLen, false, false);
    var x, ending := DtWalk(blob, base, Be32(blob, 8), NamesOf(blob, Be32(blob, 12)), CHOSEN_HANDLER, x0);
    if ending == Faulted { return Unsafe; }
    BufferKept(blob, base, Be32(blob, 8), NamesOf(blob, Be32(blob, 12)), 0, x0);
    var i := 0;
    while i < out.Length
      invariant 0 <= i <= out.Length && out[..i] == x.out[..i]
    {
      out[i] := x.out[i];
      i := i + 1;
      assert out[..i] == out[..i - 1] + [x.out[i - 1]];
    }
    assert out[..] == out[..i] && x.out == x.out[..i];
    return if x.found then Ok else NotFound;
  }

  lemma {:induction false} DeliverKeepsLength(x: Ctx, es: seq<Event>)
    ensures |Deliver(CHOSEN_HANDLER, x, es).0.out| == |x.out|
    decreases es
  {
    if es != [] {
      var r := Handle(CHOSEN_HANDLER, x, es[0]);
      if !r.1 { DeliverKeepsLength(r.0, es[1..]); }
    }
  }

  lemma BufferKept(blob: seq<byte>, base: nat, p: nat, names: Names, depth: nat, x: Ctx)
    requires Placed(base, blob)
    ensures |WalkFrom(blob, base, names, CHOSEN_HANDLER, p, depth, x).0.out| == |x.out|
  {
    hide Deliver, Events, Decode;
    DeliverKeepsLength(x, Events(Decode(blob, base, p).items, depth, names));
  }

  // ----- which property is taken -----

  function NamedValue(ps: seq<Prop>, name: seq<byte>, names: Names): Option<seq<byte>> {
    if ps == [] then None
    else if names(ps[0].nameOff) == name then Some(ps[0].value)
    else NamedValue(ps[1..], name, names)
  }

  /** The first bootargs of a child of the root named chosen. */
  function FirstBootargs(ns: seq<Node>, names: Names): Option<seq<byte>>
    decreases ns
  {
    if ns == [] then None
    else
      var v := if ns[0].name == Ascii("chosen") then NamedValue(ns[0].props, Ascii("bootargs"), names) else None;
      if v.Some? then v else FirstBootargs(ns[1..], names)
  }

  function Out(x: Ctx, v: Option<seq<byte>>): seq<byte> {
    if v.Some? then Written(x.out, x.max, v.value) else x.out
  }

  /** A delivery that took the value v, or none. */
  ghost predicate Took(x: Ctx, r: (Ctx, bool), v: Option<seq<byte>>) {
    r.1 == v.Some? && r.0.out == Out(x, v) && r.0.max == x.max && r.0.found == (x.found || v.Some?)
  }

  lemma {:induction false} DeliverConcat(x: Ctx, es: seq<Event>, fs: seq<Event>)
    ensures Deliver(CHOSEN_HANDLER, x, es + fs) ==
            var r := Deliver(CHOSEN_HANDLER, x, es);
            if r.1 then r else Deliver(CHOSEN_HANDLER, r.0, fs)
    decreases es
  {
    if es == [] {
      assert es + fs == fs;
    } else {
      assert (es + fs)[1..] == es[1..] + fs;
      var r := Handle(CHOSEN_HANDLER, x, es[0]);
      if !r.1 { DeliverConcat(r.0, es[1..], fs); }
    }
  }

  lemma {:induction false} PropsTaken(x: Ctx, ps: seq<Prop>, depth: nat, names: Names)
    ensures Took(x, Deliver(CHOSEN_HANDLER, x, PropEvents(ps, depth, names)),
                 if x.inChosen then NamedValue(ps, Ascii("bootargs"), names) else None)
    decreases ps
  {
    hide Ascii, Written;
    if ps != [] {
      var es := PropEvents(ps, depth, names);
      assert es[1..] == PropEvents(ps[1..], depth, names);
      var r := ChosenProp(x, names(ps[0].nameOff), ps[0].value);
      if !r.1 { PropsTaken(x, ps[1..], depth, names); }
    }
  }

  lemma {:induction false} DeliverOne(x: Ctx, d: nat, name: seq<byte>)
    ensures Deliver(CHOSEN_HANDLER, x, [NodeAt(d, name)]) == ChosenNode(x, d, name)
  {
    var y := ChosenNode(x, d, name).0;
    assert [NodeAt(d, name)][1..] == [];
    assert Deliver(CHOSEN_HANDLER, y, []) == (y, false);
    assert Deliver(CHOSEN_HANDLER, x, [NodeAt(d, name)]) == Deliver(CHOSEN_HANDLER, y, [NodeAt(d, name)][1..]);
  }

  /** A node and its properties, before its subnodes. */
  lemma HeadTaken(x: Ctx, n: Node, depth: nat, names: Names)
    ensures Took(x, Deliver(CHOSEN_HANDLER, x, [NodeAt(depth, n.name)] + PropEvents(n.props, depth + 1, names)),
                 if depth == 1 && n.name == Ascii("chosen") then NamedValue(n.props, Ascii("bootargs"), names)
                 else None)
  {
    hide Deliver, Ascii, Written, PropEvents, NamedValue;
    var y := ChosenNode(x, depth, n.name).0;
    DeliverConcat(x, [NodeAt(depth, n.name)], PropEvents(n.props, depth + 1, names));
    DeliverOne(x, depth, n.name);
    PropsTaken(y, n.props, depth + 1, names);
  }

  /** Below depth 1 nothing is taken. */
  lemma {:induction false} DeepQuiet(x: Ctx, n: Node, depth: nat, names: Names)
    requires depth >= 2
    ensures Took(x, Deliver(CHOSEN_HANDLER, x, PreOrder(n, depth, names)), None)
    decreases n, 1
  {
    hide Deliver, Ascii, PropEvents, PreOrderAll;
    var head := [NodeAt(depth, n.name)] + PropEvents(n.props, depth + 1, names);
    HeadTaken(x, n, depth, names);
    DeliverConcat(x, head, PreOrderAll(n.kids, depth + 1, names));
    DeepAllQuiet(Deliver(CHOSEN_HANDLER, x, head).0, n.kids, depth + 1, names);
  }

  lemma {:induction false} DeepAllQuiet(x: Ctx, ns: seq<Node>, depth: nat, names: Names)
    requires depth >= 2
    ensures Took(x, Deliver(CHOSEN_HANDLER, x, PreOrderAll(ns, depth, names)), None)
    decreases ns, 0
  {
    hide PreOrder;
    if ns != [] {
      DeliverConcat(x, PreOrder(ns[0], depth, names), PreOrderAll(ns[1..], depth, names));
      DeepQuiet(x, ns[0], depth, names);
      DeepAllQuiet(Deliver(CHOSEN_HANDLER, x, PreOrder(ns[0], depth, names)).0, ns[1..], depth, names);
    }
  }

  lemma {:induction false} TopTaken(x: Ctx, ns: seq<Node>, names: Names)
    ensures Took(x, Deliver(CHOSEN_HANDLER, x, PreOrderAll(ns, 1, names)), FirstBootargs(ns, names))
    decreases ns
  {
    hide Ascii, NamedValue, PropEvents, Written;
    if ns != [] {
      var n := ns[0];
      var head := [NodeAt(1, n.name)] + PropEvents(n.props, 2, names);
      var kids, rest := PreOrderAll(n.kids, 2, names), PreOrderAll(ns[1..], 1, names);
      assert PreOrderAll(ns, 1, names) == head + (kids + rest);
      hide Deliver, PreOrderAll;
      HeadTaken(x, n, 1, names);
      DeliverConcat(x, head, kids + rest);
      var y := Deliver(CHOSEN_HANDLER, x, head).0;
      DeliverConcat(y, kids, rest);
      DeepAllQuiet(y, n.kids, 2, names);
      TopTaken(Deliver(CHOSEN_HANDLER, y, kids).0, ns[1..], names);
    }
  }

  /** For every tree: the first bootargs of a /chosen node is copied, cut to the buffer, and nothing else is. */
  lemma ChosenTakesFirst(blob: seq<byte>, base: nat, root: Node, items: seq<Item>, rest: seq<byte>,
                         out: seq<byte>, max: nat)
    requires 2 <= max <= |out| && |blob| >= 16 && Placed(base, blob)
    requires Holds(blob, base, Be32(blob, 8), root, items, rest)
    ensures var v := FirstBootargs(root.kids, NamesOf(blob, Be32(blob, 12)));
            var w := ChosenWalk(blob, base, out, max);
            w.1 != Faulted && w.0.found == v.Some? &&
            w.0.out == if v.Some? then Written(out[0 := 0], max, v.value) else out[0 := 0]
  {
    hide Deliver, Holds, PropEvents, PreOrderAll, WalkFrom, Be32, FirstBootargs, Written;
    var names := NamesOf(blob, Be32(blob, 12));
    var x: Ctx := Chosen(out[0 := 0], max, false, false);
    WalkReportsTree(blob, base, Be32(blob, 8), root, items, rest, names, CHOSEN_HANDLER, x);
    HeadTaken(x, root, 0, names);
    var head := [NodeAt(0, root.name)] + PropEvents(root.props, 1, names);
    DeliverConcat(x, head, PreOrderAll(root.kids, 1, names));
    TopTaken(Deliver(CHOSEN_HANDLER, x, head).0, root.kids, names);
  }

  /** The copied bytes, the NUL behind them, and the rest of the buffer as it was. */
  lemma WrittenExactly(out: seq<byte>, max: nat, value: seq<byte>, i: nat)
    requires 2 <= max <= |out| && i < |out|
    ensures var n := if |value| <= max - 1 then |value| else max - 1;
            Written(out, max, value)[i] == if i < n then value[i] else if i == n then 0 else out[i]
  {
  }

  /** Only children of the root named chosen are looked at, and in them only bootargs, the first there is. */
  lemma {:induction false} ChosenNames(ns: seq<Node>, ps: seq<Prop>, names: Names)
    ensures ns != [] ==>
              var here := if Starts(ns[0].name, "chosen") && |ns[0].name| == 6
                          then NamedValue(ns[0].props, Ascii("bootargs"), names) else None;
              FirstBootargs(ns, names) == if here.Some? then here else FirstBootargs(ns[1..], names)
    ensures ps != [] ==>
              var n := names(ps[0].nameOff);
              NamedValue(ps, Ascii("bootargs"), names) ==
              if Starts(n, "bootargs") && |n| == 8 then Some(ps[0].value)
              else NamedValue(ps[1..], Ascii("bootargs"), names)
  {
    if ns != [] { EqualsExactly(ns[0].name, "chosen"); }
    if ps != [] { EqualsExactly(names(ps[0].nameOff), "bootargs"); }
    hide Ascii, Starts;
  }
}
