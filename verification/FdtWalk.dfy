/**
 dt_walk: the token loop that reports nodes and properties to two callbacks,
 and what it reports for the flattening of a tree.
 */
module FdtWalk {
  import opened Bits
  import opened Bytes
  import opened FdtFormat

  /** A report to a callback. */
  datatype Event =
    | NodeAt(depth: nat, name: seq<byte>)
    | PropAt(depth: nat, name: seq<byte>, value: seq<byte>)

  /** The names in the strings block, by offset. */
  type Names = nat -> seq<byte>

  function NamesOf(blob: seq<byte>, strings: nat): Names {
    (off: nat) => CString(blob, strings + off)
  }

  /** The reports of a token list, read at a node depth. */
  function Events(items: seq<Item>, depth: nat, names: Names): seq<Event> {
    if items == [] then []
    else
      match items[0]
      case BeginNode(name) => [NodeAt(depth, name)] + Events(items[1..], depth + 1, names)
      case EndNode => Events(items[1..], if depth > 0 then depth - 1 else 0, names)
      case Property(p) => [PropAt(depth, names(p.nameOff), p.value)] + Events(items[1..], depth, names)
      case Nop => Events(items[1..], depth, names)
  }

  // ----- callbacks -----

  /** A callback pair over a context; true stops the walk. */
  datatype Handler<!S> = Handler(
    node: (S, nat, seq<byte>) -> (S, bool),
    prop: (S, nat, seq<byte>, seq<byte>) -> (S, bool))

  function Handle<S>(h: Handler<S>, s: S, e: Event): (S, bool) {
    match e
    case NodeAt(d, name) => h.node(s, d, name)
    case PropAt(d, name, value) => h.prop(s, d, name, value)
  }

  /** Reports delivered in order until a callback stops the walk. */
  function Deliver<S>(h: Handler<S>, s: S, es: seq<Event>): (S, bool) {
    if es == [] then (s, false)
    else
      var r := Handle(h, s, es[0]);
      if r.1 then r else Deliver(h, r.0, es[1..])
  }

  /** How a walk ends: stopped by a callback, at the end of the tokens, or reading off the blob. */
  datatype Ending = Stopped | Finished | Faulted

  /** The walk over the tokens from offset p on, at a depth. */
  function WalkFrom<S>(blob: seq<byte>, base: nat, names: Names, h: Handler<S>, p: nat, depth: nat, s: S): (S, Ending)
    requires Placed(base, blob)
  {
    var parsed := Decode(blob, base, p);
    var r := Deliver(h, s, Events(parsed.items, depth, names));
    (r.0, if r.1 then Stopped else if parsed.fault then Faulted else Finished)
  }

  lemma WalkStep<S>(blob: seq<byte>, base: nat, names: Names, h: Handler<S>, p: nat, depth: nat, s: S)
    requires Placed(base, blob)
    ensures var t := TokenAt(blob, base, p);
            WalkFrom(blob, base, names, h, p, depth, s) ==
            match t {
              case Finish => (s, Finished)
              case Fault => (s, Faulted)
              case Token(item, next) =>
                match item {
                  case BeginNode(name) =>
                    var r := h.node(s, depth, name);
                    if r.1 then (r.0, Stopped) else WalkFrom(blob, base, names, h, next, depth + 1, r.0)
                  case EndNode => WalkFrom(blob, base, names, h, next, if depth > 0 then depth - 1 else 0, s)
                  case Property(q) =>
                    var r := h.prop(s, depth, names(q.nameOff), q.value);
                    if r.1 then (r.0, Stopped) else WalkFrom(blob, base, names, h, next, depth, r.0)
                  case Nop => WalkFrom(blob, base, names, h, next, depth, s)
                }
            }
  {
    hide TokenAt;
    match TokenAt(blob, base, p)
    case Token(item, next) =>
      var tail := Decode(blob, base, next);
      var whole := [item] + tail.items;
      assert whole[1..] == tail.items;
      match item {
        case BeginNode(name) =>
          var more := Events(tail.items, depth + 1, names);
          assert ([NodeAt(depth, name)] + more)[1..] == more;
        case Property(q) =>
          var more := Events(tail.items, depth, names);
          assert ([PropAt(depth, names(q.nameOff), q.value)] + more)[1..] == more;
        case _ =>
      }
    case _ =>
  }

  /** dt_walk. Termination is by the bytes left. */
  method DtWalk<S>(blob: seq<byte>, base: nat, structOff: nat, names: Names, h: Handler<S>, ctx0: S)
    returns (ctx: S, ending: Ending)
    requires Placed(base, blob)
    ensures (ctx, ending) == WalkFrom(blob, base, names, h, structOff, 0, ctx0)
  {
    hide WalkFrom, CString, Be32, AfterName, RoundUp4;
    ctx := ctx0;
    var p, depth := structOff, 0;
    while true
      invariant depth >= 0
      invariant WalkFrom(blob, base, names, h, p, depth, ctx) == WalkFrom(blob, base, names, h, structOff, 0, ctx0)
      decreases |blob| - p
    {
      WalkStep(blob, base, names, h, p, depth, ctx);
      if p + 4 > |blob| { return ctx, Faulted; }
      var tok := Be32(blob, p);
      if tok == FDT_BEGIN_NODE {
        var nul := FindNul(blob, p + 4);
        if nul >= |blob| { return ctx, Faulted; }
        var r := h.node(ctx, depth, blob[p + 4..nul]);
        ctx := r.0;
        if r.1 { return ctx, Stopped; }
        AfterNameAdvances(base + nul);
        p := AfterName(base + nul) - base;
        depth := depth + 1;
      } else if tok == FDT_END_NODE {
        p := p + 4;
        if depth > 0 { depth := depth - 1; }
      } else if tok == FDT_PROP {
        if p + 12 > |blob| { return ctx, Faulted; }
        var len, off := Be32(blob, p + 4), Be32(blob, p + 8);
        if p + 12 + len > |blob| { return ctx, Faulted; }
        var r := h.prop(ctx, depth, names(off), blob[p + 12..p + 12 + len]);
        ctx := r.0;
        if r.1 { return ctx, Stopped; }
        p := p + 12 + RoundUp4(len);
      } else if tok == FDT_NOP {
        p := p + 4;
      } else {
        return ctx, Finished;
      }
    }
  }

  lemma AfterNameAdvances(addr: nat)
    requires addr + 4 < U32
    ensures addr + 1 <= AfterName(addr) <= addr + 4
  {
    hide And;
    Mask4(addr + 4);
  }

  /** while (*p) p++, stopping at the end of the blob. */
  method FindNul(blob: seq<byte>, at: nat) returns (nul: nat)
    requires at <= |blob|
    ensures nul == at + |CString(blob, at)| && blob[at..nul] == CString(blob, at)
  {
    nul := at;
    while nul < |blob| && blob[nul] != 0
      invariant at <= nul <= |blob|
      invariant at + |CString(blob, at)| == nul + |CString(blob, nul)|
    {
      nul := nul + 1;
    }
  }

  // ----- trees -----

  /** The tokens of a tree: properties before subnodes. */
  function Flatten(n: Node): seq<Item> {
    [BeginNode(n.name)] + PropItems(n.props) + FlattenAll(n.kids) + [EndNode]
  }

  function FlattenAll(ns: seq<Node>): seq<Item> {
    if ns == [] then [] else Flatten(ns[0]) + FlattenAll(ns[1..])
  }

  function PropItems(ps: seq<Prop>): seq<Item> {
    if ps == [] then [] else [Property(ps[0])] + PropItems(ps[1..])
  }

  /** The pre-order reports of a tree whose root is at a depth; properties are one deeper. */
  function PreOrder(n: Node, depth: nat, names: Names): seq<Event> {
    [NodeAt(depth, n.name)] + PropEvents(n.props, depth + 1, names) + PreOrderAll(n.kids, depth + 1, names)
  }

  function PreOrderAll(ns: seq<Node>, depth: nat, names: Names): seq<Event> {
    if ns == [] then [] else PreOrder(ns[0], depth, names) + PreOrderAll(ns[1..], depth, names)
  }

  function PropEvents(ps: seq<Prop>, depth: nat, names: Names): seq<Event> {
    if ps == [] then [] else [PropAt(depth, names(ps[0].nameOff), ps[0].value)] + PropEvents(ps[1..], depth, names)
  }

  /** Padding tokens removed. */
  function StripNops(items: seq<Item>): seq<Item> {
    if items == [] then [] else (if items[0].Nop? then [] else [items[0]]) + StripNops(items[1..])
  }

  lemma {:induction false} NopsSilent(items: seq<Item>, depth: nat, names: Names)
    ensures Events(items, depth, names) == Events(StripNops(items), depth, names)
    decreases items
  {
    if items != [] {
      var rest := StripNops(items[1..]);
      var next := if items[0].BeginNode? then depth + 1
                  else if items[0].EndNode? && depth > 0 then depth - 1 else depth;
      NopsSilent(items[1..], next, names);
      if items[0].Nop? {
        assert StripNops(items) == [] + rest == rest;
      } else {
        assert StripNops(items) == [items[0]] + rest;
        assert ([items[0]] + rest)[1..] == rest;
      }
    }
  }

  lemma {:induction false} PropsReported(ps: seq<Prop>, rest: seq<Item>, depth: nat, names: Names)
    ensures Events(PropItems(ps) + rest, depth, names) == PropEvents(ps, depth, names) + Events(rest, depth, names)
    decreases ps
  {
    if ps == [] {
      assert PropItems(ps) + rest == rest;
    } else {
      var more := PropItems(ps[1..]) + rest;
      PropsReported(ps[1..], rest, depth, names);
      assert PropItems(ps) + rest == [Property(ps[0])] + more;
      PropertyFirst(ps[0], more, depth, names);
      hide Events;
      var e := [PropAt(depth, names(ps[0].nameOff), ps[0].value)];
      assert e + (PropEvents(ps[1..], depth, names) + Events(rest, depth, names))
          == (e + PropEvents(ps[1..], depth, names)) + Events(rest, depth, names);
    }
  }

  lemma {:induction false} PropertyFirst(p: Prop, more: seq<Item>, depth: nat, names: Names)
    ensures Events([Property(p)] + more, depth, names)
         == [PropAt(depth, names(p.nameOff), p.value)] + Events(more, depth, names)
  {
    assert ([Property(p)] + more)[1..] == more;
  }

  /** Reading the tokens of a tree reports it in pre-order and returns to the same depth. */
  lemma {:induction false} TreeReported(n: Node, rest: seq<Item>, depth: nat, names: Names)
    ensures Events(Flatten(n) + rest, depth, names) == PreOrder(n, depth, names) + Events(rest, depth, names)
    decreases n, 1
  {
    var tail := [EndNode] + rest;
    var body := PropItems(n.props) + (FlattenAll(n.kids) + tail);
    assert Flatten(n) + rest == [BeginNode(n.name)] + body;
    assert ([BeginNode(n.name)] + body)[1..] == body;
    PropsReported(n.props, FlattenAll(n.kids) + tail, depth + 1, names);
    KidsReported(n.kids, tail, depth + 1, names);
    assert tail[1..] == rest;
    assert Events(tail, depth + 1, names) == Events(rest, depth, names);
    hide Events, PropEvents, PreOrderAll;
    var e := Events(rest, depth, names);
    assert [NodeAt(depth, n.name)]
        + (PropEvents(n.props, depth + 1, names) + (PreOrderAll(n.kids, depth + 1, names) + e))
        == PreOrder(n, depth, names) + e;
  }

  lemma {:induction false} KidsReported(ns: seq<Node>, rest: seq<Item>, depth: nat, names: Names)
    ensures Events(FlattenAll(ns) + rest, depth, names) == PreOrderAll(ns, depth, names) + Events(rest, depth, names)
    decreases ns, 0
  {
    hide Events, Flatten, PreOrder;
    if ns == [] {
      assert FlattenAll(ns) + rest == rest;
    } else {
      assert FlattenAll(ns) + rest == Flatten(ns[0]) + (FlattenAll(ns[1..]) + rest);
      TreeReported(ns[0], FlattenAll(ns[1..]) + rest, depth, names);
      KidsReported(ns[1..], rest, depth, names);
    }
  }

  /** The blob holds a structure block of this tree at an offset, NOPs anywhere. */
  ghost predicate Holds(blob: seq<byte>, base: nat, at: nat, root: Node, items: seq<Item>, rest: seq<byte>) {
    && Placed(base, blob) && at % 4 == 0 && at <= |blob|
    && (forall i :: 0 <= i < |items| ==> Writable(items[i]))
    && StripNops(items) == Flatten(root)
    && blob[at..] == ItemsBytes(items) + PutBe32(FDT_END) + rest
  }

  /** Walking a flattened tree delivers exactly its pre-order reports, up to the first refusal. */
  lemma {:induction false} WalkReportsTree<S>(
      blob: seq<byte>, base: nat, at: nat, root: Node, items: seq<Item>, rest: seq<byte>,
      names: Names, h: Handler<S>, s: S)
    requires Holds(blob, base, at, root, items, rest)
    ensures var r := Deliver(h, s, PreOrder(root, 0, names));
            WalkFrom(blob, base, names, h, at, 0, s) == (r.0, if r.1 then Stopped else Finished)
  {
    hide Events, Decode, Deliver, PreOrder, Flatten;
    DecodeBlock(blob, base, at, items, rest);
    NopsSilent(items, 0, names);
    TreeReported(root, [], 0, names);
    assert Flatten(root) + [] == Flatten(root);
    NoEvents(names);
    assert PreOrder(root, 0, names) + [] == PreOrder(root, 0, names);
  }

  lemma NoEvents(names: Names)
    ensures Events([], 0, names) == []
  {
  }

  /** The context after a walk is the fold over the reports before and including the first refusal. */
  function Fold<S>(h: Handler<S>, s: S, es: seq<Event>): S {
    if es == [] then s else Fold(h, Handle(h, s, es[0]).0, es[1..])
  }

  lemma {:induction false} StopCuts<S>(h: Handler<S>, s: S, es: seq<Event>) returns (k: nat)
    ensures k <= |es|
    ensures Deliver(h, s, es).0 == Fold(h, s, es[..k])
    ensures !Deliver(h, s, es).1 ==> k == |es|
    ensures forall j :: 0 <= j < k - 1 ==> !Handle(h, Fold(h, s, es[..j]), es[j]).1
    ensures Deliver(h, s, es).1 <==> k > 0 && Handle(h, Fold(h, s, es[..k - 1]), es[k - 1]).1
    decreases es
  {
    if es == [] {
      k := 0;
    } else {
      var r := Handle(h, s, es[0]);
      if r.1 {
        k := 1;
        assert es[..1][1..] == [] && es[..0] == [];
      } else {
        var i := StopCuts(h, r.0, es[1..]);
        k := i + 1;
        forall j | 0 < j <= |es| ensures Fold(h, s, es[..j]) == Fold(h, r.0, es[1..][..j - 1]) {
          assert es[..j][1..] == es[1..][..j - 1];
        }
        assert es[..0] == [];
      }
    }
  }

  /** A name offset names the string that stands there in the strings block, up to its NUL. */
  lemma NameAt(blob: seq<byte>, strings: nat, off: nat, name: seq<byte>)
    requires NoNul(name) && strings + off + |name| < |blob|
    requires blob[strings + off..strings + off + |name|] == name && blob[strings + off + |name|] == 0
    ensures NamesOf(blob, strings)(off) == name
  {
    CStringAt(blob, strings + off, name);
    hide CString;
  }
}
