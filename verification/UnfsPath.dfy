/**
 Absolute paths: how the lookup loop cuts one into names, and when that is the
 list of its non-empty '/'-separated components.
 */
module UnfsPath {
  import opened Bytes
  import opened UnfsFormat

  const SLASH: byte := 0x2F

  /** The number of leading bytes of s that are not '/', at most k. */
  function Span(s: seq<byte>, k: nat): (n: nat)
    ensures n <= |s| && n <= k
    ensures forall i :: 0 <= i < n ==> s[i] != SLASH
    ensures n == k || n == |s| || s[n] == SLASH
  {
    if k == 0 || s == [] || s[0] == SLASH then 0 else 1 + Span(s[1..], k - 1)
  }

  /** What is left after n bytes and the separator behind them, if there is one. */
  function After(s: seq<byte>, n: nat): (t: seq<byte>)
    requires n <= |s|
    ensures |t| <= |s| - n
  {
    if n < |s| && s[n] == SLASH then s[n + 1..] else s[n..]
  }

  function Named(s: seq<byte>): seq<seq<byte>> {
    if s == [] then [] else [s]
  }

  /** The non-empty components between slashes. */
  function Components(s: seq<byte>): seq<seq<byte>>
    decreases |s|
  {
    if s == [] then []
    else
      var n := Span(s, |s|);
      Named(s[..n]) + Components(After(s, n))
  }

  /** The names the loop looks up: a name stops after 255 bytes even where no slash follows. */
  function Pieces(s: seq<byte>): seq<seq<byte>>
    decreases |s|
  {
    if s == [] then []
    else
      var n := Span(s, NAME_MAX);
      Named(s[..n]) + Pieces(After(s, n))
  }

  /** The loop's start: one leading slash is skipped. */
  function SkipSlash(s: seq<byte>): seq<byte> {
    if s != [] && s[0] == SLASH then s[1..] else s
  }

  ghost predicate AllShort(cs: seq<seq<byte>>) {
    forall i :: 0 <= i < |cs| ==> |cs[i]| <= NAME_MAX
  }

  lemma {:induction false} SpanCapped(s: seq<byte>, k: nat)
    ensures Span(s, k) == if Span(s, |s|) <= k then Span(s, |s|) else k
  {
    if s != [] && s[0] != SLASH && k > 0 {
      SpanCapped(s[1..], k - 1);
    }
  }

  lemma {:induction false} PiecesShort(s: seq<byte>)
    ensures AllShort(Pieces(s))
    decreases |s|
  {
    if s != [] { PiecesShort(After(s, Span(s, NAME_MAX))); }
  }

  lemma {:induction false} ShortComponents(s: seq<byte>)
    requires AllShort(Components(s))
    ensures Pieces(s) == Components(s)
    decreases |s|
  {
    hide Span;
    if s != [] {
      var n := Span(s, |s|);
      SpanCapped(s, NAME_MAX);
      var rest := Components(After(s, n));
      if n > 0 { assert Components(s)[0] == s[..n]; }
      forall i | 0 <= i < |rest| ensures |rest[i]| <= NAME_MAX {
        assert rest[i] == Components(s)[i + |Named(s[..n])|];
      }
      ShortComponents(After(s, n));
    }
  }

  /** The names looked up are the path's components if and only if no component exceeds 255 bytes. */
  lemma {:induction false} PiecesAreComponents(s: seq<byte>)
    ensures Pieces(s) == Components(s) <==> AllShort(Components(s))
  {
    if AllShort(Components(s)) {
      ShortComponents(s);
    } else {
      PiecesShort(s);
    }
  }

  lemma {:induction false} SpanConcat(s: seq<byte>, t: seq<byte>)
    requires t == [] || t[0] == SLASH
    ensures Span(s + t, |s + t|) == Span(s, |s|)
  {
    if s == [] {
      assert s + t == t;
    } else if s[0] != SLASH {
      assert (s + t)[1..] == s[1..] + t;
      SpanConcat(s[1..], t);
    }
  }

  /** A slash separates: the components of a joined path are those of its two sides. */
  lemma {:induction false} ComponentsJoin(a: seq<byte>, b: seq<byte>)
    ensures Components(a + [0x2F] + b) == Components(a) + Components(b)
    decreases |a|
  {
    hide Span;
    var t := [SLASH] + b;
    var s := a + t;
    assert a + [SLASH] + b == s;
    SpanConcat(a, t);
    var n := Span(a, |a|);
    assert s[..n] == a[..n];
    if n < |a| {
      assert a[n] == SLASH && s[n] == SLASH;
      assert After(s, n) == After(a, n) + [SLASH] + b;
      ComponentsJoin(After(a, n), b);
      assert Named(a[..n]) + (Components(After(a, n)) + Components(b))
          == Named(a[..n]) + Components(After(a, n)) + Components(b);
    } else {
      assert s[n] == SLASH && s[n + 1..] == b;
      assert a[..n] == a && (n < |a|) == false;
      AllOfOne(a);
    }
  }

  lemma {:induction false} AllOfOne(a: seq<byte>)
    requires Span(a, |a|) == |a|
    ensures Components(a) == Named(a)
  {
    hide Span;
    if a != [] {
      assert a[..|a|] == a && a[|a|..] == [];
      assert Components([]) == [];
    }
  }

  /** Leading, doubled and trailing slashes change no component. */
  lemma {:induction false} ExtraSlashes(a: seq<byte>, b: seq<byte>)
    ensures Components([0x2F] + a) == Components(a)
    ensures Components(a + [0x2F]) == Components(a)
    ensures Components(a + [0x2F, 0x2F] + b) == Components(a + [0x2F] + b)
    ensures Components(SkipSlash(a)) == Components(a)
  {
    hide Components;
    ComponentsEmpty();
    ComponentsJoin([], a);
    assert [] + [SLASH] + a == [SLASH] + a;
    ComponentsJoin(a, []);
    assert a + [SLASH] + [] == a + [SLASH];
    ComponentsJoin(a, b);
    ComponentsJoin(a + [SLASH], b);
    assert a + [SLASH] + [SLASH] + b == a + [SLASH, SLASH] + b;
    if a != [] && a[0] == SLASH {
      ComponentsJoin([], a[1..]);
      assert [] + [SLASH] + a[1..] == a;
    }
  }

  lemma ComponentsEmpty()
    ensures Components([]) == []
  {
  }

  /** What holds no slash is one component, or none if it is empty. */
  lemma {:induction false} OneComponent(s: seq<byte>)
    requires forall i :: 0 <= i < |s| ==> s[i] != 0x2F
    ensures Components(s) == if s == [] then [] else [s]
  {
    hide Span, Components;
    ComponentsEmpty();
    WholeSpan(s, |s|);
    AllOfOne(s);
  }

  /** A name of 256 bytes is one component, and is looked up as one of 255 bytes and one of a single byte. */
  lemma {:induction false} LongNameIsSplit(s: seq<byte>)
    requires |s| == 256 && forall i :: 0 <= i < |s| ==> s[i] != 0x2F
    ensures Components(s) == [s]
    ensures Pieces(s) == [s[..255], s[255..]]
  {
    hide Span, Components;
    WholeSpan(s, |s|);
    AllOfOne(s);
    WholeSpan(s, NAME_MAX);
    var t := s[NAME_MAX..];
    WholeSpan(t, NAME_MAX);
    assert t[..1] == t && t[1..] == [];
    assert Pieces([]) == [];
    assert Pieces(t) == [t] + Pieces([]);
    assert Pieces(s) == [s[..NAME_MAX]] + Pieces(t);
  }

  lemma {:induction false} WholeSpan(s: seq<byte>, k: nat)
    requires forall i :: 0 <= i < |s| ==> s[i] != SLASH
    ensures Span(s, k) == if |s| <= k then |s| else k
    decreases k
  {
    if k > 0 && s != [] { WholeSpan(s[1..], k - 1); }
  }
}
