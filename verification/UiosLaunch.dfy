/**
 Which apps the supervisor can start at all: an app is launched in some
 execution of uios_run if and only if its chain of prerequisites ends.
 */
module UiosLaunch {
  import opened Bits
  import opened UiosModel
  import opened UiosSafety
  import opened UiosRounds

  // ----- a kernel under which every fork succeeds and nothing exits -----

  /** Every started app runs, under a pid of its own. */
  ghost predicate AllUp(s: State) {
    forall j :: 0 <= j < 10 ==> s[j].pid == -1 || s[j].pid == j + 1
  }

  /** The pass: every running app is polled alive. */
  function Polls(s: State, i: nat): seq<Event>
    requires i <= 10
    decreases 10 - i
  {
    if i == 10 then []
    else if s[i].pid > 0 then [Alive(i)] + Polls(s, i + 1)
    else Polls(s, i + 1)
  }

  /** The launch pass: every eligible app gets its pid. */
  function Launches(cfg: Table, s: State, i: nat): seq<Event>
    requires i <= 10
    decreases 10 - i
  {
    if i == 10 then []
    else if s[i].pid != -1 || !DepReady(cfg, s, i) then Launches(cfg, s, i + 1)
    else [Launch(i, i + 1)] + Launches(cfg, s, i + 1)
  }

  /** A tick for every running app from slot i on. */
  function Ticked(s: State, i: nat): (t: State)
    requires i <= 10
    ensures forall j :: 0 <= j < 10 ==>
              t[j] == if j >= i && s[j].pid > 0 then s[j].(ticks := (s[j].ticks + 1) % U32) else s[j]
  {
    seq(10, j requires 0 <= j < 10 =>
      if j >= i && s[j].pid > 0 then s[j].(ticks := (s[j].ticks + 1) % U32) else s[j])
  }

  /** Every eligible app from slot i on started. */
  function Started(cfg: Table, s: State, i: nat): (t: State)
    requires i <= 10
    ensures forall j :: 0 <= j < 10 ==>
              t[j] == if j >= i && s[j].pid == -1 && DepReady(cfg, s, j) then s[j].(pid := j + 1, ticks := 0) else s[j]
  {
    seq(10, j requires 0 <= j < 10 =>
      if j >= i && s[j].pid == -1 && DepReady(cfg, s, j) then s[j].(pid := j + 1, ticks := 0) else s[j])
  }

  lemma {:induction false} PollsPass(cfg: Table, s: State, s0: State, i: nat)
    requires i <= 10 && AllUp(s0) && (forall j :: i <= j < 10 ==> s[j] == s0[j])
    requires forall j :: 0 <= j < 10 ==> s[j].pid == s0[j].pid
    ensures Pass(cfg, s, i, Polls(s0, i))
    ensures After(s, Polls(s0, i)) == Ticked(s, i)
    decreases 10 - i
  {
    hide After, Run, Revivable;
    if i == 10 {
      Nothing(cfg, s);
    } else if s[i].pid > 0 {
      var e := Alive(i);
      var t := Apply(s, e);
      PollsPass(cfg, t, s0, i + 1);
      var evs := Polls(s0, i);
      assert evs == [e] + Polls(s0, i + 1) && evs[1..] == Polls(s0, i + 1);
      RunCons(cfg, s, evs);
      assert Ticked(t, i + 1) == Ticked(s, i);
    } else {
      PollsPass(cfg, s, s0, i + 1);
      assert Ticked(s, i + 1) == Ticked(s, i);
    }
  }

  /** Starting an app does not make another one eligible in the same pass. */
  lemma {:induction false} LaunchesPass(cfg: Table, s: State, s0: State, i: nat)
    requires i <= 10 && AllUp(s0) && AllUp(s) && (forall j :: i <= j < 10 ==> s[j] == s0[j])
    requires forall j :: 0 <= j < i ==> s[j] == s0[j] || (s0[j].pid == -1 && s[j].ticks == 0)
    ensures LaunchPass(cfg, s, i, Launches(cfg, s0, i))
    ensures var t := After(s, Launches(cfg, s0, i));
            forall j :: 0 <= j < 10 ==> t[j] == if j < i then s[j] else Started(cfg, s0, i)[j]
    decreases 10 - i
  {
    hide After, Run;
    if i == 10 {
      Nothing(cfg, s);
    } else {
      assert s[i].pid == -1 ==> DepReady(cfg, s, i) == DepReady(cfg, s0, i);
      if s[i].pid != -1 || !DepReady(cfg, s, i) {
        LaunchesPass(cfg, s, s0, i + 1);
      } else {
        var e := Launch(i, i + 1);
        var t := Apply(s, e);
        LaunchesPass(cfg, t, s0, i + 1);
        var evs := Launches(cfg, s0, i);
        assert evs == [e] + Launches(cfg, s0, i + 1) && evs[1..] == Launches(cfg, s0, i + 1);
        RunCons(cfg, s, evs);
        assert FreshPid(s, i + 1);
      }
    }
  }

  /** One iteration under this kernel. */
  ghost function Iterate(cfg: Table, s: State): Iteration {
    var p := Polls(s, 0);
    Iteration(p, if Todo(cfg, s, 0, p) then Launches(cfg, Ticked(s, 0), 0) else [])
  }

  /** The state after that iteration. */
  ghost function Next(cfg: Table, s: State): State {
    if Todo(cfg, s, 0, Polls(s, 0)) then Started(cfg, Ticked(s, 0), 0) else Ticked(s, 0)
  }

  lemma {:induction false} IterateIsRound(cfg: Table, s: State, a: Index)
    requires AllUp(s) && s[a].pid > 0
    ensures var r := Iterate(cfg, s);
            Round(cfg, s, r.p, r.l, false) && After(s, r.p + r.l) == Next(cfg, s) && AllUp(Next(cfg, s))
  {
    hide Pass, LaunchPass, Todo, After, Run, Polls, Launches, DepReady, SomeAlive;
    var p, t := Polls(s, 0), Ticked(s, 0);
    PollsPass(cfg, s, s, 0);
    PollOf(s, 0, a);
    AliveIn(p, a);
    if Todo(cfg, s, 0, p) {
      LaunchesPass(cfg, t, t, 0);
      assert After(t, Launches(cfg, t, 0)) == Started(cfg, t, 0);
      AfterConcat(s, p, Launches(cfg, t, 0));
    } else {
      assert p + [] == p;
    }
  }

  lemma AliveIn(p: seq<Event>, a: Index)
    requires Alive(a) in p
    ensures SomeAlive(p)
  {
    var k :| 0 <= k < |p| && p[k] == Alive(a);
    assert Lively(p[k]);
  }

  lemma {:induction false} PollOf(s: State, i: nat, a: Index)
    requires i <= a && s[a].pid > 0
    ensures Alive(a) in Polls(s, i)
    decreases 10 - i
  {
    if i < a { PollOf(s, i + 1, a); }
  }

  /** A pass notices an idle app whose prerequisite has been ready since before the pass. */
  lemma {:induction false} PassNotices(cfg: Table, s: State, s0: State, i: nat, a: Index)
    requires i <= a && AllUp(s0) && s0[a].pid == -1
    requires forall j :: 0 <= j < 10 ==> s[j].pid == s0[j].pid && s[j].ticks >= s0[j].ticks
    requires forall j :: i <= j < 10 ==> s[j] == s0[j]
    requires cfg[a].dep < 10 && s0[cfg[a].dep].pid > 0 && READY_TICKS <= s0[cfg[a].dep].ticks
    requires forall j :: 0 <= j < 10 ==> s0[j].ticks < U32 - 1
    ensures Todo(cfg, s, i, Polls(s0, i))
    decreases 10 - i
  {
    hide Revivable;
    if i < a {
      if s[i].pid > 0 {
        var evs := Polls(s0, i);
        assert evs == [Alive(i)] + Polls(s0, i + 1) && evs[1..] == Polls(s0, i + 1);
        PassNotices(cfg, Apply(s, Alive(i)), s0, i + 1, a);
      } else {
        PassNotices(cfg, s, s0, i + 1, a);
      }
    }
  }

  // ----- the states of that execution -----

  ghost function Begin(cfg: Table): State {
    Started(cfg, Initial(), 0)
  }

  ghost function StateAt(cfg: Table, n: nat): State {
    if n == 0 then Begin(cfg) else Next(cfg, StateAt(cfg, n - 1))
  }

  ghost function Iterations(cfg: Table, n: nat): seq<Iteration> {
    if n == 0 then [] else Iterations(cfg, n - 1) + [Iterate(cfg, StateAt(cfg, n - 1))]
  }

  /** The first n iterations are an execution of uios_run, if some app needs no prerequisite. */
  lemma {:induction false} Executes(cfg: Table, n: nat, a: Index)
    requires cfg[a].dep >= 10
    ensures Rounds(cfg, Begin(cfg), Iterations(cfg, n), false)
    ensures After(Begin(cfg), Flat(Iterations(cfg, n))) == StateAt(cfg, n)
    ensures AllUp(StateAt(cfg, n)) && StateAt(cfg, n)[a].pid > 0
  {
    hide Iterate, Next, Round, After, Begin, AllUp;
    if n == 0 {
      Nothing(cfg, Begin(cfg));
      BeginUp(cfg);
      BeginTicks(cfg, a);
    } else {
      Executes(cfg, n - 1, a);
      var s, rs := StateAt(cfg, n - 1), Iterations(cfg, n - 1);
      var r := Iterate(cfg, s);
      IterateIsRound(cfg, s, a);
      StaysUp(cfg, s, a);
      assert (rs + [r])[..|rs|] == rs;
      AfterConcat(Begin(cfg), Flat(rs), r.p + r.l);
    }
  }

  /** Ticks never exceed the iterations, a new app starts at zero, and a running one gains one. */
  lemma StaysUp(cfg: Table, s: State, j: Index)
    ensures var t := Next(cfg, s);
            && (s[j].pid > 0 ==> t[j] == s[j].(ticks := (s[j].ticks + 1) % U32))
            && (s[j].pid <= 0 && t[j].pid > 0 ==> t[j].ticks == 0)
            && t[j].ticks <= s[j].ticks + 1
  {
    hide Todo, DepReady, Started, Ticked, Polls;
    var u := Ticked(s, 0);
    assert u[j] == if s[j].pid > 0 then s[j].(ticks := (s[j].ticks + 1) % U32) else s[j];
    if Todo(cfg, s, 0, Polls(s, 0)) {
      var starts := u[j].pid == -1 && DepReady(cfg, u, j);
      assert Started(cfg, u, 0)[j] == if starts then u[j].(pid := j + 1, ticks := 0) else u[j];
    }
  }

  lemma {:induction false} TicksBounded(cfg: Table, n: nat, j: Index)
    ensures StateAt(cfg, n)[j].ticks <= n
  {
    hide Next, Started;
    if n > 0 {
      TicksBounded(cfg, n - 1, j);
      StaysUp(cfg, StateAt(cfg, n - 1), j);
    } else {
      BeginTicks(cfg, j);
    }
  }

  lemma BeginUp(cfg: Table)
    ensures AllUp(Begin(cfg))
  {
    hide DepReady;
  }

  lemma BeginTicks(cfg: Table, j: Index)
    ensures Begin(cfg)[j].ticks == 0
    ensures cfg[j].dep >= 10 ==> Begin(cfg)[j].pid > 0
  {
  }

  /** The moment an app was started: it runs, with no ticks yet. */
  lemma {:induction false} FirstUp(cfg: Table, n: nat, j: Index) returns (m: nat)
    requires StateAt(cfg, n)[j].pid > 0
    ensures m <= n && StateAt(cfg, m)[j].pid > 0 && StateAt(cfg, m)[j].ticks == 0
  {
    hide Next, Begin;
    if n == 0 {
      BeginTicks(cfg, j);
      m := 0;
    } else if StateAt(cfg, n - 1)[j].pid > 0 {
      m := FirstUp(cfg, n - 1, j);
    } else {
      StaysUp(cfg, StateAt(cfg, n - 1), j);
      m := n;
    }
  }

  /** Once the prerequisite has two ticks, the next iteration starts the app. */
  lemma StartsWhenReady(cfg: Table, s: State, i: Index)
    requires AllUp(s) && cfg[i].dep < 10 && s[i].pid == -1
    requires s[cfg[i].dep].pid > 0 && s[cfg[i].dep].ticks == READY_TICKS
    requires forall j :: 0 <= j < 10 ==> s[j].ticks < U32 - 1
    ensures Next(cfg, s)[i].pid > 0
  {
    PassNotices(cfg, s, s, 0, i);
    hide Todo, Polls;
    assert DepReady(cfg, Ticked(s, 0), i);
  }

  /** An app whose chain ends is running after some number of iterations, small enough not to wrap a counter. */
  lemma {:induction false} Reached(cfg: Table, i: Index, k: nat, a: Index) returns (n: nat)
    requires Chain(cfg, i, k) >= MAX_APPS && cfg[a].dep >= 10 && 3 * k < U32 - 4
    ensures n <= 3 * k && StateAt(cfg, n)[i].pid > 0
    decreases k
  {
    hide Next, Begin, DepReady, Rounds, After, Flat, Iterations;
    if cfg[i].dep >= 10 {
      BeginTicks(cfg, i);
      n := 0;
    } else {
      var d: Index := cfg[i].dep;
      assert k > 0;
      ChainShift(cfg, i, k - 1);
      var nd := Reached(cfg, d, k - 1, a);
      var m := FirstUp(cfg, nd, d);
      var s0, s1, s2 := StateAt(cfg, m), StateAt(cfg, m + 1), StateAt(cfg, m + 2);
      assert s1 == Next(cfg, s0) && s2 == Next(cfg, s1);
      StaysUp(cfg, s0, d);
      StaysUp(cfg, s1, d);
      Executes(cfg, m + 2, a);
      if s2[i].pid > 0 {
        n := m + 2;
      } else {
        forall j | 0 <= j < 10 ensures s2[j].ticks < U32 - 1 { TicksBounded(cfg, m + 2, j); }
        StartsWhenReady(cfg, s2, i);
        assert StateAt(cfg, m + 3) == Next(cfg, s2);
        n := m + 3;
      }
    }
  }

  // ----- chains that end, end soon -----

  /** The first chain link out of the table. */
  lemma {:induction false} FirstExit(cfg: Table, i: Index, n: nat) returns (k: nat)
    requires Chain(cfg, i, n) >= MAX_APPS
    ensures 0 < k <= n && Chain(cfg, i, k) >= MAX_APPS && Chain(cfg, i, k - 1) < MAX_APPS
    ensures cfg[Chain(cfg, i, k - 1)].dep >= MAX_APPS
  {
    if Chain(cfg, i, n - 1) < MAX_APPS { k := n; } else { k := FirstExit(cfg, i, n - 1); }
  }

  lemma {:induction false} ChainPeriod(cfg: Table, i: Index, p: nat, q: nat, t: nat)
    requires Chain(cfg, i, p) == Chain(cfg, i, q)
    ensures Chain(cfg, i, p + t) == Chain(cfg, i, q + t)
  {
    if t > 0 { ChainPeriod(cfg, i, p, q, t - 1); }
  }

  /** The links before the exit, as a set. */
  ghost function Links(cfg: Table, i: Index, k: nat): set<nat> {
    if k == 0 then {} else Links(cfg, i, k - 1) + {Chain(cfg, i, k - 1)}
  }

  lemma {:induction false} LinksAre(cfg: Table, i: Index, k: nat, x: nat)
    ensures x in Links(cfg, i, k) <==> exists p :: 0 <= p < k && Chain(cfg, i, p) == x
  {
    hide Chain;
    if k > 0 {
      LinksAre(cfg, i, k - 1, x);
      if x == Chain(cfg, i, k - 1) { assert 0 <= k - 1 < k && Chain(cfg, i, k - 1) == x; }
    }
  }

  /** The links before the exit are distinct indices. */
  lemma {:induction false} LinksDistinct(cfg: Table, i: Index, k: nat, exit: nat)
    requires k <= exit && Chain(cfg, i, exit) >= MAX_APPS
    requires forall p :: 0 <= p < exit ==> Chain(cfg, i, p) < MAX_APPS
    ensures |Links(cfg, i, k)| == k && Links(cfg, i, k) <= INDICES
    decreases k
  {
    hide Chain;
    if k > 0 {
      LinksDistinct(cfg, i, k - 1, exit);
      var x := Chain(cfg, i, k - 1);
      LinksAre(cfg, i, k - 1, x);
      forall p | 0 <= p < k - 1 ensures Chain(cfg, i, p) != x { NoRepeat(cfg, i, p, k - 1, exit); }
    }
  }

  lemma {:induction false} NoRepeat(cfg: Table, i: Index, p: nat, q: nat, exit: nat)
    requires p < q < exit && Chain(cfg, i, exit) >= MAX_APPS
    requires forall m :: 0 <= m < exit ==> Chain(cfg, i, m) < MAX_APPS
    ensures Chain(cfg, i, p) != Chain(cfg, i, q)
  {
    hide Chain;
    if Chain(cfg, i, p) == Chain(cfg, i, q) { ChainPeriod(cfg, i, p, q, exit - q); }
  }

  const INDICES: set<nat> := {0, 1, 2, 3, 4, 5, 6, 7, 8, 9}

  lemma SubsetSize(a: set<nat>, b: set<nat>)
    requires a <= b
    ensures |a| <= |b|
  {
    assert b == a + (b - a);
  }

  lemma {:induction false} Least(cfg: Table, i: Index, n: nat) returns (k: nat)
    requires Chain(cfg, i, n) >= MAX_APPS
    ensures k <= n && Chain(cfg, i, k) >= MAX_APPS && forall p :: 0 <= p < k ==> Chain(cfg, i, p) < MAX_APPS
    decreases n
  {
    if p :| 0 <= p < n && Chain(cfg, i, p) >= MAX_APPS { k := Least(cfg, i, p); } else { k := n; }
  }

  /** A chain that ends, ends within as many links as there are apps. */
  lemma EndsWithinTable(cfg: Table, i: Index) returns (k: nat)
    requires ChainEnds(cfg, i)
    ensures k <= 10 && Chain(cfg, i, k) >= MAX_APPS
  {
    var n :| Chain(cfg, i, n) >= MAX_APPS;
    k := Least(cfg, i, n);
    LinksDistinct(cfg, i, k, k);
    SubsetSize(Links(cfg, i, k), INDICES);
  }

  // ----- the main result -----

  /** After a launch pass and some iterations of uios_run, app i has left idle. */
  ghost predicate LaunchedIn(cfg: Table, i: Index, l: seq<Event>, rs: seq<Iteration>) {
    && LaunchPass(cfg, Initial(), 0, l) && Rounds(cfg, After(Initial(), l), rs, false)
    && After(Initial(), l + Flat(rs))[i].pid != -1
  }

  /** An app is launched in some execution if and only if its chain of prerequisites ends. */
  lemma LaunchableIffChainEnds(cfg: Table, i: Index)
    ensures (exists l, rs :: LaunchedIn(cfg, i, l, rs)) <==> ChainEnds(cfg, i)
  {
    if l, rs :| LaunchedIn(cfg, i, l, rs) {
      OnlyEndingChains(cfg, i, l, rs);
    }
    if ChainEnds(cfg, i) {
      var l, rs := SomeExecution(cfg, i);
    }
  }

  lemma OnlyEndingChains(cfg: Table, i: Index, l: seq<Event>, rs: seq<Iteration>)
    requires LaunchedIn(cfg, i, l, rs)
    ensures ChainEnds(cfg, i)
  {
    hide Run, After, LaunchPass, Rounds, ChainEnds;
    LaunchRuns(cfg, Initial(), 0, l);
    RoundsRun(cfg, After(Initial(), l), rs, false);
    RunConcat(cfg, Initial(), l, Flat(rs));
    if !ChainEnds(cfg, i) { EndlessNeverLaunched(cfg, l + Flat(rs), i); }
  }

  lemma SomeExecution(cfg: Table, i: Index) returns (l: seq<Event>, rs: seq<Iteration>)
    requires ChainEnds(cfg, i)
    ensures LaunchedIn(cfg, i, l, rs) && After(Initial(), l + Flat(rs))[i].pid > 0
  {
    hide Run, LaunchPass, Rounds, After, StateAt, Launches, Started;
    var k := EndsWithinTable(cfg, i);
    var e := FirstExit(cfg, i, k);
    var a: Index := Chain(cfg, i, e - 1);
    var n := Reached(cfg, i, k, a);
    Executes(cfg, n, a);
    l, rs := Launches(cfg, Initial(), 0), Iterations(cfg, n);
    LaunchesPass(cfg, Initial(), Initial(), 0);
    assert After(Initial(), l) == Begin(cfg);
    AfterConcat(Initial(), l, Flat(rs));
  }
}
