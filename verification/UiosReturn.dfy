/**
 When uios_run returns: every unfinished execution can still be made to return,
 and which tables allow a service to be left down by that.
 */
module UiosReturn {
  import opened Bits
  import opened UiosModel
  import opened UiosSafety
  import opened UiosRounds
  import opened UiosLaunch

  // ----- restart policy at the end -----

  ghost predicate Touched(evs: seq<Event>, j: int) {
    exists k :: 0 <= k < |evs| && evs[k].i == j
  }

  /** A slot without an event in a pass was idle, or gone for good, and stays as it was. */
  lemma {:induction false} Untouched(cfg: Table, s: State, i: nat, evs: seq<Event>, j: Index)
    requires i <= j && Pass(cfg, s, i, evs) && !Touched(evs, j)
    ensures VisitLen(cfg, s, j) == 0 && After(s, evs)[j] == s[j]
    decreases 10 - i
  {
    hide After, FreshPid;
    if VisitLen(cfg, s, i) == 0 {
      if i < j { Untouched(cfg, s, i + 1, evs, j); } else { Still(cfg, s, i + 1, evs, j); }
    } else {
      var e := evs[0];
      assert e.i == i;
      assert i != j;
      assert forall k :: 0 <= k < |evs[1..]| ==> evs[1..][k] == evs[k + 1];
      RunCons(cfg, s, evs);
      Untouched(cfg, Apply(s, e), i + 1, evs[1..], j);
    }
  }

  /** A slot with an event in a pass that leaves nothing alive is gone. */
  lemma {:induction false} TouchedIsGone(cfg: Table, s: State, i: nat, evs: seq<Event>, j: Index)
    requires i <= 10 && Pass(cfg, s, i, evs) && !SomeAlive(evs) && Touched(evs, j)
    ensures After(s, evs)[j].pid == 0
    decreases 10 - i
  {
    hide After, FreshPid, Revivable;
    if i == 10 {
      assert false;
    } else if VisitLen(cfg, s, i) == 0 {
      TouchedIsGone(cfg, s, i + 1, evs, j);
    } else {
      var e := evs[0];
      assert !Lively(e);
      assert forall k :: 0 <= k < |evs[1..]| ==> evs[1..][k] == evs[k + 1];
      RunCons(cfg, s, evs);
      if i == j {
        Still(cfg, Apply(s, e), i + 1, evs[1..], j);
      } else {
        var k :| 0 <= k < |evs| && evs[k].i == j;
        assert evs[1..][k - 1].i == j;
        TouchedIsGone(cfg, Apply(s, e), i + 1, evs[1..], j);
      }
    }
  }

  /** Slots already passed are not changed. */
  lemma {:induction false} Still(cfg: Table, s: State, i: nat, evs: seq<Event>, j: Index)
    requires j < i <= 10 && Pass(cfg, s, i, evs)
    ensures After(s, evs)[j] == s[j]
    decreases 10 - i
  {
    hide After, FreshPid, Revivable;
    if i == 10 {
      Nothing(cfg, s);
    } else if VisitLen(cfg, s, i) == 0 {
      Still(cfg, s, i + 1, evs, j);
    } else {
      RunCons(cfg, s, evs);
      Still(cfg, Apply(s, evs[0]), i + 1, evs[1..], j);
    }
  }

  /** On return, an app that its policy would still revive is down exactly when the last pass had an event for it. */
  lemma {:induction false} UnrevivedIffTouched(cfg: Table, s: State, rs: seq<Iteration>, j: Index)
    ensures Rounds(cfg, s, rs, true) ==>
              && rs != []
              && var t := After(s, Flat(rs));
                 (t[j].pid == 0 && Revivable(cfg, t, j) <==> Touched(rs[|rs| - 1].p, j) && Revivable(cfg, t, j))
  {
    hide Run, Pass, LaunchPass, Todo, SomeAlive, After, Touched;
    if Rounds(cfg, s, rs, true) {
      var n := |rs| - 1;
      var front, p := Flat(rs[..n]), rs[n].p;
      assert p + [] == p;
      AfterConcat(s, front, p);
      var t := After(s, front);
      if Touched(p, j) { TouchedIsGone(cfg, t, 0, p, j); } else { Untouched(cfg, t, 0, p, j); }
    }
  }

  // ----- a kernel under which every app crashes and every fork fails -----

  /** No process is running. */
  ghost predicate NoProcess(s: State) {
    forall j :: 0 <= j < 10 ==> s[j].pid == -1 || s[j].pid == 0
  }

  /** Only blocked apps are idle. */
  ghost predicate NoStarter(cfg: Table, s: State) {
    forall j :: 0 <= j < 10 ==> s[j].pid == -1 ==> cfg[j].dep < 10
  }

  /** An app after such a pass: down, with the status of its crash if it was running. */
  ghost predicate Fell(a: App, b: App) {
    && b.pid == (if a.pid == -1 then -1 else 0)
    && b.exitCode == (if a.pid > 0 then 1 else a.exitCode)
  }

  lemma {:induction false} FailingPass(cfg: Table, s: State, i: nat) returns (p: seq<Event>)
    requires i <= 10 && Pids(s)
    ensures Pass(cfg, s, i, p) && !SomeAlive(p)
    ensures forall j :: 0 <= j < 10 ==> if j < i then After(s, p)[j] == s[j] else Fell(s[j], After(s, p)[j])
    ensures NoProcess(s) && NoStarter(cfg, s) ==> !Todo(cfg, s, i, p)
    decreases 10 - i
  {
    hide After, Revivable, Run;
    if i == 10 {
      p := [];
      Nothing(cfg, s);
    } else if VisitLen(cfg, s, i) == 0 {
      p := FailingPass(cfg, s, i + 1);
    } else {
      var e := if s[i].pid == 0 then Revive(i, 0) else Reap(i, 1);
      var q := FailingPass(cfg, Apply(s, e), i + 1);
      p := [e] + q;
      assert p[1..] == q;
      RunCons(cfg, s, p);
    }
  }

  /** The launch pass with failing forks: apps without a prerequisite are tried, the others stay blocked. */
  lemma {:induction false} FailingLaunch(cfg: Table, s: State, i: nat) returns (l: seq<Event>)
    requires i <= 10 && NoProcess(s)
    ensures LaunchPass(cfg, s, i, l)
    ensures NoProcess(After(s, l))
    ensures forall j :: 0 <= j < 10 ==>
              && After(s, l)[j].exitCode == s[j].exitCode
              && (s[j].pid == 0 ==> After(s, l)[j].pid == 0)
              && (i <= j && After(s, l)[j].pid == -1 ==> cfg[j].dep < 10)
    decreases 10 - i
  {
    hide After, Run;
    if i == 10 {
      l := [];
      Nothing(cfg, s);
    } else if s[i].pid != -1 || !DepReady(cfg, s, i) {
      l := FailingLaunch(cfg, s, i + 1);
    } else {
      var e := Launch(i, 0);
      var q := FailingLaunch(cfg, Apply(s, e), i + 1);
      l := [e] + q;
      assert l[1..] == q;
      RunCons(cfg, s, l);
    }
  }

  lemma {:induction false} RoundIs(cfg: Table, s: State, p: seq<Event>, l: seq<Event>, done: bool)
    requires Round(cfg, s, p, l, done)
    ensures Rounds(cfg, s, [Iteration(p, l)], done) && Flat([Iteration(p, l)]) == p + l
  {
    hide Round, After;
    var r := Iteration(p, l);
    assert [r][..0] == [] && Flat([]) == [];
    Nothing(cfg, s);
    assert Flat([r]) == Flat([r][..0]) + (p + l);
  }

  /** Executions one after the other. */
  lemma {:induction false} RoundsConcat(cfg: Table, s: State, a: seq<Iteration>, b: seq<Iteration>, done: bool)
    requires Rounds(cfg, s, a, false) && Rounds(cfg, After(s, Flat(a)), b, done)
    ensures Rounds(cfg, s, a + b, done) && Flat(a + b) == Flat(a) + Flat(b)
    decreases |b|
  {
    hide Round, After, Rounds, Flat;
    if b == [] {
      assert a + b == a;
      NoRounds(cfg, After(s, Flat(a)), done);
      assert Flat(a) + [] == Flat(a);
    } else {
      var n := |b| - 1;
      var front := a + b[..n];
      LastRound(cfg, After(s, Flat(a)), b, done);
      RoundsConcat(cfg, s, a, b[..n], false);
      AfterConcat(s, Flat(a), Flat(b[..n]));
      assert a + b == front + [b[n]];
      AppendRound(cfg, s, front, b[n], done);
    }
  }

  lemma {:induction false} NoRounds(cfg: Table, s: State, done: bool)
    ensures Flat([]) == [] && (Rounds(cfg, s, [], done) <==> !done)
  {
  }

  lemma {:induction false} LastRound(cfg: Table, s: State, rs: seq<Iteration>, done: bool)
    requires rs != [] && Rounds(cfg, s, rs, done)
    ensures var n := |rs| - 1;
            && Rounds(cfg, s, rs[..n], false) && Round(cfg, After(s, Flat(rs[..n])), rs[n].p, rs[n].l, done)
            && Flat(rs) == Flat(rs[..n]) + (rs[n].p + rs[n].l)
  {
    hide Round, After;
  }

  /** From any state, uios_run returns within two iterations if every app crashes and every fork fails. */
  lemma Collapse(cfg: Table, s: State) returns (rs: seq<Iteration>)
    requires Pids(s)
    ensures |rs| <= 2 && Rounds(cfg, s, rs, true)
    ensures var t := After(s, Flat(rs));
            forall j :: 0 <= j < 10 && s[j].pid > 0 ==> t[j].pid == 0 && t[j].exitCode == 1
  {
    hide After, Pass, LaunchPass, Todo, SomeAlive, Run, Rounds, Flat;
    var p := FailingPass(cfg, s, 0);
    var t := After(s, p);
    if !Todo(cfg, s, 0, p) {
      RoundIs(cfg, s, p, [], true);
      assert p + [] == p;
      return [Iteration(p, [])];
    }
    var l := FailingLaunch(cfg, t, 0);
    var u := After(t, l);
    RoundIs(cfg, s, p, l, false);
    AfterConcat(s, p, l);
    var q := FailingPass(cfg, u, 0);
    RoundIs(cfg, u, q, [], true);
    assert q + [] == q;
    RoundsConcat(cfg, s, [Iteration(p, l)], [Iteration(q, [])], true);
    AfterConcat(s, p + l, q);
    return [Iteration(p, l)] + [Iteration(q, [])];
  }

  // ----- the main results -----

  /** A whole execution of the supervisor from its initial table, up to the return of uios_run. */
  ghost predicate Returns(cfg: Table, l: seq<Event>, rs: seq<Iteration>) {
    LaunchPass(cfg, Initial(), 0, l) && Rounds(cfg, After(Initial(), l), rs, true)
  }

  /** Such an execution after which app j is down although its policy would revive it. */
  ghost predicate ReturnsDown(cfg: Table, j: Index, l: seq<Event>, rs: seq<Iteration>) {
    && Returns(cfg, l, rs)
    && var t := After(Initial(), l + Flat(rs)); t[j].pid == 0 && Revivable(cfg, t, j)
  }

  /** Whatever happened so far, uios_run can still return; in particular every table has an execution that does. */
  lemma {:induction false} ReturnStaysPossible(cfg: Table, l: seq<Event>, rs: seq<Iteration>)
    requires LaunchPass(cfg, Initial(), 0, l)
    ensures Rounds(cfg, After(Initial(), l), rs, false) ==> exists more :: |more| <= 2 && Returns(cfg, l, rs + more)
    ensures exists all :: Returns(cfg, l, all)
  {
    hide After, LaunchPass, Rounds, Run, Flat;
    var s := After(Initial(), l);
    LaunchRuns(cfg, Initial(), 0, l);
    var all := Collapse(cfg, s);
    assert Returns(cfg, l, all);
    if Rounds(cfg, s, rs, false) {
      RoundsRun(cfg, s, rs, false);
      var more := Collapse(cfg, After(s, Flat(rs)));
      RoundsConcat(cfg, s, rs, more, true);
      assert Returns(cfg, l, rs + more);
    }
  }

  /** A service can be left down by the return exactly if it can be launched and is ever to be restarted. */
  lemma LeftDownIff(cfg: Table, j: Index)
    ensures (exists l, rs :: ReturnsDown(cfg, j, l, rs)) <==> ChainEnds(cfg, j) && cfg[j].policy != RunOnce
  {
    hide ChainEnds, ReturnsDown;
    if l, rs :| ReturnsDown(cfg, j, l, rs) {
      OnlyLaunchable(cfg, j, l, rs);
    }
    if ChainEnds(cfg, j) && cfg[j].policy != RunOnce {
      var l, rs := SomeReturn(cfg, j);
    }
  }

  lemma OnlyLaunchable(cfg: Table, j: Index, l: seq<Event>, rs: seq<Iteration>)
    requires ReturnsDown(cfg, j, l, rs)
    ensures ChainEnds(cfg, j) && cfg[j].policy != RunOnce
  {
    hide Run, After, LaunchPass, Rounds, ChainEnds;
    LaunchRuns(cfg, Initial(), 0, l);
    RoundsRun(cfg, After(Initial(), l), rs, true);
    RunConcat(cfg, Initial(), l, Flat(rs));
    if !ChainEnds(cfg, j) { EndlessNeverLaunched(cfg, l + Flat(rs), j); }
  }

  lemma SomeReturn(cfg: Table, j: Index) returns (l: seq<Event>, rs: seq<Iteration>)
    requires ChainEnds(cfg, j) && cfg[j].policy != RunOnce
    ensures ReturnsDown(cfg, j, l, rs)
  {
    hide Run, After, LaunchPass, Rounds, ChainEnds, Flat;
    var up: seq<Iteration>;
    l, up := SomeExecution(cfg, j);
    var s := After(Initial(), l);
    LaunchRuns(cfg, Initial(), 0, l);
    RoundsRun(cfg, s, up, false);
    AfterConcat(Initial(), l, Flat(up));
    var down := Collapse(cfg, After(s, Flat(up)));
    RoundsConcat(cfg, s, up, down, true);
    rs := up + down;
    AfterConcat(s, Flat(up), Flat(down));
    AfterConcat(Initial(), l, Flat(rs));
  }

  // ----- progress -----

  /** Whether a pass ends app d. */
  ghost predicate EndsIn(evs: seq<Event>, d: int) {
    exists k :: 0 <= k < |evs| && Ends(evs[k], d)
  }

  /** App d runs and has its ticks; r more polls do not wrap the counter. */
  ghost predicate UpFor(s: State, d: Index, r: nat) {
    s[d].pid > 0 && READY_TICKS <= s[d].ticks < U32 - r
  }

  /** A pass that does not end the prerequisite of an idle app keeps it ready, and notices the app. */
  lemma {:induction false} PassKeepsReady(cfg: Table, s: State, i: nat, evs: seq<Event>, a: Index, d: Index)
    requires i <= 10 && Pass(cfg, s, i, evs) && !EndsIn(evs, d)
    requires s[a].pid == -1 && cfg[a].dep == d && UpFor(s, d, if i <= d then 1 else 0)
    ensures UpFor(After(s, evs), d, 0) && After(s, evs)[a].pid == -1
    ensures i <= a ==> Todo(cfg, s, i, evs)
    decreases 10 - i
  {
    hide After, Run, Revivable, FreshPid;
    if i == 10 {
      Nothing(cfg, s);
    } else if VisitLen(cfg, s, i) == 0 {
      PassKeepsReady(cfg, s, i + 1, evs, a, d);
    } else {
      var e := evs[0];
      assert !Ends(e, d);
      assert forall k :: 0 <= k < |evs[1..]| ==> evs[1..][k] == evs[k + 1];
      RunCons(cfg, s, evs);
      PassKeepsReady(cfg, Apply(s, e), i + 1, evs[1..], a, d);
    }
  }

  /** A launch pass starts an idle app whose prerequisite is ready. */
  lemma {:induction false} LaunchPassStarts(cfg: Table, s: State, i: nat, evs: seq<Event>, a: Index, d: Index)
    requires i <= 10 && LaunchPass(cfg, s, i, evs) && cfg[a].dep == d && UpFor(s, d, 0)
    requires i > a ==> s[a].pid != -1
    ensures After(s, evs)[a].pid != -1
    decreases 10 - i
  {
    hide After, Run, FreshPid;
    if i == 10 {
      Nothing(cfg, s);
    } else if s[i].pid != -1 || !DepReady(cfg, s, i) {
      LaunchPassStarts(cfg, s, i + 1, evs, a, d);
    } else {
      RunCons(cfg, s, evs);
      LaunchPassStarts(cfg, Apply(s, evs[0]), i + 1, evs[1..], a, d);
    }
  }

  /** In every iteration: an idle app whose prerequisite is ready, and does not end in the pass, leaves idle. */
  lemma {:induction false} ReadyAppStarts(
      cfg: Table, s: State, p: seq<Event>, l: seq<Event>, done: bool, a: Index, d: Index)
    requires s[a].pid == -1 && cfg[a].dep == d && UpFor(s, d, 1)
    ensures Round(cfg, s, p, l, done) && !EndsIn(p, d) ==> !done && After(s, p + l)[a].pid != -1
  {
    hide After, Run, Pass, LaunchPass, Todo, SomeAlive, EndsIn;
    if Round(cfg, s, p, l, done) && !EndsIn(p, d) {
      PassKeepsReady(cfg, s, 0, p, a, d);
      LaunchPassStarts(cfg, After(s, p), 0, l, a, d);
      AfterConcat(s, p, l);
    }
  }

  // ----- how long it can run -----

  /** Some execution passes n iterations of uios_run without returning. */
  ghost predicate RunsFor(cfg: Table, n: nat) {
    exists l, rs :: |rs| == n && LaunchPass(cfg, Initial(), 0, l) && Rounds(cfg, After(Initial(), l), rs, false)
  }

  /** The supervisor can run for any time if some app needs no prerequisite; else its first pass returns. */
  lemma RunsOnIff(cfg: Table, n: nat)
    requires n > 0
    ensures RunsFor(cfg, n) <==> exists a :: 0 <= a < 10 && cfg[a].dep >= 10
  {
    hide After, LaunchPass, Rounds, Launches, Pass, Todo, SomeAlive;
    if a :| 0 <= a < 10 && cfg[a].dep >= 10 {
      Executes(cfg, n, a);
      IterationCount(cfg, n);
      LaunchesPass(cfg, Initial(), Initial(), 0);
      assert After(Initial(), Launches(cfg, Initial(), 0)) == Begin(cfg);
    } else if RunsFor(cfg, n) {
      var l, rs: seq<Iteration> :|
        |rs| == n && LaunchPass(cfg, Initial(), 0, l) && Rounds(cfg, After(Initial(), l), rs, false);
      FirstRound(cfg, After(Initial(), l), rs);
      NothingStarts(cfg, 0, l);
      Nothing(cfg, Initial());
      NothingStarts(cfg, 0, rs[0].p);
      NoneAlive();
      assert false;
    }
  }

  lemma NoneAlive()
    ensures !SomeAlive([])
  {
  }

  lemma {:induction false} IterationCount(cfg: Table, n: nat)
    ensures |Iterations(cfg, n)| == n
  {
    hide Iterate, StateAt;
    if n > 0 { IterationCount(cfg, n - 1); }
  }

  lemma {:induction false} FirstRound(cfg: Table, s: State, rs: seq<Iteration>)
    requires rs != [] && Rounds(cfg, s, rs, false)
    ensures Round(cfg, s, rs[0].p, rs[0].l, false)
    decreases |rs|
  {
    hide Round;
    if |rs| > 1 {
      FirstRound(cfg, s, rs[..|rs| - 1]);
    } else {
      assert rs[..0] == [];
      Nothing(cfg, s);
    }
  }

  lemma {:induction false} NothingStarts(cfg: Table, i: nat, evs: seq<Event>)
    requires i <= 10 && NoStarter(cfg, Initial())
    ensures LaunchPass(cfg, Initial(), i, evs) ==> evs == []
    ensures Pass(cfg, Initial(), i, evs) ==> evs == [] && !Todo(cfg, Initial(), i, evs)
    decreases 10 - i
  {
    if i < 10 { NothingStarts(cfg, i + 1, evs); }
  }

  // ----- the shortest return that leaves a service down -----

  /** A table in which only app 0 can ever start, and is to be restarted on any exit. */
  function OneService(): Table {
    seq(10, i requires 0 <= i < 10 => if i == 0 then Config(Restart, 255) else Config(RunOnce, i))
  }

  lemma {:induction false} IdleTail(s: State, i: nat)
    requires 1 <= i <= 10 && forall j :: 1 <= j < 10 ==> s[j].pid == -1
    ensures Pass(OneService(), s, i, []) && !Todo(OneService(), s, i, []) && LaunchPass(OneService(), s, i, [])
    decreases 10 - i
  {
    if i < 10 { IdleTail(s, i + 1); }
  }

  /** The launch pass that starts app 0. */
  lemma OneLaunch(e: Event)
    requires e == Launch(0, 7)
    ensures LaunchPass(OneService(), Initial(), 0, [e]) && After(Initial(), [e]) == Apply(Initial(), e)
  {
    hide After, Run, Pass, Todo;
    var s := Apply(Initial(), e);
    IdleTail(s, 1);
    assert [e][1..] == [];
    assert FreshPid(Initial(), e.pid);
    RunOne(OneService(), Initial(), e);
  }

  /** The pass that reaps it. */
  lemma {:induction false} OneExit(s: State, x: Event)
    requires x == Reap(0, 0) && s[0].pid > 0 && forall j :: 1 <= j < 10 ==> s[j].pid == -1
    ensures Round(OneService(), s, [x], [], true) && After(s, [x]) == Apply(s, x)
  {
    hide After, Run, LaunchPass, Revivable;
    IdleTail(Apply(s, x), 1);
    assert [x][1..] == [];
    assert Visited(OneService(), s, 0, x);
    RunOne(OneService(), s, x);
  }

  /** The shortest such execution: a restart-always service exits in the only pass, even with status 0. */
  lemma LastExitIsNotRevived()
    ensures exists l, rs :: ReturnsDown(OneService(), 0, l, rs) && l + Flat(rs) == [Launch(0, 7), Reap(0, 0)]
  {
    hide After, Run, LaunchPass, Round, Rounds, Flat;
    var cfg := OneService();
    var e, x := Launch(0, 7), Reap(0, 0);
    var s := Apply(Initial(), e);
    OneLaunch(e);
    OneExit(s, x);
    RoundIs(cfg, s, [x], [], true);
    assert [x] + [] == [x];
    AfterConcat(Initial(), [e], [x]);
    assert ReturnsDown(cfg, 0, [e], [Iteration([x], [])]);
  }
}
