/**
 The supervisor's loops: one pass over the table, one round of uios_run, and
 what their executions have in common with runs of the transition system.
 */
module UiosRounds {
  import opened UiosModel

  // ----- one visit of the reaper pass -----

  /** How many events the visit of slot i produces. */
  function VisitLen(cfg: Table, s: State, i: Index): (n: nat)
    ensures n <= 1
  {
    if s[i].pid == -1 then 0
    else if s[i].pid == 0 then if Revivable(cfg, s, i) then 1 else 0
    else 1
  }

  /** What the visit of slot i may do: a gone app is revived by policy, a live one is polled once. */
  predicate Visited(cfg: Table, s: State, i: Index, e: Event) {
    e.i == i && if s[i].pid == 0 then e.Revive? && FreshPid(s, e.pid) else e.Reap? || e.Alive? || e.Vanish?
  }

  /** The reaper pass from slot i on: every slot is visited once, in order. */
  ghost predicate Pass(cfg: Table, s: State, i: nat, evs: seq<Event>)
    requires i <= 10
    decreases 10 - i
  {
    if i == 10 then evs == []
    else if VisitLen(cfg, s, i) == 0 then Pass(cfg, s, i + 1, evs)
    else evs != [] && Visited(cfg, s, i, evs[0]) && Pass(cfg, Apply(s, evs[0]), i + 1, evs[1..])
  }

  /** Whether some slot was idle with its dependency ready when it was visited. */
  ghost predicate Todo(cfg: Table, s: State, i: nat, evs: seq<Event>)
    requires i <= 10
    decreases 10 - i
  {
    i < 10 &&
    if VisitLen(cfg, s, i) == 0 then (s[i].pid == -1 && DepReady(cfg, s, i)) || Todo(cfg, s, i + 1, evs)
    else evs != [] && Todo(cfg, Apply(s, evs[0]), i + 1, evs[1..])
  }

  predicate Lively(e: Event) {
    e.Alive? || (e.Revive? && e.pid > 0)
  }

  /** Whether the pass found or made a live app. */
  ghost predicate SomeAlive(evs: seq<Event>) {
    exists k :: 0 <= k < |evs| && Lively(evs[k])
  }

  /** The launch pass from slot i on: every idle slot with a ready dependency is started, in order. */
  ghost predicate LaunchPass(cfg: Table, s: State, i: nat, evs: seq<Event>)
    requires i <= 10
    decreases 10 - i
  {
    if i == 10 then evs == []
    else if s[i].pid != -1 || !DepReady(cfg, s, i) then LaunchPass(cfg, s, i + 1, evs)
    else
      && evs != [] && evs[0].Launch? && evs[0].i == i && FreshPid(s, evs[0].pid)
      && LaunchPass(cfg, Apply(s, evs[0]), i + 1, evs[1..])
  }

  /** One iteration of uios_run: a pass, then a launch pass if something became eligible; done if neither. */
  ghost predicate Round(cfg: Table, s: State, p: seq<Event>, l: seq<Event>, done: bool) {
    && Pass(cfg, s, 0, p)
    && done == (!SomeAlive(p) && !Todo(cfg, s, 0, p))
    && if Todo(cfg, s, 0, p) then LaunchPass(cfg, After(s, p), 0, l) else l == []
  }

  datatype Iteration = Iteration(p: seq<Event>, l: seq<Event>)

  function Flat(rs: seq<Iteration>): seq<Event> {
    if rs == [] then [] else Flat(rs[..|rs| - 1]) + (rs[|rs| - 1].p + rs[|rs| - 1].l)
  }

  /** A number of iterations of uios_run; only the last one may return. */
  ghost predicate Rounds(cfg: Table, s: State, rs: seq<Iteration>, done: bool) {
    if rs == [] then !done
    else
      var n := |rs| - 1;
      Rounds(cfg, s, rs[..n], false) && Round(cfg, After(s, Flat(rs[..n])), rs[n].p, rs[n].l, done)
  }

  // ----- passes are runs -----

  lemma {:induction false} RunOne(cfg: Table, s: State, e: Event)
    ensures Run(cfg, s, [e]) <==> Enabled(cfg, s, e)
    ensures After(s, [e]) == Apply(s, e)
  {
    hide Enabled, Apply;
    assert [e][..0] == [];
  }

  lemma {:induction false} RunCons(cfg: Table, s: State, evs: seq<Event>)
    requires evs != []
    ensures Run(cfg, s, evs) <==> Enabled(cfg, s, evs[0]) && Run(cfg, Apply(s, evs[0]), evs[1..])
    ensures After(s, evs) == After(Apply(s, evs[0]), evs[1..])
  {
    hide Enabled, Apply, Run, After;
    assert evs == [evs[0]] + evs[1..];
    RunOne(cfg, s, evs[0]);
    RunConcat(cfg, s, [evs[0]], evs[1..]);
    AfterConcat(s, [evs[0]], evs[1..]);
  }

  ghost predicate Pids(s: State) {
    forall j :: 0 <= j < 10 ==> s[j].pid >= -1
  }

  lemma {:induction false} PassRuns(cfg: Table, s: State, i: nat, evs: seq<Event>)
    requires i <= 10 && Pids(s) && Pass(cfg, s, i, evs)
    ensures Run(cfg, s, evs) && Pids(After(s, evs))
    decreases 10 - i
  {
    hide Run, After;
    if i == 10 {
      Nothing(cfg, s);
    } else if VisitLen(cfg, s, i) == 0 {
      PassRuns(cfg, s, i + 1, evs);
    } else {
      RunCons(cfg, s, evs);
      PassRuns(cfg, Apply(s, evs[0]), i + 1, evs[1..]);
    }
  }

  lemma {:induction false} Nothing(cfg: Table, s: State)
    ensures Run(cfg, s, []) && After(s, []) == s
  {
  }

  lemma {:induction false} LaunchRuns(cfg: Table, s: State, i: nat, evs: seq<Event>)
    requires i <= 10 && Pids(s) && LaunchPass(cfg, s, i, evs)
    ensures Run(cfg, s, evs) && Pids(After(s, evs))
    decreases 10 - i
  {
    hide Run, After, DepReady, FreshPid;
    if i == 10 {
      Nothing(cfg, s);
    } else if s[i].pid != -1 || !DepReady(cfg, s, i) {
      LaunchRuns(cfg, s, i + 1, evs);
    } else {
      RunCons(cfg, s, evs);
      LaunchRuns(cfg, Apply(s, evs[0]), i + 1, evs[1..]);
    }
  }

  /** Every execution of uios_run is a run of the transition system. */
  lemma {:induction false} RoundsRun(cfg: Table, s: State, rs: seq<Iteration>, done: bool)
    requires Pids(s)
    ensures Rounds(cfg, s, rs, done) ==> Run(cfg, s, Flat(rs)) && Pids(After(s, Flat(rs)))
    decreases |rs|
  {
    hide Run, After, Pass, LaunchPass, Todo, SomeAlive, Pids;
    if rs == [] {
      Nothing(cfg, s);
    } else if Rounds(cfg, s, rs, done) {
      var n := |rs| - 1;
      var front, p, l := Flat(rs[..n]), rs[n].p, rs[n].l;
      RoundsRun(cfg, s, rs[..n], false);
      var t := After(s, front);
      PassRuns(cfg, t, 0, p);
      if l == [] { Nothing(cfg, After(t, p)); } else { LaunchRuns(cfg, After(t, p), 0, l); }
      RunConcat(cfg, t, p, l);
      RunConcat(cfg, s, front, p + l);
      AfterConcat(t, p, l);
      AfterConcat(s, front, p + l);
    }
  }

  lemma {:induction false} AppendRound(cfg: Table, s0: State, rs: seq<Iteration>, r: Iteration, done: bool)
    requires Rounds(cfg, s0, rs, false) && Round(cfg, After(s0, Flat(rs)), r.p, r.l, done)
    ensures Rounds(cfg, s0, rs + [r], done)
    ensures Flat(rs + [r]) == Flat(rs) + (r.p + r.l)
    ensures After(s0, Flat(rs + [r])) == After(After(s0, Flat(rs)), r.p + r.l)
  {
    hide Run, After, Round;
    assert (rs + [r])[..|rs|] == rs;
    AfterConcat(s0, Flat(rs), r.p + r.l);
  }

  // ----- when uios_run returns -----

  /** No app is running, and no idle app could be started. */
  ghost predicate Quiescent(cfg: Table, s: State) {
    forall i :: 0 <= i < 10 ==> s[i].pid <= 0 && !(s[i].pid == -1 && DepReady(cfg, s, i))
  }

  /** A pass with nothing alive leaves every visited slot without a process, and idle slots idle. */
  lemma {:induction false} DeadPass(cfg: Table, s: State, i: nat, evs: seq<Event>)
    requires i <= 10 && Pids(s) && Pass(cfg, s, i, evs) && !SomeAlive(evs) && !Todo(cfg, s, i, evs)
    ensures var t := After(s, evs);
            && (forall j :: 0 <= j < i ==> t[j] == s[j])
            && (forall j :: i <= j < 10 ==> t[j].pid <= 0 && (t[j].pid == -1 ==> cfg[j].dep < 10))
    decreases 10 - i
  {
    hide Run, After, FreshPid, Revivable;
    if i == 10 {
      Nothing(cfg, s);
    } else if VisitLen(cfg, s, i) == 0 {
      DeadPass(cfg, s, i + 1, evs);
    } else {
      var e := evs[0];
      assert !Lively(e);
      assert forall k :: 0 <= k < |evs[1..]| ==> evs[1..][k] == evs[k + 1];
      RunCons(cfg, s, evs);
      DeadPass(cfg, Apply(s, e), i + 1, evs[1..]);
    }
  }

  /** uios_run returns only in a state with no process and nothing left to start. */
  lemma {:induction false} ReturnsQuiescent(cfg: Table, s: State, rs: seq<Iteration>)
    requires Pids(s)
    ensures Rounds(cfg, s, rs, true) ==> Quiescent(cfg, After(s, Flat(rs)))
  {
    hide Run, Pass, LaunchPass, Todo, SomeAlive, After;
    if Rounds(cfg, s, rs, true) {
      var n := |rs| - 1;
      var front, p := Flat(rs[..n]), rs[n].p;
      RoundsRun(cfg, s, rs[..n], false);
      DeadPass(cfg, After(s, front), 0, p);
      assert p + [] == p;
      AfterConcat(s, front, p);
    }
  }
}
