/**
 The supervisor of PID 1 as it runs: the service table updated in place, with
 the kernel's fork and wait answers arbitrary.
 */
module UiosSupervisor {
  import opened Bits
  import opened UiosModel
  import opened UiosRounds

  const SHUTDOWN_TRIES: nat := 100

  class Supervisor {
    const cfg: Table
    const apps: array<App>
    /** Every step taken since uios_init. */
    ghost var trace: seq<Event>

    ghost predicate Valid()
      reads this, apps
    {
      apps.Length == 10 && Run(cfg, Initial(), trace) && apps[..] == After(Initial(), trace) && Pids(apps[..])
    }

    /** uios_init. */
    constructor (table: Table)
      ensures Valid() && cfg == table && trace == [] && fresh(apps)
      ensures apps[..] == Initial()
    {
      cfg := table;
      apps := new App[10](_ => App(-1, -1, 0, 0));
      trace := [];
      new;
      assert apps[..] == Initial();
    }

    /** start_app: the kernel answers with a new pid, or the fork fails and 0 is returned. */
    method StartApp() returns (pid: nat)
      requires apps.Length == 10
      ensures FreshPid(apps[..], pid)
    {
      assert FreshPid(apps[..], 0);
      pid :| FreshPid(apps[..], pid);
    }

    /** sys_wait4 without blocking: any return value and any status. */
    method Wait4(pid: int) returns (r: int, status: int)
    {
      r, status := *, *;
    }

    /** Record a step. */
    ghost method Step(e: Event)
      requires apps.Length == 10 && Run(cfg, Initial(), trace) && Pids(apps[..])
      requires Enabled(cfg, After(Initial(), trace), e)
      requires apps[..] == Apply(After(Initial(), trace), e)
      modifies `trace
      ensures Valid() && trace == old(trace) + [e]
    {
      ghost var t := trace + [e];
      assert t[..|t| - 1] == trace;
      trace := t;
    }

    /** uios_launch_apps. */
    method LaunchApps() returns (ghost l: seq<Event>)
      requires Valid()
      modifies apps, `trace
      ensures Valid() && trace == old(trace) + l
      ensures LaunchPass(cfg, old(apps[..]), 0, l)
    {
      hide Run, After, Pids, LaunchPass;
      l := [];
      ghost var s0: State := apps[..];
      var i := 0;
      assert trace == old(trace) + l;
      NoLaunch(cfg, s0);
      while i < 10
        invariant 0 <= i <= 10 && Valid() && trace == old(trace) + l
        invariant LaunchedSofar(cfg, s0, l, apps[..], i)
      {
        ghost var s: State := apps[..];
        if apps[i].pid == -1 && DepReady(cfg, apps[..], i) {
          ghost var e := LaunchSlot(i);
          LaunchVisit(cfg, s0, s, i, l, e);
          l := l + [e];
        } else {
          LaunchSkip(cfg, s0, s, i, l);
        }
        i := i + 1;
      }
      EndOfLaunch(cfg, s0, l, apps[..]);
    }

    /** One app of the launch loop. */
    method LaunchSlot(i: Index) returns (ghost e: Event)
      requires Valid() && apps[i].pid == -1 && DepReady(cfg, apps[..], i)
      modifies apps, `trace
      ensures Valid() && trace == old(trace) + [e] && apps[..] == Apply(old(apps[..]), e)
      ensures e.Launch? && e.i == i && FreshPid(old(apps[..]), e.pid)
    {
      hide Run, After, Pids;
      ghost var s: State := apps[..];
      var pid := StartApp();
      apps[i] := apps[i].(pid := pid);
      if pid > 0 { apps[i] := apps[i].(ticks := 0); }
      e := Launch(i, pid);
      assert apps[..] == Apply(s, e);
      KeepPids(s, e);
      Step(e);
    }

    /** The restart branch of the reaper. */
    method ReviveSlot(i: Index) returns (pid: nat, ghost e: Event)
      requires Valid() && apps[i].pid == 0 && Revivable(cfg, apps[..], i)
      modifies apps, `trace
      ensures Valid() && trace == old(trace) + [e] && apps[..] == Apply(old(apps[..]), e)
      ensures Visited(cfg, old(apps[..]), i, e)
      ensures pid > 0 <==> Lively(e)
    {
      hide Run, After, Pids;
      ghost var s: State := apps[..];
      apps[i] := apps[i].(restarts := (apps[i].restarts + 1) % U32);
      ghost var mid: State := apps[..];
      pid := StartApp();
      FreshEither(mid, s, pid);
      apps[i] := apps[i].(pid := pid, ticks := 0);
      e := Revive(i, pid);
      assert apps[..] == Apply(s, e);
      KeepPids(s, e);
      Step(e);
    }

    /** The poll branch of the reaper. */
    method PollSlot(i: Index) returns (live: bool, ghost e: Event)
      requires Valid() && apps[i].pid > 0
      modifies apps, `trace
      ensures Valid() && trace == old(trace) + [e] && apps[..] == Apply(old(apps[..]), e)
      ensures Visited(cfg, old(apps[..]), i, e)
      ensures live <==> Lively(e)
    {
      hide Run, After, Pids;
      ghost var s: State := apps[..];
      live := false;
      var r, status := Wait4(apps[i].pid);
      if r == apps[i].pid {
        apps[i] := apps[i].(exitCode := status);
        apps[i] := apps[i].(pid := 0);
        e := Reap(i, status);
      } else if r == 0 {
        apps[i] := apps[i].(ticks := (apps[i].ticks + 1) % U32);
        live := true;
        e := Alive(i);
      } else {
        apps[i] := apps[i].(pid := 0);
        e := Vanish(i);
      }
      assert apps[..] == Apply(s, e);
      KeepPids(s, e);
      Step(e);
    }

    /** One pass of the reaper: visit every slot, and count what is alive and what could be started. */
    method ReapPass() returns (alive: nat, todo: nat, ghost p: seq<Event>)
      requires Valid()
      modifies apps, `trace
      ensures Valid() && trace == old(trace) + p
      ensures Pass(cfg, old(apps[..]), 0, p)
      ensures alive > 0 <==> SomeAlive(p)
      ensures todo > 0 <==> Todo(cfg, old(apps[..]), 0, p)
    {
      hide Run, After, Pids, Pass, Todo, SomeAlive, Sofar, FreshPid, Apply, Lively;
      p := [];
      alive, todo := 0, 0;
      ghost var s0: State := apps[..];
      var i := 0;
      assert trace == old(trace) + p;
      NoVisit(cfg, s0);
      while i < 10
        invariant 0 <= i <= 10 && Valid() && trace == old(trace) + p
        invariant Sofar(cfg, s0, p, apps[..], i, todo > 0)
        invariant alive > 0 <==> SomeAlive(p)
      {
        ghost var s: State := apps[..];
        PidAtLeast(s, i);
        if apps[i].pid == -1 {
          SkipVisit(cfg, s0, p, s, i, todo > 0);
          if DepReady(cfg, apps[..], i) { todo := todo + 1; }
        } else if apps[i].pid == 0 {
          if cfg[i].policy == Restart || (cfg[i].policy == RestartOnCrash && apps[i].exitCode != 0) {
            var pid, e := ReviveSlot(i);
            if pid > 0 { alive := alive + 1; }
            EventVisit(cfg, s0, p, s, i, todo > 0, e);
            p := p + [e];
          } else {
            SkipVisit(cfg, s0, p, s, i, todo > 0);
          }
        } else {
          var live, e := PollSlot(i);
          if live { alive := alive + 1; }
          EventVisit(cfg, s0, p, s, i, todo > 0, e);
          p := p + [e];
        }
        i := i + 1;
      }
      EndOfPass(cfg, s0, p, apps[..], todo > 0);
    }

    /** uios_run, cut after a number of iterations; the source has no such bound. */
    method Supervise(iterations: nat) returns (done: bool, ghost rs: seq<Iteration>)
      requires Valid()
      modifies apps, `trace
      ensures Valid() && trace == old(trace) + Flat(rs)
      ensures Rounds(cfg, old(apps[..]), rs, done)
      ensures !done ==> |rs| == iterations
      ensures done ==> Quiescent(cfg, apps[..])
    {
      hide Run, After, Pass, LaunchPass, Todo, SomeAlive, Pids, Quiescent;
      rs := [];
      done := false;
      ghost var s0: State := apps[..];
      assert Flat([]) == [];
      assert trace == old(trace) + Flat(rs);
      Nothing(cfg, s0);
      var k := 0;
      while k < iterations && !done
        invariant Valid() && trace == old(trace) + Flat(rs)
        invariant Rounds(cfg, s0, rs, done) && apps[..] == After(s0, Flat(rs))
        invariant |rs| == k <= iterations
      {
        ghost var t, s: State := trace, apps[..];
        var alive, todo, p := ReapPass();
        AfterPass(cfg, trace, t, p);
        ghost var l: seq<Event> := [];
        if alive == 0 && todo == 0 {
          done := true;
        } else if todo > 0 {
          l := LaunchApps();
        }
        ghost var r := Iteration(p, l);
        AppendRound(cfg, s0, rs, r, done);
        assert t + p + [] == t + p;
        assert t + p + l == t + (p + l);
        AfterPass(cfg, trace, t, p + l);
        assert trace == old(trace) + Flat(rs + [r]);
        rs := rs + [r];
        k := k + 1;
      }
      if done { ReturnsQuiescent(cfg, s0, rs); }
    }

    /** uios_shutdown: answers(i, t) is what wait says at attempt t for app i; sys_kill and its result are dropped. */
    method Shutdown(answers: (Index, nat) -> (int, int))
      requires apps.Length == 10
      modifies apps
      ensures forall j :: 0 <= j < 10 ==> apps[j] == Stopped(answers, old(apps[..]), j)
    {
      var i := 0;
      while i < 10
        invariant 0 <= i <= 10
        invariant forall j :: i <= j < 10 ==> apps[j] == old(apps[j])
        invariant forall j :: 0 <= j < i ==> apps[j] == Stopped(answers, old(apps[..]), j)
      {
        if apps[i].pid > 0 { StopSlot(answers, i); }
        i := i + 1;
      }
    }

    /** The bounded wait for one child. */
    method StopSlot(answers: (Index, nat) -> (int, int), i: Index)
      requires apps.Length == 10 && apps[i].pid > 0
      modifies apps
      ensures forall j :: 0 <= j < 10 && j != i ==> apps[j] == old(apps[j])
      ensures apps[i] == Stopped(answers, old(apps[..]), i)
    {
      var pid := apps[i].pid;
      var tries := 0;
      while tries < SHUTDOWN_TRIES
        invariant 0 <= tries <= SHUTDOWN_TRIES && apps[..] == old(apps[..])
        invariant Collected(answers, i, pid, 0, apps[i].exitCode) == Collected(answers, i, pid, tries, apps[i].exitCode)
      {
        var (r, st) := answers(i, tries);
        if r == pid {
          apps[i] := apps[i].(exitCode := st);
          break;
        }
        if r < 0 { break; }
        tries := tries + 1;
      }
      apps[i] := apps[i].(pid := 0);
    }
  }

  // ----- shutdown -----

  /** The exit code kept for a child: from the first answer that names it, if no error comes before. */
  function Collected(answers: (Index, nat) -> (int, int), i: Index, pid: int, t: nat, code: int): int
    decreases SHUTDOWN_TRIES - t
  {
    if t >= SHUTDOWN_TRIES || (answers(i, t).0 < 0 && answers(i, t).0 != pid) then code
    else if answers(i, t).0 == pid then answers(i, t).1
    else Collected(answers, i, pid, t + 1, code)
  }

  /** An app after shutdown. */
  function Stopped(answers: (Index, nat) -> (int, int), s: State, i: Index): App {
    if s[i].pid <= 0 then s[i]
    else s[i].(pid := 0, exitCode := Collected(answers, i, s[i].pid, 0, s[i].exitCode))
  }

  /** The answer at attempt t reaps the child: it names it, and only zero or other pids came before. */
  ghost predicate ReapedAt(answers: (Index, nat) -> (int, int), i: Index, pid: int, t: int) {
    && 0 <= t < 100 && answers(i, t).0 == pid
    && forall u :: 0 <= u < t ==> answers(i, u).0 >= 0 && answers(i, u).0 != pid
  }

  /** A live app ends with the status of the attempt that reaps it, else with the code it had. */
  lemma ShutdownCollects(answers: (Index, nat) -> (int, int), s: State, i: Index)
    requires s[i].pid > 0
    ensures Stopped(answers, s, i).pid == 0
    ensures forall t :: ReapedAt(answers, i, s[i].pid, t) ==> Stopped(answers, s, i).exitCode == answers(i, t).1
    ensures (forall t :: !ReapedAt(answers, i, s[i].pid, t)) ==> Stopped(answers, s, i) == s[i].(pid := 0)
  {
    CollectedFrom(answers, i, s[i].pid, 0, s[i].exitCode);
  }

  lemma {:induction false} CollectedFrom(answers: (Index, nat) -> (int, int), i: Index, pid: int, t: nat, code: int)
    requires pid > 0 && forall u :: 0 <= u < t ==> answers(i, u).0 >= 0 && answers(i, u).0 != pid
    ensures forall v :: ReapedAt(answers, i, pid, v) ==> Collected(answers, i, pid, t, code) == answers(i, v).1
    ensures (forall v :: !ReapedAt(answers, i, pid, v)) ==> Collected(answers, i, pid, t, code) == code
    decreases SHUTDOWN_TRIES - t
  {
    if t < SHUTDOWN_TRIES && answers(i, t).0 >= 0 && answers(i, t).0 != pid {
      CollectedFrom(answers, i, pid, t + 1, code);
    } else if t < SHUTDOWN_TRIES && answers(i, t).0 == pid {
      assert ReapedAt(answers, i, pid, t);
    }
  }

  // ----- the steps of the loops -----

  lemma KeepPids(s: State, e: Event)
    requires Pids(s)
    ensures Pids(Apply(s, e))
  {
  }

  /** The loop invariant of a launch pass: any completion of the remaining slots completes the pass. */
  ghost predicate LaunchedSofar(cfg: Table, s0: State, l: seq<Event>, s: State, i: nat)
    requires i <= 10
  {
    forall rest :: LaunchPass(cfg, s, i, rest) ==> LaunchPass(cfg, s0, 0, l + rest)
  }

  lemma NoLaunch(cfg: Table, s0: State)
    ensures LaunchedSofar(cfg, s0, [], s0, 0)
  {
    hide LaunchPass;
    forall rest: seq<Event> ensures [] + rest == rest {}
  }

  lemma LaunchSkip(cfg: Table, s0: State, s: State, i: Index, l: seq<Event>)
    requires LaunchedSofar(cfg, s0, l, s, i) && !(s[i].pid == -1 && DepReady(cfg, s, i))
    ensures LaunchedSofar(cfg, s0, l, s, i + 1)
  {
    forall rest | LaunchPass(cfg, s, i + 1, rest) ensures LaunchPass(cfg, s, i, rest) {}
  }

  lemma LaunchVisit(cfg: Table, s0: State, s: State, i: Index, l: seq<Event>, e: Event)
    requires s[i].pid == -1 && DepReady(cfg, s, i) && e.Launch? && e.i == i && FreshPid(s, e.pid)
    requires LaunchedSofar(cfg, s0, l, s, i)
    ensures LaunchedSofar(cfg, s0, l + [e], Apply(s, e), i + 1)
  {
    forall rest | LaunchPass(cfg, Apply(s, e), i + 1, rest) ensures LaunchPass(cfg, s0, 0, l + [e] + rest) {
      assert ([e] + rest)[1..] == rest;
      assert LaunchPass(cfg, s, i, [e] + rest);
      assert l + [e] + rest == l + ([e] + rest);
    }
  }

  lemma {:induction false} EndOfLaunch(cfg: Table, s0: State, l: seq<Event>, s: State)
    requires LaunchedSofar(cfg, s0, l, s, 10)
    ensures LaunchPass(cfg, s0, 0, l)
  {
    assert l + [] == l;
    assert LaunchPass(cfg, s, 10, []);
  }

  lemma {:induction false} AfterPass(cfg: Table, whole: seq<Event>, t: seq<Event>, p: seq<Event>)
    requires whole == t + p
    ensures After(Initial(), whole) == After(After(Initial(), t), p)
  {
    AfterConcat(Initial(), t, p);
  }

  /** The loop invariant of a pass: any completion of the remaining slots completes the pass. */
  ghost predicate Sofar(cfg: Table, s0: State, p: seq<Event>, s: State, i: nat, todo: bool)
    requires i <= 10
  {
    && (forall rest :: Pass(cfg, s, i, rest) ==> Pass(cfg, s0, 0, p + rest))
    && (forall rest :: Todo(cfg, s0, 0, p + rest) <==> todo || Todo(cfg, s, i, rest))
  }

  lemma NoVisit(cfg: Table, s0: State)
    ensures Sofar(cfg, s0, [], s0, 0, false) && !SomeAlive([])
  {
    hide Pass, Todo;
    forall rest: seq<Event> ensures [] + rest == rest {}
  }

  lemma PidAtLeast(s: State, i: Index)
    requires Pids(s)
    ensures s[i].pid >= -1
  {
  }

  /** Counting a restart does not change which pids are in use. */
  lemma FreshEither(mid: State, s: State, pid: nat)
    requires FreshPid(mid, pid) && forall j :: 0 <= j < 10 ==> mid[j].pid == s[j].pid
    ensures FreshPid(s, pid)
  {
  }

  lemma SkipVisit(cfg: Table, s0: State, p: seq<Event>, s: State, i: Index, todo: bool)
    requires Sofar(cfg, s0, p, s, i, todo) && VisitLen(cfg, s, i) == 0
    ensures Sofar(cfg, s0, p, s, i + 1, todo || (s[i].pid == -1 && DepReady(cfg, s, i)))
  {
  }

  lemma EventVisit(cfg: Table, s0: State, p: seq<Event>, s: State, i: Index, todo: bool, e: Event)
    requires Sofar(cfg, s0, p, s, i, todo) && VisitLen(cfg, s, i) == 1 && Visited(cfg, s, i, e)
    ensures Sofar(cfg, s0, p + [e], Apply(s, e), i + 1, todo)
    ensures SomeAlive(p + [e]) <==> SomeAlive(p) || Lively(e)
  {
    hide SomeAlive, Revivable, FreshPid, Apply, DepReady;
    forall rest | Pass(cfg, Apply(s, e), i + 1, rest) ensures Pass(cfg, s0, 0, p + [e] + rest) {
      OneMore(p, e, rest);
      assert Pass(cfg, s, i, [e] + rest);
    }
    forall rest ensures Todo(cfg, s0, 0, p + [e] + rest) <==> todo || Todo(cfg, Apply(s, e), i + 1, rest) {
      OneMore(p, e, rest);
      assert Todo(cfg, s, i, [e] + rest) <==> Todo(cfg, Apply(s, e), i + 1, rest);
    }
    AliveAppend(p, e);
  }

  lemma OneMore(p: seq<Event>, e: Event, rest: seq<Event>)
    ensures p + [e] + rest == p + ([e] + rest) && ([e] + rest)[1..] == rest && [e] + rest != []
  {
  }

  lemma AliveAppend(p: seq<Event>, e: Event)
    ensures SomeAlive(p + [e]) <==> SomeAlive(p) || Lively(e)
  {
    hide Lively;
    var q := p + [e];
    assert q[|p|] == e;
    if k :| 0 <= k < |p| && Lively(p[k]) { assert Lively(q[k]); }
    if k :| 0 <= k < |q| && Lively(q[k]) { if k < |p| { assert Lively(p[k]); } }
  }

  lemma {:induction false} EndOfPass(cfg: Table, s0: State, p: seq<Event>, s: State, todo: bool)
    requires Sofar(cfg, s0, p, s, 10, todo)
    ensures Pass(cfg, s0, 0, p)
    ensures Todo(cfg, s0, 0, p) <==> todo
  {
    assert p + [] == p;
    assert Pass(cfg, s, 10, []);
  }
}
