/**
 What every run of the supervisor keeps: dependencies, children and restarts.
 */
module UiosSafety {
  import opened Bits
  import opened UiosModel

  predicate Forks(e: Event, i: int) {
    (e.Launch? || e.Revive?) && e.i == i
  }

  predicate Ends(e: Event, i: int) {
    (e.Reap? || e.Vanish?) && e.i == i
  }

  function AlivePolls(tr: seq<Event>, i: int): nat {
    if tr == [] then 0
    else AlivePolls(tr[..|tr| - 1], i) + (if tr[|tr| - 1].Alive? && tr[|tr| - 1].i == i then 1 else 0)
  }

  function ForkCount(tr: seq<Event>, i: int): nat {
    if tr == [] then 0 else ForkCount(tr[..|tr| - 1], i) + (if Forks(tr[|tr| - 1], i) then 1 else 0)
  }

  // ----- dependency causality -----

  /** Since the fork at f app i has run without interruption, and has been polled alive n times. */
  ghost predicate RunningSince(tr: seq<Event>, i: int, f: int, n: nat) {
    && 0 <= f < |tr| && Forks(tr[f], i) && tr[f].pid > 0
    && (forall j :: f < j < |tr| ==> !Forks(tr[j], i) && !Ends(tr[j], i))
    && n == AlivePolls(tr[f + 1..], i)
  }

  /** A running app's tick counter is its alive polls since its latest fork. */
  lemma {:induction false} TicksCountPolls(cfg: Table, tr: seq<Event>, i: Index) returns (f: int, n: nat)
    requires Run(cfg, Initial(), tr) && After(Initial(), tr)[i].pid > 0
    ensures RunningSince(tr, i, f, n)
    ensures After(Initial(), tr)[i].ticks == n % U32
    ensures After(Initial(), tr)[i].pid == tr[f].pid
    decreases |tr|
  {
    hide FreshPid, DepReady, Revivable, RunningSince;
    if tr == [] {
      assert false;
    } else {
      var k := |tr| - 1;
      var front, e := tr[..k], tr[k];
      var s := After(Initial(), front);
      if Forks(e, i) {
        f, n := k, 0;
        JustForked(tr, i);
      } else {
        assert s[i].pid > 0;
        var n0;
        f, n0 := TicksCountPolls(cfg, front, i);
        n := n0 + if e.Alive? && e.i == i then 1 else 0;
        StillRunning(tr, i, f, n0);
        NextTick(n0);
      }
    }
  }

  lemma JustForked(tr: seq<Event>, i: int)
    requires tr != [] && Forks(tr[|tr| - 1], i) && tr[|tr| - 1].pid > 0
    ensures RunningSince(tr, i, |tr| - 1, 0)
  {
    assert tr[|tr|..] == [];
  }

  lemma StillRunning(tr: seq<Event>, i: int, f: int, n: nat)
    requires tr != [] && RunningSince(tr[..|tr| - 1], i, f, n)
    requires var e := tr[|tr| - 1]; !Forks(e, i) && !Ends(e, i)
    ensures var e := tr[|tr| - 1]; RunningSince(tr, i, f, n + if e.Alive? && e.i == i then 1 else 0)
    ensures tr[f].pid == tr[..|tr| - 1][f].pid
  {
    var k := |tr| - 1;
    assert tr[f + 1..][..k - (f + 1)] == tr[..k][f + 1..];
  }

  lemma NextTick(n: nat)
    ensures (n % U32 + 1) % U32 == (n + 1) % U32
  {
  }

  /** When an app is launched its in-range prerequisite runs, and survived two alive polls since its latest fork. */
  lemma DependencyCausality(cfg: Table, tr: seq<Event>, k: nat) returns (f: int, n: nat)
    requires Run(cfg, Initial(), tr) && k < |tr| && tr[k].Launch? && cfg[tr[k].i].dep < MAX_APPS
    ensures RunningSince(tr[..k], cfg[tr[k].i].dep, f, n) && n >= READY_TICKS
  {
    RunAt(cfg, Initial(), tr, k);
    f, n := TicksCountPolls(cfg, tr[..k], cfg[tr[k].i].dep);
    Modest(n);
  }

  lemma Modest(n: nat)
    ensures n % U32 <= n
  {
  }

  // ----- cyclic dependencies -----

  /** The n-th prerequisite of an app, as long as the chain stays in range. */
  function Chain(cfg: Table, i: Index, n: nat): nat {
    if n == 0 then i else if Chain(cfg, i, n - 1) < MAX_APPS then cfg[Chain(cfg, i, n - 1)].dep else MAX_APPS
  }

  /** The chain of prerequisites leaves the table. */
  ghost predicate ChainEnds(cfg: Table, i: Index) {
    exists n :: Chain(cfg, i, n) >= MAX_APPS
  }

  lemma {:induction false} ChainShift(cfg: Table, i: Index, n: nat)
    requires cfg[i].dep < MAX_APPS
    ensures Chain(cfg, i, n + 1) == Chain(cfg, cfg[i].dep, n)
  {
    if n > 0 { ChainShift(cfg, i, n - 1); }
  }

  /** An app whose chain never ends, because it is cyclic or leads into a cycle, stays idle in every run. */
  lemma {:induction false} EndlessNeverLaunched(cfg: Table, tr: seq<Event>, i: Index)
    requires Run(cfg, Initial(), tr) && !ChainEnds(cfg, i)
    ensures After(Initial(), tr)[i].pid == -1
    decreases |tr|
  {
    if tr != [] {
      var front, e := tr[..|tr| - 1], tr[|tr| - 1];
      EndlessNeverLaunched(cfg, front, i);
      if Forks(e, i) {
        assert Chain(cfg, i, 0) < MAX_APPS;
        assert Chain(cfg, i, 1) < MAX_APPS;
        var d: Index := cfg[i].dep;
        forall n: nat ensures Chain(cfg, d, n) < MAX_APPS {
          ChainShift(cfg, i, n);
          assert Chain(cfg, i, n + 1) < MAX_APPS;
        }
        EndlessNeverLaunched(cfg, front, d);
      }
    }
  }

  // ----- children -----

  /** The children the kernel still holds for the supervisor. */
  function Children(tr: seq<Event>): set<int> {
    if tr == [] then {}
    else
      var front, e := tr[..|tr| - 1], tr[|tr| - 1];
      if (e.Launch? || e.Revive?) && e.pid > 0 then Children(front) + {e.pid}
      else if e.Reap? || e.Vanish? then Children(front) - {After(Initial(), front)[e.i].pid}
      else Children(front)
  }

  /** Live children are exactly the positive pids of the table, each in one entry. */
  lemma {:induction false} ChildrenAreTable(cfg: Table, tr: seq<Event>)
    requires Run(cfg, Initial(), tr)
    ensures var s := After(Initial(), tr);
            && (forall p :: p in Children(tr) <==> exists i :: 0 <= i < 10 && s[i].pid == p > 0)
            && (forall i, j :: 0 <= i < j < 10 && s[i].pid > 0 ==> s[i].pid != s[j].pid)
    decreases |tr|
  {
    if tr != [] {
      var front, e := tr[..|tr| - 1], tr[|tr| - 1];
      ChildrenAreTable(cfg, front);
      var s, t := After(Initial(), front), After(Initial(), tr);
      assert forall j :: 0 <= j < 10 && j != e.i ==> t[j] == s[j];
      forall p ensures p in Children(tr) <==> exists i :: 0 <= i < 10 && t[i].pid == p > 0 {
        assert (exists i :: 0 <= i < 10 && t[i].pid == p > 0) <==>
               (t[e.i].pid == p > 0) || exists i :: 0 <= i < 10 && i != e.i && s[i].pid == p > 0;
      }
    }
  }

  // ----- forks and restarts -----

  /** Fork attempts are the counted restarts, and one more once the app has left idle. */
  lemma {:induction false} ForksAreRestarts(cfg: Table, tr: seq<Event>, i: Index)
    requires Run(cfg, Initial(), tr)
    ensures var a := After(Initial(), tr)[i];
            && a.pid >= -1
            && (a.pid == -1 ==> ForkCount(tr, i) == 0 && a.restarts == 0 && a.ticks == 0 && a.exitCode == -1)
            && (a.pid != -1 ==> ForkCount(tr, i) >= 1 && a.restarts == (ForkCount(tr, i) - 1) % U32)
    decreases |tr|
  {
    if tr != [] {
      var front := tr[..|tr| - 1];
      ForksAreRestarts(cfg, front, i);
      var n := ForkCount(front, i);
      if n >= 1 { assert ((n - 1) % U32 + 1) % U32 == n % U32; }
    }
  }

  /** A run-once app is forked at most once. */
  lemma {:induction false} RunOnceForkedOnce(cfg: Table, tr: seq<Event>, i: Index)
    requires Run(cfg, Initial(), tr) && cfg[i].policy == RunOnce
    ensures ForkCount(tr, i) == if After(Initial(), tr)[i].pid == -1 then 0 else 1
    decreases |tr|
  {
    if tr != [] {
      RunOnceForkedOnce(cfg, tr[..|tr| - 1], i);
      ForksAreRestarts(cfg, tr[..|tr| - 1], i);
    }
  }

  /** An app that is restarted on crashes only, and was reaped with status 0, is never forked again. */
  lemma {:induction false} CleanExitIsFinal(cfg: Table, tr: seq<Event>, k: nat, i: Index)
    requires Run(cfg, Initial(), tr) && k < |tr| && tr[k] == Reap(i, 0) && cfg[i].policy == RestartOnCrash
    ensures After(Initial(), tr)[i].pid == 0 && After(Initial(), tr)[i].exitCode == 0
    ensures forall j :: k < j < |tr| ==> !Forks(tr[j], i)
    decreases |tr|
  {
    var m := |tr| - 1;
    var front := tr[..m];
    if k < m {
      CleanExitIsFinal(cfg, front, k, i);
      forall j | k < j < |tr| ensures !Forks(tr[j], i) {
        if j < m { assert front[j] == tr[j]; }
      }
    }
  }
}
