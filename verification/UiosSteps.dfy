/**
 What one pass of the supervisor does to every app, in terms of the table and
 of what the kernel answered.
 */
module UiosSteps {
  import opened UiosModel
  import opened UiosSafety
  import opened UiosRounds

  /** The events of app j. */
  function Of(evs: seq<Event>, j: int): seq<Event> {
    if evs == [] then [] else (if evs[0].i == j then [evs[0]] else []) + Of(evs[1..], j)
  }

  /** Whether an app that is gone has to be started again: always, or after a crash. */
  predicate ToRestart(c: Config, a: App) {
    c.policy == Restart || (c.policy == RestartOnCrash && a.exitCode != 0)
  }

  /** What a pass does for an app: a gone one is started again by policy, a live one is polled, an idle one is left. */
  predicate Stepped(c: Config, a: App, evs: seq<Event>) {
    if a.pid > 0 then |evs| == 1 && (evs[0].Reap? || evs[0].Alive? || evs[0].Vanish?)
    else if a.pid == 0 && ToRestart(c, a) then |evs| == 1 && evs[0].Revive?
    else evs == []
  }

  /** In every pass over the table each app has exactly the step its entry calls for. */
  lemma {:induction false} PassSteps(cfg: Table, s: State, p: seq<Event>, j: Index)
    requires Pids(s)
    ensures Pass(cfg, s, 0, p) ==> Stepped(cfg[j], s[j], Of(p, j))
  {
    if Pass(cfg, s, 0, p) { PassStepsFrom(cfg, s, 0, p, j); }
  }

  lemma {:induction false} PassStepsFrom(cfg: Table, s: State, i: nat, p: seq<Event>, j: Index)
    requires i <= 10 && Pids(s) && Pass(cfg, s, i, p)
    ensures if j < i then Of(p, j) == [] else Stepped(cfg[j], s[j], Of(p, j))
    decreases 10 - i
  {
    hide FreshPid;
    if i < 10 {
      if VisitLen(cfg, s, i) == 0 {
        PassStepsFrom(cfg, s, i + 1, p, j);
      } else {
        PassStepsFrom(cfg, Apply(s, p[0]), i + 1, p[1..], j);
      }
    }
  }

  /** Iteration k of an execution, from the state the ones before it left. */
  lemma {:induction false} RoundAt(cfg: Table, s: State, rs: seq<Iteration>, done: bool, k: nat)
    requires Rounds(cfg, s, rs, done) && k < |rs|
    ensures Rounds(cfg, s, rs[..k], false)
    ensures Round(cfg, After(s, Flat(rs[..k])), rs[k].p, rs[k].l, done && k == |rs| - 1)
    decreases |rs|
  {
    hide Round, After, Flat;
    var n := |rs| - 1;
    if k < n {
      RoundAt(cfg, s, rs[..n], false, k);
      assert rs[..n][..k] == rs[..k] && rs[..n][k] == rs[k];
    }
  }

  /** So in every iteration of every execution: crashed apps are started again, and what the policy excludes is not. */
  lemma {:induction false} RoundsStep(cfg: Table, s: State, rs: seq<Iteration>, done: bool, k: nat, j: Index)
    requires Pids(s) && k < |rs|
    ensures Rounds(cfg, s, rs, done) ==>
              Stepped(cfg[j], After(s, Flat(rs[..k]))[j], Of(rs[k].p, j))
  {
    hide After, Pass, LaunchPass, Todo, SomeAlive, Flat, Stepped;
    if Rounds(cfg, s, rs, done) {
      RoundAt(cfg, s, rs, done, k);
      RoundsRun(cfg, s, rs[..k], false);
      PassSteps(cfg, After(s, Flat(rs[..k])), rs[k].p, j);
    }
  }

  // ----- launch passes -----

  /** Idle, with no prerequisite in the table or one that runs and has its two ticks. */
  predicate ToLaunch(cfg: Table, s: State, j: Index) {
    && s[j].pid == -1
    && (cfg[j].dep < 10 ==> s[cfg[j].dep].pid > 0 && s[cfg[j].dep].ticks >= 2)
  }

  /** A launch pass tries exactly the apps that were eligible when it began, each once. */
  lemma {:induction false} LaunchSteps(cfg: Table, s: State, l: seq<Event>, j: Index)
    ensures LaunchPass(cfg, s, 0, l) ==>
              if ToLaunch(cfg, s, j) then |Of(l, j)| == 1 && Of(l, j)[0].Launch? else Of(l, j) == []
  {
    if LaunchPass(cfg, s, 0, l) { LaunchStepsFrom(cfg, s, 0, l, j); }
  }

  lemma {:induction false} LaunchStepsFrom(cfg: Table, s: State, i: nat, l: seq<Event>, j: Index)
    requires i <= 10 && LaunchPass(cfg, s, i, l)
    ensures if j >= i && ToLaunch(cfg, s, j) then |Of(l, j)| == 1 && Of(l, j)[0].Launch? else Of(l, j) == []
    decreases 10 - i
  {
    hide FreshPid;
    if i < 10 {
      if s[i].pid != -1 || !DepReady(cfg, s, i) {
        LaunchStepsFrom(cfg, s, i + 1, l, j);
      } else {
        var t := Apply(s, l[0]);
        LaunchStepsFrom(cfg, t, i + 1, l[1..], j);
        assert i < j ==> (ToLaunch(cfg, t, j) <==> ToLaunch(cfg, s, j));
      }
    }
  }

  // ----- exit codes -----

  /** The status of the latest reap of app i; -1 before the first. */
  function LatestStatus(tr: seq<Event>, i: int): int {
    if tr == [] then -1
    else
      var e := tr[|tr| - 1];
      if e.Reap? && e.i == i then e.status else LatestStatus(tr[..|tr| - 1], i)
  }

  /** In every run an app's exit code is the status of its latest reap. */
  lemma {:induction false} ExitCodeIsLatest(cfg: Table, tr: seq<Event>, i: Index)
    requires Run(cfg, Initial(), tr)
    ensures After(Initial(), tr)[i].exitCode == LatestStatus(tr, i)
    decreases |tr|
  {
    hide FreshPid, DepReady, Revivable;
    if tr != [] { ExitCodeIsLatest(cfg, tr[..|tr| - 1], i); }
  }
}
