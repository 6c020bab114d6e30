/**
 PID 1: the service table as a transition system. Every step of the supervisor
 is an event; what the kernel answers is part of the event.
 */
module UiosModel {
  import opened Bits

  const MAX_APPS: nat := 10
  const READY_TICKS: nat := 2

  datatype Policy = RunOnce | Restart | RestartOnCrash

  /** The constant part of a table entry; dep is the 8-bit index of the prerequisite. */
  datatype Config = Config(policy: Policy, dep: nat)

  type Table = s: seq<Config> | |s| == 10 witness seq(10, _ => Config(RunOnce, 255))

  /** The runtime part: pid -1 idle, 0 gone, positive running. */
  datatype App = App(pid: int, exitCode: int, restarts: nat, ticks: nat)

  type State = s: seq<App> | |s| == 10 witness seq(10, _ => App(-1, -1, 0, 0))

  type Index = i: nat | i < 10

  /** uios_init. */
  function Initial(): State {
    seq(10, _ => App(-1, -1, 0, 0))
  }

  /** dep_ready. The comparison with -1 never holds for an 8-bit field; 0xFF passes as out of range. */
  predicate DepReady(cfg: Table, s: State, i: Index) {
    cfg[i].dep >= MAX_APPS || (s[cfg[i].dep].pid > 0 && s[cfg[i].dep].ticks >= READY_TICKS)
  }

  /** Whether the restart policy revives an app that is gone. */
  predicate Revivable(cfg: Table, s: State, i: Index) {
    cfg[i].policy == Restart || (cfg[i].policy == RestartOnCrash && s[i].exitCode != 0)
  }

  /** Fork results are pids, or 0 for a failed fork; polls end in one of three ways. */
  datatype Event =
    | Launch(i: Index, pid: nat)
    | Revive(i: Index, pid: nat)
    | Reap(i: Index, status: int)
    | Alive(i: Index)
    | Vanish(i: Index)

  function Apply(s: State, e: Event): State {
    match e
    case Launch(i, pid) => s[i := s[i].(pid := pid, ticks := if pid > 0 then 0 else s[i].ticks)]
    case Revive(i, pid) => s[i := s[i].(pid := pid, ticks := 0, restarts := (s[i].restarts + 1) % U32)]
    case Reap(i, status) => s[i := s[i].(pid := 0, exitCode := status)]
    case Alive(i) => s[i := s[i].(ticks := (s[i].ticks + 1) % U32)]
    case Vanish(i) => s[i := s[i].(pid := 0)]
  }

  /** The kernel does not hand out the pid of a child that is still running. */
  predicate FreshPid(s: State, pid: nat) {
    pid > 0 ==> forall j :: 0 <= j < 10 ==> s[j].pid != pid
  }

  predicate Enabled(cfg: Table, s: State, e: Event) {
    match e
    case Launch(i, pid) => s[i].pid == -1 && DepReady(cfg, s, i) && FreshPid(s, pid)
    case Revive(i, pid) => s[i].pid == 0 && Revivable(cfg, s, i) && FreshPid(s, pid)
    case Reap(i, status) => s[i].pid > 0
    case Alive(i) => s[i].pid > 0
    case Vanish(i) => s[i].pid > 0
  }

  /** The state after a run. */
  function After(s: State, tr: seq<Event>): State {
    if tr == [] then s else Apply(After(s, tr[..|tr| - 1]), tr[|tr| - 1])
  }

  /** Runs: every event is enabled where it happens. */
  predicate Run(cfg: Table, s: State, tr: seq<Event>) {
    tr == [] || (Run(cfg, s, tr[..|tr| - 1]) && Enabled(cfg, After(s, tr[..|tr| - 1]), tr[|tr| - 1]))
  }

  lemma {:induction false} AfterConcat(s: State, a: seq<Event>, b: seq<Event>)
    ensures After(s, a + b) == After(After(s, a), b)
    decreases |b|
  {
    hide Apply;
    if b == [] {
      assert a + b == a;
    } else {
      assert (a + b)[..|a + b| - 1] == a + b[..|b| - 1];
      AfterConcat(s, a, b[..|b| - 1]);
    }
  }

  lemma {:induction false} RunConcat(cfg: Table, s: State, a: seq<Event>, b: seq<Event>)
    ensures Run(cfg, s, a + b) <==> Run(cfg, s, a) && Run(cfg, After(s, a), b)
    decreases |b|
  {
    hide Apply, Enabled, After;
    if b == [] {
      assert a + b == a;
    } else {
      assert (a + b)[..|a + b| - 1] == a + b[..|b| - 1];
      RunConcat(cfg, s, a, b[..|b| - 1]);
      AfterConcat(s, a, b[..|b| - 1]);
    }
  }

  /** A run up to some point, and what is enabled next. */
  lemma {:induction false} RunAt(cfg: Table, s: State, tr: seq<Event>, k: nat)
    requires Run(cfg, s, tr) && k < |tr|
    ensures Run(cfg, s, tr[..k]) && Enabled(cfg, After(s, tr[..k]), tr[k])
    ensures After(s, tr[..k + 1]) == Apply(After(s, tr[..k]), tr[k])
    decreases |tr|
  {
    hide Apply, Enabled;
    assert tr[..k + 1][..k] == tr[..k];
    if k < |tr| - 1 {
      RunAt(cfg, s, tr[..|tr| - 1], k);
      assert tr[..|tr| - 1][..k] == tr[..k];
    }
  }
}
