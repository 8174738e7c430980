// No reachable state is stuck before the end, and no run is infinite.
module DenyProtocolProgress {
  import opened DenyProtocol
  import opened DenyProtocolSafety

  // ---------- no deadlock ----------

  // An unfinished goroutine can move, or the one holding its lock can.
  lemma SomeWorkerMoves(s: State, q: Query) returns (p: Query)
    requires LockInv(s.workers, s.locks) && q in s.workers && Alive(s.workers[q])
    ensures WorkerEnabled(s, p)
  {
    p := if s.workers[q].Locking? && q.job in s.locks then s.locks[q.job] else q;
  }

  lemma NotEmptyHas(ws: map<Query, Worker>, p: Worker -> bool) returns (q: Query)
    requires |Having(ws, p)| > 0
    ensures q in ws && p(ws[q])
  {
    q :| q in Having(ws, p);
  }

  // Before the end some action is always enabled.
  lemma NoDeadlock(cfg: Config, s: State) returns (a: Action)
    requires Inv(cfg, s) && s.main != Done
    ensures Enabled(cfg, s, a)
  {
    if s.main.Collecting? && s.main.todo != {} {
      var dir :| dir in s.main.todo;
      a := Collect(dir);
    } else if MainEnabled(cfg, s) {
      a := MainStep;
    } else {
      var q := NotEmptyHas(s.workers, if s.main.Waiting? then Alive else HoldsToken);
      var p := SomeWorkerMoves(s, q);
      a := WorkerStep(p, Unused);
    }
  }

  // ---------- no infinite run ----------

  function Rank(w: Worker): nat
  {
    match w
    case Querying => 0
    case Locking => 1
    case Reading => 2
    case Writing(_) => 3
    case Unlocking => 4
    case Counting => 5
    case Releasing => 6
    case Leaving => 7
    case Finished => 8
  }

  // Steps the goroutines still have to make, at least.
  function WorkLeft(ws: map<Query, Worker>, k: nat): nat
  {
    if k == 0 then 0 else |Having(ws, w => Rank(w) < k)| + WorkLeft(ws, k - 1)
  }

  lemma {:induction false} MoveLeavesLess(ws: map<Query, Worker>, q: Query, w: Worker, k: nat)
    requires q in ws && Rank(ws[q]) < Rank(w)
    ensures WorkLeft(ws[q := w], k) <= WorkLeft(ws, k)
    ensures Rank(ws[q]) < k ==> WorkLeft(ws[q := w], k) < WorkLeft(ws, k)
  {
    if k > 0 {
      MoveLeavesLess(ws, q, w, k - 1);
      MoveHaving(ws, q, w, w' => Rank(w') < k);
    }
  }

  function JobsLeft(cfg: Config, s: State): nat
  {
    if s.job < |cfg.jobs| then |cfg.jobs| - s.job else 0
  }

  function Phase(m: Main): nat
  {
    match m
    case NextJob => 4
    case Adding(_, _) => 3
    case Acquiring(_, _) => 3
    case Spawning(_, _) => 3
    case Waiting => 2
    case Collecting(_) => 1
    case Done => 0
  }

  function Minus(x: nat, y: nat): nat
  {
    if x > y then x - y else 0
  }

  function AppsLeft(cfg: Config, s: State): nat
  {
    match s.main
    case Adding(app, _) => Minus(AppCount(cfg, s), app)
    case Acquiring(app, _) => Minus(AppCount(cfg, s), app)
    case Spawning(app, _) => Minus(AppCount(cfg, s), app)
    case _ => 0
  }

  function DirsLeft(cfg: Config, m: Main): nat
  {
    match m
    case Adding(_, d) => 3 * Minus(|cfg.dirs|, d) + 2
    case Acquiring(_, d) => 3 * Minus(|cfg.dirs|, d) + 1
    case Spawning(_, d) => 3 * Minus(|cfg.dirs|, d)
    case Collecting(todo) => |todo|
    case _ => 0
  }

  // Lexicographically: the main loop has less left, or as much and the goroutines have less.
  ghost predicate LessLeft(cfg: Config, s': State, s: State)
  {
    || JobsLeft(cfg, s') < JobsLeft(cfg, s)
    || (JobsLeft(cfg, s') == JobsLeft(cfg, s) && Phase(s'.main) < Phase(s.main))
    || (JobsLeft(cfg, s') == JobsLeft(cfg, s) && Phase(s'.main) == Phase(s.main)
        && AppsLeft(cfg, s') < AppsLeft(cfg, s))
    || (JobsLeft(cfg, s') == JobsLeft(cfg, s) && Phase(s'.main) == Phase(s.main)
        && AppsLeft(cfg, s') == AppsLeft(cfg, s)
        && DirsLeft(cfg, s'.main) < DirsLeft(cfg, s.main))
    || (JobsLeft(cfg, s') == JobsLeft(cfg, s) && s'.main == s.main && AppsLeft(cfg, s') == AppsLeft(cfg, s)
        && WorkLeft(s'.workers, 8) < WorkLeft(s.workers, 8))
  }

  lemma MainLeavesLess(cfg: Config, s: State)
    requires MainInRange(cfg, s) && MainEnabled(cfg, s)
    ensures LessLeft(cfg, MainNext(cfg, s), s)
  {
  }

  lemma CollectLeavesLess(cfg: Config, s: State, dir: Direction)
    requires CollectEnabled(s, dir)
    ensures LessLeft(cfg, CollectNext(s, dir), s)
  {
    CountWithout(s.main.todo, dir);
  }

  lemma WorkerLeavesLess(cfg: Config, s: State, q: Query, outcome: Outcome)
    requires WorkerEnabled(s, q)
    ensures LessLeft(cfg, WorkerNext(s, q, outcome), s)
  {
    MoveLeavesLess(s.workers, q, WorkerNext(s, q, outcome).workers[q], 8);
  }

  lemma StepLeavesLess(cfg: Config, s: State, a: Action)
    requires Inv(cfg, s) && Enabled(cfg, s, a)
    ensures LessLeft(cfg, Apply(cfg, s, a), s)
  {
    match a
    case MainStep => MainLeavesLess(cfg, s);
    case Collect(dir) => CollectLeavesLess(cfg, s, dir);
    case WorkerStep(q, outcome) => WorkerLeavesLess(cfg, s, q, outcome);
  }

  // No sequence of states goes on with steps of the protocol for ever.
  lemma {:induction false} EveryRunEnds(cfg: Config, f: nat -> State, i: nat)
    requires ValidConfig(cfg) && Inv(cfg, f(i))
    ensures exists k: nat :: k >= i && !Next(cfg, f(k), f(k + 1))
    decreases JobsLeft(cfg, f(i)), Phase(f(i).main), AppsLeft(cfg, f(i)), DirsLeft(cfg, f(i).main),
              WorkLeft(f(i).workers, 8)
  {
    if Next(cfg, f(i), f(i + 1)) {
      var a :| Enabled(cfg, f(i), a) && f(i + 1) == Apply(cfg, f(i), a);
      StepKeeps(cfg, f(i), a);
      StepLeavesLess(cfg, f(i), a);
      EveryRunEnds(cfg, f, i + 1);
    }
  }
}
