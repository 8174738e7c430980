// The query phase of auto-deny-rules as a transition system: the main loop, the goroutine of
// each query, the two-slot semaphore, the wait group, a mutex and a map of slices per job, and
// the atomic counter. Each action is one atomic access to something shared, and every
// interleaving of the actions is a run.
module DenyProtocol {
  import opened Seqs

  const MAX_CONCURRENT_QUERIES: nat := 2

  datatype Direction = Inbound | Outbound

  // One (env, service) pair of the two outer loops, with the distinct app labels of the env.
  datatype Job = Job(env: string, service: string, apps: seq<string>)

  datatype Config = Config(jobs: seq<Job>, dirs: seq<Direction>)

  // The selected directions: both, or one of them.
  predicate ValidConfig(cfg: Config)
  {
    forall i, j :: 0 <= i < j < |cfg.dirs| ==> cfg.dirs[i] != cfg.dirs[j]
  }

  // A query: positions of its job and of its app, and its direction.
  datatype Query = Query(job: nat, app: nat, dir: Direction)

  predicate IsQuery(cfg: Config, q: Query)
  {
    q.job < |cfg.jobs| && q.app < |cfg.jobs[q.job].apps| && q.dir in cfg.dirs
  }

  datatype Outcome = Unused | HasFlows | QueryError

  // Where a goroutine is: what its next action is.
  datatype Worker =
    | Querying
    | Locking
    | Reading
    | Writing(local: seq<nat>)
    | Unlocking
    | Counting
    | Releasing
    | Leaving
    | Finished

  // appsNoTraffic of one job, at one direction.
  datatype Cell = Cell(job: nat, dir: Direction)

  datatype DenyRuleInfo = DenyRuleInfo(job: nat, dir: Direction, apps: seq<nat>)

  // Where the main loop is, with its two inner loop indices.
  datatype Main =
    | NextJob
    | Adding(app: nat, d: nat)
    | Acquiring(app: nat, d: nat)
    | Spawning(app: nat, d: nat)
    | Waiting
    | Collecting(todo: set<Direction>)
    | Done

  // outcomes is history: what each query has returned.
  datatype State = State(
    main: Main,
    job: nat,
    workers: map<Query, Worker>,
    outcomes: map<Query, Outcome>,
    sem: nat,
    wg: int,
    locks: map<nat, Query>,
    noTraffic: map<Cell, seq<nat>>,
    done: nat,
    rules: seq<DenyRuleInfo>)

  function Init(): State
  {
    State(NextJob, 0, map[], map[], 0, 0, map[], map[], 0, [])
  }

  // A missing cell is an empty slice.
  function Apps(noTraffic: map<Cell, seq<nat>>, c: Cell): seq<nat>
  {
    if c in noTraffic then noTraffic[c] else []
  }

  function CellOf(q: Query): Cell
  {
    Cell(q.job, q.dir)
  }

  datatype Action = MainStep | Collect(dir: Direction) | WorkerStep(q: Query, outcome: Outcome)

  // ---------- the main loop ----------

  function AppCount(cfg: Config, s: State): nat
  {
    if s.job < |cfg.jobs| then |cfg.jobs[s.job].apps| else 0
  }

  predicate MainEnabled(cfg: Config, s: State)
  {
    match s.main
    case Acquiring(_, _) => s.sem < MAX_CONCURRENT_QUERIES
    case Waiting => s.wg == 0
    case Collecting(todo) => todo == {}
    case Done => false
    case _ => true
  }

  // Where the main loop goes next.
  function MainGoto(m: Main, more: bool, apps: nat, dirs: seq<Direction>): Main
  {
    match m
    case NextJob => if more then Adding(0, 0) else Done
    case Adding(app, d) =>
      if app >= apps then Waiting
      else if d >= |dirs| then Adding(app + 1, 0)
      else Acquiring(app, d)
    case Acquiring(app, d) => Spawning(app, d)
    case Spawning(app, d) => Adding(app, d + 1)
    case Waiting => Collecting(set d | d in dirs)
    case Collecting(_) => NextJob
    case Done => Done
  }

  function MainNext(cfg: Config, s: State): State
  {
    var m := s.main;
    var m' := MainGoto(m, s.job < |cfg.jobs|, AppCount(cfg, s), cfg.dirs);
    State(
      m',
      if m.Collecting? then s.job + 1 else s.job,
      if m.Spawning? && m.d < |cfg.dirs| then s.workers[Query(s.job, m.app, cfg.dirs[m.d]) := Querying] else s.workers,
      s.outcomes,
      if m.Acquiring? then s.sem + 1 else s.sem,
      if m'.Acquiring? then s.wg + 1 else s.wg,
      s.locks,
      s.noTraffic,
      s.done,
      s.rules)
  }

  // Ranging over the map of the job, in any order.
  predicate CollectEnabled(s: State, dir: Direction)
  {
    s.main.Collecting? && dir in s.main.todo
  }

  function CollectNext(s: State, dir: Direction): State
    requires CollectEnabled(s, dir)
  {
    var apps := Apps(s.noTraffic, Cell(s.job, dir));
    s.(main := Collecting(s.main.todo - {dir}),
       rules := if apps == [] then s.rules else s.rules + [DenyRuleInfo(s.job, dir, apps)])
  }

  // ---------- a goroutine ----------

  predicate WorkerEnabled(s: State, q: Query)
  {
    q in s.workers && s.workers[q] != Finished && (s.workers[q] == Locking ==> q.job !in s.locks)
  }

  // Where the goroutine goes next; slice is what it reads when it reads.
  function WorkerGoto(w: Worker, outcome: Outcome, slice: seq<nat>): Worker
  {
    match w
    case Querying => if outcome == Unused then Locking else Counting
    case Locking => Reading
    case Reading => Writing(slice)
    case Writing(_) => Unlocking
    case Unlocking => Counting
    case Counting => Releasing
    case Releasing => Leaving
    case Leaving => Finished
    case Finished => Finished
  }

  function WorkerNext(s: State, q: Query, outcome: Outcome): State
    requires WorkerEnabled(s, q)
  {
    var w := s.workers[q];
    State(
      s.main,
      s.job,
      s.workers[q := WorkerGoto(w, outcome, Apps(s.noTraffic, CellOf(q)))],
      if w.Querying? then s.outcomes[q := outcome] else s.outcomes,
      if w.Releasing? && s.sem > 0 then s.sem - 1 else s.sem,
      if w.Leaving? then s.wg - 1 else s.wg,
      if w.Locking? then s.locks[q.job := q] else if w.Unlocking? then s.locks - {q.job} else s.locks,
      if w.Writing? then s.noTraffic[CellOf(q) := w.local + [q.app]] else s.noTraffic,
      if w.Counting? then s.done + 1 else s.done,
      s.rules)
  }

  // ---------- runs ----------

  predicate Enabled(cfg: Config, s: State, a: Action)
  {
    match a
    case MainStep => MainEnabled(cfg, s)
    case Collect(dir) => CollectEnabled(s, dir)
    case WorkerStep(q, _) => WorkerEnabled(s, q)
  }

  function Apply(cfg: Config, s: State, a: Action): State
    requires Enabled(cfg, s, a)
  {
    match a
    case MainStep => MainNext(cfg, s)
    case Collect(dir) => CollectNext(s, dir)
    case WorkerStep(q, outcome) => WorkerNext(s, q, outcome)
  }

  ghost predicate Next(cfg: Config, s: State, s': State)
  {
    exists a :: Enabled(cfg, s, a) && s' == Apply(cfg, s, a)
  }

  ghost predicate IsRun(cfg: Config, run: seq<State>)
  {
    && run != [] && run[0] == Init()
    && forall i :: 0 <= i < |run| - 1 ==> Next(cfg, run[i], run[i + 1])
  }

  // ---------- the invariant ----------

  // The queries of the current job that the inner loops have started.
  predicate Before(cfg: Config, m: Main, q: Query)
  {
    match m
    case NextJob => false
    case Adding(app, d) => q.app < app || (q.app == app && d <= |cfg.dirs| && q.dir in cfg.dirs[..d])
    case Acquiring(app, d) => q.app < app || (q.app == app && d <= |cfg.dirs| && q.dir in cfg.dirs[..d])
    case Spawning(app, d) => q.app < app || (q.app == app && d <= |cfg.dirs| && q.dir in cfg.dirs[..d])
    case Waiting => true
    case Collecting(_) => true
    case Done => false
  }

  predicate Started(cfg: Config, s: State, q: Query)
  {
    IsQuery(cfg, q) && (q.job < s.job || (q.job == s.job && Before(cfg, s.main, q)))
  }

  predicate MainInRange(cfg: Config, s: State)
  {
    match s.main
    case NextJob => s.job <= |cfg.jobs|
    case Adding(app, d) => s.job < |cfg.jobs| && app <= AppCount(cfg, s) && d <= |cfg.dirs|
    case Acquiring(app, d) => s.job < |cfg.jobs| && app < AppCount(cfg, s) && d < |cfg.dirs|
    case Spawning(app, d) => s.job < |cfg.jobs| && app < AppCount(cfg, s) && d < |cfg.dirs|
    case Waiting => s.job < |cfg.jobs|
    case Collecting(todo) => s.job < |cfg.jobs| && forall d :: d in todo ==> d in cfg.dirs
    case Done => s.job == |cfg.jobs|
  }

  // Exactly the started queries have a goroutine.
  ghost predicate StartedInv(cfg: Config, s: State)
  {
    && MainInRange(cfg, s)
    && forall q :: q in s.workers <==> Started(cfg, s, q)
  }

  predicate HoldsToken(w: Worker)
  {
    !w.Leaving? && !w.Finished?
  }

  predicate Counted(w: Worker)
  {
    w.Releasing? || w.Leaving? || w.Finished?
  }

  predicate Alive(w: Worker)
  {
    !w.Finished?
  }

  function Having(ws: map<Query, Worker>, p: Worker -> bool): set<Query>
  {
    set q | q in ws && p(ws[q])
  }

  // Semaphore tokens are the goroutines that have not released theirs, and the one the main
  // loop has acquired for the next; the wait group and the counter likewise.
  ghost predicate CountInv(m: Main, ws: map<Query, Worker>, sem: nat, wg: int, done: nat)
  {
    && sem == |Having(ws, HoldsToken)| + (if m.Spawning? then 1 else 0)
    && sem <= MAX_CONCURRENT_QUERIES
    && wg == |Having(ws, Alive)| + (if m.Acquiring? || m.Spawning? then 1 else 0)
    && done == |Having(ws, Counted)|
  }

  predicate PastBarrier(m: Main)
  {
    m.Collecting? || m.NextJob? || m.Done?
  }

  // Past the barrier of a job no goroutine of it runs any more.
  ghost predicate BarrierInv(s: State)
  {
    forall q :: q in s.workers && (q.job < s.job || PastBarrier(s.main)) ==> s.workers[q] == Finished
  }

  predicate Critical(w: Worker)
  {
    w.Reading? || w.Writing? || w.Unlocking?
  }

  ghost predicate LockInv(ws: map<Query, Worker>, locks: map<nat, Query>)
  {
    && (forall q :: q in ws && Critical(ws[q]) ==> q.job in locks && locks[q.job] == q)
    && (forall j :: j in locks ==> locks[j].job == j && locks[j] in ws && Critical(ws[locks[j]]))
  }

  predicate WantsLock(w: Worker)
  {
    w.Locking? || Critical(w)
  }

  // The outcome is known once the query has returned; only an unused app goes for the lock.
  ghost predicate OutcomeInv(ws: map<Query, Worker>, outcomes: map<Query, Outcome>)
  {
    && (forall q :: q in outcomes <==> q in ws && ws[q] != Querying)
    && (forall q :: q in ws && WantsLock(ws[q]) ==> q in outcomes && outcomes[q] == Unused)
  }

  // The goroutine has appended its app.
  predicate Appended(ws: map<Query, Worker>, outcomes: map<Query, Outcome>, q: Query)
  {
    && q in ws && q in outcomes && outcomes[q] == Unused
    && (ws[q].Unlocking? || ws[q].Counting? || Counted(ws[q]))
  }

  // A cell lists exactly the apps appended to it, each once; whoever is about to write has
  // read the present slice.
  ghost predicate CellInv(ws: map<Query, Worker>, outcomes: map<Query, Outcome>, noTraffic: map<Cell, seq<nat>>)
  {
    && (forall c :: Distinct(Apps(noTraffic, c)))
    && (forall c, app: nat :: app in Apps(noTraffic, c) <==> Appended(ws, outcomes, Query(c.job, app, c.dir)))
    && (forall q :: q in ws && ws[q].Writing? ==> ws[q].local == Apps(noTraffic, CellOf(q)))
  }

  // The cells the main loop has already ranged over.
  predicate Collected(cfg: Config, m: Main, job: nat, c: Cell)
  {
    c.dir in cfg.dirs && (c.job < job || (c.job == job && m.Collecting? && c.dir !in m.todo))
  }

  // One rule per collected cell that is not empty, with the apps of the cell.
  ghost predicate RuleInv(cfg: Config, m: Main, job: nat, noTraffic: map<Cell, seq<nat>>, rules: seq<DenyRuleInfo>)
  {
    && (forall i :: 0 <= i < |rules| ==> RuleOfCell(cfg, m, job, noTraffic, rules[i]))
    && (forall i, j {:trigger rules[i], rules[j]} :: 0 <= i < j < |rules| ==> !SameCell(rules[i], rules[j]))
    && (forall c :: Collected(cfg, m, job, c) && Apps(noTraffic, c) != [] ==>
          DenyRuleInfo(c.job, c.dir, Apps(noTraffic, c)) in rules)
  }

  predicate RuleOfCell(cfg: Config, m: Main, job: nat, noTraffic: map<Cell, seq<nat>>, r: DenyRuleInfo)
  {
    Collected(cfg, m, job, Cell(r.job, r.dir)) && r.apps == Apps(noTraffic, Cell(r.job, r.dir)) != []
  }

  predicate SameCell(r: DenyRuleInfo, t: DenyRuleInfo)
  {
    r.job == t.job && r.dir == t.dir
  }

  ghost predicate Inv(cfg: Config, s: State)
  {
    && StartedInv(cfg, s)
    && CountInv(s.main, s.workers, s.sem, s.wg, s.done)
    && BarrierInv(s)
    && LockInv(s.workers, s.locks)
    && OutcomeInv(s.workers, s.outcomes)
    && CellInv(s.workers, s.outcomes, s.noTraffic)
    && RuleInv(cfg, s.main, s.job, s.noTraffic, s.rules)
  }
}
