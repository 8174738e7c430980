// Every action keeps the invariant; what follows for every run.
module DenyProtocolSafety {
  import opened DenyProtocol

  // ---------- actions of the main loop ----------

  lemma CountWithout<T>(s: set<T>, x: T)
    ensures |s| == |s - {x}| + (if x in s then 1 else 0)
  {
    if x in s {
      assert s == (s - {x}) + {x};
    } else {
      assert s == s - {x};
    }
  }

  lemma AddHaving(ws: map<Query, Worker>, q: Query, w: Worker, p: Worker -> bool)
    requires q !in ws
    ensures |Having(ws[q := w], p)| == |Having(ws, p)| + (if p(w) then 1 else 0)
  {
    assert Having(ws[q := w], p) - {q} == Having(ws, p);
    CountWithout(Having(ws[q := w], p), q);
  }

  lemma MoveHaving(ws: map<Query, Worker>, q: Query, w: Worker, p: Worker -> bool)
    requires q in ws
    ensures |Having(ws[q := w], p)| == |Having(ws, p)| + (if p(w) then 1 else 0) - (if p(ws[q]) then 1 else 0)
  {
    assert Having(ws[q := w], p) - {q} == Having(ws, p) - {q};
    CountWithout(Having(ws[q := w], p), q);
    CountWithout(Having(ws, p), q);
  }

  // What a move of one goroutine does to the three counts.
  lemma MoveCounts(ws: map<Query, Worker>, q: Query, w: Worker)
    requires q in ws && Alive(ws[q]) && (Counted(ws[q]) ==> Counted(w)) && (HoldsToken(w) ==> HoldsToken(ws[q]))
    ensures var ws' := ws[q := w];
            && |Having(ws', HoldsToken)| ==
               |Having(ws, HoldsToken)| - (if HoldsToken(ws[q]) && !HoldsToken(w) then 1 else 0)
            && |Having(ws', Alive)| == |Having(ws, Alive)| - (if Alive(w) then 0 else 1)
            && |Having(ws', Counted)| == |Having(ws, Counted)| + (if Counted(w) && !Counted(ws[q]) then 1 else 0)
  {
    MoveHaving(ws, q, w, HoldsToken);
    MoveHaving(ws, q, w, Alive);
    MoveHaving(ws, q, w, Counted);
  }

  lemma SpawnKeepsStarted(cfg: Config, s: State, q: Query)
    requires ValidConfig(cfg) && StartedInv(cfg, s) && s.main.Spawning?
    requires q == Query(s.job, s.main.app, cfg.dirs[s.main.d])
    ensures StartedInv(cfg, MainNext(cfg, s)) && q !in s.workers
  {
    var d := s.main.d;
    assert cfg.dirs[..d + 1] == cfg.dirs[..d] + [cfg.dirs[d]];
    assert !Started(cfg, s, q);
    forall p
      ensures Started(cfg, MainNext(cfg, s), p) <==> Started(cfg, s, p) || p == q
    {
    }
  }

  lemma SpawnKeepsCounts(m: Main, ws: map<Query, Worker>, sem: nat, wg: int, done: nat, q: Query)
    requires CountInv(m, ws, sem, wg, done) && m.Spawning? && q !in ws
    ensures CountInv(Adding(m.app, m.d + 1), ws[q := Querying], sem, wg, done)
  {
    AddHaving(ws, q, Querying, HoldsToken);
    AddHaving(ws, q, Querying, Alive);
    AddHaving(ws, q, Querying, Counted);
  }

  lemma SpawnKeepsCells(ws: map<Query, Worker>, outcomes: map<Query, Outcome>, locks: map<nat, Query>,
                        noTraffic: map<Cell, seq<nat>>, q: Query)
    requires q !in ws && LockInv(ws, locks) && OutcomeInv(ws, outcomes) && CellInv(ws, outcomes, noTraffic)
    ensures LockInv(ws[q := Querying], locks) && OutcomeInv(ws[q := Querying], outcomes)
    ensures CellInv(ws[q := Querying], outcomes, noTraffic)
  {
    assert q !in outcomes;
    assert forall p :: Appended(ws[q := Querying], outcomes, p) <==> Appended(ws, outcomes, p);
  }

  // Spawning adds one goroutine.
  lemma SpawnKeeps(cfg: Config, s: State)
    requires ValidConfig(cfg) && Inv(cfg, s) && s.main.Spawning?
    ensures Inv(cfg, MainNext(cfg, s))
  {
    var q := Query(s.job, s.main.app, cfg.dirs[s.main.d]);
    SpawnKeepsStarted(cfg, s, q);
    SpawnKeepsCounts(s.main, s.workers, s.sem, s.wg, s.done, q);
    SpawnKeepsCells(s.workers, s.outcomes, s.locks, s.noTraffic, q);
  }

  lemma AllFinished(s: State)
    requires CountInv(s.main, s.workers, s.sem, s.wg, s.done) && s.wg == 0
    ensures forall q :: q in s.workers ==> s.workers[q] == Finished
  {
    assert Having(s.workers, Alive) == {};
    assert forall q :: q in s.workers ==> (q in Having(s.workers, Alive) <==> s.workers[q] != Finished);
  }

  lemma MainKeepsBarrier(cfg: Config, s: State)
    requires StartedInv(cfg, s) && CountInv(s.main, s.workers, s.sem, s.wg, s.done) && BarrierInv(s)
    requires MainEnabled(cfg, s) && !s.main.Spawning?
    ensures BarrierInv(MainNext(cfg, s))
  {
    if s.main == Waiting {
      AllFinished(s);
    }
  }

  lemma MainKeeps(cfg: Config, s: State)
    requires ValidConfig(cfg) && Inv(cfg, s) && MainEnabled(cfg, s)
    ensures Inv(cfg, MainNext(cfg, s))
  {
    if s.main.Spawning? {
      SpawnKeeps(cfg, s);
    } else {
      MainKeepsBarrier(cfg, s);
    }
  }

  lemma CollectKeepsRules(cfg: Config, m: Main, job: nat, noTraffic: map<Cell, seq<nat>>, rules: seq<DenyRuleInfo>,
                          dir: Direction)
    requires RuleInv(cfg, m, job, noTraffic, rules) && m.Collecting? && dir in m.todo && dir in cfg.dirs
    ensures var apps := Apps(noTraffic, Cell(job, dir));
            RuleInv(cfg, Collecting(m.todo - {dir}), job, noTraffic,
                    if apps == [] then rules else rules + [DenyRuleInfo(job, dir, apps)])
  {
    var m' := Collecting(m.todo - {dir});
    var apps := Apps(noTraffic, Cell(job, dir));
    var rules' := if apps == [] then rules else rules + [DenyRuleInfo(job, dir, apps)];
    assert forall c :: Collected(cfg, m', job, c) <==> Collected(cfg, m, job, c) || c == Cell(job, dir);
    assert forall r :: r in rules ==> r in rules';
    assert apps != [] ==> rules'[|rules|] == DenyRuleInfo(job, dir, apps);
  }

  lemma CollectKeeps(cfg: Config, s: State, dir: Direction)
    requires Inv(cfg, s) && CollectEnabled(s, dir)
    ensures Inv(cfg, CollectNext(s, dir))
  {
    assert forall q :: Started(cfg, CollectNext(s, dir), q) <==> Started(cfg, s, q);
    CollectKeepsRules(cfg, s.main, s.job, s.noTraffic, s.rules, dir);
  }

  // ---------- actions of a goroutine ----------

  lemma WorkerKeepsStarted(cfg: Config, s: State, q: Query, outcome: Outcome)
    requires StartedInv(cfg, s) && WorkerEnabled(s, q)
    ensures StartedInv(cfg, WorkerNext(s, q, outcome))
  {
    var s' := WorkerNext(s, q, outcome);
    assert s'.main == s.main && s'.job == s.job;
    assert forall p :: p in s'.workers <==> p in s.workers;
    assert forall p :: Started(cfg, s', p) <==> Started(cfg, s, p);
  }

  lemma WorkerKeepsCounts(s: State, q: Query, outcome: Outcome)
    requires CountInv(s.main, s.workers, s.sem, s.wg, s.done) && WorkerEnabled(s, q)
    ensures var s' := WorkerNext(s, q, outcome); CountInv(s'.main, s'.workers, s'.sem, s'.wg, s'.done)
  {
    MoveCounts(s.workers, q, WorkerNext(s, q, outcome).workers[q]);
  }

  lemma WorkerKeepsLock(s: State, q: Query, outcome: Outcome)
    requires LockInv(s.workers, s.locks) && WorkerEnabled(s, q)
    ensures LockInv(WorkerNext(s, q, outcome).workers, WorkerNext(s, q, outcome).locks)
  {
  }

  lemma WorkerKeepsOutcome(s: State, q: Query, outcome: Outcome)
    requires OutcomeInv(s.workers, s.outcomes) && WorkerEnabled(s, q)
    ensures OutcomeInv(WorkerNext(s, q, outcome).workers, WorkerNext(s, q, outcome).outcomes)
  {
  }

  lemma MoveAppendsNothing(ws: map<Query, Worker>, outcomes: map<Query, Outcome>, q: Query, w: Worker)
    requires q in ws
    requires (w.Unlocking? || w.Counting? || Counted(w)) == (ws[q].Unlocking? || ws[q].Counting? || Counted(ws[q]))
    ensures forall p :: Appended(ws[q := w], outcomes, p) <==> Appended(ws, outcomes, p)
  {
  }

  // The write adds the one app of this goroutine; the lock keeps everyone else from it.
  lemma WriteKeepsCells(ws: map<Query, Worker>, outcomes: map<Query, Outcome>, locks: map<nat, Query>,
                        noTraffic: map<Cell, seq<nat>>, q: Query)
    requires LockInv(ws, locks) && OutcomeInv(ws, outcomes) && CellInv(ws, outcomes, noTraffic)
    requires q in ws && ws[q].Writing?
    ensures CellInv(ws[q := Unlocking], outcomes, noTraffic[CellOf(q) := ws[q].local + [q.app]])
  {
    var ws', noTraffic' := ws[q := Unlocking], noTraffic[CellOf(q) := ws[q].local + [q.app]];
    var c0 := CellOf(q);
    assert forall c :: Apps(noTraffic', c) == if c == c0 then Apps(noTraffic, c0) + [q.app] else Apps(noTraffic, c);
    assert !Appended(ws, outcomes, q) && q == Query(c0.job, q.app, c0.dir);
    assert forall p :: Appended(ws', outcomes, p) <==> Appended(ws, outcomes, p) || p == q;
    forall p | p in ws' && ws'[p].Writing?
      ensures ws'[p].local == Apps(noTraffic', CellOf(p))
    {
      assert ws[p].Writing? && p != q;
      assert p.job != q.job;
    }
  }

  lemma WorkerKeepsCells(s: State, q: Query, outcome: Outcome)
    requires LockInv(s.workers, s.locks) && OutcomeInv(s.workers, s.outcomes)
    requires CellInv(s.workers, s.outcomes, s.noTraffic) && WorkerEnabled(s, q)
    ensures var s' := WorkerNext(s, q, outcome); CellInv(s'.workers, s'.outcomes, s'.noTraffic)
  {
    if s.workers[q].Writing? {
      WriteKeepsCells(s.workers, s.outcomes, s.locks, s.noTraffic, q);
    } else {
      var s' := WorkerNext(s, q, outcome);
      if s.workers[q].Querying? {
      } else {
        MoveAppendsNothing(s.workers, s.outcomes, q, s'.workers[q]);
      }
    }
  }

  // A collected cell belongs to finished goroutines: it never changes again.
  lemma WorkerKeepsRules(cfg: Config, s: State, q: Query, outcome: Outcome)
    requires RuleInv(cfg, s.main, s.job, s.noTraffic, s.rules) && BarrierInv(s) && WorkerEnabled(s, q)
    ensures var s' := WorkerNext(s, q, outcome); RuleInv(cfg, s'.main, s'.job, s'.noTraffic, s'.rules)
  {
    var s' := WorkerNext(s, q, outcome);
    assert !Collected(cfg, s.main, s.job, CellOf(q));
  }

  // ---------- every run ----------

  lemma StepKeeps(cfg: Config, s: State, a: Action)
    requires ValidConfig(cfg) && Inv(cfg, s) && Enabled(cfg, s, a)
    ensures Inv(cfg, Apply(cfg, s, a))
  {
    match a
    case MainStep => MainKeeps(cfg, s);
    case Collect(dir) => CollectKeeps(cfg, s, dir);
    case WorkerStep(q, outcome) =>
      WorkerKeepsStarted(cfg, s, q, outcome);
      WorkerKeepsCounts(s, q, outcome);
      WorkerKeepsLock(s, q, outcome);
      WorkerKeepsOutcome(s, q, outcome);
      WorkerKeepsCells(s, q, outcome);
      WorkerKeepsRules(cfg, s, q, outcome);
  }

  lemma {:induction false} RunKeeps(cfg: Config, run: seq<State>)
    requires ValidConfig(cfg) && IsRun(cfg, run)
    ensures forall i :: 0 <= i < |run| ==> Inv(cfg, run[i])
    decreases |run|
  {
    if |run| == 1 {
    } else {
      var n := |run| - 1;
      var front := run[..n];
      RunKeeps(cfg, front);
      assert Next(cfg, run[n - 1], run[n - 1 + 1]);
      assert front[n - 1] == run[n - 1];
      var a :| Enabled(cfg, run[n - 1], a) && run[n] == Apply(cfg, run[n - 1], a);
      StepKeeps(cfg, run[n - 1], a);
      forall i | 0 <= i < |run|
        ensures Inv(cfg, run[i])
      {
        assert i < n ==> front[i] == run[i];
      }
    }
  }
}
