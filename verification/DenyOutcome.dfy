// What a finished run has produced: every query counted once, every unused app denied exactly
// once, every rule small enough.
module DenyOutcome {
  import opened Seqs
  import opened DenyChunks
  import opened DenyProtocol
  import opened DenyProtocolSafety

  // ---------- at most two queries, and a quiet state after each barrier ----------

  predicate InFlight(w: Worker)
  {
    w.Querying?
  }

  lemma SubsetCount<T>(s: set<T>, t: set<T>)
    requires s <= t
    ensures |s| <= |t|
  {
    assert t == s + (t - s);
  }

  // At most two queries run at a time, in every state of every run, and the main loop waits with
  // a query only while two others hold the semaphore.
  lemma AtMostTwoInFlight(cfg: Config, run: seq<State>, i: nat)
    requires ValidConfig(cfg) && IsRun(cfg, run) && i < |run|
    ensures |Having(run[i].workers, InFlight)| <= run[i].sem <= 2
    ensures run[i].main.Acquiring? ==> (Enabled(cfg, run[i], MainStep) <==> run[i].sem < 2)
  {
    RunKeeps(cfg, run);
    SubsetCount(Having(run[i].workers, InFlight), Having(run[i].workers, HoldsToken));
  }

  // Once wg.Wait has returned the semaphore is empty, no goroutine can move, and no step until
  // the next job changes what has been collected per direction.
  lemma QuietAfterBarrier(cfg: Config, run: seq<State>, i: nat, a: Action)
    requires ValidConfig(cfg) && IsRun(cfg, run) && i < |run| && run[i].main.Collecting?
    requires Enabled(cfg, run[i], a)
    ensures run[i].sem == 0 && run[i].wg == 0 && run[i].locks == map[]
    ensures !a.WorkerStep? && Apply(cfg, run[i], a).noTraffic == run[i].noTraffic
  {
    var s := run[i];
    RunKeeps(cfg, run);
    assert Having(s.workers, HoldsToken) == {} && Having(s.workers, Alive) == {};
    assert forall j :: j !in s.locks;
  }

  // ---------- the counter ----------

  function DirQueries(cfg: Config, j: nat, a: nat, n: nat): (r: set<Query>)
    requires n <= |cfg.dirs|
  {
    set i | 0 <= i < n :: Query(j, a, cfg.dirs[i])
  }

  lemma {:induction false} DirQueriesCount(cfg: Config, j: nat, a: nat, n: nat)
    requires ValidConfig(cfg) && n <= |cfg.dirs|
    ensures |DirQueries(cfg, j, a, n)| == n
  {
    if n > 0 {
      DirQueriesCount(cfg, j, a, n - 1);
      var q := Query(j, a, cfg.dirs[n - 1]);
      assert DirQueries(cfg, j, a, n) == DirQueries(cfg, j, a, n - 1) + {q};
      assert q !in DirQueries(cfg, j, a, n - 1);
    }
  }

  // The queries of job j for its first n apps.
  ghost function AppQueries(cfg: Config, j: nat, n: nat): set<Query>
  {
    if n == 0 then {} else AppQueries(cfg, j, n - 1) + DirQueries(cfg, j, n - 1, |cfg.dirs|)
  }

  lemma {:induction false} AppQueriesAre(cfg: Config, j: nat, n: nat)
    ensures forall q :: q in AppQueries(cfg, j, n) <==> q.job == j && q.app < n && q.dir in cfg.dirs
  {
    if n > 0 {
      AppQueriesAre(cfg, j, n - 1);
      assert forall q :: q in DirQueries(cfg, j, n - 1, |cfg.dirs|) <==>
          q.job == j && q.app == n - 1 && q.dir in cfg.dirs;
    }
  }

  lemma AppsApart(cfg: Config, j: nat, n: nat)
    ensures |AppQueries(cfg, j, n + 1)| == |AppQueries(cfg, j, n)| + |DirQueries(cfg, j, n, |cfg.dirs|)|
  {
    AppQueriesAre(cfg, j, n);
  }

  ghost predicate DirsCount(cfg: Config)
  {
    forall j, a :: |DirQueries(cfg, j, a, |cfg.dirs|)| == |cfg.dirs|
  }

  lemma {:induction false} AppQueriesCount(cfg: Config, j: nat, n: nat)
    requires DirsCount(cfg)
    ensures |AppQueries(cfg, j, n)| == Times(n, |cfg.dirs|)
  {
    if n > 0 {
      AppQueriesCount(cfg, j, n - 1);
      AppsApart(cfg, j, n - 1);
    }
  }

  // n * d, by addition.
  function Times(n: nat, d: nat): nat
  {
    if n == 0 then 0 else Times(n - 1, d) + d
  }

  lemma {:induction false} TimesIsProduct(n: nat, d: nat)
    ensures Times(n, d) == n * d
  {
    if n > 0 {
      TimesIsProduct(n - 1, d);
      assert n * d == (n - 1) * d + d;
    }
  }

  // totalQueries of the first n jobs: apps times directions, job by job.
  function TotalQueries(cfg: Config, n: nat): nat
    requires n <= |cfg.jobs|
  {
    if n == 0 then 0 else TotalQueries(cfg, n - 1) + |cfg.jobs[n - 1].apps| * |cfg.dirs|
  }

  // The same by additions alone.
  function SumQueries(cfg: Config, n: nat): nat
    requires n <= |cfg.jobs|
  {
    if n == 0 then 0 else SumQueries(cfg, n - 1) + Times(|cfg.jobs[n - 1].apps|, |cfg.dirs|)
  }

  lemma {:induction false} SumIsTotal(cfg: Config, n: nat)
    requires n <= |cfg.jobs|
    ensures SumQueries(cfg, n) == TotalQueries(cfg, n)
  {
    if n > 0 {
      SumIsTotal(cfg, n - 1);
      TimesIsProduct(|cfg.jobs[n - 1].apps|, |cfg.dirs|);
    }
  }

  ghost function JobQueries(cfg: Config, n: nat): set<Query>
    requires n <= |cfg.jobs|
  {
    if n == 0 then {} else JobQueries(cfg, n - 1) + AppQueries(cfg, n - 1, |cfg.jobs[n - 1].apps|)
  }

  lemma {:induction false} JobQueriesAre(cfg: Config, n: nat)
    requires n <= |cfg.jobs|
    ensures forall q :: q in JobQueries(cfg, n) <==> IsQuery(cfg, q) && q.job < n
  {
    if n > 0 {
      JobQueriesAre(cfg, n - 1);
      AppQueriesAre(cfg, n - 1, |cfg.jobs[n - 1].apps|);
    }
  }

  lemma JobsApart(cfg: Config, n: nat)
    requires n < |cfg.jobs|
    ensures |JobQueries(cfg, n + 1)| == |JobQueries(cfg, n)| + |AppQueries(cfg, n, |cfg.jobs[n].apps|)|
  {
    JobQueriesAre(cfg, n);
    AppQueriesAre(cfg, n, |cfg.jobs[n].apps|);
  }

  lemma {:induction false} JobQueriesCount(cfg: Config, n: nat)
    requires DirsCount(cfg) && n <= |cfg.jobs|
    ensures |JobQueries(cfg, n)| == SumQueries(cfg, n)
  {
    if n > 0 {
      JobQueriesCount(cfg, n - 1);
      JobsApart(cfg, n - 1);
      AppQueriesCount(cfg, n - 1, |cfg.jobs[n - 1].apps|);
    }
  }

  // There are as many queries as announced.
  lemma AllQueriesCount(cfg: Config)
    requires ValidConfig(cfg)
    ensures |JobQueries(cfg, |cfg.jobs|)| == TotalQueries(cfg, |cfg.jobs|)
  {
    forall j, a
      ensures |DirQueries(cfg, j, a, |cfg.dirs|)| == |cfg.dirs|
    {
      DirQueriesCount(cfg, j, a, |cfg.dirs|);
    }
    JobQueriesCount(cfg, |cfg.jobs|);
    SumIsTotal(cfg, |cfg.jobs|);
  }

  // doneQueries never passes the announced total, and reaches it at the end.
  lemma CounterMeetsTotal(cfg: Config, run: seq<State>, i: nat)
    requires ValidConfig(cfg) && IsRun(cfg, run) && i < |run|
    ensures run[i].done <= TotalQueries(cfg, |cfg.jobs|)
    ensures run[i].main == Done ==> run[i].done == TotalQueries(cfg, |cfg.jobs|)
  {
    RunKeeps(cfg, run);
    AllQueriesCount(cfg);
    CountedWithinTotal(cfg, run[i]);
  }

  lemma CountedWithinTotal(cfg: Config, s: State)
    requires StartedInv(cfg, s) && BarrierInv(s)
    ensures |Having(s.workers, Counted)| <= |JobQueries(cfg, |cfg.jobs|)|
    ensures s.main == Done ==> |Having(s.workers, Counted)| == |JobQueries(cfg, |cfg.jobs|)|
  {
    var counted, all := Having(s.workers, Counted), JobQueries(cfg, |cfg.jobs|);
    JobQueriesAre(cfg, |cfg.jobs|);
    SubsetCount(counted, all);
    if s.main == Done {
      SubsetCount(all, counted);
    }
  }

  // ---------- jobs of the two outer loops ----------

  datatype EnvInfo = EnvInfo(env: string, apps: seq<string>)

  // The services of one env, in order.
  function EnvJobs(e: EnvInfo, services: seq<string>): seq<Job>
  {
    if services == [] then []
    else EnvJobs(e, services[..|services| - 1]) + [Job(e.env, services[|services| - 1], e.apps)]
  }

  function JobsOf(envs: seq<EnvInfo>, services: seq<string>): seq<Job>
  {
    if envs == [] then [] else JobsOf(envs[..|envs| - 1], services) + EnvJobs(envs[|envs| - 1], services)
  }

  // The announced total: services times apps times directions, env by env.
  function Announced(envs: seq<EnvInfo>, services: nat, dirs: nat): nat
  {
    if envs == [] then 0
    else Announced(envs[..|envs| - 1], services, dirs) + services * |envs[|envs| - 1].apps| * dirs
  }

  lemma {:induction false} SumOfPrefix(jobs: seq<Job>, more: seq<Job>, dirs: seq<Direction>, n: nat)
    requires n <= |jobs|
    ensures SumQueries(Config(jobs + more, dirs), n) == SumQueries(Config(jobs, dirs), n)
  {
    if n > 0 {
      SumOfPrefix(jobs, more, dirs, n - 1);
      assert (jobs + more)[n - 1] == jobs[n - 1];
    }
  }

  lemma {:induction false} SumOfEnv(jobs: seq<Job>, e: EnvInfo, services: seq<string>, dirs: seq<Direction>)
    ensures var all := jobs + EnvJobs(e, services);
            SumQueries(Config(all, dirs), |all|) ==
            SumQueries(Config(jobs, dirs), |jobs|) + |services| * Times(|e.apps|, |dirs|)
    decreases |services|
  {
    if services == [] {
      assert jobs + EnvJobs(e, services) == jobs;
    } else {
      var front := services[..|services| - 1];
      var before, last := jobs + EnvJobs(e, front), Job(e.env, services[|services| - 1], e.apps);
      SumOfEnv(jobs, e, front, dirs);
      assert jobs + EnvJobs(e, services) == before + [last];
      SumOfPrefix(before, [last], dirs, |before|);
      OneMore(|services|, Times(|e.apps|, |dirs|));
    }
  }

  lemma OneMore(n: nat, t: nat)
    requires n > 0
    ensures n * t == (n - 1) * t + t
  {
  }

  lemma ProductOfThree(n: nat, a: nat, d: nat)
    ensures n * Times(a, d) == n * a * d
  {
    TimesIsProduct(a, d);
    assert n * (a * d) == n * a * d;
  }

  lemma {:induction false} SumOfEnvs(envs: seq<EnvInfo>, services: seq<string>, dirs: seq<Direction>)
    ensures SumQueries(Config(JobsOf(envs, services), dirs), |JobsOf(envs, services)|) ==
            Announced(envs, |services|, |dirs|)
  {
    if envs != [] {
      var front, last := envs[..|envs| - 1], envs[|envs| - 1];
      SumOfEnvs(front, services, dirs);
      SumOfEnv(JobsOf(front, services), last, services, dirs);
      ProductOfThree(|services|, |last.apps|, |dirs|);
    }
  }

  // The total announced before the run is the number of queries of its jobs.
  lemma AnnouncedIsTotal(envs: seq<EnvInfo>, services: seq<string>, dirs: seq<Direction>)
    ensures TotalQueries(Config(JobsOf(envs, services), dirs), |JobsOf(envs, services)|) ==
            Announced(envs, |services|, |dirs|)
  {
    SumOfEnvs(envs, services, dirs);
    SumIsTotal(Config(JobsOf(envs, services), dirs), |JobsOf(envs, services)|);
  }

  // ---------- rule creation ----------

  // The queries whose apps the rules deny, in order.
  function DeniedBy(r: DenyRuleInfo): seq<Query>
  {
    seq(|r.apps|, i requires 0 <= i < |r.apps| => Query(r.job, r.apps[i], r.dir))
  }

  function Denied(rules: seq<DenyRuleInfo>): seq<Query>
  {
    if rules == [] then [] else DeniedBy(rules[0]) + Denied(rules[1..])
  }

  function ChunkRules(r: DenyRuleInfo, chunks: seq<seq<nat>>): seq<DenyRuleInfo>
  {
    if chunks == [] then [] else [DenyRuleInfo(r.job, r.dir, chunks[0])] + ChunkRules(r, chunks[1..])
  }

  // The rules the creation loop attempts: one per chunk.
  function Attempts(rules: seq<DenyRuleInfo>): seq<DenyRuleInfo>
  {
    if rules == [] then []
    else ChunkRules(rules[0], Chunks(rules[0].apps, MAX_APPS_PER_RULE)) + Attempts(rules[1..])
  }

  lemma {:induction false} DeniedAppend(s: seq<DenyRuleInfo>, t: seq<DenyRuleInfo>)
    ensures Denied(s + t) == Denied(s) + Denied(t)
  {
    if s == [] {
      assert s + t == t;
    } else {
      DeniedAppend(s[1..], t);
      assert (s + t)[1..] == s[1..] + t && (s + t)[0] == s[0];
      JoinRegroups(DeniedBy(s[0]), Denied(s[1..]), Denied(t));
    }
  }

  lemma {:induction false} ChunksDenyTheSame(r: DenyRuleInfo, chunks: seq<seq<nat>>)
    ensures Denied(ChunkRules(r, chunks)) == DeniedBy(DenyRuleInfo(r.job, r.dir, Concat(chunks)))
  {
    if chunks != [] {
      ChunksDenyTheSame(r, chunks[1..]);
    }
  }

  // Chunking changes nothing in what is denied.
  lemma {:induction false} AttemptsDenyTheSame(rules: seq<DenyRuleInfo>)
    ensures Denied(Attempts(rules)) == Denied(rules)
  {
    if rules != [] {
      var r := rules[0];
      ChunksAreChunking(r.apps, MAX_APPS_PER_RULE);
      ChunksDenyTheSame(r, Chunks(r.apps, MAX_APPS_PER_RULE));
      AttemptsDenyTheSame(rules[1..]);
      DeniedAppend(ChunkRules(r, Chunks(r.apps, MAX_APPS_PER_RULE)), Attempts(rules[1..]));
    }
  }

  predicate Denies(r: DenyRuleInfo, q: Query)
  {
    r.job == q.job && r.dir == q.dir && q.app in r.apps
  }

  lemma {:induction false} DeniedByCount(r: DenyRuleInfo, q: Query)
    requires Distinct(r.apps)
    ensures multiset(DeniedBy(r))[q] == if Denies(r, q) then 1 else 0
    decreases |r.apps|
  {
    if r.apps != [] {
      var n := |r.apps| - 1;
      var front := DenyRuleInfo(r.job, r.dir, r.apps[..n]);
      DeniedByCount(front, q);
      assert DeniedBy(r) == DeniedBy(front) + [Query(r.job, r.apps[n], r.dir)];
      assert r.apps == r.apps[..n] + [r.apps[n]];
    }
  }

  ghost predicate OnePerCell(rules: seq<DenyRuleInfo>)
  {
    && (forall i :: 0 <= i < |rules| ==> Distinct(rules[i].apps))
    && (forall i, j {:trigger rules[i], rules[j]} :: 0 <= i < j < |rules| ==> !SameCell(rules[i], rules[j]))
  }

  // With one rule per job and direction, no query is denied twice.
  lemma {:induction false} DeniedCount(rules: seq<DenyRuleInfo>, q: Query)
    requires OnePerCell(rules)
    ensures multiset(Denied(rules))[q] == if exists r :: r in rules && Denies(r, q) then 1 else 0
  {
    if rules != [] {
      var rest := rules[1..];
      assert rules == [rules[0]] + rest;
      assert OnePerCell(rest);
      DeniedByCount(rules[0], q);
      DeniedCount(rest, q);
      assert Denies(rules[0], q) ==> forall r :: r in rest ==> !Denies(r, q) by {
        assert forall i {:trigger rest[i]} :: 0 <= i < |rest| ==>
            rest[i] == rules[i + 1] && !SameCell(rules[0], rules[i + 1]);
      }
    }
  }

  lemma RulesDenyUnused(cfg: Config, s: State, q: Query)
    requires Inv(cfg, s) && s.main == Done
    ensures OnePerCell(s.rules)
    ensures (exists r :: r in s.rules && Denies(r, q)) <==> q in s.outcomes && s.outcomes[q] == Unused
  {
    var c := CellOf(q);
    assert q == Query(c.job, q.app, c.dir);
    if q in s.outcomes && s.outcomes[q] == Unused {
      assert Started(cfg, s, q) && Appended(s.workers, s.outcomes, q);
      assert Collected(cfg, s.main, s.job, c);
      assert Denies(DenyRuleInfo(c.job, c.dir, Apps(s.noTraffic, c)), q);
    }
    if r :| r in s.rules && Denies(r, q) {
      var i :| 0 <= i < |s.rules| && s.rules[i] == r;
      assert RuleOfCell(cfg, s.main, s.job, s.noTraffic, r) && Cell(r.job, r.dir) == c;
    }
  }

  // At the end of every run, whatever the interleaving: each query has an outcome, and among
  // the apps of all attempted rules each unused one occurs exactly once and no other occurs.
  lemma ExactlyOnce(cfg: Config, run: seq<State>, s: State, q: Query)
    requires ValidConfig(cfg) && IsRun(cfg, run) && run[|run| - 1] == s && s.main == Done
    ensures q in s.outcomes <==> IsQuery(cfg, q)
    ensures multiset(Denied(Attempts(s.rules)))[q] == if q in s.outcomes && s.outcomes[q] == Unused then 1 else 0
  {
    RunKeeps(cfg, run);
    assert q in s.workers <==> Started(cfg, s, q);
    RulesDenyUnused(cfg, s, q);
    AttemptsDenyTheSame(s.rules);
    DeniedCount(s.rules, q);
  }

  // ---------- the actors of a rule ----------

  datatype Actor = LabelActor(href: string) | IPListActor(href: string)

  datatype Rule = Rule(providers: seq<Actor>, consumers: seq<Actor>, service: string)

  function LabelsToActors(apps: seq<string>): (r: seq<Actor>)
    ensures |r| == |apps| && forall i :: 0 <= i < |apps| ==> r[i] == LabelActor(apps[i])
  {
    seq(|apps|, i requires 0 <= i < |apps| => LabelActor(apps[i]))
  }

  function CreateDenyRule(service: string, apps: seq<string>, env: string, ipList: string, dir: Direction): Rule
  {
    var labels := [LabelActor(env)] + LabelsToActors(apps);
    if dir == Inbound then Rule(labels, [IPListActor(ipList)], service)
    else Rule([IPListActor(ipList)], labels, service)
  }

  // Every attempt is for 1 to 198 apps of a collected rule.
  lemma {:induction false} AttemptsAreSmall(rules: seq<DenyRuleInfo>)
    ensures forall a :: a in Attempts(rules) ==> 1 <= |a.apps| <= 198
    ensures forall a :: a in Attempts(rules) ==>
            exists r :: r in rules && SameCell(r, a) && forall p :: p in a.apps ==> p in r.apps
  {
    if rules != [] {
      AttemptsAreSmall(rules[1..]);
      ChunksAreChunking(rules[0].apps, MAX_APPS_PER_RULE);
      ChunkRulesMembers(rules[0], Chunks(rules[0].apps, MAX_APPS_PER_RULE));
      forall a | a in Attempts(rules)
        ensures exists r :: r in rules && SameCell(r, a) && forall p :: p in a.apps ==> p in r.apps
      {
        if a in Attempts(rules[1..]) {
          var r :| r in rules[1..] && SameCell(r, a) && forall p :: p in a.apps ==> p in r.apps;
          assert r in rules;
        } else {
          assert rules[0] in rules && SameCell(rules[0], a);
        }
      }
    }
  }

  lemma {:induction false} ChunkRulesMembers(r: DenyRuleInfo, chunks: seq<seq<nat>>)
    ensures forall a :: a in ChunkRules(r, chunks) ==> SameCell(r, a) && a.apps in chunks
    ensures forall a :: a in ChunkRules(r, chunks) ==> forall p :: p in a.apps ==> p in Concat(chunks)
  {
    if chunks != [] {
      ChunkRulesMembers(r, chunks[1..]);
    }
  }

  lemma {:induction false} ChunkRulesAt(r: DenyRuleInfo, chunks: seq<seq<nat>>)
    ensures |ChunkRules(r, chunks)| == |chunks|
    ensures forall k :: 0 <= k < |chunks| ==> ChunkRules(r, chunks)[k] == DenyRuleInfo(r.job, r.dir, chunks[k])
  {
    if chunks != [] {
      ChunkRulesAt(r, chunks[1..]);
    }
  }

  // A rule for n apps adds exactly as many attempts as n apps need at 198 an attempt, and fills
  // all of them but the last.
  lemma AttemptsPerRule(rules: seq<DenyRuleInfo>, r: DenyRuleInfo)
    ensures Attempts([]) == [] && |Attempts(rules + [r])| == |Attempts(rules)| + (|r.apps| + 197) / 198
    ensures forall k :: |Attempts(rules)| <= k < |Attempts(rules + [r])| - 1 ==>
            |Attempts(rules + [r])[k].apps| == 198
  {
    var chunks := Chunks(r.apps, MAX_APPS_PER_RULE);
    AttemptsSnoc(rules, r);
    ChunksAreChunking(r.apps, MAX_APPS_PER_RULE);
    ChunkCount(chunks, r.apps, MAX_APPS_PER_RULE);
    ChunkRulesAt(r, chunks);
  }

  // The job and the apps of a rule of the run.
  predicate Names(cfg: Config, r: DenyRuleInfo)
  {
    r.job < |cfg.jobs| && forall i :: 0 <= i < |r.apps| ==> r.apps[i] < |cfg.jobs[r.job].apps|
  }

  function AppLabels(job: Job, apps: seq<nat>): (r: seq<string>)
    requires forall i :: 0 <= i < |apps| ==> apps[i] < |job.apps|
    ensures |r| == |apps| && forall i :: 0 <= i < |apps| ==> r[i] == job.apps[apps[i]]
  {
    seq(|apps|, i requires 0 <= i < |apps| => job.apps[apps[i]])
  }

  lemma RulesNameApps(cfg: Config, run: seq<State>, i: nat)
    requires ValidConfig(cfg) && IsRun(cfg, run) && i < |run|
    ensures forall r :: r in run[i].rules ==> Names(cfg, r)
  {
    var s := run[i];
    RunKeeps(cfg, run);
    forall k | 0 <= k < |s.rules|
      ensures Names(cfg, s.rules[k])
    {
      var r := s.rules[k];
      assert RuleOfCell(cfg, s.main, s.job, s.noTraffic, r);
      var c := Cell(r.job, r.dir);
      forall j | 0 <= j < |r.apps|
        ensures r.job < |cfg.jobs| && r.apps[j] < |cfg.jobs[r.job].apps|
      {
        assert r.apps[j] in Apps(s.noTraffic, c);
        assert Appended(s.workers, s.outcomes, Query(c.job, r.apps[j], c.dir));
        assert Started(cfg, s, Query(c.job, r.apps[j], c.dir));
      }
    }
  }

  // What one attempt must look like: 2 to 199 labels as destinations of an inbound rule, or as
  // sources of an outbound one, and the any-address IP list alone on the other side.
  predicate Created(cfg: Config, a: DenyRuleInfo, ipList: string, r: Rule)
  {
    && Names(cfg, a)
    && r.service == cfg.jobs[a.job].service
    && (var labels := [LabelActor(cfg.jobs[a.job].env)] + LabelsToActors(AppLabels(cfg.jobs[a.job], a.apps));
        && 2 <= |labels| <= 199
        && (a.dir == Inbound ==> r.providers == labels && r.consumers == [IPListActor(ipList)])
        && (a.dir == Outbound ==> r.consumers == labels && r.providers == [IPListActor(ipList)]))
  }

  ghost predicate AllCreated(cfg: Config, attempts: seq<DenyRuleInfo>, ipList: string, created: seq<Rule>)
  {
    |created| == |attempts| && forall k :: 0 <= k < |created| ==> Created(cfg, attempts[k], ipList, created[k])
  }

  lemma ChunkNames(cfg: Config, r: DenyRuleInfo, chunks: seq<seq<nat>>, j: nat)
    requires Names(cfg, r) && Concat(chunks) == r.apps && j < |chunks|
    ensures Names(cfg, DenyRuleInfo(r.job, r.dir, chunks[j]))
  {
    forall i | 0 <= i < |chunks[j]|
      ensures chunks[j][i] in r.apps
    {
      ConcatHolds(chunks, j, chunks[j][i]);
    }
  }

  lemma {:induction false} ConcatHolds<T>(chunks: seq<seq<T>>, j: nat, x: T)
    requires j < |chunks| && x in chunks[j]
    ensures x in Concat(chunks)
  {
    if j > 0 {
      ConcatHolds(chunks[1..], j - 1, x);
    }
  }

  lemma {:induction false} ChunkRulesSnoc(r: DenyRuleInfo, chunks: seq<seq<nat>>, c: seq<nat>)
    ensures ChunkRules(r, chunks + [c]) == ChunkRules(r, chunks) + [DenyRuleInfo(r.job, r.dir, c)]
  {
    if chunks == [] {
      assert [c][1..] == [];
    } else {
      assert (chunks + [c])[1..] == chunks[1..] + [c];
      ChunkRulesSnoc(r, chunks[1..], c);
    }
  }

  lemma {:induction false} AttemptsSnoc(rules: seq<DenyRuleInfo>, r: DenyRuleInfo)
    ensures Attempts(rules + [r]) == Attempts(rules) + ChunkRules(r, Chunks(r.apps, MAX_APPS_PER_RULE))
  {
    if rules == [] {
      assert [r][1..] == [];
    } else {
      assert (rules + [r])[1..] == rules[1..] + [r] && (rules + [r])[0] == rules[0];
      AttemptsSnoc(rules[1..], r);
    }
  }

  // The rules of one (job, direction): one per chunk.
  method CreateForOne(cfg: Config, dr: DenyRuleInfo, ipList: string) returns (created: seq<Rule>)
    requires Names(cfg, dr)
    ensures AllCreated(cfg, ChunkRules(dr, Chunks(dr.apps, MAX_APPS_PER_RULE)), ipList, created)
    ensures |created| == (|dr.apps| + 197) / 198
  {
    var chunks := ChunkApps(dr.apps, MAX_APPS_PER_RULE);
    ChunkCount(chunks, dr.apps, MAX_APPS_PER_RULE);
    ChunkRulesAt(dr, chunks);
    ChunkingIsUnique(chunks, dr.apps, MAX_APPS_PER_RULE);
    created := [];
    var job := cfg.jobs[dr.job];
    for j := 0 to |chunks|
      invariant AllCreated(cfg, ChunkRules(dr, chunks[..j]), ipList, created)
    {
      ChunkNames(cfg, dr, chunks, j);
      ChunkRulesSnoc(dr, chunks[..j], chunks[j]);
      assert chunks[..j + 1] == chunks[..j] + [chunks[j]];
      var rule := CreateDenyRule(job.service, AppLabels(job, chunks[j]), job.env, ipList, dr.dir);
      assert Created(cfg, DenyRuleInfo(dr.job, dr.dir, chunks[j]), ipList, rule);
      created := created + [rule];
    }
    assert chunks[..|chunks|] == chunks;
  }

  lemma CreatedJoin(cfg: Config, s: seq<DenyRuleInfo>, t: seq<DenyRuleInfo>, ipList: string, r: seq<Rule>, u: seq<Rule>)
    requires AllCreated(cfg, s, ipList, r) && AllCreated(cfg, t, ipList, u)
    ensures AllCreated(cfg, s + t, ipList, r + u)
  {
  }

  // The creation loop over the rules of a run.
  method CreateRules(cfg: Config, denyRules: seq<DenyRuleInfo>, ipList: string) returns (created: seq<Rule>)
    requires forall r :: r in denyRules ==> Names(cfg, r)
    ensures AllCreated(cfg, Attempts(denyRules), ipList, created)
  {
    created := [];
    for i := 0 to |denyRules|
      invariant AllCreated(cfg, Attempts(denyRules[..i]), ipList, created)
    {
      var more := CreateForOne(cfg, denyRules[i], ipList);
      AttemptsSnoc(denyRules[..i], denyRules[i]);
      assert denyRules[..i + 1] == denyRules[..i] + [denyRules[i]];
      ghost var chunks := Chunks(denyRules[i].apps, MAX_APPS_PER_RULE);
      CreatedJoin(cfg, Attempts(denyRules[..i]), ChunkRules(denyRules[i], chunks), ipList, created, more);
      created := created + more;
    }
    assert denyRules[..|denyRules|] == denyRules;
  }
}
