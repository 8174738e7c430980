// What repeated dag-sync runs reach, and what they never touch.
module DagLaws {
  import opened Seqs
  import opened DagPlan

  // As the PCE gives them: at least one label, and an href.
  ghost predicate Delivered(wl: map<IP, Workload>)
  {
    forall ip :: ip in wl ==> wl[ip].labels != [] && IsHref(wl[ip].href)
  }

  // No label looks like an href, or hrefs are not wanted and not looked for.
  ghost predicate PlainLabels(wl: map<IP, Workload>, noHref: bool)
  {
    forall ip :: ip in wl ==> Plain(wl[ip], noHref)
  }

  predicate Plain(w: Workload, noHref: bool)
  {
    noHref || forall l :: l in w.labels ==> !IsHref(l)
  }

  predicate Updating(opts: Options)
  {
    !opts.clean && opts.update && opts.confirmed
  }

  // ---------- the effect of the changes on one IP ----------

  function Tags(t: Table, ip: IP): set<Tag>
  {
    if ip in t then t[ip] else {}
  }

  predicate Wiped(unreg: Table, ip: IP)
  {
    ip in unreg && unreg[ip] == {}
  }

  lemma ChangedAt(table: Table, reg: Table, unreg: Table, ip: IP)
    ensures var t := AnswerAll(table, Changes(reg, unreg));
            && (ip in t <==> (ip in table || ip in reg) && !Wiped(unreg, ip))
            && (ip in t ==> Tags(t, ip) == Tags(table, ip) + Tags(reg, ip) - Tags(unreg, ip))
  {
    AnswerOne(table, Register(reg));
    AnswerOne(table, Unregister(unreg));
    AnswerJoin(table, IfAny(reg, Register(reg)), IfAny(unreg, Unregister(unreg)));
    AnswerOne(Answer(table, Register(reg)), Unregister(unreg));
  }

  // ---------- one run, seen from one IP of a workload ----------

  // The tags of a workload's IP after an updating run.
  function After(table: Table, ip: IP, w: Workload, noHref: bool): set<Tag>
  {
    var L := Members(w.labels);
    if ip !in table then L + Href(w, noHref)
    else
      var P := PlainTags(table[ip], noHref);
      if !Equal(P, w.labels) then table[ip] + (L - P) - (P - L)
      else if Found(table[ip], noHref) then table[ip]
      else table[ip] + Href(w, noHref)
  }

  lemma EqualSets(P: set<Tag>, labels: seq<Tag>)
    requires Equal(P, labels)
    ensures P == Members(labels) && |Members(labels)| == |labels|
  {
    MembersCount(labels);
    SubsetOfSameSize(P, Members(labels));
  }

  lemma SubsetOfSameSize(s: set<Tag>, t: set<Tag>)
    requires s <= t && |s| >= |t|
    ensures s == t
  {
    assert t == s + (t - s);
  }

  // An updating run leaves every workload's IP with these tags.
  lemma RunAt(table: Table, wl: map<IP, Workload>, opts: Options, ip: IP)
    requires Updating(opts) && ip in wl && wl[ip].labels != []
    ensures ip in Run(table, wl, opts) && Run(table, wl, opts)[ip] == After(table, ip, wl[ip], opts.noHref)
  {
    if table == map[] {
      AnswerOne(table, Register(RegisterAll(wl, opts.noHref)));
    } else {
      ChangedAt(table, ToRegister(table, wl, opts), ToUnregister(table, wl, opts), ip);
      if ip in table && Equal(PlainTags(table[ip], opts.noHref), wl[ip].labels) {
        EqualSets(PlainTags(table[ip], opts.noHref), wl[ip].labels);
      }
    }
  }

  // ... and every other IP as it was, unless it is stale.
  lemma RunElsewhere(table: Table, wl: map<IP, Workload>, opts: Options, ip: IP)
    requires Updating(opts) && ip !in wl
    ensures ip in Run(table, wl, opts) <==> ip in table && !Stale(table, wl, ip, opts)
    ensures ip in Run(table, wl, opts) ==> Run(table, wl, opts)[ip] == table[ip]
  {
    if table == map[] && wl != map[] {
      AnswerOne(table, Register(RegisterAll(wl, opts.noHref)));
    } else {
      ChangedAt(table, ToRegister(table, wl, opts), ToUnregister(table, wl, opts), ip);
    }
  }

  // ---------- convergence ----------

  // Every workload's IP carries the workload's labels and nothing else but hrefs.
  ghost predicate LabelsSettled(table: Table, wl: map<IP, Workload>, noHref: bool)
  {
    forall ip :: ip in wl ==> ip in table && PlainTags(table[ip], noHref) == Members(wl[ip].labels)
  }

  ghost predicate NoStale(table: Table, wl: map<IP, Workload>, opts: Options)
  {
    forall ip :: !Stale(table, wl, ip, opts)
  }

  // An href is added to what is there already, unless labels repeat.
  lemma AfterHasLabels(table: Table, ip: IP, w: Workload, noHref: bool)
    requires w.labels != [] && IsHref(w.href) && Plain(w, noHref)
    ensures PlainTags(After(table, ip, w, noHref), noHref) == Members(w.labels)
    ensures !noHref ==> (HasHref(After(table, ip, w, noHref)) <==>
              ip !in table || HasHref(table[ip]) || Equal(PlainTags(table[ip], false), w.labels))
  {
    var after := After(table, ip, w, noHref);
    if ip in table {
      var P := PlainTags(table[ip], noHref);
      if Equal(P, w.labels) {
        EqualSets(P, w.labels);
      }
    }
    if !noHref && (ip !in table || Equal(PlainTags(table[ip], false), w.labels)) {
      assert (ip in table && HasHref(table[ip])) || w.href in after;
    }
  }

  // One updating run settles the labels and removes what is stale.
  lemma RunSettlesLabels(table: Table, wl: map<IP, Workload>, opts: Options)
    requires Updating(opts) && Delivered(wl) && PlainLabels(wl, opts.noHref)
    ensures LabelsSettled(Run(table, wl, opts), wl, opts.noHref)
    ensures NoStale(Run(table, wl, opts), wl, opts)
  {
    forall ip | ip in wl
      ensures ip in Run(table, wl, opts) && PlainTags(Run(table, wl, opts)[ip], opts.noHref) == Members(wl[ip].labels)
    {
      RunAt(table, wl, opts, ip);
      AfterHasLabels(table, ip, wl[ip], opts.noHref);
    }
    forall ip
      ensures !Stale(Run(table, wl, opts), wl, ip, opts)
    {
      if ip !in wl {
        RunElsewhere(table, wl, opts, ip);
      }
    }
  }

  // An IP has its href, or repeated labels keep it from being asked for.
  ghost predicate HrefsSettled(table: Table, wl: map<IP, Workload>, noHref: bool)
  {
    forall ip :: ip in wl ==> ip in table && (Found(table[ip], noHref) || !Distinct(wl[ip].labels))
  }

  lemma SettledEqual(P: set<Tag>, labels: seq<Tag>)
    requires P == Members(labels)
    ensures Equal(P, labels) <==> Distinct(labels)
  {
    MembersCount(labels);
  }

  // On settled labels an updating run settles the hrefs.
  lemma RunSettlesHrefs(table: Table, wl: map<IP, Workload>, opts: Options)
    requires Updating(opts) && Delivered(wl) && PlainLabels(wl, opts.noHref) && LabelsSettled(table, wl, opts.noHref)
    ensures HrefsSettled(Run(table, wl, opts), wl, opts.noHref)
  {
    forall ip | ip in wl
      ensures ip in Run(table, wl, opts)
      ensures Found(Run(table, wl, opts)[ip], opts.noHref) || !Distinct(wl[ip].labels)
    {
      RunAt(table, wl, opts, ip);
      AfterHasLabels(table, ip, wl[ip], opts.noHref);
      SettledEqual(PlainTags(table[ip], opts.noHref), wl[ip].labels);
    }
  }

  // Nothing left to do: labels and hrefs settled, nothing stale.
  ghost predicate AtRest(table: Table, wl: map<IP, Workload>, opts: Options)
  {
    && LabelsSettled(table, wl, opts.noHref)
    && HrefsSettled(table, wl, opts.noHref)
    && NoStale(table, wl, opts)
  }

  ghost predicate Labelled(wl: map<IP, Workload>)
  {
    forall ip :: ip in wl ==> wl[ip].labels != []
  }

  // The comparison finds nothing for one IP exactly when it is settled.
  lemma NothingToDoAt(table: Table, ip: IP, w: Workload, noHref: bool)
    requires w.labels != []
    ensures !Registers(table, ip, w, noHref) && !UnregistersTags(table, ip, w, noHref) <==>
            ip in table && PlainTags(table[ip], noHref) == Members(w.labels) && (Found(table[ip], noHref)
                || !Distinct(w.labels))
  {
    if ip in table {
      var P := PlainTags(table[ip], noHref);
      if P == Members(w.labels) {
        SettledEqual(P, w.labels);
      } else if Equal(P, w.labels) {
        EqualSets(P, w.labels);
      }
    }
  }

  lemma NoChangesAtRest(table: Table, wl: map<IP, Workload>, opts: Options)
    requires Labelled(wl)
    ensures ToRegister(table, wl, opts) == map[] && ToUnregister(table, wl, opts) == map[] <==> AtRest(table, wl, opts)
  {
    var reg, unreg := ToRegister(table, wl, opts), ToUnregister(table, wl, opts);
    forall ip | ip in wl
      ensures ip !in reg && ip !in unreg <==>
              ip in table && PlainTags(table[ip], opts.noHref) == Members(wl[ip].labels)
              && (Found(table[ip], opts.noHref) || !Distinct(wl[ip].labels))
    {
      NothingToDoAt(table, ip, wl[ip], opts.noHref);
    }
    assert forall ip :: ip !in wl ==> ip !in reg && (ip in unreg <==> Stale(table, wl, ip, opts));
    assert reg == map[] <==> forall ip :: ip !in reg;
    assert unreg == map[] <==> forall ip :: ip !in unreg;
  }

  // A non-clean run sends something exactly when the firewall is not at rest and nobody denied
  // the prompt; without the update flag, when besides the firewall's table is not empty.
  lemma WhenRunsSend(table: Table, wl: map<IP, Workload>, opts: Options)
    requires !opts.clean && Labelled(wl)
    ensures Plan(table, wl, opts) != [] <==>
            (if opts.update then opts.confirmed else table != map[]) && !AtRest(table, wl, opts)
  {
    NoChangesAtRest(table, wl, opts);
    if table == map[] && wl != map[] {
      var ip :| ip in wl;
      assert !LabelsSettled(table, wl, opts.noHref);
    }
  }

  // Two updating runs bring the firewall to rest: after the first, the tags of every
  // workload's IP are its labels, hrefs aside; after the second no request is left.
  lemma TwoRunsConverge(table: Table, wl: map<IP, Workload>, opts: Options)
    requires Updating(opts) && Delivered(wl) && PlainLabels(wl, opts.noHref)
    ensures var one := Run(table, wl, opts);
            var two := Run(one, wl, opts);
            && LabelsSettled(one, wl, opts.noHref)
            && LabelsSettled(two, wl, opts.noHref)
            && HrefsSettled(two, wl, opts.noHref)
            && Plan(two, wl, opts) == []
  {
    var one := Run(table, wl, opts);
    RunSettlesLabels(table, wl, opts);
    RunSettlesLabels(one, wl, opts);
    RunSettlesHrefs(one, wl, opts);
    WhenRunsSend(Run(one, wl, opts), wl, opts);
  }

  lemma MissingLabelDiffers(P: set<Tag>, labels: seq<Tag>, l: Tag)
    requires l in labels && l !in P
    ensures !Equal(P, labels)
  {
    if Equal(P, labels) {
      EqualSets(P, labels);
    }
  }

  // A label that looks like an href keeps the runs from ever resting: it is asked for again
  // each time, since it is not among the plain tags.
  lemma HrefLikeLabelNeverRests(table: Table, wl: map<IP, Workload>, opts: Options, ip: IP, l: Tag)
    requires Updating(opts) && !opts.noHref && ip in wl && l in wl[ip].labels && IsHref(l)
    ensures Plan(table, wl, opts) != []
  {
    if table != map[] {
      if ip in table {
        MissingLabelDiffers(PlainTags(table[ip], false), wl[ip].labels, l);
      }
      assert l in Members(wl[ip].labels) - (if ip in table then PlainTags(table[ip], false) else {});
      assert ip in ToRegister(table, wl, opts);
    }
  }

  // The third run is quiet exactly when hrefs are not wanted or no label looks like one.
  lemma ThirdRunIsQuiet(table: Table, wl: map<IP, Workload>, opts: Options)
    requires Updating(opts) && Delivered(wl)
    ensures Plan(Run(Run(table, wl, opts), wl, opts), wl, opts) == [] <==> PlainLabels(wl, opts.noHref)
  {
    if PlainLabels(wl, opts.noHref) {
      TwoRunsConverge(table, wl, opts);
    } else {
      var ip :| ip in wl && !Plain(wl[ip], opts.noHref);
      var l :| l in wl[ip].labels && IsHref(l);
      HrefLikeLabelNeverRests(Run(Run(table, wl, opts), wl, opts), wl, opts, ip, l);
    }
  }

  function Runs(table: Table, wl: map<IP, Workload>, opts: Options, n: nat): Table
  {
    if n == 0 then table else Run(Runs(table, wl, opts, n - 1), wl, opts)
  }

  lemma {:induction false} RestsAfterTwo(table: Table, wl: map<IP, Workload>, opts: Options, n: nat)
    requires Updating(opts) && Delivered(wl) && PlainLabels(wl, opts.noHref) && n >= 2
    ensures Runs(table, wl, opts, n) == Run(Run(table, wl, opts), wl, opts)
  {
    TwoRunsConverge(table, wl, opts);
    assert Runs(table, wl, opts, 1) == Run(Runs(table, wl, opts, 0), wl, opts);
    if n > 2 {
      RestsAfterTwo(table, wl, opts, n - 1);
      AnswerOne(Run(Run(table, wl, opts), wl, opts), Register(map[]));
    }
  }

  // However often it runs, an IP gets its href exactly when it was unknown, had one already,
  // or its workload's label values differ from each other.
  lemma HrefEventually(table: Table, wl: map<IP, Workload>, opts: Options, ip: IP, n: nat)
    requires Updating(opts) && !opts.noHref && Delivered(wl) && PlainLabels(wl, false) && ip in wl && n >= 2
    ensures ip in Runs(table, wl, opts, n)
    ensures HasHref(Runs(table, wl, opts, n)[ip]) <==> ip !in table || HasHref(table[ip]) || Distinct(wl[ip].labels)
  {
    var one := Run(table, wl, opts);
    RestsAfterTwo(table, wl, opts, n);
    RunAt(table, wl, opts, ip);
    RunAt(one, wl, opts, ip);
    AfterHasLabels(table, ip, wl[ip], false);
    AfterHasLabels(one, ip, wl[ip], false);
    SettledEqual(PlainTags(one[ip], false), wl[ip].labels);
    if ip in table && Equal(PlainTags(table[ip], false), wl[ip].labels) {
      EqualSets(PlainTags(table[ip], false), wl[ip].labels);
      MembersCount(wl[ip].labels);
    }
  }

  // ---------- safety of non-clean runs ----------

  // A workload's IP is never unregistered as a whole, nor any of its labels, nor (unless hrefs
  // are not wanted) an href.
  lemma WorkloadsStay(table: Table, wl: map<IP, Workload>, opts: Options, r: Request, ip: IP)
    requires !opts.clean && r in Plan(table, wl, opts) && r.Unregister? && ip in wl && ip in r.tags
    ensures r.tags[ip] != {} && r.tags[ip] !! Members(wl[ip].labels)
    ensures !opts.noHref ==> forall t :: t in r.tags[ip] ==> !IsHref(t)
  {
    assert r == Unregister(ToUnregister(table, wl, opts));
  }

  // NOTHING is registered without a tag, and only IPs of workloads are registered.
  lemma RegistersSomething(table: Table, wl: map<IP, Workload>, opts: Options, r: Request, ip: IP)
    requires !opts.clean && Delivered(wl) && r in Plan(table, wl, opts) && r.Register? && ip in r.tags
    ensures ip in wl && r.tags[ip] != {}
    ensures forall t :: t in r.tags[ip] ==> t in wl[ip].labels || (t == wl[ip].href && !opts.noHref)
  {
    assert wl[ip].labels[0] in Members(wl[ip].labels);
    if r == Register(ToRegister(table, wl, opts)) && ip in table {
      assert Registers(table, ip, wl[ip], opts.noHref);
      var P := PlainTags(table[ip], opts.noHref);
      if Equal(P, wl[ip].labels) {
        assert wl[ip].href in RegisteredTags(table, ip, wl[ip], opts.noHref);
      }
    }
  }

  // An IP of no workload is in a request exactly when stale IPs are to go and it counts as
  // put there by an earlier run; it then goes as a whole.
  lemma StrangersStay(table: Table, wl: map<IP, Workload>, opts: Options, ip: IP)
    requires Updating(opts) && ip !in wl
    ensures (exists r :: r in Plan(table, wl, opts) && ip in r.tags) <==>
            ip in table && opts.removeOld && (opts.noHref || HasHref(table[ip]))
    ensures forall r :: r in Plan(table, wl, opts) && ip in r.tags ==> r.Unregister? && r.tags[ip] == {}
  {
    var unreg := ToUnregister(table, wl, opts);
    if Stale(table, wl, ip, opts) {
      assert ip in unreg;
      assert Unregister(unreg) in Plan(table, wl, opts);
    }
  }

  // ---------- runs that should only log ----------

  // Without the update flag a non-clean run sends what the same run with the flag would, to any
  // firewall that is not at rest, unless the firewall's table is empty.
  lemma LogOnlyRunSends(table: Table, wl: map<IP, Workload>, opts: Options)
    requires !opts.update && !opts.clean && Labelled(wl)
    ensures Plan(table, wl, opts) != [] <==> table != map[] && !AtRest(table, wl, opts)
    ensures Plan(table, wl, opts) != [] ==>
            Plan(table, wl, opts) == Plan(table, wl, opts.(update := true, confirmed := true))
  {
    var confirmed := opts.(update := true, confirmed := true);
    WhenRunsSend(table, wl, opts);
    assert ToRegister(table, wl, confirmed) == ToRegister(table, wl, opts);
    assert ToUnregister(table, wl, confirmed) == ToUnregister(table, wl, opts);
  }

  // A flush that is wanted and confirmed leaves exactly the IPs that have a tag but no href,
  // and none if hrefs are not looked for; any other flush leaves all.
  lemma FlushLeaves(table: Table, wl: map<IP, Workload>, opts: Options, ip: IP)
    requires opts.clean
    ensures ip in Run(table, wl, opts) <==>
            ip in table && (opts.update && opts.confirmed ==> !opts.noHref && !HasHref(table[ip]) && table[ip] != {})
    ensures ip in Run(table, wl, opts) ==> Run(table, wl, opts)[ip] == table[ip]
  {
    if table == map[] {
      assert ToRegister(table, map[], opts) == map[] && ToUnregister(table, map[], opts) == map[];
    } else {
      AnswerOne(table, Unregister(Flush(table, opts.noHref)));
      if ip in table && !Found(table[ip], opts.noHref) {
        assert PlainTags(table[ip], false) == table[ip];
      }
    }
  }
}
