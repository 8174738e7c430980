// dag-sync step by step: loading the registered IPs, the two requests, the comparison of
// labels, and one whole run, each proved against the functions of DagPlan.
module DagSync {
  import opened Seqs
  import opened DagPlan

  datatype IPTags = IPTags(labels: seq<Tag>, href: Tag, found: bool)

  // One entry of the firewall's reply.
  datatype Entry = Entry(ip: IP, members: seq<Tag>)

  // The reply lists the table: every IP, each time with its tags, in any order. The tags of an
  // IP are a set, so no tag comes twice; an IP may, on two pages of the reply.
  predicate Lists(entries: seq<Entry>, table: Table)
  {
    && (forall i :: 0 <= i < |entries| ==> ListsOne(entries[i], table))
    && (forall ip :: ip in table ==> exists i :: 0 <= i < |entries| && entries[i].ip == ip)
  }

  predicate ListsOne(e: Entry, table: Table)
  {
    e.ip in table && Distinct(e.members) && Members(e.members) == table[e.ip]
  }

  // The firewall: its table and the requests it has got.
  class Firewall {
    var table: Table
    var log: seq<Request>

    constructor (t: Table)
      ensures table == t && log == []
    {
      table := t;
      log := [];
    }

    method Send(r: Request)
      modifies this
      ensures log == old(log) + [r]
      ensures table == Answer(old(table), r)
    {
      log := log + [r];
      table := Answer(table, r);
    }
  }

  // The plain tags of an entry, in order.
  function PlainList(members: seq<Tag>, noHref: bool): (r: seq<Tag>)
  {
    if members == [] then []
    else
      var n := |members| - 1;
      PlainList(members[..n], noHref) + (if noHref || !IsHref(members[n]) then [members[n]] else [])
  }

  // The last href of an entry.
  function LastHref(members: seq<Tag>): Tag
  {
    if members == [] then Tag("")
    else if IsHref(members[|members| - 1]) then members[|members| - 1]
    else LastHref(members[..|members| - 1])
  }

  function EntryTags(members: seq<Tag>, noHref: bool): IPTags
  {
    IPTags(PlainList(members, noHref), if noHref then Tag("") else LastHref(members), Found(Members(members), noHref))
  }

  // The loop over the members of one entry: when hrefs are wanted, a member with the mark in it
  // is never among the labels, and there is an href if there is such a member.
  method SplitTags(members: seq<Tag>, noHref: bool) returns (e: IPTags)
    ensures e == EntryTags(members, noHref)
    ensures noHref ==> e.labels == members && e.found
    ensures !noHref ==> forall a, b :: Tag(a + "/workloads/" + b) !in e.labels
    ensures !noHref ==> (e.found <==> exists a, b :: Tag(a + "/workloads/" + b) in members)
    ensures !noHref && e.found ==> e.href in members && exists a, b :: e.href.text == a + "/workloads/" + b
  {
    var found, cleanTags, href := false, [], Tag("");
    for k := 0 to |members|
      invariant cleanTags == PlainList(members[..k], noHref)
      invariant href == if noHref then Tag("") else LastHref(members[..k])
      invariant found <==> !noHref && HasHref(Members(members[..k]))
    {
      assert members[..k + 1][..k] == members[..k];
      MembersStep(members, k);
      if IsHref(members[k]) && !noHref {
        href := members[k];
        found := true;
      } else {
        cleanTags := cleanTags + [members[k]];
      }
    }
    assert members[..|members|] == members;
    e := IPTags(cleanTags, href, found || noHref);
    HrefsAreSplit(members, noHref);
  }

  // What the loop does to members of the form of an href.
  lemma HrefsAreSplit(members: seq<Tag>, noHref: bool)
    ensures var e := EntryTags(members, noHref);
            if noHref then e.labels == members && e.found
            else
              && (forall a, b :: Tag(a + "/workloads/" + b) !in e.labels)
              && (e.found <==> exists a, b :: Tag(a + "/workloads/" + b) in members)
              && (e.found ==> e.href in members && exists a, b :: e.href.text == a + "/workloads/" + b)
  {
    var e := EntryTags(members, noHref);
    PlainListHolds(members, noHref);
    LastHrefHolds(members);
    forall t: Tag
      ensures IsHref(t) <==> exists a, b :: t.text == a + "/workloads/" + b
    {
      HrefForm(t);
    }
    if noHref {
      AllPlain(members);
    } else {
      forall a, b
        ensures IsHref(Tag(a + "/workloads/" + b))
      {
        assert Tag(a + "/workloads/" + b).text == a + "/workloads/" + b;
      }
      if e.found {
        assert e.href in members;
        var a, b :| e.href.text == a + "/workloads/" + b;
        assert Tag(a + "/workloads/" + b) in members;
      }
    }
  }

  lemma {:induction false} AllPlain(members: seq<Tag>)
    ensures PlainList(members, true) == members
  {
    if members != [] {
      AllPlain(members[..|members| - 1]);
    }
  }

  // A loaded entry stands for tags: the plain ones, once each, and whether there is an href.
  predicate Split(e: IPTags, tags: set<Tag>, noHref: bool)
  {
    Distinct(e.labels) && Members(e.labels) == PlainTags(tags, noHref) && e.found == Found(tags, noHref)
  }

  lemma {:induction false} PlainListHolds(members: seq<Tag>, noHref: bool)
    ensures forall t :: t in PlainList(members, noHref) <==> t in members && (noHref || !IsHref(t))
    ensures Distinct(members) ==> Distinct(PlainList(members, noHref))
  {
    if members != [] {
      var n := |members| - 1;
      PlainListHolds(members[..n], noHref);
      assert members == members[..n] + [members[n]];
      assert Distinct(members) ==> members[n] !in members[..n];
    }
  }

  // What the loop leaves is the plain tags, whether there was an href, and one if so.
  lemma EntryTagsSplit(members: seq<Tag>, noHref: bool)
    ensures Members(EntryTags(members, noHref).labels) == PlainTags(Members(members), noHref)
    ensures Distinct(members) ==> Split(EntryTags(members, noHref), Members(members), noHref)
    ensures EntryTags(members, noHref).found && !noHref ==>
              EntryTags(members, noHref).href in members && IsHref(EntryTags(members, noHref).href)
  {
    PlainListHolds(members, noHref);
    LastHrefHolds(members);
  }

  lemma {:induction false} LastHrefHolds(members: seq<Tag>)
    ensures HasHref(Members(members)) ==> LastHref(members) in members && IsHref(LastHref(members))
  {
    if members != [] {
      var n := |members| - 1;
      LastHrefHolds(members[..n]);
      assert members == members[..n] + [members[n]];
    }
  }

  // A tag that is no label, or that comes a second time.
  predicate Unmatched(tags: seq<Tag>, labels: seq<Tag>, x: Tag)
  {
    x in tags && (x !in labels || multiset(tags)[x] >= 2)
  }

  lemma UnmatchedSnoc(tags: seq<Tag>, labels: seq<Tag>, v: Tag, x: Tag)
    ensures Unmatched(tags + [v], labels, x) <==> Unmatched(tags, labels, x) || (x == v && (v in tags || v !in labels))
  {
    assert multiset(tags + [v]) == multiset(tags) + multiset{v};
    assert x in tags <==> multiset(tags)[x] >= 1;
  }

  // isEqual.
  method IsEqual(a1: seq<Tag>, a2: seq<Tag>) returns (equal: bool, remove: seq<Tag>, addLabels: seq<Tag>)
    ensures forall x :: x in remove <==> Unmatched(a1, a2, x)
    ensures Members(addLabels) == Members(a2) - Members(a1)
    ensures equal <==> remove == [] && |a1| >= |a2|
  {
    var add := Members(a2);
    remove, equal := [], true;
    for k := 0 to |a1|
      invariant add == Members(a2) - Members(a1[..k])
      invariant equal <==> remove == []
      invariant forall x :: x in remove <==> Unmatched(a1[..k], a2, x)
    {
      assert a1[..k + 1] == a1[..k] + [a1[k]];
      forall x
        ensures Unmatched(a1[..k + 1], a2, x) <==> Unmatched(a1[..k], a2, x) || (x == a1[k] && a1[k] !in add)
      {
        UnmatchedSnoc(a1[..k], a2, a1[k], x);
      }
      if a1[k] !in add {
        equal := false;
        remove := remove + [a1[k]];
      } else {
        add := add - {a1[k]};
      }
    }
    assert a1[..|a1|] == a1;
    if |a1| < |a2| {
      equal := false;
    }
    addLabels := Listed(add);
  }

  // Ranging over the keys of a map, in any order.
  method Listed(keys: set<Tag>) returns (s: seq<Tag>)
    ensures Members(s) == keys
  {
    s := [];
    var todo := keys;
    while todo != {}
      invariant todo <= keys && Members(s) == keys - todo
      decreases |todo|
    {
      var x :| x in todo;
      MembersSnoc(s, x);
      s, todo := s + [x], todo - {x};
    }
  }

  // ---------- what the maps of a run stand for ----------

  // The loaded map agrees with the firewall's table.
  ghost predicate Loaded(regIPs: map<IP, IPTags>, table: Table, noHref: bool)
  {
    regIPs.Keys == table.Keys && forall ip :: ip in table ==> Split(regIPs[ip], table[ip], noHref)
  }

  // The tags an entry is registered with.
  function TagsOf(e: IPTags, noHref: bool): set<Tag>
  {
    Members(e.labels) + (if !noHref && !e.found then {e.href} else {})
  }

  function RegisterTags(list: map<IP, IPTags>, noHref: bool): Table
  {
    map ip | ip in list :: TagsOf(list[ip], noHref)
  }

  // No labels, or a found entry of a flush: the IP as a whole. Labels of an entry not found
  // are left out of the request.
  function UnregisterTags(list: map<IP, IPTags>, clean: bool): Table
  {
    map ip | ip in list && (list[ip].labels == [] || list[ip].found) ::
      if list[ip].labels == [] || (clean && list[ip].found) then {} else Members(list[ip].labels)
  }

  lemma DistinctMultiset(s: seq<Tag>)
    requires Distinct(s)
    ensures forall x :: multiset(s)[x] <= 1
  {
    if s != [] {
      var front := s[..|s| - 1];
      DistinctMultiset(front);
      assert s == front + [s[|s| - 1]];
      assert multiset(s) == multiset(front) + multiset{s[|s| - 1]};
      assert s[|s| - 1] !in multiset(front);
    }
  }

  // On a loaded entry isEqual is the comparison of the plan.
  lemma EqualOfLoaded(e: IPTags, tags: set<Tag>, labels: seq<Tag>, noHref: bool)
    requires Split(e, tags, noHref)
    ensures forall x :: Unmatched(e.labels, labels, x) <==> x in PlainTags(tags, noHref) - Members(labels)
    ensures |PlainTags(tags, noHref)| == |e.labels|
  {
    MembersCount(e.labels);
    DistinctMultiset(e.labels);
  }

  // The body of the loop over the workloads, for one IP.
  method CompareIP(regIPs: map<IP, IPTags>, ip: IP, w: Workload, noHref: bool, ghost table: Table)
      returns (reg: Option<IPTags>, unreg: Option<IPTags>)
    requires Loaded(regIPs, table, noHref)
    ensures reg.Some? <==> Registers(table, ip, w, noHref)
    ensures reg.Some? ==> TagsOf(reg.value, noHref) == RegisteredTags(table, ip, w, noHref)
    ensures unreg.Some? <==> UnregistersTags(table, ip, w, noHref)
    ensures unreg.Some? ==> unreg.value.found && unreg.value.labels != []
    ensures unreg.Some? ==> Members(unreg.value.labels) == PlainTags(table[ip], noHref) - Members(w.labels)
  {
    reg, unreg := None, None;
    if |w.labels| == 0 {
      return;
    }
    if ip !in regIPs {
      reg := Some(IPTags(w.labels, w.href, false));
      return;
    }
    ghost var tags := PlainTags(table[ip], noHref);
    EqualOfLoaded(regIPs[ip], table[ip], w.labels, noHref);
    var ok, removeLabels, addLabels := IsEqual(regIPs[ip].labels, w.labels);
    assert Members(removeLabels) == tags - Members(w.labels);
    MinusEmpty(tags, Members(w.labels));
    EmptyMembers(removeLabels);
    EmptyMembers(addLabels);
    if !ok {
      if |addLabels| != 0 {
        reg := Some(IPTags(addLabels, regIPs[ip].href, true));
      }
      if |removeLabels| != 0 {
        unreg := Some(IPTags(removeLabels, regIPs[ip].href, true));
      }
    } else if !regIPs[ip].found {
      reg := Some(IPTags(addLabels, w.href, false));
    }
  }

  lemma MinusEmpty(s: set<Tag>, t: set<Tag>)
    ensures s - t == {} <==> s <= t
  {
    if s - t == {} {
      assert forall x :: x in s ==> x in t || x in s - t;
    }
  }

  lemma EmptyMembers(s: seq<Tag>)
    ensures Members(s) == {} <==> s == []
  {
    if s != [] {
      assert s[0] in Members(s);
    }
  }

  function WorkloadMap(wl: map<IP, Workload>): map<IP, IPTags>
  {
    map ip | ip in wl :: IPTags(wl[ip].labels, wl[ip].href, false)
  }

  // What the loop over the workloads has put into the two maps, with some IPs still to do.
  ghost predicate RegDiff(reg: map<IP, IPTags>, table: Table, wl: map<IP, Workload>, noHref: bool, todo: set<IP>)
  {
    && (forall ip :: ip in reg <==> ip in wl && ip !in todo && Registers(table, ip, wl[ip], noHref))
    && (forall ip :: ip in reg && ip in wl ==> TagsOf(reg[ip], noHref) == RegisteredTags(table, ip, wl[ip], noHref))
  }

  predicate UnregistersAs(e: IPTags, tags: set<Tag>)
  {
    e.found && e.labels != [] && Members(e.labels) == tags
  }

  ghost predicate UnregDiff(unreg: map<IP, IPTags>, table: Table, wl: map<IP, Workload>, noHref: bool, todo: set<IP>)
  {
    && (forall ip :: ip in unreg <==> ip in wl && ip !in todo && UnregistersTags(table, ip, wl[ip], noHref))
    && (forall ip :: ip in unreg && ip in wl && ip in table ==>
          UnregistersAs(unreg[ip], PlainTags(table[ip], noHref) - Members(wl[ip].labels)))
  }

  // The loop over the workloads.
  method CompareWorkloads(regIPs: map<IP, IPTags>, wl: map<IP, Workload>, noHref: bool, ghost table: Table)
      returns (regEntries: map<IP, IPTags>, unregEntries: map<IP, IPTags>)
    requires Loaded(regIPs, table, noHref)
    ensures RegDiff(regEntries, table, wl, noHref, {})
    ensures UnregDiff(unregEntries, table, wl, noHref, {})
  {
    regEntries, unregEntries := map[], map[];
    var todo := wl.Keys;
    while todo != {}
      invariant todo <= wl.Keys
      invariant RegDiff(regEntries, table, wl, noHref, todo)
      invariant UnregDiff(unregEntries, table, wl, noHref, todo)
      decreases |todo|
    {
      var ip :| ip in todo;
      todo := todo - {ip};
      var reg, unreg := CompareIP(regIPs, ip, wl[ip], noHref, table);
      if reg.Some? {
        regEntries := regEntries[ip := reg.value];
      }
      if unreg.Some? {
        unregEntries := unregEntries[ip := unreg.value];
      }
    }
  }

  // The loop over the registered IPs: stale ones join the map of IPs to unregister.
  method AddStale(regIPs: map<IP, IPTags>, wl: map<IP, Workload>, opts: Options, unreg0: map<IP, IPTags>,
                  ghost table: Table)
      returns (unreg: map<IP, IPTags>)
    requires Loaded(regIPs, table, opts.noHref)
    requires forall ip :: ip in unreg0 ==> ip in wl
    ensures forall ip :: ip in unreg <==> ip in unreg0 || Stale(table, wl, ip, opts)
    ensures forall ip :: ip in unreg ==> unreg[ip] == if ip in unreg0 then unreg0[ip] else NOTHING
  {
    unreg := unreg0;
    var todo := regIPs.Keys;
    while todo != {}
      invariant todo <= regIPs.Keys
      invariant forall ip :: ip in unreg <==> ip in unreg0 || (ip !in todo && Stale(table, wl, ip, opts))
      invariant forall ip :: ip in unreg ==> unreg[ip] == if ip in unreg0 then unreg0[ip] else NOTHING
      decreases |todo|
    {
      var ip :| ip in todo;
      todo := todo - {ip};
      if ip !in wl && opts.removeOld && (regIPs[ip].found || opts.noHref) {
        unreg := unreg[ip := NOTHING];
      }
    }
  }

  // The empty IPTags of a stale entry.
  const NOTHING: IPTags := IPTags([], Tag(""), false)

  // The two maps of differences are the plan's.
  method Difference(regIPs: map<IP, IPTags>, wl: map<IP, Workload>, opts: Options, ghost table: Table)
      returns (regEntries: map<IP, IPTags>, unregEntries: map<IP, IPTags>)
    requires Loaded(regIPs, table, opts.noHref) && (opts.clean ==> table == map[] && wl == map[])
    ensures RegisterTags(regEntries, opts.noHref) == ToRegister(table, wl, opts)
    ensures UnregisterTags(unregEntries, opts.clean) == ToUnregister(table, wl, opts)
    ensures unregEntries.Keys == ToUnregister(table, wl, opts).Keys
  {
    var unreg0;
    regEntries, unreg0 := CompareWorkloads(regIPs, wl, opts.noHref, table);
    unregEntries := AddStale(regIPs, wl, opts, unreg0, table);
    RegisterTagsArePlan(regEntries, table, wl, opts);
    UnregisterTagsArePlan(unreg0, unregEntries, table, wl, opts);
  }

  lemma RegisterTagsArePlan(reg: map<IP, IPTags>, table: Table, wl: map<IP, Workload>, opts: Options)
    requires RegDiff(reg, table, wl, opts.noHref, {})
    ensures RegisterTags(reg, opts.noHref) == ToRegister(table, wl, opts)
  {
    var plan := ToRegister(table, wl, opts);
    forall ip | ip in reg
      ensures ip in plan && plan[ip] == TagsOf(reg[ip], opts.noHref)
    {
    }
    assert forall ip :: ip in plan ==> ip in reg;
  }

  lemma UnregisterTagsArePlan(unreg0: map<IP, IPTags>, unreg: map<IP, IPTags>, table: Table, wl: map<IP, Workload>,
                              opts: Options)
    requires opts.clean ==> wl == map[]
    requires UnregDiff(unreg0, table, wl, opts.noHref, {})
    requires forall ip :: ip in unreg <==> ip in unreg0 || Stale(table, wl, ip, opts)
    requires forall ip :: ip in unreg ==> unreg[ip] == if ip in unreg0 then unreg0[ip] else NOTHING
    ensures unreg.Keys == ToUnregister(table, wl, opts).Keys
    ensures UnregisterTags(unreg, opts.clean) == ToUnregister(table, wl, opts)
  {
    var plan := ToUnregister(table, wl, opts);
    var sent := UnregisterTags(unreg, opts.clean);
    forall ip
      ensures (ip in unreg <==> ip in plan) && (ip in sent <==> ip in unreg)
      ensures ip in sent && ip in plan ==> sent[ip] == plan[ip]
    {
      SentAsPlanned(unreg0, unreg, table, wl, opts, ip);
    }
    SameTable(sent, plan);
    assert unreg.Keys == sent.Keys;
  }

  lemma SameTable(t: Table, u: Table)
    requires forall ip :: ip in t <==> ip in u
    requires forall ip :: ip in t && ip in u ==> t[ip] == u[ip]
    ensures t == u
  {
  }

  lemma SentAsPlanned(unreg0: map<IP, IPTags>, unreg: map<IP, IPTags>, table: Table, wl: map<IP, Workload>,
                      opts: Options, ip: IP)
    requires opts.clean ==> wl == map[]
    requires UnregDiff(unreg0, table, wl, opts.noHref, {})
    requires ip in unreg <==> ip in unreg0 || Stale(table, wl, ip, opts)
    requires ip in unreg ==> unreg[ip] == if ip in unreg0 then unreg0[ip] else NOTHING
    ensures ip in unreg <==> ip in ToUnregister(table, wl, opts)
    ensures ip in UnregisterTags(unreg, opts.clean) <==> ip in unreg
    ensures ip in unreg ==> UnregisterTags(unreg, opts.clean)[ip] == ToUnregister(table, wl, opts)[ip]
  {
    if ip in unreg0 {
      UnregistersAsPlan(unreg0, table, wl, opts, ip);
    }
  }

  lemma UnregistersAsPlan(unreg: map<IP, IPTags>, table: Table, wl: map<IP, Workload>, opts: Options, ip: IP)
    requires UnregDiff(unreg, table, wl, opts.noHref, {}) && ip in unreg
    ensures unreg[ip].found && unreg[ip].labels != [] && ip in wl
    ensures ip in ToUnregister(table, wl, opts) && Members(unreg[ip].labels) == ToUnregister(table, wl, opts)[ip]
  {
    assert UnregistersTags(table, ip, wl[ip], opts.noHref);
    assert UnregistersAs(unreg[ip], PlainTags(table[ip], opts.noHref) - Members(wl[ip].labels));
  }

  // ---------- what a reply is loaded to ----------

  // The last entry of an IP counts.
  function Load(entries: seq<Entry>, noHref: bool): map<IP, IPTags>
  {
    if entries == [] then map[]
    else
      var last := entries[|entries| - 1];
      Load(entries[..|entries| - 1], noHref)[last.ip := EntryTags(last.members, noHref)]
  }

  // The entries that are found, repeated ones included.
  function CountFound(entries: seq<Entry>, noHref: bool): nat
  {
    if entries == [] then 0
    else
      CountFound(entries[..|entries| - 1], noHref)
      + (if Found(Members(entries[|entries| - 1].members), noHref) then 1 else 0)
  }

  lemma {:induction false} LoadSplits(entries: seq<Entry>, table: Table, noHref: bool, ip: IP)
    requires forall i :: 0 <= i < |entries| ==> ListsOne(entries[i], table)
    ensures ip in Load(entries, noHref) ==> ip in table && Split(Load(entries, noHref)[ip], table[ip], noHref)
  {
    if entries != [] {
      var n := |entries| - 1;
      assert ListsOne(entries[n], table);
      if entries[n].ip == ip {
        EntryTagsSplit(entries[n].members, noHref);
      } else {
        LoadSplits(entries[..n], table, noHref, ip);
      }
    }
  }

  lemma {:induction false} LoadedIPs(entries: seq<Entry>, noHref: bool)
    ensures forall ip :: ip in Load(entries, noHref) <==> exists i :: 0 <= i < |entries| && entries[i].ip == ip
  {
    if entries != [] {
      var n := |entries| - 1;
      var front := entries[..n];
      LoadedIPs(front, noHref);
      forall ip
        ensures ip in Load(entries, noHref) <==> exists i :: 0 <= i < |entries| && entries[i].ip == ip
      {
        if ip in Load(front, noHref) {
          var i :| 0 <= i < n && front[i].ip == ip;
          assert entries[i].ip == ip;
        }
        assert entries[n].ip == ip || ip !in Load(entries, noHref) || ip in Load(front, noHref);
        if i :| 0 <= i < n && entries[i].ip == ip {
          assert front[i].ip == ip;
        }
      }
    }
  }

  // A reply that lists the table is loaded to the table.
  lemma ListedIsLoaded(entries: seq<Entry>, table: Table, noHref: bool)
    requires Lists(entries, table)
    ensures Loaded(Load(entries, noHref), table, noHref)
  {
    LoadedIPs(entries, noHref);
    forall ip | ip in table
      ensures ip in Load(entries, noHref) && Split(Load(entries, noHref)[ip], table[ip], noHref)
    {
      LoadSplits(entries, table, noHref, ip);
    }
  }

  function FoundIPs(table: Table, noHref: bool): set<IP>
  {
    set ip | ip in table && Found(table[ip], noHref)
  }

  function FoundLoaded(regIPs: map<IP, IPTags>): set<IP>
  {
    set ip | ip in regIPs && regIPs[ip].found
  }

  predicate SameIP(e: Entry, f: Entry)
  {
    e.ip == f.ip
  }

  ghost predicate OneEach(entries: seq<Entry>)
  {
    forall i, j {:trigger SameIP(entries[i], entries[j])} :: 0 <= i < j < |entries| ==> !SameIP(entries[i], entries[j])
  }

  lemma AddFound(regIPs: map<IP, IPTags>, ip: IP, e: IPTags)
    requires ip !in regIPs
    ensures |FoundLoaded(regIPs[ip := e])| == |FoundLoaded(regIPs)| + (if e.found then 1 else 0)
  {
    assert FoundLoaded(regIPs[ip := e]) == FoundLoaded(regIPs) + (if e.found then {ip} else {});
  }

  lemma NewIP(entries: seq<Entry>, noHref: bool)
    requires OneEach(entries) && entries != []
    ensures entries[|entries| - 1].ip !in Load(entries[..|entries| - 1], noHref)
    ensures OneEach(entries[..|entries| - 1])
  {
    var n := |entries| - 1;
    LoadedIPs(entries[..n], noHref);
    assert forall i :: 0 <= i < n ==> !SameIP(entries[i], entries[n]);
  }

  lemma {:induction false} CountOfLoaded(entries: seq<Entry>, noHref: bool)
    requires OneEach(entries)
    ensures CountFound(entries, noHref) == |FoundLoaded(Load(entries, noHref))|
  {
    if entries != [] {
      var n := |entries| - 1;
      NewIP(entries, noHref);
      CountOfLoaded(entries[..n], noHref);
      AddFound(Load(entries[..n], noHref), entries[n].ip, EntryTags(entries[n].members, noHref));
    }
  }

  // When no IP comes twice the counter is the number of IPs found.
  lemma CountIsFound(entries: seq<Entry>, table: Table, noHref: bool)
    requires Lists(entries, table) && OneEach(entries)
    ensures CountFound(entries, noHref) == |FoundIPs(table, noHref)|
  {
    CountOfLoaded(entries, noHref);
    ListedIsLoaded(entries, table, noHref);
    assert FoundLoaded(Load(entries, noHref)) == FoundIPs(table, noHref);
  }

  // ---------- the PAN object ----------

  class Pan {
    const fw: Firewall
    var regIPs: map<IP, IPTags>
    var foundCounter: nat

    constructor (f: Firewall)
      ensures fw == f && regIPs == map[] && foundCounter == 0
    {
      fw := f;
      regIPs := map[];
      foundCounter := 0;
    }

    // The loop over the firewall's reply.
    method LoadRegisteredIPs(entries: seq<Entry>, noHref: bool)
      requires regIPs == map[]
      modifies this
      ensures regIPs == Load(entries, noHref) && foundCounter == CountFound(entries, noHref)
    {
      foundCounter := 0;
      for k := 0 to |entries|
        invariant regIPs == Load(entries[..k], noHref) && foundCounter == CountFound(entries[..k], noHref)
      {
        assert entries[..k + 1][..k] == entries[..k];
        var e := SplitTags(entries[k].members, noHref);
        if e.found {
          foundCounter := foundCounter + 1;
        }
        regIPs := regIPs[entries[k].ip := e];
      }
      assert entries[..|entries|] == entries;
    }

    method Register(list: map<IP, IPTags>, noHref: bool)
      modifies fw
      ensures fw.log == old(fw.log) + [DagPlan.Register(RegisterTags(list, noHref))]
      ensures fw.table == Answer(old(fw.table), DagPlan.Register(RegisterTags(list, noHref)))
    {
      var entries: Table := map[];
      var todo := list.Keys;
      while todo != {}
        invariant todo <= list.Keys
        invariant forall ip :: ip in entries <==> ip in list && ip !in todo
        invariant forall ip :: ip in entries ==> entries[ip] == TagsOf(list[ip], noHref)
        invariant fw.log == old(fw.log) && fw.table == old(fw.table)
        decreases |todo|
      {
        var ip :| ip in todo;
        todo := todo - {ip};
        var labels := list[ip].labels;
        if !noHref && !list[ip].found {
          MembersSnoc(labels, list[ip].href);
          labels := labels + [list[ip].href];
        }
        entries := entries[ip := Members(labels)];
      }
      assert entries == RegisterTags(list, noHref);
      fw.Send(DagPlan.Register(entries));
    }

    method UnRegister(list: map<IP, IPTags>, clean: bool)
      modifies fw
      ensures fw.log == old(fw.log) + [Unregister(UnregisterTags(list, clean))]
      ensures fw.table == Answer(old(fw.table), Unregister(UnregisterTags(list, clean)))
    {
      var entries: Table := map[];
      var todo := list.Keys;
      while todo != {}
        invariant todo <= list.Keys
        invariant forall ip :: ip in entries <==> ip in list && ip !in todo && (list[ip].labels == [] || list[ip].found)
        invariant forall ip :: ip in entries ==>
                    entries[ip] ==
                    if list[ip].labels == [] || (clean && list[ip].found) then {} else Members(list[ip].labels)
        invariant fw.log == old(fw.log) && fw.table == old(fw.table)
        decreases |todo|
      {
        var ip :| ip in todo;
        todo := todo - {ip};
        if |list[ip].labels| == 0 || (clean && list[ip].found) {
          entries := entries[ip := {}];
        } else if list[ip].found {
          entries := entries[ip := Members(list[ip].labels)];
        }
      }
      assert entries == UnregisterTags(list, clean);
      fw.Send(Unregister(entries));
    }

    method RegisterIfAny(list: map<IP, IPTags>, noHref: bool)
      modifies fw
      ensures var reg := RegisterTags(list, noHref);
              fw.log == old(fw.log) + IfAny(reg, DagPlan.Register(reg))
              && fw.table == AnswerAll(old(fw.table), IfAny(reg, DagPlan.Register(reg)))
    {
      AnswerOne(fw.table, DagPlan.Register(RegisterTags(list, noHref)));
      NoKeys(list, RegisterTags(list, noHref));
      if list != map[] {
        Register(list, noHref);
      }
    }

    method UnRegisterIfAny(list: map<IP, IPTags>, clean: bool)
      requires list.Keys == UnregisterTags(list, clean).Keys
      modifies fw
      ensures var unreg := UnregisterTags(list, clean);
              fw.log == old(fw.log) + IfAny(unreg, Unregister(unreg))
              && fw.table == AnswerAll(old(fw.table), IfAny(unreg, Unregister(unreg)))
    {
      AnswerOne(fw.table, Unregister(UnregisterTags(list, clean)));
      NoKeys(list, UnregisterTags(list, clean));
      if list != map[] {
        UnRegister(list, clean);
      }
    }

    method FlushAll(noHref: bool)
      requires Loaded(regIPs, fw.table, noHref)
      modifies fw
      ensures fw.log == old(fw.log) + [Unregister(Flush(old(fw.table), noHref))]
      ensures fw.table == AnswerAll(old(fw.table), [Unregister(Flush(old(fw.table), noHref))])
    {
      FlushTags(regIPs, fw.table, noHref);
      AnswerOne(fw.table, Unregister(Flush(fw.table, noHref)));
      UnRegister(regIPs, true);
    }

    method RegisterWorkloads(wl: map<IP, Workload>, noHref: bool)
      modifies fw
      ensures fw.log == old(fw.log) + [DagPlan.Register(RegisterAll(wl, noHref))]
      ensures fw.table == AnswerAll(old(fw.table), [DagPlan.Register(RegisterAll(wl, noHref))])
    {
      AllTags(wl, noHref);
      AnswerOne(fw.table, DagPlan.Register(RegisterAll(wl, noHref)));
      Register(WorkloadMap(wl), noHref);
    }

    // One run, up to the answers to the prompts.
    method DagSync(entries: seq<Entry>, wl0: map<IP, Workload>, opts: Options)
      requires Lists(entries, fw.table) && regIPs == map[]
      modifies this, fw
      ensures fw.log == old(fw.log) + Plan(old(fw.table), wl0, opts)
      ensures fw.table == Run(old(fw.table), wl0, opts)
    {
      ghost var table := fw.table;
      LoadRegisteredIPs(entries, opts.noHref);
      ListedIsLoaded(entries, table, opts.noHref);
      NoKeys(regIPs, table);
      var wl := if opts.clean then map[] else wl0;
      if opts.clean && regIPs != map[] {
        if opts.update && opts.confirmed {
          FlushAll(opts.noHref);
        }
        return;
      }
      if regIPs == map[] && wl != map[] {
        if opts.update && opts.confirmed {
          RegisterWorkloads(wl, opts.noHref);
        }
        return;
      }
      SyncDifference(wl, opts);
    }

    // The comparison of both sides and the requests that come of it.
    method SyncDifference(wl: map<IP, Workload>, opts: Options)
      requires Loaded(regIPs, fw.table, opts.noHref) && (opts.clean ==> fw.table == map[] && wl == map[])
      modifies fw
      ensures fw.log == old(fw.log) + PlanDifference(old(fw.table), wl, opts)
      ensures fw.table == AnswerAll(old(fw.table), PlanDifference(old(fw.table), wl, opts))
    {
      ghost var table := fw.table;
      var regEntries, unregEntries := Difference(regIPs, wl, opts, table);
      if opts.update && !opts.confirmed {
        return;
      }
      ghost var reg, unreg := ToRegister(table, wl, opts), ToUnregister(table, wl, opts);
      AnswerJoin(table, IfAny(reg, DagPlan.Register(reg)), IfAny(unreg, Unregister(unreg)));
      RegisterIfAny(regEntries, opts.noHref);
      UnRegisterIfAny(unregEntries, opts.clean);
    }
  }

  lemma NoKeys(m: map<IP, IPTags>, t: Table)
    requires m.Keys == t.Keys
    ensures m == map[] <==> t == map[]
  {
    assert m == map[] <==> m.Keys == {};
    assert t == map[] <==> t.Keys == {};
  }

  lemma FlushTags(regIPs: map<IP, IPTags>, table: Table, noHref: bool)
    requires Loaded(regIPs, table, noHref)
    ensures UnregisterTags(regIPs, true) == Flush(table, noHref)
  {
    forall ip | ip in table
      ensures regIPs[ip].labels == [] <==> PlainTags(table[ip], noHref) == {}
    {
      EmptyMembers(regIPs[ip].labels);
    }
  }

  lemma AllTags(wl: map<IP, Workload>, noHref: bool)
    ensures RegisterTags(WorkloadMap(wl), noHref) == RegisterAll(wl, noHref)
  {
  }
}
