// What one dag-sync run asks of the firewall, as a function of the firewall's table of
// registered IPs and the workloads of the PCE.
module DagPlan {
  import opened Seqs

  datatype IP = IP(text: string)

  datatype Tag = Tag(text: string)

  type Table = map<IP, set<Tag>>

  // A workload's labels in PCE order, and its href.
  datatype Workload = Workload(labels: seq<Tag>, href: Tag)

  // confirmed: no prompt was wanted, or it was answered with yes.
  datatype Options = Options(update: bool, confirmed: bool, clean: bool, removeOld: bool, noHref: bool)

  // Tags per IP to register; tags per IP to unregister, where no tags means the IP as a whole.
  datatype Request = Register(tags: Table) | Unregister(tags: Table)

  const HREF_MARK: string := "/workloads/"

  predicate HoldsAt(s: string, part: string, i: nat)
  {
    i + |part| <= |s| && s[i..i + |part|] == part
  }

  // strings.Contains of the mark.
  predicate IsHref(tag: Tag)
  {
    exists i :: 0 <= i <= |tag.text| && HoldsAt(tag.text, HREF_MARK, i)
  }

  // What an href is: a tag with the mark anywhere in it, as every workload href of the PCE has.
  lemma HrefForm(tag: Tag)
    ensures IsHref(tag) <==> exists a, b :: tag.text == a + "/workloads/" + b
    ensures forall org, id :: tag.text == "/orgs/" + org + "/workloads/" + id ==> IsHref(tag)
  {
    var s := tag.text;
    if IsHref(tag) {
      var i :| 0 <= i <= |s| && HoldsAt(s, HREF_MARK, i);
      assert s == s[..i] + "/workloads/" + s[i + 11..];
    }
    forall a, b | s == a + "/workloads/" + b
      ensures IsHref(tag)
    {
      assert HoldsAt(s, HREF_MARK, |a|);
    }
    forall org, id | s == "/orgs/" + org + "/workloads/" + id
      ensures IsHref(tag)
    {
      assert HoldsAt(s, HREF_MARK, |"/orgs/" + org|);
    }
  }

  lemma {:induction false} MembersCount(labels: seq<Tag>)
    ensures |Members(labels)| <= |labels|
    ensures |Members(labels)| == |labels| <==> Distinct(labels)
  {
    if labels != [] {
      var n := |labels| - 1;
      var front := labels[..n];
      MembersCount(front);
      assert labels == front + [labels[n]];
      assert Members(labels) == Members(front) + {labels[n]};
      assert labels[n] in front <==> exists i :: 0 <= i < n && labels[i] == labels[n];
    }
  }

  // The tags compared with labels: all of them when hrefs are not wanted, else all but hrefs.
  function PlainTags(tags: set<Tag>, noHref: bool): set<Tag>
  {
    set t | t in tags && (noHref || !IsHref(t))
  }

  predicate HasHref(tags: set<Tag>)
  {
    exists t :: t in tags && IsHref(t)
  }

  predicate Found(tags: set<Tag>, noHref: bool)
  {
    noHref || HasHref(tags)
  }

  // isEqual on tags that do not repeat: also unequal when there are fewer tags than labels.
  predicate Equal(tags: set<Tag>, labels: seq<Tag>)
  {
    tags <= Members(labels) && |tags| >= |labels|
  }

  // ---------- the difference, IP by IP ----------

  predicate Registers(table: Table, ip: IP, w: Workload, noHref: bool)
  {
    && w.labels != []
    && (ip !in table
        || (var tags := PlainTags(table[ip], noHref);
            if Equal(tags, w.labels) then !Found(table[ip], noHref) else Members(w.labels) - tags != {}))
  }

  function Href(w: Workload, noHref: bool): set<Tag>
  {
    if noHref then {} else {w.href}
  }

  function RegisteredTags(table: Table, ip: IP, w: Workload, noHref: bool): set<Tag>
  {
    if ip !in table then Members(w.labels) + Href(w, noHref)
    else
      var tags := PlainTags(table[ip], noHref);
      if Equal(tags, w.labels) then Members(w.labels) - tags + Href(w, noHref) else Members(w.labels) - tags
  }

  predicate UnregistersTags(table: Table, ip: IP, w: Workload, noHref: bool)
  {
    && w.labels != [] && ip in table
    && !Equal(PlainTags(table[ip], noHref), w.labels) && PlainTags(table[ip], noHref) - Members(w.labels) != {}
  }

  predicate Stale(table: Table, wl: map<IP, Workload>, ip: IP, opts: Options)
  {
    ip in table && ip !in wl && opts.removeOld && Found(table[ip], opts.noHref)
  }

  function ToRegister(table: Table, wl: map<IP, Workload>, opts: Options): Table
  {
    map ip | ip in wl && Registers(table, ip, wl[ip], opts.noHref) :: RegisteredTags(table, ip, wl[ip], opts.noHref)
  }

  function ToUnregister(table: Table, wl: map<IP, Workload>, opts: Options): Table
  {
    map ip | ip in wl.Keys + table.Keys
             && (if ip in wl then UnregistersTags(table, ip, wl[ip], opts.noHref) else Stale(table, wl, ip, opts)) ::
      if ip in wl then PlainTags(table[ip], opts.noHref) - Members(wl[ip].labels) else {}
  }

  // ---------- the requests of a run ----------

  // The flush: IPs found are removed whole, and so are those without plain tags.
  function Flush(table: Table, noHref: bool): Table
  {
    map ip | ip in table && (Found(table[ip], noHref) || PlainTags(table[ip], noHref) == {}) :: {}
  }

  function RegisterAll(wl: map<IP, Workload>, noHref: bool): Table
  {
    map ip | ip in wl :: Members(wl[ip].labels) + Href(wl[ip], noHref)
  }

  // Empty requests are not sent.
  function IfAny(tags: Table, r: Request): seq<Request>
  {
    if tags == map[] then [] else [r]
  }

  function Changes(reg: Table, unreg: Table): seq<Request>
  {
    IfAny(reg, Register(reg)) + IfAny(unreg, Unregister(unreg))
  }

  function PlanDifference(table: Table, wl: map<IP, Workload>, opts: Options): seq<Request>
  {
    if opts.update && !opts.confirmed then []
    else Changes(ToRegister(table, wl, opts), ToUnregister(table, wl, opts))
  }

  function Plan(table: Table, wl0: map<IP, Workload>, opts: Options): seq<Request>
  {
    var wl := if opts.clean then map[] else wl0;
    var go := opts.update && opts.confirmed;
    if opts.clean && table != map[] then
      if go then [Unregister(Flush(table, opts.noHref))] else []
    else if table == map[] && wl != map[] then
      if go then [Register(RegisterAll(wl, opts.noHref))] else []
    else PlanDifference(table, wl, opts)
  }

  // ---------- the firewall ----------

  function Answer(table: Table, r: Request): Table
  {
    match r
    case Register(tags) =>
      map ip | ip in table.Keys + tags.Keys ::
        (if ip in table then table[ip] else {}) + (if ip in tags then tags[ip] else {})
    case Unregister(tags) =>
      map ip | ip in table && !(ip in tags && tags[ip] == {}) ::
        table[ip] - (if ip in tags then tags[ip] else {})
  }

  function AnswerAll(table: Table, rs: seq<Request>): Table
    decreases |rs|
  {
    if rs == [] then table else AnswerAll(Answer(table, rs[0]), rs[1..])
  }

  lemma AnswerOne(table: Table, r: Request)
    ensures AnswerAll(table, []) == table && AnswerAll(table, [r]) == Answer(table, r)
  {
    assert [r][1..] == [];
  }

  lemma {:induction false} AnswerJoin(table: Table, s: seq<Request>, t: seq<Request>)
    ensures AnswerAll(table, s + t) == AnswerAll(AnswerAll(table, s), t)
    decreases |s|
  {
    if s == [] {
      assert s + t == t;
    } else {
      assert (s + t)[0] == s[0] && (s + t)[1..] == s[1..] + t;
      AnswerJoin(Answer(table, s[0]), s[1..], t);
    }
  }

  function Run(table: Table, wl: map<IP, Workload>, opts: Options): Table
  {
    AnswerAll(table, Plan(table, wl, opts))
  }
}
