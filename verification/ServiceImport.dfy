// svc-import after grouping: each CSV service against the PCE's, key by key; and what exporting
// services and importing the rows again reports.
module ServiceImport {
  import opened Seqs
  import opened Text
  import opened ServiceRows
  import opened ServiceGroups

  datatype Key = Key(text: string)

  // Keys of one service start alike: href, ports and protocol.
  function KeyText(href: string, p: PortSvc, rest: string): Key
  {
    Key(href + "-" + (ItoaInt(p.port) + "-" + (ItoaInt(p.toPort) + "-" + (ItoaInt(p.protocol) + "-" + rest))))
  }

  function PortRest(p: PortSvc): string
  {
    ItoaInt(p.icmpCode) + "-" + ItoaInt(p.icmpType)
  }

  function WinRest(w: WinSvc): string
  {
    w.process + "-" + (w.service + "-" + PortRest(w.p))
  }

  function PortKey(href: string, p: PortSvc): Key
  {
    KeyText(href, p, PortRest(p))
  }

  function WinKey(href: string, w: WinSvc): Key
  {
    KeyText(href, w.p, WinRest(w))
  }

  function WinKeys(href: string, windows: seq<WinSvc>): (r: seq<Key>)
    ensures |r| == |windows| && forall i {:trigger r[i]} :: 0 <= i < |r| ==> r[i] == WinKey(href, windows[i])
  {
    seq(|windows|, i requires 0 <= i < |windows| => WinKey(href, windows[i]))
  }

  function PortKeys(href: string, ports: seq<PortSvc>): (r: seq<Key>)
    ensures |r| == |ports| && forall i {:trigger r[i]} :: 0 <= i < |r| ==> r[i] == PortKey(href, ports[i])
  {
    seq(|ports|, i requires 0 <= i < |ports| => PortKey(href, ports[i]))
  }

  function Keys(s: Service): set<Key>
  {
    Members(WinKeys(s.href, s.windows)) + Members(PortKeys(s.href, s.ports))
  }

  method BuildWinKeys(s: Service) returns (keys: set<Key>)
    ensures keys == Members(WinKeys(s.href, s.windows))
  {
    ghost var list := WinKeys(s.href, s.windows);
    keys := {};
    for k := 0 to |s.windows|
      invariant keys == Members(list[..k])
    {
      MembersStep(list, k);
      keys := keys + {WinKey(s.href, s.windows[k])};
    }
    assert list[..|s.windows|] == list;
  }

  method BuildPortKeys(s: Service) returns (keys: set<Key>)
    ensures keys == Members(PortKeys(s.href, s.ports))
  {
    ghost var list := PortKeys(s.href, s.ports);
    keys := {};
    for k := 0 to |s.ports|
      invariant keys == Members(list[..k])
    {
      MembersStep(list, k);
      keys := keys + {PortKey(s.href, s.ports[k])};
    }
    assert list[..|s.ports|] == list;
  }

  // The keys of one side.
  method BuildKeys(s: Service) returns (keys: set<Key>)
    ensures keys == Keys(s)
  {
    var wins := BuildWinKeys(s);
    var ports := BuildPortKeys(s);
    keys := wins + ports;
  }

  // The two-way key comparison.
  method NeedsUpdate(pceSvc: Service, csvSvc: Service) returns (update: bool)
    ensures update <==> Keys(csvSvc) != Keys(pceSvc)
  {
    var pceKeys := BuildKeys(pceSvc);
    var csvKeys := BuildKeys(csvSvc);
    update := KeysDiffer(csvKeys, pceKeys);
  }

  // ---------- the whole import ----------

  // The services of the PCE by href, and the names in use.
  datatype PCE = PCE(services: map<string, Service>, names: set<Name>)

  // A new service whose name is taken, or an href the PCE does not know, ends the run.
  predicate Refused(pce: PCE, s: Service)
  {
    if s.href == "" then s.name in pce.names else s.href !in pce.services
  }

  predicate Created(s: Service)
  {
    s.href == ""
  }

  predicate Updated(pce: PCE, s: Service)
  {
    s.href != "" && s.href in pce.services && Keys(s) != Keys(pce.services[s.href])
  }

  datatype Result = Failed | Imported(created: set<Name>, updated: set<Name>)

  // What the loop over the services finds, as far as it has come.
  ghost predicate Sorted(pce: PCE, groups: map<Name, CsvService>, created: set<Name>, updated: set<Name>,
                         todo: set<Name>)
  {
    && (forall name :: name in created <==> name in groups && name !in todo && Created(groups[name].service))
    && (forall name :: name in updated <==> name in groups && name !in todo && Updated(pce, groups[name].service))
    && (forall name :: name in groups && name !in todo ==> !Refused(pce, groups[name].service))
  }

  // One service of the loop.
  method ImportService(pce: PCE, s: Service) returns (refused: bool, created: bool, updated: bool)
    ensures refused <==> Refused(pce, s)
    ensures !refused ==> (created <==> Created(s)) && (updated <==> Updated(pce, s))
  {
    refused, created, updated := false, false, false;
    if s.href == "" {
      refused, created := s.name in pce.names, true;
    } else if s.href !in pce.services {
      refused := true;
    } else {
      updated := NeedsUpdate(pce.services[s.href], s);
    }
  }

  method ImportGroups(pce: PCE, groups: map<Name, CsvService>) returns (r: Result)
    ensures r.Failed? <==> exists name :: name in groups && Refused(pce, groups[name].service)
    ensures r.Imported? ==> Sorted(pce, groups, r.created, r.updated, {})
  {
    var newServices, updatedServices: set<Name> := {}, {};
    var todo := groups.Keys;
    while todo != {}
      invariant todo <= groups.Keys
      invariant Sorted(pce, groups, newServices, updatedServices, todo)
      decreases |todo|
    {
      var name :| name in todo;
      todo := todo - {name};
      var refused, created, updated := ImportService(pce, groups[name].service);
      if refused {
        return Failed;
      }
      if created {
        newServices := newServices + {name};
      }
      if updated {
        updatedServices := updatedServices + {name};
      }
    }
    r := Imported(newServices, updatedServices);
  }

  // ---------- rows of exported services, read back ----------

  function ItemsOf(rows: seq<Row>): (r: seq<Item>)
    ensures |r| == |rows| && forall i {:trigger r[i]} :: 0 <= i < |rows| ==> r[i] == ItemOf(rows[i])
  {
    seq(|rows|, i requires 0 <= i < |rows| => ItemOf(rows[i]))
  }

  // What the items of one name amount to, whatever else is among them.
  function Wins(items: seq<Item>, name: Name): seq<WinSvc>
  {
    WinEntries(items, name, |items|)
  }

  function Ports(items: seq<Item>, name: Name): seq<PortSvc>
  {
    PortEntries(items, name, |items|)
  }

  lemma {:induction false} PrefixEntries(items: seq<Item>, more: seq<Item>, name: Name, k: nat)
    requires k <= |items|
    ensures WinEntries(items + more, name, k) == WinEntries(items, name, k)
    ensures PortEntries(items + more, name, k) == PortEntries(items, name, k)
  {
    if k > 0 {
      PrefixEntries(items, more, name, k - 1);
      assert (items + more)[k - 1] == items[k - 1];
    }
  }

  lemma EntriesSnoc(items: seq<Item>, item: Item, name: Name)
    ensures Wins(items + [item], name) ==
            Wins(items, name) + (if item.Item? && item.name == name then WinEntry(item) else [])
    ensures Ports(items + [item], name) ==
            Ports(items, name) + (if item.Item? && item.name == name then PortEntry(item) else [])
  {
    PrefixEntries(items, [item], name, |items|);
    assert (items + [item])[|items|] == item;
  }

  // A service of the PCE that the import can take for itself.
  predicate Exportable(s: Service)
  {
    && s.name != Name("") && s.href != ""
    && (forall i :: 0 <= i < |s.ports| ==> InRange(s.ports[i]))
    && (forall i :: 0 <= i < |s.windows| ==> InRange(s.windows[i].p))
  }

  // The item of one exported entry.
  function ExportedItem(s: Service, p: PortSvc, process: string, service: string): Item
  {
    if s.name == ALL_SERVICES then Skipped
    else Item(s.name, s.href, s.description, s.windows != [], WinSvc(Kept(p), process, service))
  }

  lemma RowIsItem(s: Service, p: PortSvc, process: string, service: string)
    requires InRange(p) && s.name != Name("")
    ensures ItemOf(RowOf(s, p, process, service)) == ExportedItem(s, p, process, service)
  {
    EntryReadsBack(s, p, process, service);
  }

  function WinItem(s: Service, w: WinSvc): Item
  {
    ExportedItem(s, w.p, w.process, w.service)
  }

  function ExportedItems(s: Service): (r: seq<Item>)
    ensures |r| == |s.ports| + |s.windows|
    ensures forall i {:trigger r[i]} :: 0 <= i < |r| ==>
              r[i] ==
              if i < |s.ports| then ExportedItem(s, s.ports[i], "", "") else WinItem(s, s.windows[i - |s.ports|])
  {
    seq(|s.ports| + |s.windows|, i requires 0 <= i < |s.ports| + |s.windows| =>
      if i < |s.ports| then ExportedItem(s, s.ports[i], "", "") else WinItem(s, s.windows[i - |s.ports|]))
  }

  lemma RowsAreItems(s: Service)
    requires Exportable(s)
    ensures ItemsOf(RowsOf(s)) == ExportedItems(s)
  {
    var rows, items := RowsOf(s), ExportedItems(s);
    forall i | 0 <= i < |rows|
      ensures ItemOf(rows[i]) == items[i]
    {
      if i < |s.ports| {
        RowIsItem(s, s.ports[i], "", "");
      } else {
        var w := s.windows[i - |s.ports|];
        assert rows[|s.ports| + (i - |s.ports|)] == WinRow(s, w);
        RowIsItem(s, w.p, w.process, w.service);
      }
    }
  }

  // ---------- the service the rows make again ----------

  function KeptPorts(ports: seq<PortSvc>): (r: seq<PortSvc>)
    ensures |r| == |ports| && forall i {:trigger r[i]} :: 0 <= i < |r| ==> r[i] == Kept(ports[i])
  {
    seq(|ports|, i requires 0 <= i < |ports| => Kept(ports[i]))
  }

  function KeptWins(windows: seq<WinSvc>): (r: seq<WinSvc>)
    ensures |r| == |windows| && forall i {:trigger r[i]} :: 0 <= i < |r| ==>
            r[i] == windows[i].(p := Kept(windows[i].p))
  {
    seq(|windows|, i requires 0 <= i < |windows| => windows[i].(p := Kept(windows[i].p)))
  }

  function AsWins(ports: seq<PortSvc>): (r: seq<WinSvc>)
    ensures |r| == |ports| && forall i {:trigger r[i]} :: 0 <= i < |r| ==> r[i] == WinSvc(Kept(ports[i]), "", "")
  {
    seq(|ports|, i requires 0 <= i < |ports| => WinSvc(Kept(ports[i]), "", ""))
  }

  // Any Windows entry makes all rows Windows rows.
  function ReadBack(s: Service): Service
  {
    if s.windows == [] then s.(ports := KeptPorts(s.ports))
    else s.(windows := AsWins(s.ports) + KeptWins(s.windows), ports := [])
  }

  lemma {:induction false} EntriesConcat(items: seq<Item>, more: seq<Item>, name: Name)
    ensures Wins(items + more, name) == Wins(items, name) + Wins(more, name)
    ensures Ports(items + more, name) == Ports(items, name) + Ports(more, name)
    decreases |more|
  {
    if more == [] {
      assert items + more == items;
    } else {
      var n := |more| - 1;
      assert more == more[..n] + [more[n]] && items + more == items + more[..n] + [more[n]];
      EntriesConcat(items, more[..n], name);
      EntriesSnoc(items + more[..n], more[n], name);
      EntriesSnoc(more[..n], more[n], name);
    }
  }

  ghost predicate Lacks(items: seq<Item>, name: Name)
  {
    forall i :: 0 <= i < |items| ==> items[i].Item? ==> items[i].name != name
  }

  lemma {:induction false} OthersAddNothing(items: seq<Item>, name: Name, k: nat)
    requires Lacks(items, name) && k <= |items|
    ensures WinEntries(items, name, k) == [] && PortEntries(items, name, k) == []
  {
    if k > 0 {
      OthersAddNothing(items, name, k - 1);
    }
  }

  predicate MakesWin(item: Item, name: Name, w: WinSvc)
  {
    item.Item? && item.name == name && item.win && item.entry == w
  }

  predicate MakesPort(item: Item, name: Name, p: PortSvc)
  {
    item.Item? && item.name == name && !item.win && item.entry.p == p
  }

  lemma WinStep(items: seq<Item>, name: Name, w: WinSvc, n: nat)
    requires 0 < n <= |items| && MakesWin(items[n - 1], name, w)
    ensures WinEntries(items, name, n) == WinEntries(items, name, n - 1) + [w]
    ensures PortEntries(items, name, n) == PortEntries(items, name, n - 1)
  {
    assert LineOf(items, name, n);
  }

  lemma PortStep(items: seq<Item>, name: Name, p: PortSvc, n: nat)
    requires 0 < n <= |items| && MakesPort(items[n - 1], name, p)
    ensures WinEntries(items, name, n) == WinEntries(items, name, n - 1)
    ensures PortEntries(items, name, n) == PortEntries(items, name, n - 1) + [p]
  {
    assert LineOf(items, name, n);
  }

  predicate FirstOf<T(==)>(s: seq<T>, t: seq<T>, n: nat)
  {
    |s| == n <= |t| && forall i :: 0 <= i < n ==> s[i] == t[i]
  }

  lemma {:induction false} CollectWins(items: seq<Item>, name: Name, wins: seq<WinSvc>, n: nat)
    requires |items| == |wins| && n <= |items|
    requires forall i :: 0 <= i < |items| ==> MakesWin(items[i], name, wins[i])
    ensures FirstOf(WinEntries(items, name, n), wins, n) && PortEntries(items, name, n) == []
  {
    if n > 0 {
      CollectWins(items, name, wins, n - 1);
      WinStep(items, name, wins[n - 1], n);
    }
  }

  lemma {:induction false} CollectPorts(items: seq<Item>, name: Name, ports: seq<PortSvc>, n: nat)
    requires |items| == |ports| && n <= |items|
    requires forall i :: 0 <= i < |items| ==> MakesPort(items[i], name, ports[i])
    ensures WinEntries(items, name, n) == [] && FirstOf(PortEntries(items, name, n), ports, n)
  {
    if n > 0 {
      CollectPorts(items, name, ports, n - 1);
      PortStep(items, name, ports[n - 1], n);
    }
  }

  lemma OwnPorts(s: Service)
    requires s.name != ALL_SERVICES && s.windows == []
    ensures Wins(ExportedItems(s), s.name) == [] && Ports(ExportedItems(s), s.name) == KeptPorts(s.ports)
  {
    CollectPorts(ExportedItems(s), s.name, KeptPorts(s.ports), |s.ports|);
  }

  lemma OwnWins(s: Service)
    requires s.name != ALL_SERVICES && s.windows != []
    ensures Wins(ExportedItems(s), s.name) == AsWins(s.ports) + KeptWins(s.windows)
    ensures Ports(ExportedItems(s), s.name) == []
  {
    var wins := AsWins(s.ports) + KeptWins(s.windows);
    forall i | 0 <= i < |wins|
      ensures MakesWin(ExportedItems(s)[i], s.name, wins[i])
    {
    }
    CollectWins(ExportedItems(s), s.name, wins, |wins|);
  }

  // The items of one service make its entries again, under its name only.
  lemma OwnEntries(s: Service, name: Name)
    requires s.name != ALL_SERVICES
    ensures Wins(ExportedItems(s), name) == if name == s.name then ReadBack(s).windows else []
    ensures Ports(ExportedItems(s), name) == if name == s.name then ReadBack(s).ports else []
  {
    if name != s.name {
      OthersAddNothing(ExportedItems(s), name, |s.ports| + |s.windows|);
    } else if s.windows == [] {
      OwnPorts(s);
    } else {
      OwnWins(s);
    }
  }

  // ---------- all exported services ----------

  ghost predicate AllExportable(svcs: seq<Service>)
  {
    && (forall i :: 0 <= i < |svcs| ==> Exportable(svcs[i]))
    && (forall i, j {:trigger SameName(svcs[i], svcs[j])} :: 0 <= i < j < |svcs| ==> !SameName(svcs[i], svcs[j]))
  }

  predicate SameName(s: Service, t: Service)
  {
    s.name == t.name
  }

  lemma ItemsOfConcat(rows: seq<Row>, more: seq<Row>)
    ensures ItemsOf(rows + more) == ItemsOf(rows) + ItemsOf(more)
  {
  }

  // No row for a name that no exported service has.
  lemma {:induction false} NoRows(svcs: seq<Service>, name: Name)
    requires (forall i :: 0 <= i < |svcs| ==> Exportable(svcs[i]) && svcs[i].name != name)
    ensures Lacks(ItemsOf(AllRows(svcs)), name)
  {
    if svcs != [] {
      var n := |svcs| - 1;
      NoRows(svcs[..n], name);
      ItemsOfConcat(AllRows(svcs[..n]), RowsOf(svcs[n]));
      RowsAreItems(svcs[n]);
    }
  }

  // Every item of the name carries the href and the description of its service.
  ghost predicate Stamped(items: seq<Item>, s: Service)
  {
    forall item :: item in items && item.Item? && item.name == s.name ==>
                     item.href == s.href && item.description == s.description
  }

  // The items among all rows that name one service: its entries, stamped.
  ghost predicate MakesService(items: seq<Item>, s: Service)
  {
    Wins(items, s.name) == ReadBack(s).windows && Ports(items, s.name) == ReadBack(s).ports && Stamped(items, s)
  }

  lemma ItsItemsMakeIt(before: seq<Item>, s: Service)
    requires s.name != ALL_SERVICES && Lacks(before, s.name)
    ensures MakesService(before + ExportedItems(s), s)
  {
    EntriesConcat(before, ExportedItems(s), s.name);
    OthersAddNothing(before, s.name, |before|);
    OwnEntries(s, s.name);
    OwnStamped(s);
  }

  lemma OwnStamped(s: Service)
    ensures Stamped(ExportedItems(s), s)
  {
  }

  lemma OtherItemsAddNothing(before: seq<Item>, s: Service, last: seq<Item>)
    requires Lacks(last, s.name) && MakesService(before, s)
    ensures MakesService(before + last, s)
  {
    EntriesConcat(before, last, s.name);
    OthersAddNothing(last, s.name, |last|);
  }

  // Among the rows of all services, those of one service make its entries again.
  lemma {:induction false} EntriesOfService(svcs: seq<Service>, i: nat)
    requires AllExportable(svcs) && i < |svcs| && svcs[i].name != ALL_SERVICES
    ensures MakesService(ItemsOf(AllRows(svcs)), svcs[i])
  {
    var n := |svcs| - 1;
    var before := ItemsOf(AllRows(svcs[..n]));
    ItemsOfConcat(AllRows(svcs[..n]), RowsOf(svcs[n]));
    RowsAreItems(svcs[n]);
    if i == n {
      assert forall j :: 0 <= j < n ==> !SameName(svcs[j], svcs[n]);
      NoRows(svcs[..n], svcs[n].name);
      ItsItemsMakeIt(before, svcs[n]);
    } else {
      assert !SameName(svcs[i], svcs[n]);
      EntriesOfService(svcs[..n], i);
      OtherItemsAddNothing(before, svcs[i], ExportedItems(svcs[n]));
    }
  }

  // ---------- keys of entries read back ----------

  // A lossy entry's key is no key of an entry read back.
  lemma LossyKeyIsLost(href: string, e: PortSvc, rest: string, x: PortSvc, rest': string)
    requires InRange(e) && InRange(x) && Lossy(e)
    ensures KeyText(href, e, rest) != KeyText(href, Kept(x), rest')
  {
    if KeyText(href, e, rest) == KeyText(href, Kept(x), rest') {
      var y := Kept(x);
      var s, s' := ItoaInt(e.protocol) + "-" + rest, ItoaInt(y.protocol) + "-" + rest';
      var t, t' := ItoaInt(e.toPort) + "-" + s, ItoaInt(y.toPort) + "-" + s';
      SameHead(href, ItoaInt(e.port) + "-" + t, ItoaInt(y.port) + "-" + t');
      NumberHeads(e.port, t, y.port, t');
      NumberHeads(e.toPort, s, y.toPort, s');
      ItoaIntPlain(y.protocol);
      assert s[0] == s'[0];
      NumberHeads(e.protocol, rest, y.protocol, rest');
    }
  }

  // Keys of one service are equal when ports, protocol and the rest are.
  lemma KeyTextDecides(href: string, p: PortSvc, rest: string, q: PortSvc, rest': string)
    requires InRange(p) && InRange(q) && KeyText(href, p, rest) == KeyText(href, q, rest')
    ensures p.port == q.port && p.toPort == q.toPort && p.protocol == q.protocol && rest == rest'
  {
    var s, s' := ItoaInt(p.protocol) + "-" + rest, ItoaInt(q.protocol) + "-" + rest';
    var t, t' := ItoaInt(p.toPort) + "-" + s, ItoaInt(q.toPort) + "-" + s';
    SameHead(href, ItoaInt(p.port) + "-" + t, ItoaInt(q.port) + "-" + t');
    NumberHeads(p.port, t, q.port, t');
    NumberHeads(p.toPort, s, q.toPort, s');
    IntHeads(p.protocol, rest, q.protocol, rest');
  }

  // Port entries share a key exactly when they are the same.
  lemma PortKeyDecides(href: string, p: PortSvc, q: PortSvc)
    requires InRange(p) && InRange(q)
    ensures PortKey(href, p) == PortKey(href, q) <==> p == q
  {
    if PortKey(href, p) == PortKey(href, q) {
      KeyTextDecides(href, p, PortRest(p), q, PortRest(q));
      NumberHeads(p.icmpCode, ItoaInt(p.icmpType), q.icmpCode, ItoaInt(q.icmpType));
      ItoaInjective(p.icmpType, q.icmpType);
    }
  }

  // The names of a Windows entry as its key shows them: where the process name ends is lost.
  function Names(w: WinSvc): string
  {
    w.process + "-" + w.service
  }

  lemma RestIsNames(w: WinSvc)
    ensures WinRest(w) == Names(w) + "-" + ItoaInt(w.p.icmpCode) + "-" + ItoaInt(w.p.icmpType)
  {
  }

  lemma NamesFirst(w: WinSvc, v: WinSvc)
    requires InRange(w.p) && InRange(v.p) && WinRest(w) == WinRest(v)
    ensures Names(w) == Names(v) && w.p.icmpCode == v.p.icmpCode && w.p.icmpType == v.p.icmpType
  {
    RestIsNames(w);
    RestIsNames(v);
    ItoaIntPlain(w.p.icmpCode);
    ItoaIntPlain(v.p.icmpCode);
    ItoaIntPlain(w.p.icmpType);
    ItoaIntPlain(v.p.icmpType);
    TailsDecide(Names(w) + "-" + ItoaInt(w.p.icmpCode), ItoaInt(w.p.icmpType),
                Names(v) + "-" + ItoaInt(v.p.icmpCode), ItoaInt(v.p.icmpType));
    TailsDecide(Names(w), ItoaInt(w.p.icmpCode), Names(v), ItoaInt(v.p.icmpCode));
    ItoaInjective(w.p.icmpCode, v.p.icmpCode);
    ItoaInjective(w.p.icmpType, v.p.icmpType);
  }

  // Windows entries share a key exactly when they differ at most in where a dash of their names
  // belongs.
  lemma WinKeyDecides(href: string, w: WinSvc, v: WinSvc)
    requires InRange(w.p) && InRange(v.p)
    ensures WinKey(href, w) == WinKey(href, v) <==> w.p == v.p && Names(w) == Names(v)
  {
    if WinKey(href, w) == WinKey(href, v) {
      KeyTextDecides(href, w.p, WinRest(w), v.p, WinRest(v));
      NamesFirst(w, v);
    }
    if w.p == v.p && Names(w) == Names(v) {
      RestIsNames(w);
      RestIsNames(v);
    }
  }

  // Two entries of one key: the dash between a and b is read as either name's.
  lemma DashBlursNames(href: string, p: PortSvc, a: string, b: string, c: string)
    ensures WinKey(href, WinSvc(p, a + "-" + b, c)) == WinKey(href, WinSvc(p, a, b + "-" + c))
    ensures WinSvc(p, a + "-" + b, c) != WinSvc(p, a, b + "-" + c)
  {
    var w, v := WinSvc(p, a + "-" + b, c), WinSvc(p, a, b + "-" + c);
    RestIsNames(w);
    RestIsNames(v);
    assert Names(w) == Names(v);
    assert |w.process| != |v.process|;
  }

  // ---------- what the comparison of two services decides ----------

  datatype Blurred = Blurred(p: PortSvc, names: string)

  function Blur(windows: seq<WinSvc>): (r: seq<Blurred>)
    ensures |r| == |windows|
    ensures forall i {:trigger r[i]} :: 0 <= i < |r| ==> r[i] == Blurred(windows[i].p, Names(windows[i]))
  {
    seq(|windows|, i requires 0 <= i < |windows| => Blurred(windows[i].p, Names(windows[i])))
  }

  predicate AllInRange(s: Service)
  {
    && (forall i :: 0 <= i < |s.ports| ==> InRange(s.ports[i]))
    && (forall i :: 0 <= i < |s.windows| ==> InRange(s.windows[i].p))
  }

  // The comparison of two services decides whether they have the same port entries and the same
  // Windows entries up to dashes in names.
  lemma EntriesAreCompared(s: Service, t: Service)
    requires s.href == t.href && AllInRange(s) && AllInRange(t)
    ensures Keys(s) == Keys(t) <==>
            Members(s.ports) == Members(t.ports) && Members(Blur(s.windows)) == Members(Blur(t.windows))
  {
    KeysWithin(s, t);
    KeysWithin(t, s);
  }

  lemma KeysWithin(s: Service, t: Service)
    requires s.href == t.href && AllInRange(s) && AllInRange(t)
    ensures Keys(s) <= Keys(t) <==>
            Members(s.ports) <= Members(t.ports) && Members(Blur(s.windows)) <= Members(Blur(t.windows))
  {
    if Keys(s) <= Keys(t) {
      PortsWithin(s, t);
      WinsWithin(s, t);
    }
    if Members(s.ports) <= Members(t.ports) && Members(Blur(s.windows)) <= Members(Blur(t.windows)) {
      SamePortsSameKeys(s, t);
      SameWinsSameKeys(s, t);
    }
  }

  lemma KeyAt(t: Service, key: Key)
    requires key in Keys(t)
    ensures (exists j :: 0 <= j < |t.ports| && PortKey(t.href, t.ports[j]) == key)
            || (exists j :: 0 <= j < |t.windows| && WinKey(t.href, t.windows[j]) == key)
  {
    if key in PortKeys(t.href, t.ports) {
      var j :| 0 <= j < |t.ports| && PortKeys(t.href, t.ports)[j] == key;
      assert PortKey(t.href, t.ports[j]) == key;
    } else {
      var j :| 0 <= j < |t.windows| && WinKeys(t.href, t.windows)[j] == key;
      assert WinKey(t.href, t.windows[j]) == key;
    }
  }

  lemma PortsWithin(s: Service, t: Service)
    requires s.href == t.href && AllInRange(s) && AllInRange(t) && Keys(s) <= Keys(t)
    ensures Members(s.ports) <= Members(t.ports)
  {
    forall i | 0 <= i < |s.ports|
      ensures s.ports[i] in t.ports
    {
      var key := PortKey(s.href, s.ports[i]);
      assert PortKeys(s.href, s.ports)[i] == key && key in Keys(s);
      KeyAt(t, key);
      forall j | 0 <= j < |t.windows|
        ensures WinKey(t.href, t.windows[j]) != key
      {
        KindsApart(s.href, s.ports[i], t.windows[j]);
      }
      var j :| 0 <= j < |t.ports| && PortKey(t.href, t.ports[j]) == key;
      PortKeyDecides(s.href, s.ports[i], t.ports[j]);
    }
  }

  lemma WinsWithin(s: Service, t: Service)
    requires s.href == t.href && AllInRange(s) && AllInRange(t) && Keys(s) <= Keys(t)
    ensures Members(Blur(s.windows)) <= Members(Blur(t.windows))
  {
    forall i | 0 <= i < |s.windows|
      ensures Blur(s.windows)[i] in Blur(t.windows)
    {
      var key := WinKey(s.href, s.windows[i]);
      assert WinKeys(s.href, s.windows)[i] == key && key in Keys(s);
      KeyAt(t, key);
      forall j | 0 <= j < |t.ports|
        ensures PortKey(t.href, t.ports[j]) != key
      {
        KindsApart(s.href, t.ports[j], s.windows[i]);
      }
      var j :| 0 <= j < |t.windows| && WinKey(t.href, t.windows[j]) == key;
      WinKeyDecides(s.href, s.windows[i], t.windows[j]);
      assert Blur(t.windows)[j] == Blur(s.windows)[i];
    }
  }

  lemma SamePortsSameKeys(s: Service, t: Service)
    requires s.href == t.href && Members(s.ports) <= Members(t.ports)
    ensures Members(PortKeys(s.href, s.ports)) <= Members(PortKeys(t.href, t.ports))
  {
    forall i | 0 <= i < |s.ports|
      ensures PortKeys(s.href, s.ports)[i] in PortKeys(t.href, t.ports)
    {
      assert s.ports[i] in Members(s.ports);
      var j :| 0 <= j < |t.ports| && t.ports[j] == s.ports[i];
      assert PortKeys(t.href, t.ports)[j] == PortKeys(s.href, s.ports)[i];
    }
  }

  lemma SameWinsSameKeys(s: Service, t: Service)
    requires s.href == t.href && AllInRange(s) && AllInRange(t)
    requires Members(Blur(s.windows)) <= Members(Blur(t.windows))
    ensures Members(WinKeys(s.href, s.windows)) <= Members(WinKeys(t.href, t.windows))
  {
    forall i | 0 <= i < |s.windows|
      ensures WinKeys(s.href, s.windows)[i] in WinKeys(t.href, t.windows)
    {
      assert Blur(s.windows)[i] in Members(Blur(s.windows));
      var j :| 0 <= j < |t.windows| && Blur(t.windows)[j] == Blur(s.windows)[i];
      WinKeyDecides(s.href, s.windows[i], t.windows[j]);
      assert WinKeys(t.href, t.windows)[j] == WinKeys(s.href, s.windows)[i];
    }
  }

  // When no process name holds a dash, the comparison decides whether the entries are the same.
  lemma DashFreeAreCompared(s: Service, t: Service)
    requires s.href == t.href && AllInRange(s) && AllInRange(t)
    requires forall w :: w in s.windows || w in t.windows ==> '-' !in w.process
    ensures Keys(s) == Keys(t) <==> Members(s.ports) == Members(t.ports) && Members(s.windows) == Members(t.windows)
  {
    EntriesAreCompared(s, t);
    BlurWithin(s.windows, t.windows);
    BlurWithin(t.windows, s.windows);
  }

  lemma BlurWithin(a: seq<WinSvc>, b: seq<WinSvc>)
    requires forall w :: w in a || w in b ==> '-' !in w.process
    ensures Members(Blur(a)) <= Members(Blur(b)) <==> Members(a) <= Members(b)
  {
    if Members(Blur(a)) <= Members(Blur(b)) {
      forall i | 0 <= i < |a|
        ensures a[i] in b
      {
        assert Blur(a)[i] in Members(Blur(a));
        var j :| 0 <= j < |b| && Blur(b)[j] == Blur(a)[i];
        assert a[i] in a && b[j] in b;
        HeadsDecide(a[i].process, a[i].service, b[j].process, b[j].service);
      }
    }
    if Members(a) <= Members(b) {
      forall i | 0 <= i < |a|
        ensures Blur(a)[i] in Blur(b)
      {
        assert a[i] in Members(a);
        var j :| 0 <= j < |b| && b[j] == a[i];
        assert Blur(b)[j] == Blur(a)[i];
      }
    }
  }

  lemma DashesOf(n: int)
    ensures Count(ItoaInt(n), '-') == if n < 0 then 1 else 0
  {
    if n < 0 {
      CountAppend("-", Itoa(-n), '-');
      CountZero(Itoa(-n), '-');
      assert Count("-", '-') == 1;
    } else {
      CountZero(Itoa(n), '-');
    }
  }

  lemma DashesAfter(a: string, rest: string)
    ensures Count(a + "-" + rest, '-') == Count(a, '-') + 1 + Count(rest, '-')
  {
    CountAppend(a + "-", rest, '-');
    CountAppend(a, "-", '-');
    assert Count("-", '-') == 1;
  }

  lemma DashesOfKey(href: string, p: PortSvc, rest: string)
    requires InRange(p)
    ensures Count(KeyText(href, p, rest).text, '-') ==
            Count(href, '-') + 4 + (if p.protocol < 0 then 1 else 0) + Count(rest, '-')
  {
    var s := ItoaInt(p.protocol) + "-" + rest;
    var t := ItoaInt(p.toPort) + "-" + s;
    DashesOf(p.port);
    DashesOf(p.toPort);
    DashesOf(p.protocol);
    DashesAfter(ItoaInt(p.protocol), rest);
    DashesAfter(ItoaInt(p.toPort), s);
    DashesAfter(ItoaInt(p.port), t);
    DashesAfter(href, ItoaInt(p.port) + "-" + t);
  }

  lemma DashesOfRests(w: WinSvc)
    requires InRange(w.p)
    ensures Count(PortRest(w.p), '-') == 1 && Count(WinRest(w), '-') >= 3
  {
    DashesOf(w.p.icmpCode);
    DashesOf(w.p.icmpType);
    DashesAfter(ItoaInt(w.p.icmpCode), ItoaInt(w.p.icmpType));
    DashesAfter(w.service, PortRest(w.p));
    DashesAfter(w.process, w.service + "-" + PortRest(w.p));
  }

  // A port key is never a Windows key.
  lemma KindsApart(href: string, p: PortSvc, w: WinSvc)
    requires InRange(p) && InRange(w.p)
    ensures PortKey(href, p) != WinKey(href, w)
  {
    DashesOfRests(WinSvc(p, "", ""));
    DashesOfRests(w);
    DashesOfKey(href, p, PortRest(p));
    DashesOfKey(href, w.p, WinRest(w));
  }

  // ---------- the round trip ----------

  // Entries of both kinds, or an entry whose port the rows cannot hold.
  predicate Flagged(s: Service)
  {
    || (s.windows != [] && s.ports != [])
    || (exists i :: 0 <= i < |s.ports| && Lossy(s.ports[i]))
    || (exists i :: 0 <= i < |s.windows| && Lossy(s.windows[i].p))
  }

  lemma MixedDiffers(s: Service)
    requires Exportable(s) && s.windows != [] && s.ports != []
    ensures Keys(ReadBack(s)) != Keys(s)
  {
    var wins := ReadBack(s).windows;
    var key := PortKey(s.href, s.ports[0]);
    assert PortKeys(s.href, s.ports)[0] == key;
    forall i | 0 <= i < |wins|
      ensures WinKeys(s.href, wins)[i] != key
    {
      assert InRange(wins[i].p);
      KindsApart(s.href, s.ports[0], wins[i]);
    }
    assert key in Keys(s) && key !in Keys(ReadBack(s));
  }

  lemma LossyPortDiffers(s: Service, i: nat)
    requires Exportable(s) && s.windows == [] && i < |s.ports| && Lossy(s.ports[i])
    ensures Keys(ReadBack(s)) != Keys(s)
  {
    var ports := ReadBack(s).ports;
    var key := PortKey(s.href, s.ports[i]);
    assert PortKeys(s.href, s.ports)[i] == key;
    forall j | 0 <= j < |ports|
      ensures PortKeys(s.href, ports)[j] != key
    {
      LossyKeyIsLost(s.href, s.ports[i], PortRest(s.ports[i]), s.ports[j], PortRest(ports[j]));
    }
    assert key in Keys(s) && key !in Keys(ReadBack(s));
  }

  lemma LossyWinDiffers(s: Service, i: nat)
    requires Exportable(s) && s.ports == [] && i < |s.windows| && Lossy(s.windows[i].p)
    ensures Keys(ReadBack(s)) != Keys(s)
  {
    var wins := ReadBack(s).windows;
    var key := WinKey(s.href, s.windows[i]);
    assert WinKeys(s.href, s.windows)[i] == key;
    forall j | 0 <= j < |wins|
      ensures WinKeys(s.href, wins)[j] != key
    {
      assert wins[j].p == Kept(s.windows[j].p);
      LossyKeyIsLost(s.href, s.windows[i].p, WinRest(s.windows[i]), s.windows[j].p, WinRest(wins[j]));
    }
    assert key in Keys(s) && key !in Keys(ReadBack(s));
  }

  // The service made from the exported rows has other keys exactly when it is flagged.
  lemma ReadBackDiffers(s: Service)
    requires Exportable(s)
    ensures Keys(ReadBack(s)) != Keys(s) <==> Flagged(s)
  {
    if s.windows != [] && s.ports != [] {
      MixedDiffers(s);
    } else if i :| 0 <= i < |s.ports| && Lossy(s.ports[i]) {
      LossyPortDiffers(s, i);
    } else if i :| 0 <= i < |s.windows| && Lossy(s.windows[i].p) {
      LossyWinDiffers(s, i);
    } else {
      assert KeptPorts(s.ports) == s.ports;
      assert AsWins([]) + KeptWins(s.windows) == s.windows;
      assert ReadBack(s) == s;
    }
  }

  lemma {:induction false} NoBadRows(svcs: seq<Service>)
    requires forall i :: 0 <= i < |svcs| ==> Exportable(svcs[i])
    ensures forall k :: 0 <= k < |ItemsOf(AllRows(svcs))| ==> !ItemsOf(AllRows(svcs))[k].Bad?
  {
    if svcs != [] {
      var n := |svcs| - 1;
      NoBadRows(svcs[..n]);
      ItemsOfConcat(AllRows(svcs[..n]), RowsOf(svcs[n]));
      RowsAreItems(svcs[n]);
    }
  }

  lemma HeaderIsSkipped(header: Row, rows: seq<Row>)
    ensures Items([header] + rows) == [Skipped] + ItemsOf(rows)
  {
  }

  lemma PastHeader(rest: seq<Item>, s: Service)
    requires Stamped(rest, s)
    ensures Wins([Skipped] + rest, s.name) == Wins(rest, s.name)
            && Ports([Skipped] + rest, s.name) == Ports(rest, s.name)
    ensures Stamped([Skipped] + rest, s)
  {
    EntriesConcat([Skipped], rest, s.name);
    OthersAddNothing([Skipped], s.name, 1);
  }

  lemma GroupOfEntries(items: seq<Item>, groups: map<Name, CsvService>, s: Service)
    requires GroupedAt(items, groups, |items|, s.name) && Stamped(items, s)
    requires WinEntries(items, s.name, |items|) == s.windows && PortEntries(items, s.name, |items|) == s.ports
    ensures s.name in groups <==> |s.windows| + |s.ports| > 0
    ensures s.name in groups ==> groups[s.name].service == s
  {
    NoLinesNoEntries(items, s.name, |items|);
  }

  // What the data of an export is grouped into: each service with rows, read back.
  lemma GroupIsReadBack(svcs: seq<Service>, items: seq<Item>, groups: map<Name, CsvService>, i: nat)
    requires AllExportable(svcs) && i < |svcs| && svcs[i].name != ALL_SERVICES
    requires items == [Skipped] + ItemsOf(AllRows(svcs)) && Grouped(items, groups, |items|)
    ensures svcs[i].name in groups <==> svcs[i].windows != [] || svcs[i].ports != []
    ensures svcs[i].name in groups ==> groups[svcs[i].name].service == ReadBack(svcs[i])
  {
    var s := svcs[i];
    EntriesOfService(svcs, i);
    PastHeader(ItemsOf(AllRows(svcs)), s);
    assert GroupedAt(items, groups, |items|, s.name);
    GroupOfEntries(items, groups, ReadBack(s));
  }

  lemma GroupHasItem(items: seq<Item>, groups: map<Name, CsvService>, name: Name) returns (k: nat)
    requires GroupedAt(items, groups, |items|, name) && name in groups
    ensures k < |items| && items[k].Item? && items[k].name == name
  {
    k :| k < |items| && items[k] == FirstItem(items, name, |items|);
  }

  lemma ItemPastHeader(rest: seq<Item>, name: Name, k: nat)
    requires k < 1 + |rest| && ([Skipped] + rest)[k].Item? && ([Skipped] + rest)[k].name == name
    ensures k > 0 && rest[k - 1].Item? && rest[k - 1].name == name && !Lacks(rest, name)
  {
  }

  // A group stems from an exported service.
  lemma GroupIsExported(svcs: seq<Service>, items: seq<Item>, groups: map<Name, CsvService>, name: Name)
      returns (i: nat)
    requires AllExportable(svcs) && name in groups
    requires items == [Skipped] + ItemsOf(AllRows(svcs)) && Grouped(items, groups, |items|)
    ensures i < |svcs| && svcs[i].name == name != ALL_SERVICES
  {
    assert GroupedAt(items, groups, |items|, name);
    var k := GroupHasItem(items, groups, name);
    ItemPastHeader(ItemsOf(AllRows(svcs)), name, k);
    i := NamedService(svcs, name);
  }

  lemma NamedService(svcs: seq<Service>, name: Name) returns (i: nat)
    requires AllExportable(svcs) && !Lacks(ItemsOf(AllRows(svcs)), name)
    ensures i < |svcs| && svcs[i].name == name
  {
    RowsAreNamed(svcs, name);
    i :| 0 <= i < |svcs| && svcs[i].name == name;
  }

  lemma RowsAreNamed(svcs: seq<Service>, name: Name)
    requires AllExportable(svcs)
    ensures Lacks(ItemsOf(AllRows(svcs)), name) || exists i :: 0 <= i < |svcs| && svcs[i].name == name
  {
    if forall i :: 0 <= i < |svcs| ==> svcs[i].name != name {
      NoRows(svcs, name);
    }
  }

  ghost predicate OnPCE(svcs: seq<Service>, pce: PCE)
  {
    forall i :: 0 <= i < |svcs| ==> svcs[i].href in pce.services && pce.services[svcs[i].href] == svcs[i]
  }

  // Exporting services of the PCE and importing the rows with their hrefs: nothing fails,
  // nothing is new, and a service is updated exactly when it has entries of both kinds or an
  // entry that is neither TCP nor UDP, has a port and is no range.
  method ExportThenImport(header: Row, svcs: seq<Service>, pce: PCE) returns (r: Result)
    requires AllExportable(svcs) && OnPCE(svcs, pce)
    ensures r.Imported? && r.created == {}
    ensures forall name :: name in r.updated <==>
              exists i :: 0 <= i < |svcs| && svcs[i].name == name && name != ALL_SERVICES && Flagged(svcs[i])
  {
    var data := ExportServices(header, svcs);
    ghost var items := Items(data);
    HeaderIsSkipped(header, AllRows(svcs));
    NoBadRows(svcs);
    var ok, groups := GroupRows(data);
    assert ok;
    forall name | name in groups
      ensures !Refused(pce, groups[name].service) && !Created(groups[name].service)
    {
      var i := GroupIsExported(svcs, items, groups, name);
      GroupIsReadBack(svcs, items, groups, i);
    }
    r := ImportGroups(pce, groups);
    forall name
      ensures name in r.updated <==>
                exists i :: 0 <= i < |svcs| && svcs[i].name == name && name != ALL_SERVICES && Flagged(svcs[i])
    {
      if name in r.updated {
        var i := GroupIsExported(svcs, items, groups, name);
        GroupIsReadBack(svcs, items, groups, i);
        ReadBackDiffers(svcs[i]);
      }
      if i :| 0 <= i < |svcs| && svcs[i].name == name && name != ALL_SERVICES && Flagged(svcs[i]) {
        GroupIsReadBack(svcs, items, groups, i);
        ReadBackDiffers(svcs[i]);
      }
    }
  }
}
