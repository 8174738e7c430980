// How svc-import groups CSV rows into services.
module ServiceGroups {
  import opened Seqs
  import opened ServiceRows

  datatype CsvService = CsvService(csvLines: seq<nat>, service: Service)

  // strconv.ParseBool.
  function ParseBool(text: string): Option<bool>
  {
    if text in {"1", "t", "T", "TRUE", "true", "True"} then Some(true)
    else if text in {"0", "f", "F", "FALSE", "false", "False"} then Some(false)
    else None
  }

  // What the row loop makes of one row: nothing (the header, and All Services), an entry of a
  // service, or the end of the run.
  datatype Item = Skipped | Bad | Item(name: Name, href: string, description: string, win: bool, entry: WinSvc)

  function ItemOf(row: Row): (item: Item)
    ensures item.Skipped? <==>
            && row.name.text == "All Services"
            && row.win in {"1", "t", "T", "TRUE", "true", "True", "0", "f", "F", "FALSE", "false", "False"}
    ensures item.Item? ==> (item.win <==> row.win in {"1", "t", "T", "TRUE", "true", "True"})
  {
    if ParseBool(row.win) == None || row.name == Name("") then Bad
    else if row.name == ALL_SERVICES then Skipped
    else if EntryOf(row) == None then Bad
    else Item(row.name, row.href, row.description, ParseBool(row.win).value, EntryOf(row).value)
  }

  function Items(data: seq<Row>): (r: seq<Item>)
    ensures |r| == |data|
    ensures forall i {:trigger r[i]} :: 0 <= i < |data| ==> r[i] == if i == 0 then Skipped else ItemOf(data[i])
  {
    seq(|data|, i requires 0 <= i < |data| => if i == 0 then Skipped else ItemOf(data[i]))
  }

  // ---------- the rows of one name, among the first k ----------

  predicate LineOf(items: seq<Item>, name: Name, line: nat)
  {
    1 <= line <= |items| && items[line - 1].Item? && items[line - 1].name == name
  }

  // Their CSV lines, counted from one.
  function Lines(items: seq<Item>, name: Name, k: nat): seq<nat>
    requires k <= |items|
  {
    if k == 0 then [] else Lines(items, name, k - 1) + (if LineOf(items, name, k) then [k] else [])
  }

  function WinEntry(item: Item): seq<WinSvc>
  {
    if item.Item? && item.win then [item.entry] else []
  }

  function PortEntry(item: Item): seq<PortSvc>
  {
    if item.Item? && !item.win then [item.entry.p] else []
  }

  // The entries of the rows of a name, in row order.
  function WinEntries(items: seq<Item>, name: Name, k: nat): seq<WinSvc>
    requires k <= |items|
  {
    if k == 0 then []
    else WinEntries(items, name, k - 1) + (if LineOf(items, name, k) then WinEntry(items[k - 1]) else [])
  }

  function PortEntries(items: seq<Item>, name: Name, k: nat): seq<PortSvc>
    requires k <= |items|
  {
    if k == 0 then []
    else PortEntries(items, name, k - 1) + (if LineOf(items, name, k) then PortEntry(items[k - 1]) else [])
  }

  // The first of the rows of a name.
  function FirstItem(items: seq<Item>, name: Name, k: nat): (item: Item)
    requires k <= |items| && Lines(items, name, k) != []
    ensures item in items && item.Item? && item.name == name
  {
    if Lines(items, name, k - 1) == [] then items[k - 1] else FirstItem(items, name, k - 1)
  }

  // The service the rows of a name make: href and description of the first one.
  function GroupOf(items: seq<Item>, name: Name, k: nat): CsvService
    requires k <= |items| && Lines(items, name, k) != []
  {
    var first := FirstItem(items, name, k);
    CsvService(Lines(items, name, k),
               Service(name, first.href, first.description, WinEntries(items, name, k), PortEntries(items, name, k)))
  }

  // The map holds what the first k rows make of the name.
  predicate GroupedAt(items: seq<Item>, groups: map<Name, CsvService>, k: nat, name: Name)
    requires k <= |items|
  {
    if Lines(items, name, k) == [] then name !in groups
    else name in groups && groups[name] == GroupOf(items, name, k)
  }

  ghost predicate Grouped(items: seq<Item>, groups: map<Name, CsvService>, k: nat)
    requires k <= |items|
  {
    forall name :: GroupedAt(items, groups, k, name)
  }

  // ---------- the loop ----------

  // A service with one more row.
  function Plus(g: CsvService, item: Item, csvLine: nat): CsvService
  {
    CsvService(g.csvLines + [csvLine],
               g.service.(windows := g.service.windows + WinEntry(item), ports := g.service.ports + PortEntry(item)))
  }

  // The service of the item as it is, or a new one.
  function Before(groups: map<Name, CsvService>, item: Item): CsvService
    requires item.Item?
  {
    if item.name in groups then groups[item.name]
    else CsvService([], Service(item.name, item.href, item.description, [], []))
  }

  function Extended(groups: map<Name, CsvService>, item: Item, csvLine: nat): CsvService
    requires item.Item?
  {
    Plus(Before(groups, item), item, csvLine)
  }

  // The row appended to its service, or to a new service.
  method AddRow(groups: map<Name, CsvService>, row: Row, isWinSvc: bool, csvLine: nat)
      returns (ok: bool, groups': map<Name, CsvService>)
    requires ParseBool(row.win) == Some(isWinSvc) && row.name != Name("") && row.name != ALL_SERVICES
    ensures ok <==> ItemOf(row).Item?
    ensures ok ==> groups' == groups[row.name := Extended(groups, ItemOf(row), csvLine)]
  {
    var winSvc, svcPort;
    ok, winSvc, svcPort := ProcessServices(row);
    groups' := groups;
    if ok {
      var csvSvc := CsvService([], Service(row.name, row.href, row.description, [], []));
      if row.name in groups {
        csvSvc := groups[row.name];
      }
      var svc := csvSvc.service;
      if isWinSvc {
        svc := svc.(windows := svc.windows + [winSvc]);
      } else {
        svc := svc.(ports := svc.ports + [svcPort]);
      }
      assert csvSvc.service.windows + [] == csvSvc.service.windows && csvSvc.service.ports + [] == csvSvc.service.ports;
      groups' := groups[row.name := CsvService(csvSvc.csvLines + [csvLine], svc)];
    }
  }

  lemma OtherName(items: seq<Item>, groups: map<Name, CsvService>, groups': map<Name, CsvService>, name: Name, r: nat)
    requires r < |items| && !LineOf(items, name, r + 1) && GroupedAt(items, groups, r, name)
    requires name in groups' <==> name in groups
    requires name in groups ==> groups'[name] == groups[name]
    ensures GroupedAt(items, groups', r + 1, name)
  {
  }

  lemma SkippedRow(items: seq<Item>, groups: map<Name, CsvService>, r: nat)
    requires r < |items| && Grouped(items, groups, r) && !items[r].Item?
    ensures Grouped(items, groups, r + 1)
  {
    var k := r + 1;
    forall name
      ensures GroupedAt(items, groups, k, name)
    {
      assert GroupedAt(items, groups, r, name);
      OtherName(items, groups, groups, name, r);
    }
  }

  lemma FirstRow(items: seq<Item>, name: Name, r: nat)
    requires r < |items| && LineOf(items, name, r + 1) && Lines(items, name, r) == []
    ensures Lines(items, name, r + 1) == [r + 1]
    ensures GroupOf(items, name, r + 1) ==
            Plus(CsvService([], Service(name, items[r].href, items[r].description, [], [])), items[r], r + 1)
  {
    NoLinesNoEntries(items, name, r);
  }

  lemma {:induction false} NoLinesNoEntries(items: seq<Item>, name: Name, k: nat)
    requires k <= |items|
    ensures |WinEntries(items, name, k)| + |PortEntries(items, name, k)| == |Lines(items, name, k)|
  {
    if k > 0 {
      NoLinesNoEntries(items, name, k - 1);
    }
  }

  lemma SameName(items: seq<Item>, groups: map<Name, CsvService>, r: nat)
    requires r < |items| && items[r].Item? && GroupedAt(items, groups, r, items[r].name)
    ensures var name := items[r].name;
            GroupedAt(items, groups[name := Extended(groups, items[r], r + 1)], r + 1, name)
  {
    var name := items[r].name;
    assert LineOf(items, name, r + 1);
    if Lines(items, name, r) == [] {
      FirstRow(items, name, r);
    }
  }

  lemma AddedRow(items: seq<Item>, groups: map<Name, CsvService>, r: nat)
    requires r < |items| && Grouped(items, groups, r) && items[r].Item?
    ensures Grouped(items, groups[items[r].name := Extended(groups, items[r], r + 1)], r + 1)
  {
    var groups' := groups[items[r].name := Extended(groups, items[r], r + 1)];
    var k := r + 1;
    forall name
      ensures GroupedAt(items, groups', k, name)
    {
      assert GroupedAt(items, groups, r, name);
      if name == items[r].name {
        SameName(items, groups, r);
      } else {
        OtherName(items, groups, groups', name, r);
      }
    }
  }

  // The body of the row loop, past the header.
  method ImportRow(groups: map<Name, CsvService>, row: Row, r: nat, ghost items: seq<Item>)
      returns (ok: bool, groups': map<Name, CsvService>)
    requires r < |items| && items[r] == ItemOf(row) && Grouped(items, groups, r)
    ensures ok <==> !items[r].Bad?
    ensures ok ==> Grouped(items, groups', r + 1)
  {
    groups' := groups;
    var isWinSvc := ParseBool(row.win);
    ok := isWinSvc.Some? && row.name != Name("");
    if !ok {
      return;
    }
    if row.name == ALL_SERVICES {
      SkippedRow(items, groups, r);
      return;
    }
    ok, groups' := AddRow(groups, row, isWinSvc.value, r + 1);
    if ok {
      AddedRow(items, groups, r);
    }
  }

  // The row loop of the import. It fails exactly when some row is bad.
  method GroupRows(data: seq<Row>) returns (ok: bool, groups: map<Name, CsvService>)
    ensures ok <==> forall r :: 0 <= r < |data| ==> !Items(data)[r].Bad?
    ensures ok ==> Grouped(Items(data), groups, |data|)
  {
    groups := map[];
    ghost var items := Items(data);
    assert forall name :: GroupedAt(items, groups, 0, name);
    for r := 0 to |data|
      invariant Grouped(items, groups, r)
      invariant forall i :: 0 <= i < r ==> !items[i].Bad?
    {
      if r == 0 {
        SkippedRow(items, groups, r);
        continue;
      }
      ok, groups := ImportRow(groups, data[r], r, items);
      if !ok {
        return;
      }
    }
    ok := true;
  }

  // ---------- conservation ----------

  ghost predicate Increasing(s: seq<nat>)
  {
    forall i, j :: 0 <= i < j < |s| ==> s[i] < s[j]
  }

  lemma {:induction false} LinesAre(items: seq<Item>, name: Name, k: nat)
    requires k <= |items|
    ensures forall line: nat :: line in Lines(items, name, k) <==> line <= k && LineOf(items, name, line)
    ensures Increasing(Lines(items, name, k))
  {
    if k > 0 {
      LinesAre(items, name, k - 1);
      var before := Lines(items, name, k - 1);
      assert forall i :: 0 <= i < |before| ==> before[i] in before;
    }
  }

  // The row at a line is of the name, and makes this Windows or port entry.
  predicate GivesWin(items: seq<Item>, name: Name, line: nat, w: WinSvc)
  {
    LineOf(items, name, line) && items[line - 1].win && items[line - 1].entry == w
  }

  predicate GivesPort(items: seq<Item>, name: Name, line: nat, p: PortSvc)
  {
    LineOf(items, name, line) && !items[line - 1].win && items[line - 1].entry.p == p
  }

  lemma {:induction false} EntriesAre(items: seq<Item>, name: Name, k: nat)
    requires k <= |items|
    ensures forall w :: w in WinEntries(items, name, k) <==> exists l: nat :: l <= k && GivesWin(items, name, l, w)
    ensures forall p :: p in PortEntries(items, name, k) <==> exists l: nat :: l <= k && GivesPort(items, name, l, p)
  {
    if k > 0 {
      EntriesAre(items, name, k - 1);
      var item := items[k - 1];
      assert item.Item? ==> (GivesWin(items, name, k, item.entry) <==> LineOf(items, name, k) && item.win);
      assert item.Item? ==> (GivesPort(items, name, k, item.entry.p) <==> LineOf(items, name, k) && !item.win);
    }
  }

  lemma {:induction false} FirstIsFirst(items: seq<Item>, name: Name, k: nat)
    requires k <= |items| && Lines(items, name, k) != []
    ensures 1 <= Lines(items, name, k)[0] <= |items|
    ensures FirstItem(items, name, k) == items[Lines(items, name, k)[0] - 1]
  {
    if Lines(items, name, k - 1) != [] {
      FirstIsFirst(items, name, k - 1);
    }
  }

  // Every row that is not skipped goes into exactly one service, once, and no line is invented;
  // a service has the href and the description of its first row, and the entries of its rows.
  lemma RowsAreConserved(items: seq<Item>, groups: map<Name, CsvService>)
    requires Grouped(items, groups, |items|)
    ensures forall r :: 0 <= r < |items| && items[r].Item? ==> items[r].name in groups
    ensures forall name, line: nat :: name in groups ==> (line in groups[name].csvLines <==> LineOf(items, name, line))
    ensures forall name :: name in groups ==> InOrder(groups[name], name) && HeadOfFirst(items, groups[name])
    ensures forall name, w :: name in groups ==>
            (w in groups[name].service.windows <==> exists line: nat :: GivesWin(items, name, line, w))
    ensures forall name, p :: name in groups ==>
            (p in groups[name].service.ports <==> exists line: nat :: GivesPort(items, name, line, p))
  {
    forall r | 0 <= r < |items| && items[r].Item?
      ensures items[r].name in groups
    {
      assert GroupedAt(items, groups, |items|, items[r].name);
      LinesAre(items, items[r].name, |items|);
      assert LineOf(items, items[r].name, r + 1);
    }
    forall name | name in groups
      ensures forall line: nat :: line in groups[name].csvLines <==> LineOf(items, name, line)
      ensures InOrder(groups[name], name) && HeadOfFirst(items, groups[name])
      ensures forall w :: w in groups[name].service.windows <==> exists line: nat :: GivesWin(items, name, line, w)
      ensures forall p :: p in groups[name].service.ports <==> exists line: nat :: GivesPort(items, name, line, p)
    {
      GroupConserved(items, groups, name);
    }
  }

  lemma GroupConserved(items: seq<Item>, groups: map<Name, CsvService>, name: Name)
    requires GroupedAt(items, groups, |items|, name) && name in groups
    ensures forall line: nat :: line in groups[name].csvLines <==> LineOf(items, name, line)
    ensures InOrder(groups[name], name) && HeadOfFirst(items, groups[name])
    ensures forall w :: w in groups[name].service.windows <==> exists line: nat :: GivesWin(items, name, line, w)
    ensures forall p :: p in groups[name].service.ports <==> exists line: nat :: GivesPort(items, name, line, p)
  {
    LinesAre(items, name, |items|);
    NoLinesNoEntries(items, name, |items|);
    EntriesAre(items, name, |items|);
    FirstIsFirst(items, name, |items|);
  }

  // The lines of a service are in row order, with one entry per line.
  ghost predicate InOrder(g: CsvService, name: Name)
  {
    && g.service.name == name && Increasing(g.csvLines)
    && |g.service.windows| + |g.service.ports| == |g.csvLines| > 0
  }

  predicate HeadOfFirst(items: seq<Item>, g: CsvService)
  {
    && g.csvLines != [] && 1 <= g.csvLines[0] <= |items|
    && (var first := items[g.csvLines[0] - 1];
        first.Item? && g.service.href == first.href && g.service.description == first.description)
  }
}
