// The services of a rule: printed into one cell of the rule export, parsed and compared by the
// rule import.
module RuleServices {
  import opened Seqs
  import opened Text
  import opened Protocols

  // A nil pointer to a port and a zero port are not told apart.
  datatype IngressService =
    | ByPort(protocol: int, port: nat, toPort: nat)
    | ByHref(href: string)

  datatype Service = Service(href: string, name: string, windows: bool, ports: bool)

  datatype Rule = Rule(href: string, services: seq<IngressService>)

  // The services of the PCE by name and by href. A missing one reads as an empty one.
  type Services = map<string, Service>

  function Lookup(pce: Services, key: string): Service
  {
    if key in pce then pce[key] else Service("", "", false, false)
  }

  // ---------- export ----------

  // illumioapi.ProtocolList: protocol names by number.
  type ProtocolNames = map<int, string>

  function ProtocolName(names: ProtocolNames, protocol: int): string
  {
    if protocol in names then names[protocol] else ""
  }

  predicate NamesTcpUdp(names: ProtocolNames)
  {
    ProtocolName(names, TCP) == "TCP" && ProtocolName(names, UDP) == "UDP"
  }

  function PortText(names: ProtocolNames, protocol: int, port: nat, toPort: nat): string
  {
    if toPort == 0 then Itoa(port) + " " + ProtocolName(names, protocol)
    else Itoa(port) + "-" + Itoa(toPort) + " " + ProtocolName(names, protocol)
  }

  // What one entry adds to the list of texts; a service of both kinds adds its name twice.
  function PrintOne(pce: Services, names: ProtocolNames, s: IngressService): (texts: seq<string>)
    ensures s.ByPort? ==> |texts| == 1
    ensures s.ByHref? && s.href in pce && pce[s.href].windows && pce[s.href].ports ==> |texts| == 2
  {
    match s
    case ByPort(protocol, port, toPort) => [PortText(names, protocol, port, toPort)]
    case ByHref(href) =>
      var svc := Lookup(pce, href);
      (if svc.windows then [svc.name] else []) + (if svc.ports then [svc.name] else [])
  }

  function PrintAll(pce: Services, names: ProtocolNames, services: seq<IngressService>): seq<string>
  {
    if services == [] then [] else PrintOne(pce, names, services[0]) + PrintAll(pce, names, services[1..])
  }

  lemma {:induction false} PrintAllSnoc(pce: Services, names: ProtocolNames, services: seq<IngressService>,
                                        s: IngressService)
    ensures PrintAll(pce, names, services + [s]) == PrintAll(pce, names, services) + PrintOne(pce, names, s)
  {
    if services == [] {
      assert [s][1..] == [];
    } else {
      assert (services + [s])[1..] == services[1..] + [s] && (services + [s])[0] == services[0];
      PrintAllSnoc(pce, names, services[1..], s);
      JoinRegroups(PrintOne(pce, names, services[0]), PrintAll(pce, names, services[1..]), PrintOne(pce, names, s));
    }
  }

  // The texts of one more entry.
  method AppendTexts(pce: Services, names: ProtocolNames, texts: seq<string>, s: IngressService)
      returns (services: seq<string>)
    ensures services == texts + PrintOne(pce, names, s)
  {
    services := texts;
    match s {
      case ByHref(href) =>
        var svc := Lookup(pce, href);
        if svc.windows {
          services := services + [svc.name];
        }
        if svc.ports {
          services := services + [svc.name];
        }
      case ByPort(protocol, port, toPort) =>
        services := services + [PortText(names, protocol, port, toPort)];
    }
  }

  // The service block of the rule export.
  method ExportServices(pce: Services, names: ProtocolNames, rule: Rule) returns (cell: string)
    ensures cell == Join(PrintAll(pce, names, rule.services), ';')
  {
    var services: seq<string> := [];
    cell := "";
    for i := 0 to |rule.services|
      invariant services == PrintAll(pce, names, rule.services[..i])
      invariant cell == Join(services, ';')
    {
      PrintNext(pce, names, rule.services, i);
      services := AppendTexts(pce, names, services, rule.services[i]);
      cell := Join(services, ';');
    }
    assert rule.services[..|rule.services|] == rule.services;
  }

  lemma PrintNext(pce: Services, names: ProtocolNames, services: seq<IngressService>, i: nat)
    requires i < |services|
    ensures PrintAll(pce, names, services[..i + 1]) ==
            PrintAll(pce, names, services[..i]) + PrintOne(pce, names, services[i])
  {
    PrintAllSnoc(pce, names, services[..i], services[i]);
    assert services[..i + 1] == services[..i] + [services[i]];
  }

  // ---------- import: one text ----------

  function LastThree(c: string): string
    requires |c| >= 3
  {
    c[|c| - 3..]
  }

  predicate EndsInProtocol(c: string)
  {
    |c| >= 3 && ToLower(LastThree(c)) in {"tcp", "udp"}
  }

  // The test for a port entry.
  predicate PortShaped(c: string)
  {
    c != "" && Digit(c[0]) && EndsInProtocol(c) && Count(c, ' ') == 1
  }

  // Indexing or slicing out of range: an empty text, or a digit in one of fewer than 3 chars.
  predicate Crashes(c: string)
  {
    c == "" || (Digit(c[0]) && |c| < 3)
  }

  datatype PortEntry = PortEntry(protocol: string, port: int, toPort: int)

  // parseCSVPortEntry: None for its error. entry ends in a protocol, so nothing is out of range
  // but the text after a dash that is too short.
  datatype Parsed = Bad | Panic | Entry(e: PortEntry)

  function ParseCSVPortEntry(entry: string): Parsed
    requires |entry| >= 3
  {
    ParseParts(ToLower(LastThree(entry)), Split(Without(entry, ' '), '-'))
  }

  // The parts around the first dash; the last three chars of the second, or of the only one,
  // are cut off.
  function ParseParts(protocol: string, s: seq<string>): Parsed
    requires s != []
  {
    if |s| == 1 then
      if |s[0]| < 3 then Panic
      else
        match Atoi(s[0][..|s[0]| - 3])
        case None => Bad
        case Some(port) => Entry(PortEntry(protocol, port, 0))
    else
      match Atoi(s[0])
      case None => Bad
      case Some(port) =>
        if |s[1]| < 3 then Panic
        else
          match Atoi(s[1][..|s[1]| - 3])
          case None => Bad
          case Some(toPort) => Entry(PortEntry(protocol, port, toPort))
  }

  // What one text of the cell stands for; a service with the name its href is listed under.
  datatype Meaning = Crash | Error | Port(e: PortEntry) | Named(name: string, href: string)

  function ParseText(pce: Services, c: string): Meaning
  {
    if Crashes(c) then Crash
    else if PortShaped(c) then
      match ParseCSVPortEntry(c)
      case Panic => Crash
      case Bad => Error
      case Entry(e) => Port(e)
    else if c in pce then Named(Lookup(pce, pce[c].href).name, pce[c].href)
    else Error
  }

  function Meanings(pce: Services, csv: seq<string>): (r: seq<Meaning>)
    ensures |r| == |csv| && forall i {:trigger r[i]} :: 0 <= i < |csv| ==> r[i] == ParseText(pce, csv[i])
  {
    seq(|csv|, i requires 0 <= i < |csv| => ParseText(pce, csv[i]))
  }

  predicate Parses(m: Meaning)
  {
    m.Port? || m.Named?
  }

  predicate AllParse(ms: seq<Meaning>)
  {
    forall i :: 0 <= i < |ms| ==> Parses(ms[i])
  }

  // The first text that does not parse.
  predicate StopsAt(ms: seq<Meaning>, i: nat)
  {
    i < |ms| && !Parses(ms[i]) && AllParse(ms[..i])
  }

  // ---------- import: the comparison ----------

  // "%s-%d-%d" of protocol and ports.
  function PortKey(protocol: string, port: int, toPort: int): string
  {
    protocol + "-" + (ItoaInt(port) + "-" + ItoaInt(toPort))
  }

  function CsvKey(m: Meaning): string
  {
    match m
    case Port(e) => PortKey(e.protocol, e.port, e.toPort)
    case Named(name, _) => name
    case _ => ""
  }

  // The entry a text is turned into when the rule has to change.
  datatype NewService = NewPort(protocol: int, port: int, toPort: Option<int>) | NewHref(href: string)

  function CsvService(m: Meaning): NewService
  {
    match m
    case Port(e) =>
      NewPort(if e.protocol == "udp" then UDP else TCP, e.port, if e.toPort == 0 then None else Some(e.toPort))
    case Named(_, href) => NewHref(href)
    case _ => NewHref("")
  }

  function RuleKey(pce: Services, s: IngressService): string
  {
    match s
    case ByPort(protocol, port, toPort) => PortKey(if protocol == UDP then "udp" else "tcp", port, toPort)
    case ByHref(href) => Lookup(pce, href).name
  }

  function CsvKeyList(ms: seq<Meaning>): (r: seq<string>)
    ensures |r| == |ms| && forall i {:trigger r[i]} :: 0 <= i < |r| ==> r[i] == CsvKey(ms[i])
  {
    seq(|ms|, i requires 0 <= i < |ms| => CsvKey(ms[i]))
  }

  function RuleKeyList(pce: Services, services: seq<IngressService>): (r: seq<string>)
    ensures |r| == |services| && forall i {:trigger r[i]} :: 0 <= i < |r| ==> r[i] == RuleKey(pce, services[i])
  {
    seq(|services|, i requires 0 <= i < |services| => RuleKey(pce, services[i]))
  }

  function CsvKeys(ms: seq<Meaning>): set<string>
  {
    Members(CsvKeyList(ms))
  }

  function RuleKeys(pce: Services, services: seq<IngressService>): set<string>
  {
    Members(RuleKeyList(pce, services))
  }

  datatype Result = Crashed | Failed | Kept(services: seq<IngressService>) | Changed(newServices: set<NewService>)

  // Every entry stands for a text with its key.
  ghost predicate Stand(entries: map<string, NewService>, ms: seq<Meaning>)
  {
    forall key :: key in entries ==>
      exists i :: 0 <= i < |ms| && CsvKey(ms[i]) == key && CsvService(ms[i]) == entries[key]
  }

  // One entry for each key of the texts.
  ghost predicate OnePerKey(services: set<NewService>, ms: seq<Meaning>)
  {
    exists entries: map<string, NewService> ::
      entries.Keys == CsvKeys(ms) && Stand(entries, ms) && services == entries.Values
  }

  lemma StandSnoc(entries: map<string, NewService>, ms: seq<Meaning>, m: Meaning)
    requires Stand(entries, ms)
    ensures Stand(entries[CsvKey(m) := CsvService(m)], ms + [m])
    ensures CsvKeys(ms + [m]) == CsvKeys(ms) + {CsvKey(m)}
  {
    var ms' := ms + [m];
    assert ms'[|ms|] == m && forall i :: 0 <= i < |ms| ==> ms'[i] == ms[i];
    forall key | key in entries && key != CsvKey(m)
      ensures exists i :: 0 <= i < |ms'| && CsvKey(ms'[i]) == key && CsvService(ms'[i]) == entries[key]
    {
      var i :| 0 <= i < |ms| && CsvKey(ms[i]) == key && CsvService(ms[i]) == entries[key];
      assert ms'[i] == ms[i];
    }
    KeysSnoc(ms, m);
  }

  lemma KeysSnoc(ms: seq<Meaning>, m: Meaning)
    ensures CsvKeys(ms + [m]) == CsvKeys(ms) + {CsvKey(m)}
  {
    assert CsvKeyList(ms + [m]) == CsvKeyList(ms) + [CsvKey(m)];
    MembersSnoc(CsvKeyList(ms), CsvKey(m));
  }

  lemma RuleKeysSnoc(pce: Services, services: seq<IngressService>, s: IngressService)
    ensures RuleKeys(pce, services + [s]) == RuleKeys(pce, services) + {RuleKey(pce, s)}
  {
    assert RuleKeyList(pce, services + [s]) == RuleKeyList(pce, services) + [RuleKey(pce, s)];
    MembersSnoc(RuleKeyList(pce, services), RuleKey(pce, s));
  }

  lemma OneMoreMeaning(ms: seq<Meaning>, k: nat)
    requires k < |ms|
    ensures ms[..k + 1] == ms[..k] + [ms[k]] && ms[..|ms|] == ms
    ensures AllParse(ms[..k]) && Parses(ms[k]) ==> AllParse(ms[..k + 1])
  {
  }

  // Filling the map of the CSV side; stops at the first text that does not parse.
  method CsvEntries(pce: Services, csvServices: seq<string>)
      returns (stop: Option<Meaning>, entries: map<string, NewService>)
    ensures var ms := Meanings(pce, csvServices);
            && (stop == None <==> AllParse(ms))
            && (stop.Some? ==> exists i: nat :: StopsAt(ms, i) && ms[i] == stop.value)
            && (stop == None ==> entries.Keys == CsvKeys(ms) && Stand(entries, ms))
  {
    ghost var ms := Meanings(pce, csvServices);
    entries := map[];
    for k := 0 to |csvServices|
      invariant AllParse(ms[..k])
      invariant entries.Keys == CsvKeys(ms[..k]) && Stand(entries, ms[..k])
    {
      var m := ParseText(pce, csvServices[k]);
      OneMoreMeaning(ms, k);
      if !Parses(m) {
        assert StopsAt(ms, k);
        return Some(m), map[];
      }
      StandSnoc(entries, ms[..k], m);
      entries := entries[CsvKey(m) := CsvService(m)];
    }
    assert ms[..|csvServices|] == ms;
    stop := None;
  }

  method RuleEntries(pce: Services, services: seq<IngressService>) returns (entries: map<string, IngressService>)
    ensures entries.Keys == RuleKeys(pce, services)
  {
    entries := map[];
    for k := 0 to |services|
      invariant entries.Keys == RuleKeys(pce, services[..k])
    {
      assert services[..k + 1] == services[..k] + [services[k]];
      RuleKeysSnoc(pce, services[..k], services[k]);
      entries := entries[RuleKey(pce, services[k]) := services[k]];
    }
    assert services[..|services|] == services;
  }

  // ServiceComparison: a rule of the PCE is kept, with its own services, exactly when every
  // text parses and both sides have the same keys.
  method ServiceComparison(pce: Services, csvServices: seq<string>, rule: Rule) returns (r: Result)
    ensures var ms := Meanings(pce, csvServices);
            && (r.Crashed? || r.Failed? <==> !AllParse(ms))
            && (r.Crashed? ==> exists i: nat :: StopsAt(ms, i) && ms[i] == Crash)
            && (r.Failed? ==> exists i: nat :: StopsAt(ms, i) && ms[i] == Error)
            && (r.Kept? <==> AllParse(ms) && rule.href != "" && CsvKeys(ms) == RuleKeys(pce, rule.services))
            && (r.Kept? ==> r.services == rule.services)
            && (r.Changed? ==> OnePerKey(r.newServices, ms))
  {
    var stop, csvEntries := CsvEntries(pce, csvServices);
    if stop.Some? {
      return if stop.value == Crash then Crashed else Failed;
    }
    var ruleEntries := RuleEntries(pce, rule.services);
    var change := KeysDiffer(csvEntries.Keys, ruleEntries.Keys);
    change := change && rule.href != "";
    if change || rule.href == "" {
      r := Changed(csvEntries.Values);
    } else {
      r := Kept(rule.services);
    }
  }

  // ---------- what equal keys decide ----------

  // A service as it is meant: a protocol with ports, or a name.
  datatype Id = PortId(protocol: int, port: int, toPort: int) | NameId(name: string)

  function IdKey(id: Id): string
  {
    match id
    case PortId(protocol, port, toPort) => PortKey(if protocol == UDP then "udp" else "tcp", port, toPort)
    case NameId(name) => name
  }

  function CsvId(m: Meaning): Id
  {
    match m
    case Port(e) => PortId(if e.protocol == "udp" then UDP else TCP, e.port, e.toPort)
    case Named(name, _) => NameId(name)
    case _ => NameId("")
  }

  function RuleId(pce: Services, s: IngressService): Id
  {
    match s
    case ByPort(protocol, port, toPort) => PortId(protocol, port, toPort)
    case ByHref(href) => NameId(Lookup(pce, href).name)
  }

  function CsvIds(ms: seq<Meaning>): (r: seq<Id>)
    ensures |r| == |ms| && forall i {:trigger r[i]} :: 0 <= i < |r| ==> r[i] == CsvId(ms[i])
  {
    seq(|ms|, i requires 0 <= i < |ms| => CsvId(ms[i]))
  }

  function RuleIds(pce: Services, services: seq<IngressService>): (r: seq<Id>)
    ensures |r| == |services| && forall i {:trigger r[i]} :: 0 <= i < |r| ==> r[i] == RuleId(pce, services[i])
  {
    seq(|services|, i requires 0 <= i < |services| => RuleId(pce, services[i]))
  }

  // Different services of one key: the same ports of two protocols that are not UDP, or a name
  // that spells the key of a port.
  predicate Clash(x: Id, y: Id)
  {
    if x.PortId? && y.PortId? then
      x.protocol != y.protocol && x.protocol != UDP && y.protocol != UDP && x.port == y.port && x.toPort == y.toPort
    else
      (x.PortId? && y.NameId? && y.name == IdKey(x)) || (x.NameId? && y.PortId? && x.name == IdKey(y))
  }

  // Two port keys are equal exactly when protocol and ports are.
  lemma PortKeyDecides(p: string, port: int, toPort: int, q: string, port': int, toPort': int)
    requires p in {"tcp", "udp"} && q in {"tcp", "udp"}
    ensures PortKey(p, port, toPort) == PortKey(q, port', toPort') <==> p == q && port == port' && toPort == toPort'
  {
    if PortKey(p, port, toPort) == PortKey(q, port', toPort') {
      HeadsDecide(p, ItoaInt(port) + "-" + ItoaInt(toPort), q, ItoaInt(port') + "-" + ItoaInt(toPort'));
      IntHeads(port, ItoaInt(toPort), port', ItoaInt(toPort'));
      ItoaIntInjective(toPort, toPort');
    }
  }

  // Two services share a key exactly when they are the same or clash.
  lemma KeyDecides(x: Id, y: Id)
    ensures IdKey(x) == IdKey(y) <==> x == y || Clash(x, y)
  {
    assert "tcp"[0] != "udp"[0];
    if x.PortId? && y.PortId? {
      PortKeyDecides(if x.protocol == UDP then "udp" else "tcp", x.port, x.toPort,
                     if y.protocol == UDP then "udp" else "tcp", y.port, y.toPort);
    }
  }

  lemma CsvKeyOfId(pce: Services, c: string)
    requires Parses(ParseText(pce, c))
    ensures CsvKey(ParseText(pce, c)) == IdKey(CsvId(ParseText(pce, c)))
  {
    if PortShaped(c) {
      assert ToLower(LastThree(c)) in {"tcp", "udp"};
    }
  }

  lemma KeysOfCsvIds(pce: Services, csv: seq<string>)
    requires AllParse(Meanings(pce, csv))
    ensures CsvKeys(Meanings(pce, csv)) == Members(Images(CsvIds(Meanings(pce, csv)), IdKey))
  {
    var ms := Meanings(pce, csv);
    var images := Images(CsvIds(ms), IdKey);
    forall i | 0 <= i < |ms|
      ensures CsvKeyList(ms)[i] == images[i]
    {
      assert Parses(ms[i]);
      CsvKeyOfId(pce, csv[i]);
    }
    assert CsvKeyList(ms) == images;
  }

  lemma KeysOfRuleIds(pce: Services, services: seq<IngressService>)
    ensures RuleKeys(pce, services) == Members(Images(RuleIds(pce, services), IdKey))
  {
    var images := Images(RuleIds(pce, services), IdKey);
    forall i | 0 <= i < |services|
      ensures RuleKeyList(pce, services)[i] == images[i]
    {
    }
    assert RuleKeyList(pce, services) == images;
  }

  // When no change is reported the CSV and the rule hold the same services exactly if every two
  // that clash, one from each side, are on both sides.
  lemma KeptMeansSame(pce: Services, csv: seq<string>, services: seq<IngressService>)
    requires AllParse(Meanings(pce, csv))
    ensures var a, b := CsvIds(Meanings(pce, csv)), RuleIds(pce, services);
            Members(a) == Members(b) <==>
              CsvKeys(Meanings(pce, csv)) == RuleKeys(pce, services)
              && forall x, y :: x in a && y in b && Clash(x, y) ==> x in b && y in a
  {
    KeysOfCsvIds(pce, csv);
    KeysOfRuleIds(pce, services);
    forall x, y
      ensures IdKey(x) == IdKey(y) <==> x == y || Clash(x, y)
    {
      KeyDecides(x, y);
    }
    SameByKey(CsvIds(Meanings(pce, csv)), RuleIds(pce, services), IdKey, Clash);
  }

  // Such a clash is possible: a service may bear the key of any port as its name, and the parser
  // takes it for a name.
  lemma PortKeyIsGoodName(protocol: string, port: nat, toPort: nat)
    requires protocol in {"tcp", "udp"}
    ensures GoodName(PortKey(protocol, port, toPort))
    ensures Clash(NameId(PortKey(protocol, port, toPort)), PortId(if protocol == "udp" then UDP else TCP, port, toPort))
  {
    var key := PortKey(protocol, port, toPort);
    ItoaPlain(port);
    ItoaPlain(toPort);
    assert key[0] == protocol[0] && |key| > 3;
  }

  // ---------- the round trip ----------

  // What the parser makes of a text of numbers and dashes, a space and a protocol name.
  lemma ShapedText(head: string, name: string, c: string)
    requires c == head + " " + name && ToLower(name) in {"tcp", "udp"} && head != "" && Digit(head[0]) && ' ' !in head
    ensures PortShaped(c) && !Crashes(c) && LastThree(c) == name && Without(c, ' ') == head + name
  {
    assert c == head + [' '] + name;
    LettersOnly(name);
    CountOnce(head, name, ' ');
    WithoutOnce(head, name, ' ');
    assert LastThree(c) == name;
  }

  lemma LettersOnly(name: string)
    requires ToLower(name) in {"tcp", "udp"}
    ensures |name| == 3 && ' ' !in name && '-' !in name
  {
    assert forall i :: 0 <= i < 3 ==> ToLower(name)[i] == LowerChar(name[i]);
  }

  lemma ItoaPlain(n: nat)
    ensures Itoa(n) != "" && Digit(Itoa(n)[0])
    ensures ' ' !in Itoa(n) && '-' !in Itoa(n) && ';' !in Itoa(n)
  {
    assert Itoa(n)[0] in Itoa(n);
  }

  lemma LowerName(name: string)
    requires name in {"TCP", "UDP"}
    ensures ToLower(name) == if name == "TCP" then "tcp" else "udp"
  {
  }

  lemma ParseOfPort(port: nat, name: string, c: string)
    requires port <= MAX_INT && ToLower(name) in {"tcp", "udp"} && c == Itoa(port) + " " + name
    ensures PortShaped(c) && !Crashes(c)
    ensures ParseCSVPortEntry(c) == Entry(PortEntry(ToLower(name), port, 0))
  {
    var a := Itoa(port);
    ItoaPlain(port);
    AtoiOfItoa(port);
    LettersOnly(name);
    ShapedText(a, name, c);
    SplitOfPart(a + name, '-');
    assert (a + name)[..|a + name| - 3] == a;
  }

  lemma ParseOfRange(port: nat, toPort: nat, name: string, c: string)
    requires port <= MAX_INT && toPort <= MAX_INT && ToLower(name) in {"tcp", "udp"}
    requires c == Itoa(port) + "-" + Itoa(toPort) + " " + name
    ensures PortShaped(c) && !Crashes(c)
    ensures ParseCSVPortEntry(c) == Entry(PortEntry(ToLower(name), port, toPort))
  {
    var a, b := Itoa(port), Itoa(toPort);
    ItoaPlain(port);
    ItoaPlain(toPort);
    AtoiOfItoa(port);
    AtoiOfItoa(toPort);
    LettersOnly(name);
    ShapedText(a + "-" + b, name, c);
    SplitRange(a, b, name);
    assert (b + name)[..|b + name| - 3] == b;
  }

  lemma SplitRange(a: string, b: string, name: string)
    requires '-' !in a && '-' !in b && '-' !in name
    ensures Split(a + "-" + b + name, '-') == [a, b + name]
  {
    assert a + "-" + b + name == a + ['-'] + (b + name);
    SplitAtSep(a, b + name, '-');
    SplitOfPart(b + name, '-');
  }

  // u is r with p at the end of its last part.
  predicate Longer(u: seq<string>, r: seq<string>, p: string)
  {
    |u| == |r| > 0 && u[|r| - 1] == r[|r| - 1] + p && forall i :: 0 <= i < |r| - 1 ==> u[i] == r[i]
  }

  lemma LongerHead(c: char, u: seq<string>, r: seq<string>, p: string)
    requires Longer(u, r, p)
    ensures Longer([[c] + u[0]] + u[1..], [[c] + r[0]] + r[1..], p)
  {
    assert [c] + (r[0] + p) == [c] + r[0] + p;
  }

  // With more text at its end a text splits into the same parts, the last one longer.
  lemma {:induction false} SplitLonger(t: string, p: string)
    requires '-' !in p
    ensures Longer(Split(t + p, '-'), Split(t, '-'), p)
  {
    if t == "" {
      SplitOfPart(p, '-');
      assert "" + p == p;
    } else {
      assert (t + p)[1..] == t[1..] + p && (t + p)[0] == t[0];
      SplitLonger(t[1..], p);
      LongerHead(t[0], Split(t[1..] + p, '-'), Split(t[1..], '-'), p);
    }
  }

  // The case of the last three letters makes no difference to a text that ends in a protocol.
  lemma CaseIsIgnored(t: string, p: string, q: string)
    requires ToLower(p) == ToLower(q) && ToLower(p) in {"tcp", "udp"}
    ensures PortShaped(t + p) <==> PortShaped(t + q)
    ensures PortShaped(t + p) ==> forall pce :: ParseText(pce, t + p) == ParseText(pce, t + q)
  {
    LettersOnly(p);
    LettersOnly(q);
    CountAppend(t, p, ' ');
    CountAppend(t, q, ' ');
    CountZero(p, ' ');
    CountZero(q, ' ');
    assert LastThree(t + p) == p && LastThree(t + q) == q;
    if PortShaped(t + p) {
      FirstOfText(t, p);
      assert (t + p)[0] == t[0] == (t + q)[0];
      SameEntry(t, p, q);
    }
  }

  lemma FirstOfText(t: string, p: string)
    requires ToLower(p) in {"tcp", "udp"} && Digit((t + p)[0])
    ensures t != ""
  {
    assert ToLower(p)[0] == LowerChar(p[0]);
  }

  lemma SameEntry(t: string, p: string, q: string)
    requires ToLower(p) == ToLower(q) && ToLower(p) in {"tcp", "udp"}
    ensures |t + p| >= 3 && |t + q| >= 3 && ParseCSVPortEntry(t + p) == ParseCSVPortEntry(t + q)
  {
    LettersOnly(p);
    LettersOnly(q);
    assert LastThree(t + p) == p && LastThree(t + q) == q;
    WithoutAppend(t, p, ' ');
    WithoutAppend(t, q, ' ');
    WithoutIsIdentity(p, ' ');
    WithoutIsIdentity(q, ' ');
    var bare := Without(t, ' ');
    var parts := Split(bare, '-');
    SplitLonger(bare, p);
    SplitLonger(bare, q);
    SameParts(ToLower(p), parts, Split(bare + p, '-'), Split(bare + q, '-'), p, q);
  }

  lemma SameParts(protocol: string, parts: seq<string>, u: seq<string>, v: seq<string>, p: string, q: string)
    requires |p| == |q| == 3 && Longer(u, parts, p) && Longer(v, parts, q)
    ensures ParseParts(protocol, u) == ParseParts(protocol, v)
  {
    var last := parts[|parts| - 1];
    assert (last + p)[..|last + p| - 3] == last == (last + q)[..|last + q| - 3];
  }

  // Of a text with a second dash the middle number loses its last three chars, where it has them:
  // the parser runs out of range on "80-90-95 tcp".
  lemma SecondDash(pce: Services, a: nat, b: nat, rest: string, name: string)
    requires a <= MAX_INT && |Itoa(b)| < 3 && ' ' !in rest && ToLower(name) in {"tcp", "udp"}
    ensures ParseText(pce, Itoa(a) + "-" + (Itoa(b) + "-" + rest) + " " + name) == Crash
  {
    var s, t := Itoa(a), Itoa(b);
    ItoaPlain(a);
    ItoaPlain(b);
    AtoiOfItoa(a);
    ThreeParts(s, t, rest, name);
    ShortMiddle(pce, s + "-" + (t + "-" + rest), name);
  }

  lemma ShortMiddle(pce: Services, head: string, name: string)
    requires head != "" && Digit(head[0]) && ' ' !in head && ToLower(name) in {"tcp", "udp"}
    requires var parts := Split(head + name, '-'); |parts| >= 2 && Atoi(parts[0]).Some? && |parts[1]| < 3
    ensures ParseText(pce, head + " " + name) == Crash
  {
    ShapedText(head, name, head + " " + name);
  }

  lemma ThreeParts(s: string, t: string, rest: string, name: string)
    requires s != "" && '-' !in s && '-' !in t && ' ' !in s && ' ' !in t && ' ' !in rest
    ensures var head := s + "-" + (t + "-" + rest); head != "" && head[0] == s[0] && ' ' !in head
    ensures var parts := Split(s + "-" + (t + "-" + rest) + name, '-'); |parts| >= 2 && parts[0] == s && parts[1] == t
  {
    var u := rest + name;
    assert s + "-" + (t + "-" + rest) + name == s + ['-'] + (t + ['-'] + u);
    SplitAtSep(s, t + ['-'] + u, '-');
    SplitAtSep(t, u, '-');
  }

  // An entry is printed with the name of its protocol: "0 ICMP". When the name does not end in
  // TCP or UDP the parser does not take the text for a port, and fails unless the text itself
  // is the name of a service.
  lemma OtherProtocols(pce: Services, names: ProtocolNames, protocol: int, port: nat, toPort: nat)
    requires protocol in names && |names[protocol]| >= 3 && !EndsInProtocol(names[protocol])
    ensures var text := PortText(names, protocol, port, toPort);
            && text == Itoa(port) + (if toPort == 0 then "" else "-" + Itoa(toPort)) + (" " + names[protocol])
            && ParseText(pce, text) ==
               if text in pce then Named(Lookup(pce, pce[text].href).name, pce[text].href) else Error
  {
    var head, tail := Itoa(port), " " + names[protocol];
    JoinRegroups(head, " ", names[protocol]);
    JoinRegroups(head + "-" + Itoa(toPort), " ", names[protocol]);
    JoinRegroups(head, "-", Itoa(toPort));
    assert head + "" == head;
    NoPortEntry(if toPort == 0 then head else head + ("-" + Itoa(toPort)), names[protocol]);
  }

  lemma NoPortEntry(head: string, name: string)
    requires |name| >= 3 && !EndsInProtocol(name)
    ensures !PortShaped(head + (" " + name)) && !Crashes(head + (" " + name))
  {
    assert LastThree(head + (" " + name)) == LastThree(name);
  }

  // A printed port or port range parses to itself.
  lemma ParseOfPortText(pce: Services, names: ProtocolNames, protocol: int, port: nat, toPort: nat)
    requires NamesTcpUdp(names) && protocol in {TCP, UDP} && port <= MAX_INT && toPort <= MAX_INT
    ensures ParseText(pce, PortText(names, protocol, port, toPort)) ==
            Port(PortEntry(if protocol == UDP then "udp" else "tcp", port, toPort))
  {
    LowerName(ProtocolName(names, protocol));
    if toPort == 0 {
      ParseOfPort(port, ProtocolName(names, protocol), PortText(names, protocol, port, toPort));
    } else {
      ParseOfRange(port, toPort, ProtocolName(names, protocol), PortText(names, protocol, port, toPort));
    }
  }

  // The PCE lists the service under its href and its name.
  predicate Listed(pce: Services, href: string)
  {
    && href in pce && (pce[href].windows || pce[href].ports)
    && pce[href].name in pce && Lookup(pce, pce[pce[href].name].href).name == pce[href].name
  }

  // A name the parser takes for a name: at least three chars or no digit first, and not like a
  // port entry.
  ghost predicate GoodName(name: string)
  {
    name != "" && (|name| >= 3 || !Digit(name[0])) && !PortLike(name) && ';' !in name
  }

  // A digit first, one space, and tcp or udp at the end in any case.
  ghost predicate PortLike(c: string)
  {
    exists a, b, name :: a != "" && Digit(a[0]) && ' ' !in a && ' ' !in b && ToLower(name) in {"tcp", "udp"}
                         && c == a + [' '] + (b + name)
  }

  lemma FirstSpace(c: string) returns (i: nat)
    requires Count(c, ' ') == 1
    ensures i < |c| && c == c[..i] + [' '] + c[i + 1..] && ' ' !in c[..i] && ' ' !in c[i + 1..]
  {
    i :| i < |c| && c[i] == ' ' by {
      CountZero(c, ' ');
    }
    assert c == c[..i] + [' '] + c[i + 1..];
    CountAppend(c[..i] + [' '], c[i + 1..], ' ');
    CountAppend(c[..i], [' '], ' ');
    assert Count([' '], ' ') == 1;
    CountZero(c[..i], ' ');
    CountZero(c[i + 1..], ' ');
  }

  // The parser's test is for that shape.
  lemma PortShapedMeans(c: string)
    ensures PortShaped(c) <==> PortLike(c)
  {
    if PortShaped(c) {
      ShapedIsLike(c);
    }
    if a, b, name :| a != "" && Digit(a[0]) && ' ' !in a && ' ' !in b && ToLower(name) in {"tcp", "udp"}
                     && c == a + [' '] + (b + name) {
      LettersOnly(name);
      CountOnce(a, b + name, ' ');
      assert LastThree(c) == name;
    }
  }

  lemma ShapedIsLike(c: string)
    requires PortShaped(c)
    ensures PortLike(c)
  {
    var i := FirstSpace(c);
    var a, rest, name := c[..i], c[i + 1..], LastThree(c);
    LettersOnly(name);
    NameIsLast(c, i);
    var b := rest[..|rest| - 3];
    assert rest == b + name;
    assert a != "" by {
      assert c[i] == ' ';
    }
    assert c == a + [' '] + (b + name) && a[0] == c[0];
  }

  lemma NameIsLast(c: string, i: nat)
    requires |c| >= 3 && i < |c| && c[i] == ' '
    ensures ' ' !in LastThree(c) ==> i + 1 <= |c| - 3
  {
    if i >= |c| - 3 {
      assert LastThree(c)[i - (|c| - 3)] == ' ';
    }
  }

  lemma GoodNameMeans(name: string)
    ensures GoodName(name) <==> !Crashes(name) && !PortShaped(name) && ';' !in name
  {
    PortShapedMeans(name);
  }

  ghost predicate GoodService(pce: Services, s: IngressService)
  {
    match s
    case ByPort(protocol, port, toPort) => protocol in {TCP, UDP} && port <= MAX_INT && toPort <= MAX_INT
    case ByHref(href) => Listed(pce, href) && GoodName(pce[href].name)
  }

  ghost predicate GoodServices(pce: Services, services: seq<IngressService>)
  {
    forall i :: 0 <= i < |services| ==> GoodService(pce, services[i])
  }

  predicate GoodText(c: string)
  {
    c != "" && ';' !in c
  }

  // Each text an entry is printed as parses back to the entry's key.
  lemma PrintedParses(pce: Services, names: ProtocolNames, s: IngressService, i: nat)
    requires NamesTcpUdp(names) && GoodService(pce, s) && i < |PrintOne(pce, names, s)|
    ensures GoodText(PrintOne(pce, names, s)[i])
    ensures Parses(ParseText(pce, PrintOne(pce, names, s)[i]))
    ensures CsvKey(ParseText(pce, PrintOne(pce, names, s)[i])) == RuleKey(pce, s)
  {
    match s
    case ByPort(protocol, port, toPort) =>
      ParseOfPortText(pce, names, protocol, port, toPort);
      PortTextIsGood(names, protocol, port, toPort);
    case ByHref(href) =>
      NameParses(pce, href);
      assert PrintOne(pce, names, s)[i] == pce[href].name;
  }

  lemma PortTextIsGood(names: ProtocolNames, protocol: int, port: nat, toPort: nat)
    requires NamesTcpUdp(names) && protocol in {TCP, UDP}
    ensures GoodText(PortText(names, protocol, port, toPort))
  {
    ItoaPlain(port);
    ItoaPlain(toPort);
    assert PortText(names, protocol, port, toPort)[0] == Itoa(port)[0];
  }

  lemma NameParses(pce: Services, href: string)
    requires Listed(pce, href) && GoodName(pce[href].name)
    ensures ParseText(pce, pce[href].name) == Named(pce[href].name, pce[pce[href].name].href)
  {
    GoodNameMeans(pce[href].name);
  }

  // The PCE's name for the service leads to no other service.
  predicate UniquelyNamed(pce: Services, s: IngressService)
  {
    s.ByHref? && s.href in pce && pce[s.href].name in pce ==> pce[pce[s.href].name].href == s.href
  }

  function AsNew(s: IngressService): NewService
  {
    match s
    case ByPort(protocol, port, toPort) => NewPort(protocol, port, if toPort == 0 then None else Some(toPort))
    case ByHref(href) => NewHref(href)
  }

  // Each text an entry is printed as parses back to the entry itself.
  lemma PrintedReadsBack(pce: Services, names: ProtocolNames, s: IngressService, i: nat)
    requires NamesTcpUdp(names) && GoodService(pce, s) && UniquelyNamed(pce, s) && i < |PrintOne(pce, names, s)|
    ensures CsvService(ParseText(pce, PrintOne(pce, names, s)[i])) == AsNew(s)
  {
    match s
    case ByPort(protocol, port, toPort) => ParseOfPortText(pce, names, protocol, port, toPort);
    case ByHref(href) => NameParses(pce, href);
  }

  lemma {:induction false} AllPrintedParse(pce: Services, names: ProtocolNames, services: seq<IngressService>)
    requires NamesTcpUdp(names) && GoodServices(pce, services)
    ensures forall i :: 0 <= i < |PrintAll(pce, names, services)| ==> GoodText(PrintAll(pce, names, services)[i])
    ensures Keyed(Meanings(pce, PrintAll(pce, names, services)), RuleKeys(pce, services))
  {
    if services != [] {
      var n := |services| - 1;
      var front, s := services[..n], services[n];
      assert services == front + [s];
      PrintAllSnoc(pce, names, front, s);
      RuleKeysSnoc(pce, front, s);
      AllPrintedParse(pce, names, front);
      AddPrinted(pce, names, PrintAll(pce, names, front), RuleKeys(pce, front), s);
    }
  }

  // All parse, to these keys.
  predicate Keyed(ms: seq<Meaning>, keys: set<string>)
  {
    AllParse(ms) && CsvKeys(ms) == keys
  }

  lemma AddKeyed(ms: seq<Meaning>, keys: set<string>, m: Meaning, key: string)
    requires Keyed(ms, keys) && Parses(m) && CsvKey(m) == key
    ensures Keyed(ms + [m], keys + {key})
  {
    KeysSnoc(ms, m);
  }

  lemma AddSame(ms: seq<Meaning>, keys: set<string>, m: Meaning, key: string)
    requires Keyed(ms, keys + {key}) && Parses(m) && CsvKey(m) == key
    ensures Keyed(ms + [m], keys + {key})
  {
    AddKeyed(ms, keys + {key}, m, key);
  }

  lemma AddOneOrTwo(ms: seq<Meaning>, keys: set<string>, more: seq<Meaning>, key: string)
    requires 1 <= |more| <= 2 && Keyed(ms, keys)
    requires forall i :: 0 <= i < |more| ==> Parses(more[i]) && CsvKey(more[i]) == key
    ensures Keyed(ms + more, keys + {key})
  {
    OneOrTwo(ms, more);
    AddKeyed(ms, keys, more[0], key);
    if |more| == 2 {
      AddSame(ms + [more[0]], keys, more[1], key);
    }
  }

  lemma OneOrTwo(ms: seq<Meaning>, more: seq<Meaning>)
    requires 1 <= |more| <= 2
    ensures ms + more == if |more| == 1 then ms + [more[0]] else ms + [more[0]] + [more[1]]
  {
  }

  lemma MeaningsConcat(pce: Services, texts: seq<string>, more: seq<string>)
    ensures Meanings(pce, texts + more) == Meanings(pce, texts) + Meanings(pce, more)
  {
  }

  lemma AddPrinted(pce: Services, names: ProtocolNames, texts: seq<string>, keys: set<string>, s: IngressService)
    requires NamesTcpUdp(names) && GoodService(pce, s) && Keyed(Meanings(pce, texts), keys)
    ensures Keyed(Meanings(pce, texts + PrintOne(pce, names, s)), keys + {RuleKey(pce, s)})
    ensures forall i :: 0 <= i < |PrintOne(pce, names, s)| ==> GoodText(PrintOne(pce, names, s)[i])
  {
    var more, key := PrintOne(pce, names, s), RuleKey(pce, s);
    var ms := Meanings(pce, more);
    forall i | 0 <= i < |more|
      ensures GoodText(more[i]) && Parses(ms[i]) && CsvKey(ms[i]) == key
    {
      PrintedParses(pce, names, s, i);
    }
    MeaningsConcat(pce, texts, more);
    AddOneOrTwo(Meanings(pce, texts), keys, ms, key);
  }

  // No text but the first begins with a space.
  predicate SpacedFirst(texts: seq<string>)
  {
    forall i :: 1 <= i < |texts| ==> !StartsWith(texts[i], ' ')
  }

  // The exported cell of a rule reads back as the texts it was joined from exactly when none
  // but the first begins with a space.
  lemma CellReadsBack(pce: Services, names: ProtocolNames, services: seq<IngressService>)
    requires NamesTcpUdp(names) && GoodServices(pce, services)
    ensures var texts := PrintAll(pce, names, services); ReadCell(Join(texts, ';')) == texts <==> SpacedFirst(texts)
  {
    var texts := PrintAll(pce, names, services);
    AllPrintedParse(pce, names, services);
    forall p | p in texts
      ensures p != "" && ';' !in p
    {
      var i :| 0 <= i < |texts| && texts[i] == p;
    }
    assert texts != [""] by {
      assert "" !in texts;
    }
    ReadOfJoin(texts);
  }

  // Importing the exported services of a rule of the PCE against the same rule: no change, and
  // the rule's own services.
  method ExportThenImport(pce: Services, names: ProtocolNames, rule: Rule) returns (r: Result)
    requires NamesTcpUdp(names) && rule.href != "" && GoodServices(pce, rule.services)
    requires SpacedFirst(PrintAll(pce, names, rule.services))
    ensures r == Kept(rule.services)
  {
    var cell := ExportServices(pce, names, rule);
    AllPrintedParse(pce, names, rule.services);
    CellReadsBack(pce, names, rule.services);
    r := ServiceComparison(pce, ReadCell(cell), rule);
  }

  // A listed service alone in its cell is read back as that service exactly when its name is
  // good: no ';', not shaped like a port entry, not empty, and not one or two chars of which
  // the first is a digit.
  lemma NameReadsBack(pce: Services, href: string)
    requires Listed(pce, href)
    ensures var name := pce[href].name;
            Meanings(pce, ReadCell(name)) == [Named(name, pce[name].href)] <==> GoodName(name)
  {
    var name := pce[href].name;
    var ms := Meanings(pce, ReadCell(name));
    GoodNameMeans(name);
    if name != "" {
      OnePart(name);
      assert ';' !in name ==> |ms| == 1 && ms[0] == ParseText(pce, name);
      assert ';' in name ==> |ms| != 1;
    }
  }

  // A cell is a single text exactly when it holds no ';', and then it is that text.
  lemma OnePart(cell: string)
    requires cell != ""
    ensures |ReadCell(cell)| == 1 <==> ';' !in cell
    ensures ';' !in cell ==> ReadCell(cell) == [cell]
  {
    KeepsSeps(cell);
    SingleSplit(DropSpaceAfter(cell, ';'), ';');
    if ';' !in cell {
      DropSpaceIsIdentity(cell, ';');
      SplitOfPart(cell, ';');
    }
  }

  lemma {:induction false} KeepsSeps(s: string)
    ensures ';' in DropSpaceAfter(s, ';') <==> ';' in s
    decreases |s|
  {
    if s != "" {
      if |s| >= 2 && s[0] == ';' && s[1] == ' ' {
        assert s[0] in s;
      } else {
        KeepsSeps(s[1..]);
        assert s == [s[0]] + s[1..];
      }
    }
  }
}
