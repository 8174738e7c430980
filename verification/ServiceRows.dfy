// Service objects as CSV rows: the rows svc-export writes, what svc-import reads from one row,
// and how it groups rows into services.
module ServiceRows {
  import opened Seqs
  import opened Text
  import opened Protocols

  // A port/protocol entry; a nil port reads as zero.
  datatype PortSvc = PortSvc(port: int, toPort: int, protocol: int, icmpCode: int, icmpType: int)

  datatype WinSvc = WinSvc(p: PortSvc, process: string, service: string)

  datatype Name = Name(text: string)

  // The columns of the uncompressed export with hrefs.
  datatype Row = Row(name: Name, description: string, win: string, port: string, proto: string,
                     process: string, service: string, icmpCode: string, icmpType: string, href: string)

  datatype Service = Service(name: Name, href: string, description: string, windows: seq<WinSvc>, ports: seq<PortSvc>)

  const ALL_SERVICES: Name := Name("All Services")

  // ---------- export ----------

  function PortText(p: PortSvc): string
  {
    if p.toPort != 0 then ItoaInt(p.port) + "-" + ItoaInt(p.toPort)
    else if p.protocol == TCP || p.protocol == UDP then ItoaInt(p.port)
    else ""
  }

  function ProtoText(p: PortSvc): string
  {
    if p.protocol == TCP then "tcp" else if p.protocol == UDP then "udp" else ItoaInt(p.protocol)
  }

  function FormatBool(b: bool): string
  {
    if b then "true" else "false"
  }

  function RowOf(s: Service, p: PortSvc, process: string, service: string): Row
  {
    Row(s.name, s.description, FormatBool(|s.windows| > 0), PortText(p), ProtoText(p), process, service,
        ItoaInt(p.icmpCode), ItoaInt(p.icmpType), s.href)
  }

  function PortRow(s: Service, p: PortSvc): Row
  {
    RowOf(s, p, "", "")
  }

  function WinRow(s: Service, w: WinSvc): Row
  {
    RowOf(s, w.p, w.process, w.service)
  }

  // The rows of one service: port entries, then Windows entries.
  function RowsOf(s: Service): (r: seq<Row>)
    ensures |r| == |s.ports| + |s.windows|
    ensures forall i :: 0 <= i < |s.ports| ==> r[i] == PortRow(s, s.ports[i])
    ensures forall i :: 0 <= i < |s.windows| ==> r[|s.ports| + i] == WinRow(s, s.windows[i])
  {
    seq(|s.ports|, i requires 0 <= i < |s.ports| => PortRow(s, s.ports[i]))
    + seq(|s.windows|, i requires 0 <= i < |s.windows| => WinRow(s, s.windows[i]))
  }

  function AllRows(svcs: seq<Service>): seq<Row>
  {
    if svcs == [] then [] else AllRows(svcs[..|svcs| - 1]) + RowsOf(svcs[|svcs| - 1])
  }

  // The rows of one service, entry by entry, added to the data.
  method ExportService(s: Service, csvData0: seq<Row>) returns (csvData: seq<Row>)
    ensures csvData == csvData0 + RowsOf(s)
  {
    ghost var rows := RowsOf(s);
    TakeNone(csvData0, rows);
    csvData := csvData0;
    for i := 0 to |s.ports|
      invariant csvData == csvData0 + rows[..i]
    {
      TakeNext(csvData0, rows, i);
      csvData := csvData + [PortRow(s, s.ports[i])];
    }
    for i := 0 to |s.windows|
      invariant csvData == csvData0 + rows[..|s.ports| + i]
    {
      TakeNext(csvData0, rows, |s.ports| + i);
      csvData := csvData + [WinRow(s, s.windows[i])];
    }
  }

  lemma TakeNone(a: seq<Row>, rows: seq<Row>)
    ensures a + rows[..0] == a && rows[..|rows|] == rows
  {
  }

  // ExportServices: the header row, then the rows of every service.
  method ExportServices(header: Row, svcs: seq<Service>) returns (csvData: seq<Row>)
    ensures csvData == [header] + AllRows(svcs)
  {
    csvData := [header];
    for i := 0 to |svcs|
      invariant csvData == [header] + AllRows(svcs[..i])
    {
      assert svcs[..i + 1][..i] == svcs[..i];
      JoinRegroups([header], AllRows(svcs[..i]), RowsOf(svcs[i]));
      csvData := ExportService(svcs[i], csvData);
    }
    assert svcs[..|svcs|] == svcs;
  }

  // ---------- import: one row ----------

  // The port column: empty, one number, or two with a dash; spaces do not count.
  function ParsePorts(text: string): Option<(int, int)>
  {
    if text == "" then Some((0, 0))
    else
      var parts := Split(Without(text, ' '), '-');
      match Atoi(parts[0])
      case None => None
      case Some(port) =>
        if |parts| == 1 then Some((port, 0))
        else
          match Atoi(parts[1])
          case None => None
          case Some(toPort) => Some((port, toPort))
  }

  function ParseProto(text: string): Option<int>
  {
    if text == "" then Some(0)
    else if ToLower(text) == "tcp" then Some(TCP)
    else if ToLower(text) == "udp" then Some(UDP)
    else Atoi(text)
  }

  function ParseNumber(text: string): Option<int>
  {
    if text == "" then Some(0) else Atoi(text)
  }

  // The entry of a row as a Windows entry; as a port entry it is its p. None for a bad number.
  function EntryOf(row: Row): Option<WinSvc>
  {
    match (ParsePorts(row.port), ParseProto(row.proto), ParseNumber(row.icmpCode), ParseNumber(row.icmpType))
    case (Some(ports), Some(proto), Some(code), Some(typ)) =>
      Some(WinSvc(PortSvc(ports.0, ports.1, proto, code, typ), row.process, row.service))
    case _ => None
  }

  // processServices: both results filled in field by field.
  method ProcessServices(row: Row) returns (ok: bool, winSvc: WinSvc, svcPort: PortSvc)
    ensures ok <==> EntryOf(row).Some?
    ensures ok ==> winSvc == EntryOf(row).value && svcPort == winSvc.p
  {
    ok, svcPort := false, PortSvc(0, 0, 0, 0, 0);
    winSvc := WinSvc(svcPort, "", "");
    if row.port != "" {
      var parts := Split(Without(row.port, ' '), '-');
      var port := Atoi(parts[0]);
      if port == None {
        return;
      }
      svcPort := svcPort.(port := port.value);
      HasDash(row.port);
      if '-' in row.port {
        var toPort := Atoi(parts[1]);
        if toPort == None {
          return;
        }
        svcPort := svcPort.(toPort := toPort.value);
      }
    }
    if row.proto != "" {
      var proto := if ToLower(row.proto) == "tcp" then Some(TCP)
                   else if ToLower(row.proto) == "udp" then Some(UDP) else Atoi(row.proto);
      if proto == None {
        return;
      }
      svcPort := svcPort.(protocol := proto.value);
    }
    if row.icmpCode != "" {
      var code := Atoi(row.icmpCode);
      if code == None {
        return;
      }
      svcPort := svcPort.(icmpCode := code.value);
    }
    if row.icmpType != "" {
      var typ := Atoi(row.icmpType);
      if typ == None {
        return;
      }
      svcPort := svcPort.(icmpType := typ.value);
    }
    ok, winSvc := true, WinSvc(svcPort, row.process, row.service);
  }

  lemma HasDash(text: string)
    ensures '-' in text <==> |Split(Without(text, ' '), '-')| >= 2
  {
    SingleSplit(Without(text, ' '), '-');
    KeepsOthers(text, ' ', '-');
  }

  lemma {:induction false} KeepsOthers(s: string, c: char, d: char)
    requires c != d
    ensures d in Without(s, c) <==> d in s
  {
    if s != "" {
      KeepsOthers(s[1..], c, d);
      assert s == [s[0]] + s[1..];
    }
  }

  // ---------- what a row means, for any texts in its columns ----------

  // Two texts without dashes, joined by one; a second dash and what follows it are passed over.
  predicate Range(bare: string, a: string, b: string, tail: string)
  {
    '-' !in a && '-' !in b && (tail == "" || tail[0] == '-') && bare == a + "-" + b + tail
  }

  lemma RangeParts(bare: string, a: string, b: string, tail: string)
    requires Range(bare, a, b, tail)
    ensures '-' in bare && var parts := Split(bare, '-'); |parts| >= 2 && parts[0] == a && parts[1] == b
  {
    assert bare == a + ['-'] + (b + tail);
    SplitAtSep(a, b + tail, '-');
    if tail == "" {
      assert b + tail == b;
      SplitOfPart(b, '-');
    } else {
      assert b + tail == b + ['-'] + tail[1..];
      SplitAtSep(b, tail[1..], '-');
    }
  }

  lemma DashedIsRange(bare: string) returns (a: string, b: string, tail: string)
    requires '-' in bare
    ensures Range(bare, a, b, tail)
  {
    var parts := Split(bare, '-');
    SingleSplit(bare, '-');
    JoinOfSplit(bare, '-');
    SplitPartsLackSep(bare, '-');
    a, b := parts[0], parts[1];
    assert parts[0] in parts && parts[1] in parts;
    tail := if |parts| == 2 then "" else "-" + Join(parts[2..], '-');
    assert parts[1..][1..] == parts[2..];
    assert Join(parts[1..], '-') == b + tail;
  }

  // The texts between dashes that are read as the two ports.
  ghost predicate PortsSpelled(bare: string, port: int, toPort: int)
  {
    if '-' !in bare then Atoi(bare) == Some(port) && toPort == 0
    else forall a, b, tail :: Range(bare, a, b, tail) ==> Atoi(a) == Some(port) && Atoi(b) == Some(toPort)
  }

  lemma PortColumn(text: string, port: int, toPort: int)
    ensures ParsePorts(text) == Some((port, toPort)) <==>
            if text == "" then port == toPort == 0 else PortsSpelled(Without(text, ' '), port, toPort)
  {
    var bare := Without(text, ' ');
    SingleSplit(bare, '-');
    SplitOfPart(if '-' in bare then "" else bare, '-');
    forall a, b, tail | Range(bare, a, b, tail)
      ensures var parts := Split(bare, '-'); |parts| >= 2 && parts[0] == a && parts[1] == b
    {
      RangeParts(bare, a, b, tail);
    }
    if '-' in bare {
      var a, b, tail := DashedIsRange(bare);
    }
  }

  // The number of a column, or zero in an empty one.
  predicate Spells(text: string, n: int)
  {
    if text == "" then n == 0 else Atoi(text) == Some(n)
  }

  // A row is read as an entry exactly when each column that is not empty spells the number of
  // the entry: the ports whatever the spaces, 6 and 17 for tcp and udp in any case.
  lemma RowMeaning(row: Row, port: int, toPort: int, proto: int, code: int, typ: int)
    ensures EntryOf(row) == Some(WinSvc(PortSvc(port, toPort, proto, code, typ), row.process, row.service)) <==>
            && (if row.port == "" then port == toPort == 0 else PortsSpelled(Without(row.port, ' '), port, toPort))
            && (if ToLower(row.proto) == "tcp" then proto == 6
                else if ToLower(row.proto) == "udp" then proto == 17 else Spells(row.proto, proto))
            && Spells(row.icmpCode, code) && Spells(row.icmpType, typ)
    ensures EntryOf(row).Some? ==>
            EntryOf(row).value.process == row.process && EntryOf(row).value.service == row.service
  {
    PortColumn(row.port, port, toPort);
  }

  // A row is refused exactly when a column that is not empty spells no number.
  lemma RowRefused(row: Row)
    ensures EntryOf(row) == None <==>
            || (row.port != "" && forall p, q :: !PortsSpelled(Without(row.port, ' '), p, q))
            || (row.proto != "" && ToLower(row.proto) !in {"tcp", "udp"} && Atoi(row.proto) == None)
            || (row.icmpCode != "" && Atoi(row.icmpCode) == None)
            || (row.icmpType != "" && Atoi(row.icmpType) == None)
  {
    if row.port != "" {
      var bare, ports := Without(row.port, ' '), ParsePorts(row.port);
      forall p, q | PortsSpelled(bare, p, q)
        ensures ports.Some?
      {
        PortColumn(row.port, p, q);
      }
      if ports.Some? {
        PortColumn(row.port, ports.value.0, ports.value.1);
        assert PortsSpelled(bare, ports.value.0, ports.value.1);
      }
    }
  }

  lemma BareRange(s: string, t: string)
    requires ' ' !in s && ' ' !in t
    ensures Without(s + " - " + t, ' ') == s + "-" + t
  {
    assert s + " - " + t == (s + [' '] + "-") + (" " + t);
    WithoutAppend(s + [' '] + "-", " " + t, ' ');
    WithoutOnce(s, "-", ' ');
    WithoutIsIdentity(t, ' ');
    assert (" " + t)[1..] == t;
  }

  lemma SpacedRange(a: nat, b: nat)
    requires a <= MAX_INT && b <= MAX_INT
    ensures ParsePorts(Itoa(a) + " - " + Itoa(b)) == Some((a, b))
  {
    var s, t := Itoa(a), Itoa(b);
    ItoaIntPlain(a);
    ItoaIntPlain(b);
    BareRange(s, t);
    assert s + "-" + t + "" == s + "-" + t;
    RangeParts(s + "-" + t, s, t, "");
    AtoiOfItoa(a);
    AtoiOfItoa(b);
  }

  // A range of ports with spaces around its dash, a protocol in capitals and two empty columns.
  lemma HandWritten(row: Row, a: nat, b: nat)
    requires a <= MAX_INT && b <= MAX_INT && row.port == Itoa(a) + " - " + Itoa(b)
    requires row.proto == "TCP" && row.icmpCode == row.icmpType == ""
    ensures EntryOf(row) == Some(WinSvc(PortSvc(a, b, 6, 0, 0), row.process, row.service))
  {
    SpacedRange(a, b);
    assert ToLower(row.proto) == "tcp";
  }

  // ---------- the round trip of one entry ----------

  predicate InRange(p: PortSvc)
  {
    && 0 <= p.port <= MAX_INT && 0 <= p.toPort <= MAX_INT && -MAX_INT <= p.protocol <= MAX_INT
    && 0 <= p.icmpCode <= MAX_INT && 0 <= p.icmpType <= MAX_INT
  }

  // The export has no place for the port of such an entry.
  predicate Lossy(p: PortSvc)
  {
    p.toPort == 0 && p.protocol != TCP && p.protocol != UDP && p.port != 0
  }

  // What is left of an entry.
  function Kept(p: PortSvc): PortSvc
  {
    if Lossy(p) then p.(port := 0) else p
  }

  lemma PortsReadBack(p: PortSvc)
    requires InRange(p)
    ensures ParsePorts(PortText(p)) == Some((Kept(p).port, p.toPort))
  {
    var a, b := ItoaInt(p.port), ItoaInt(p.toPort);
    ItoaIntPlain(p.port);
    ItoaIntPlain(p.toPort);
    AtoiOfItoa(p.port);
    AtoiOfItoa(p.toPort);
    if p.toPort != 0 {
      assert PortText(p) == a + ['-'] + b;
      WithoutIsIdentity(a + ['-'] + b, ' ');
      SplitAtSep(a, b, '-');
      SplitOfPart(b, '-');
    } else {
      WithoutIsIdentity(a, ' ');
      SplitOfPart(a, '-');
    }
  }

  lemma ProtoReadsBack(p: PortSvc)
    requires InRange(p)
    ensures ParseProto(ProtoText(p)) == Some(p.protocol)
  {
    AtoiOfItoaInt(p.protocol);
    var t := ItoaInt(p.protocol);
    assert ToLower("tcp") == "tcp" && ToLower("udp") == "udp";
    assert t[0] == '-' || Digit(t[0]) by {
      if p.protocol >= 0 {
        ItoaIntPlain(p.protocol);
      }
    }
    assert ToLower(t)[0] == LowerChar(t[0]);
  }

  // An exported entry has its protocol as tcp, udp or a number, and reads back as itself, but
  // for the port of a lossy one.
  lemma EntryReadsBack(s: Service, p: PortSvc, process: string, service: string)
    requires InRange(p)
    ensures RowOf(s, p, process, service).proto ==
            if p.protocol == 6 then "tcp" else if p.protocol == 17 then "udp" else ItoaInt(p.protocol)
    ensures EntryOf(RowOf(s, p, process, service)) == Some(WinSvc(Kept(p), process, service))
    ensures EntryOf(RowOf(s, p, process, service)) == Some(WinSvc(p, process, service)) <==> !Lossy(p)
  {
    PortsReadBack(p);
    ProtoReadsBack(p);
    AtoiOfItoaInt(p.icmpCode);
    AtoiOfItoaInt(p.icmpType);
  }
}
