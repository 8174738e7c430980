// IP lists as two cells of a CSV row: ranges printed by ipl-export, parsed by ipl-import.
module IpListCells {
  import opened Seqs
  import opened Text

  datatype IPRange = IPRange(fromIP: string, toIP: string, description: string, exclusion: bool)

  // net.ParseIP and net.ParseCIDR, as tests.
  datatype Net = Net(ip: string -> bool, cidr: string -> bool)

  // The texts they accept are not empty, and hold none of the marks of a cell; only a CIDR
  // holds a slash.
  ghost predicate Sound(net: Net)
  {
    && (forall s :: net.ip(s) ==> s != "" && Unmarked(s) && '/' !in s)
    && (forall s :: net.cidr(s) ==> s != "" && Unmarked(s))
  }

  predicate Unmarked(s: string)
  {
    ' ' !in s && ';' !in s && '#' !in s && '-' !in s
  }

  // ---------- export ----------

  function Core(r: IPRange): string
  {
    if r.toIP != "" then r.fromIP + "-" + r.toIP else r.fromIP
  }

  function PrintRange(r: IPRange): string
  {
    if r.description != "" then Core(r) + "#" + r.description else Core(r)
  }

  // The ranges of one kind, in order.
  function OfKind(ranges: seq<IPRange>, exclusion: bool): (r: seq<IPRange>)
    ensures forall i :: 0 <= i < |r| ==> r[i].exclusion == exclusion
  {
    if ranges == [] then []
    else OfKind(ranges[..|ranges| - 1], exclusion)
         + (if ranges[|ranges| - 1].exclusion == exclusion then [ranges[|ranges| - 1]] else [])
  }

  function PrintAll(ranges: seq<IPRange>): (r: seq<string>)
    ensures |r| == |ranges| && forall i {:trigger r[i]} :: 0 <= i < |r| ==> r[i] == PrintRange(ranges[i])
  {
    seq(|ranges|, i requires 0 <= i < |ranges| => PrintRange(ranges[i]))
  }

  function PrintCell(ranges: seq<IPRange>): string
  {
    Join(PrintAll(ranges), ';')
  }

  // The include and the exclude cell of a list.
  method ExportCells(ranges: seq<IPRange>) returns (includeCell: string, excludeCell: string)
    ensures includeCell == PrintCell(OfKind(ranges, false)) && excludeCell == PrintCell(OfKind(ranges, true))
  {
    var included, excluded: seq<string> := [], [];
    for k := 0 to |ranges|
      invariant included == PrintAll(OfKind(ranges[..k], false))
      invariant excluded == PrintAll(OfKind(ranges[..k], true))
    {
      var r := ranges[k];
      assert ranges[..k + 1][..k] == ranges[..k];
      var entry := r.fromIP;
      if r.toIP != "" {
        entry := r.fromIP + "-" + r.toIP;
      }
      if r.description != "" {
        entry := entry + "#" + r.description;
      }
      if r.exclusion {
        excluded := excluded + [entry];
      } else {
        included := included + [entry];
      }
    }
    assert ranges[..|ranges|] == ranges;
    includeCell, excludeCell := Join(included, ';'), Join(excluded, ';');
  }

  // ---------- import ----------

  // ValidateIplistEntry.
  predicate Validate(net: Net, entry: string)
  {
    if '/' in entry then net.cidr(entry) else forall p :: p in Split(entry, '-') ==> net.ip(p)
  }

  // What is accepted: as a CIDR any text with a slash; of the others an address, and as many
  // addresses as there are dashes between them.
  lemma ValidityOf(net: Net, a: string, t: string)
    requires '-' !in a
    ensures '/' in t ==> (Validate(net, t) <==> net.cidr(t))
    ensures '/' !in a ==> (Validate(net, a) <==> net.ip(a))
    ensures '/' !in a && '/' !in t ==> (Validate(net, a + "-" + t) <==> net.ip(a) && Validate(net, t))
  {
    SplitOfPart(a, '-');
    assert a + "-" + t == a + ['-'] + t;
    SplitAtSep(a, t, '-');
    assert Split(a + "-" + t, '-')[0] == a;
  }

  // So a range is accepted exactly when both its ends are addresses.
  lemma ValidRange(net: Net, a: string, b: string)
    requires '-' !in a && '/' !in a && '-' !in b && '/' !in b
    ensures Validate(net, a + "-" + b) <==> net.ip(a) && net.ip(b)
  {
    ValidityOf(net, a, b);
    ValidityOf(net, b, "");
  }

  // One text of a cell: a second '#' loses the description, a second '-' what follows it.
  function ReadEntry(net: Net, text: string, exclusion: bool): Option<IPRange>
  {
    var split := Split(text, '#');
    var i := split[0];
    var desc := if |split| == 2 then split[1] else "";
    if !Validate(net, i) then None
    else if '-' in i then
      SingleSplit(i, '-');
      Some(IPRange(Split(i, '-')[0], Split(i, '-')[1], desc, exclusion))
    else Some(IPRange(i, "", desc, exclusion))
  }

  function ReadEntries(net: Net, texts: seq<string>, exclusion: bool): Option<seq<IPRange>>
  {
    if texts == [] then Some([])
    else
      var n := |texts| - 1;
      match (ReadEntries(net, texts[..n], exclusion), ReadEntry(net, texts[n], exclusion))
      case (Some(rs), Some(r)) => Some(rs + [r])
      case _ => None
  }

  // The texts of a cell; of an exclude cell a single empty text is passed over.
  function Texts(cell: string, exclusion: bool): seq<string>
  {
    if cell == "" then []
    else
      var texts := Split(Without(cell, ' '), ';');
      if exclusion && texts == [""] then [] else texts
  }

  // The ranges of a row, or nothing when a text is not valid and the row is abandoned.
  function ReadRow(net: Net, includeCell: string, excludeCell: string): Option<seq<IPRange>>
  {
    match (ReadEntries(net, Texts(includeCell, false), false), ReadEntries(net, Texts(excludeCell, true), true))
    case (Some(inc), Some(exc)) => Some(inc + exc)
    case _ => None
  }

  lemma {:induction false} PrefixFails(net: Net, texts: seq<string>, k: nat, exclusion: bool)
    requires k <= |texts| && ReadEntries(net, texts[..k], exclusion) == None
    ensures ReadEntries(net, texts, exclusion) == None
    decreases |texts| - k
  {
    if k < |texts| {
      assert texts[..k + 1][..k] == texts[..k];
      PrefixFails(net, texts, k + 1, exclusion);
    } else {
      assert texts[..k] == texts;
    }
  }

  // The loop over the texts of one cell; stops at the first that is not valid.
  method ImportCell(net: Net, cell: string, exclusion: bool) returns (ok: bool, ranges: seq<IPRange>)
    ensures ok <==> ReadEntries(net, Texts(cell, exclusion), exclusion).Some?
    ensures ok ==> ReadEntries(net, Texts(cell, exclusion), exclusion) == Some(ranges)
  {
    ok, ranges := true, [];
    if cell == "" {
      return;
    }
    var csv := Split(Without(cell, ' '), ';');
    for k := 0 to |csv|
      invariant if exclusion && csv == [""] then ranges == [] else ReadEntries(net, csv[..k], exclusion) == Some(ranges)
    {
      if exclusion && |csv| == 1 && |csv[0]| == 0 {
        continue;
      }
      assert csv[..k + 1][..k] == csv[..k];
      var r := ReadEntry(net, csv[k], exclusion);
      if r == None {
        PrefixFails(net, csv, k + 1, exclusion);
        return false, [];
      }
      ranges := ranges + [r.value];
    }
    assert csv[..|csv|] == csv;
  }

  method ImportRow(net: Net, includeCell: string, excludeCell: string) returns (row: Option<seq<IPRange>>)
    ensures row == ReadRow(net, includeCell, excludeCell)
  {
    var ok, ranges := ImportCell(net, includeCell, false);
    if !ok {
      return None;
    }
    var more;
    ok, more := ImportCell(net, excludeCell, true);
    if !ok {
      return None;
    }
    row := Some(ranges + more);
  }

  // ---------- one range ----------

  // A range the cells can carry: two addresses, or one address, or one CIDR.
  predicate Good(net: Net, r: IPRange)
  {
    && (if r.toIP != "" then net.ip(r.fromIP) && net.ip(r.toIP)
        else if '/' in r.fromIP then net.cidr(r.fromIP) else net.ip(r.fromIP))
    && ' ' !in r.description && '#' !in r.description
  }

  // Its text then passes the test of the import, with no dash inside an address, and only then.
  lemma GoodIsValid(net: Net, r: IPRange)
    requires Sound(net)
    ensures Good(net, r) <==> && Validate(net, Core(r)) && '-' !in r.fromIP && '-' !in r.toIP
                              && ' ' !in r.description && '#' !in r.description
  {
    if '-' !in r.fromIP && '-' !in r.toIP {
      ValidityOf(net, r.fromIP, r.fromIP);
      ValidityOf(net, r.fromIP, Core(r));
      if r.toIP != "" && '/' !in r.fromIP && '/' !in r.toIP {
        ValidRange(net, r.fromIP, r.toIP);
      }
    }
  }

  lemma {:induction false} PartsUnmarked(net: Net, s: string)
    requires Sound(net) && forall p :: p in Split(s, '-') ==> net.ip(p)
    ensures ' ' !in s && ';' !in s && '#' !in s && s != ""
  {
    JoinOfSplit(s, '-');
    JoinUnmarked(Split(s, '-'));
    assert Split(s, '-')[0] in Split(s, '-');
  }

  lemma {:induction false} JoinUnmarked(parts: seq<string>)
    requires forall p :: p in parts ==> Unmarked(p)
    ensures ' ' !in Join(parts, '-') && ';' !in Join(parts, '-') && '#' !in Join(parts, '-')
  {
    if parts != [] {
      assert Unmarked(parts[0]);
      if |parts| > 1 {
        JoinUnmarked(parts[1..]);
      }
    }
  }

  // A valid text holds none of the other marks and is not empty.
  lemma ValidUnmarked(net: Net, s: string)
    requires Sound(net) && Validate(net, s)
    ensures ' ' !in s && ';' !in s && '#' !in s && s != ""
  {
    if '/' !in s {
      PartsUnmarked(net, s);
    }
  }

  // What reading makes of the parts of an unmarked entry.
  lemma ReadOfParts(net: Net, i: string, desc: string, exclusion: bool)
    requires '#' !in i && '#' !in desc
    ensures ReadEntry(net, i + "#" + desc, exclusion) ==
            match ReadEntry(net, i, exclusion) case None => None case Some(r) => Some(r.(description := desc))
  {
    assert i + "#" + desc == i + ['#'] + desc;
    SplitAtSep(i, desc, '#');
    SplitOfPart(desc, '#');
    SplitOfPart(i, '#');
  }

  lemma ReadOfCore(net: Net, r: IPRange)
    requires Sound(net) && Validate(net, Core(r)) && '-' !in r.fromIP && '-' !in r.toIP
    ensures ReadEntry(net, Core(r), r.exclusion) == Some(r.(description := ""))
  {
    ValidUnmarked(net, Core(r));
    SplitOfPart(Core(r), '#');
    if r.toIP != "" {
      assert Core(r) == r.fromIP + ['-'] + r.toIP;
      SplitAtSep(r.fromIP, r.toIP, '-');
      SplitOfPart(r.toIP, '-');
    }
  }

  lemma ReadOne(net: Net, a: string, exclusion: bool)
    requires '-' !in a && '#' !in a
    ensures ReadEntry(net, a, exclusion) ==
            if (if '/' in a then net.cidr(a) else net.ip(a)) then Some(IPRange(a, "", "", exclusion)) else None
  {
    SplitOfPart(a, '#');
    ValidityOf(net, a, a);
  }

  lemma ReadDashed(net: Net, a: string, b: string, tail: string, exclusion: bool)
    requires '-' !in a && '#' !in a && '/' !in a && '-' !in b && '#' !in b && '/' !in b
    requires '#' !in tail && '/' !in tail && (tail == "" || tail[0] == '-')
    ensures ReadEntry(net, a + "-" + (b + tail), exclusion) ==
            if net.ip(a) && Validate(net, b + tail) then Some(IPRange(a, b, "", exclusion)) else None
  {
    var i, t := a + "-" + (b + tail), b + tail;
    SplitOfPart(i, '#');
    ValidityOf(net, a, t);
    assert i == a + ['-'] + t;
    SplitAtSep(a, t, '-');
    if tail == "" {
      assert t == b;
      SplitOfPart(b, '-');
    } else {
      assert t == b + ['-'] + tail[1..];
      SplitAtSep(b, tail[1..], '-');
    }
  }

  lemma SecondMark(net: Net, a: string, d: string, e: string, exclusion: bool)
    requires '#' !in a && '#' !in d
    ensures ReadEntry(net, a + "#" + (d + "#" + e), exclusion) == ReadEntry(net, a, exclusion)
  {
    assert a + "#" + (d + "#" + e) == a + ['#'] + (d + ['#'] + e);
    SplitAtSep(a, d + ['#'] + e, '#');
    SplitAtSep(d, e, '#');
    SplitOfPart(a, '#');
  }

  // What is read from any text without spaces: one address or CIDR; a range, of which a third
  // address is tested and passed over; and the description, lost with a second '#'.
  lemma ReadMeaning(net: Net, a: string, b: string, c: string, d: string, e: string, exclusion: bool)
    requires '-' !in a && '#' !in a && '-' !in b && '#' !in b && '/' !in b
    requires '-' !in c && '#' !in c && '/' !in c && '#' !in d
    ensures ReadEntry(net, a, exclusion) ==
            if (if '/' in a then net.cidr(a) else net.ip(a)) then Some(IPRange(a, "", "", exclusion)) else None
    ensures '/' !in a ==> ReadEntry(net, a + "-" + b, exclusion) ==
                          if net.ip(a) && net.ip(b) then Some(IPRange(a, b, "", exclusion)) else None
    ensures '/' !in a ==> ReadEntry(net, a + "-" + (b + "-" + c), exclusion) ==
                          if net.ip(a) && net.ip(b) && net.ip(c) then Some(IPRange(a, b, "", exclusion)) else None
    ensures ReadEntry(net, a + "#" + (d + "#" + e), exclusion) == ReadEntry(net, a, exclusion)
  {
    ReadOne(net, a, exclusion);
    SecondMark(net, a, d, e, exclusion);
    if '/' !in a {
      ReadDashed(net, a, b, "", exclusion);
      assert b + "" == b;
      ReadDashed(net, a, b, "-" + c, exclusion);
      assert b + ("-" + c) == b + "-" + c;
      ValidityOf(net, b, "");
      ValidRange(net, b, c);
    }
  }

  // A good range reads back.
  lemma GoodReadsBack(net: Net, r: IPRange)
    requires Sound(net) && Good(net, r)
    ensures Without(PrintRange(r), ' ') == PrintRange(r)
    ensures ReadEntry(net, PrintRange(r), r.exclusion) == Some(r)
  {
    GoodIsValid(net, r);
    ValidUnmarked(net, Core(r));
    ReadOfCore(net, r);
    ReadOfParts(net, Core(r), r.description, r.exclusion);
    WithoutIsIdentity(PrintRange(r), ' ');
  }

  // What is read is good, whatever text it is read from.
  lemma ReadIsPlain(net: Net, text: string, exclusion: bool, r: IPRange)
    requires Sound(net) && ' ' !in text && ReadEntry(net, text, exclusion) == Some(r)
    ensures '-' !in r.fromIP && '-' !in r.toIP && ' ' !in r.description && '#' !in r.description
    ensures ' ' !in r.fromIP && '#' !in r.fromIP && ' ' !in r.toIP && '#' !in r.toIP
  {
    var i := Split(text, '#')[0];
    SplitPartsLackSep(text, '#');
    PartsWithin(text, '#', ' ');
    ValidUnmarked(net, i);
    SingleSplit(i, '-');
    SplitPartsLackSep(i, '-');
    PartsWithin(i, '-', ' ');
    PartsWithin(i, '-', '#');
  }

  // Parts of a text hold no char the text does not hold.
  lemma {:induction false} PartsWithin(s: string, sep: char, c: char)
    ensures c !in s ==> forall p :: p in Split(s, sep) ==> c !in p
  {
    if s != "" {
      PartsWithin(s[1..], sep, c);
      assert s == [s[0]] + s[1..];
    }
  }

  // One range, printed, read without spaces: itself exactly when it is good.
  lemma RangeReadsBack(net: Net, r: IPRange)
    requires Sound(net)
    ensures ReadEntry(net, Without(PrintRange(r), ' '), r.exclusion) == Some(r) <==> Good(net, r)
  {
    GoodIsValid(net, r);
    if Good(net, r) {
      GoodReadsBack(net, r);
    }
    var text := Without(PrintRange(r), ' ');
    if ReadEntry(net, text, r.exclusion) == Some(r) {
      ReadIsPlain(net, text, r.exclusion, r);
      WithoutIsIdentity(PrintRange(r), ' ');
      if r.description != "" {
        assert PrintRange(r) == Core(r) + ['#'] + r.description;
        SplitAtSep(Core(r), r.description, '#');
      } else {
        SplitOfPart(Core(r), '#');
      }
    }
  }

  // ---------- cells ----------

  function Bare(texts: seq<string>): (r: seq<string>)
    ensures |r| == |texts| && forall i {:trigger r[i]} :: 0 <= i < |r| ==> r[i] == Without(texts[i], ' ')
  {
    seq(|texts|, i requires 0 <= i < |texts| => Without(texts[i], ' '))
  }

  // Removing the spaces of a cell is removing those of its texts.
  lemma {:induction false} WithoutOfJoin(texts: seq<string>)
    ensures Without(Join(texts, ';'), ' ') == Join(Bare(texts), ';')
  {
    if |texts| > 1 {
      WithoutOfJoin(texts[1..]);
      assert Bare(texts)[1..] == Bare(texts[1..]);
      WithoutAppend(texts[0] + [';'], Join(texts[1..], ';'), ' ');
      WithoutAppend(texts[0], [';'], ' ');
      assert Without([';'], ' ') == [';'];
    }
  }

  lemma {:induction false} SplitCount(s: string, sep: char)
    ensures |Split(s, sep)| == Count(s, sep) + 1
  {
    if s != "" {
      SplitCount(s[1..], sep);
    }
  }

  // A join splits into as many parts only if no part holds the separator.
  lemma {:induction false} JoinCount(texts: seq<string>)
    requires texts != []
    ensures Count(Join(texts, ';'), ';') >= |texts| - 1
    ensures Count(Join(texts, ';'), ';') == |texts| - 1 <==> forall i :: 0 <= i < |texts| ==> ';' !in texts[i]
  {
    CountZero(texts[0], ';');
    if |texts| > 1 {
      JoinCount(texts[1..]);
      assert texts == [texts[0]] + texts[1..];
      CountAppend(texts[0] + [';'], Join(texts[1..], ';'), ';');
      CountAppend(texts[0], [';'], ';');
      assert Count([';'], ';') == 1;
    }
  }

  lemma {:induction false} ReadEntriesAt(net: Net, texts: seq<string>, exclusion: bool)
    ensures match ReadEntries(net, texts, exclusion)
            case Some(rs) =>
              |rs| == |texts| && forall i :: 0 <= i < |rs| ==> ReadEntry(net, texts[i], exclusion) == Some(rs[i])
            case None => exists i :: 0 <= i < |texts| && ReadEntry(net, texts[i], exclusion) == None
  {
    if texts != [] {
      ReadEntriesAt(net, texts[..|texts| - 1], exclusion);
    }
  }

  lemma KeepsSeparators(s: string)
    ensures ';' in Without(s, ' ') <==> ';' in s
  {
    if s != "" {
      KeepsSeparators(s[1..]);
      assert s == [s[0]] + s[1..];
    }
  }

  // The texts of a printed cell are as many as the ranges exactly when no ';' is in them.
  lemma TextsOfCell(ranges: seq<IPRange>, exclusion: bool)
    ensures var texts := Texts(PrintCell(ranges), exclusion);
            && (|texts| == |ranges| && texts != [""] ==> texts == Bare(PrintAll(ranges)))
            && ((forall i :: 0 <= i < |ranges| ==> PrintRange(ranges[i]) != "" && ';' !in PrintRange(ranges[i])
                                                   && ' ' !in PrintRange(ranges[i])) ==> texts == PrintAll(ranges))
  {
    var printed := PrintAll(ranges);
    var cell := Join(printed, ';');
    WithoutOfJoin(printed);
    if printed != [] {
      SplitCount(Without(cell, ' '), ';');
      JoinCount(Bare(printed));
      SplitOfJoin(Bare(printed), ';');
      BareOf(printed);
    }
  }

  lemma BareOf(texts: seq<string>)
    ensures (forall i :: 0 <= i < |texts| ==> ' ' !in texts[i]) ==> Bare(texts) == texts
  {
    forall i | 0 <= i < |texts| && ' ' !in texts[i]
      ensures Bare(texts)[i] == texts[i]
    {
      WithoutIsIdentity(texts[i], ' ');
    }
  }

  // The texts of any cell are its parts without their spaces. A cell of spaces alone has one
  // empty text, which only the exclude column passes over; an empty cell has none.
  lemma CellTexts(parts: seq<string>, exclusion: bool)
    requires parts != [] && forall i :: 0 <= i < |parts| ==> ';' !in parts[i]
    ensures Texts(Join(parts, ';'), exclusion) ==
            if parts == [""] || (exclusion && Bare(parts) == [""]) then [] else Bare(parts)
  {
    WithoutOfJoin(parts);
    forall p | p in Bare(parts)
      ensures ';' !in p
    {
      var i :| 0 <= i < |parts| && Bare(parts)[i] == p;
      KeepsSeparators(parts[i]);
    }
    SplitOfJoin(Bare(parts), ';');
    assert |parts| == 1 ==> parts == [parts[0]];
  }

  predicate GoodInCell(net: Net, r: IPRange)
  {
    Good(net, r) && ';' !in r.description
  }

  lemma GoodPrints(net: Net, r: IPRange)
    requires Sound(net) && GoodInCell(net, r)
    ensures PrintRange(r) != "" && ';' !in PrintRange(r) && ' ' !in PrintRange(r)
    ensures ReadEntry(net, PrintRange(r), r.exclusion) == Some(r)
  {
    GoodIsValid(net, r);
    ValidUnmarked(net, Core(r));
    GoodReadsBack(net, r);
  }

  lemma {:induction false} ReadAll(net: Net, texts: seq<string>, exclusion: bool, ranges: seq<IPRange>)
    requires |texts| == |ranges| && forall i :: 0 <= i < |texts| ==>
            ReadEntry(net, texts[i], exclusion) == Some(ranges[i])
    ensures ReadEntries(net, texts, exclusion) == Some(ranges)
  {
    if texts != [] {
      var n := |texts| - 1;
      ReadAll(net, texts[..n], exclusion, ranges[..n]);
      assert ReadEntry(net, texts[n], exclusion) == Some(ranges[n]);
      assert ranges == ranges[..n] + [ranges[n]];
    }
  }

  // A cell of good ranges reads back.
  lemma GoodCellReadsBack(net: Net, ranges: seq<IPRange>, exclusion: bool)
    requires Sound(net) && AllGood(net, ranges)
    requires forall i :: 0 <= i < |ranges| ==> ranges[i].exclusion == exclusion
    ensures ReadEntries(net, Texts(PrintCell(ranges), exclusion), exclusion) == Some(ranges)
  {
    var texts := PrintAll(ranges);
    forall i | 0 <= i < |ranges|
      ensures texts[i] == PrintRange(ranges[i]) != "" && ';' !in PrintRange(ranges[i]) && ' ' !in PrintRange(ranges[i])
      ensures ReadEntry(net, texts[i], exclusion) == Some(ranges[i])
    {
      assert ranges[i] in ranges;
      GoodPrints(net, ranges[i]);
    }
    TextsOfCell(ranges, exclusion);
    ReadAll(net, texts, exclusion, ranges);
  }

  // A cell that reads back holds good ranges only.
  lemma ReadBackIsGood(net: Net, ranges: seq<IPRange>, exclusion: bool)
    requires Sound(net) && forall i :: 0 <= i < |ranges| ==> ranges[i].exclusion == exclusion
    requires ReadEntries(net, Texts(PrintCell(ranges), exclusion), exclusion) == Some(ranges)
    ensures AllGood(net, ranges)
  {
    var texts := Texts(PrintCell(ranges), exclusion);
    ReadEntriesAt(net, texts, exclusion);
    TextsOfCell(ranges, exclusion);
    forall i | 0 <= i < |ranges|
      ensures GoodInCell(net, ranges[i])
    {
      assert texts[i] == Without(PrintRange(ranges[i]), ' ');
      RangeReadsBack(net, ranges[i]);
      TextLacksSeparator(PrintCell(ranges), exclusion, i);
      KeepsSeparators(PrintRange(ranges[i]));
    }
  }

  lemma TextLacksSeparator(cell: string, exclusion: bool, i: nat)
    requires i < |Texts(cell, exclusion)|
    ensures ';' !in Texts(cell, exclusion)[i]
  {
    SplitPartsLackSep(Without(cell, ' '), ';');
    assert Texts(cell, exclusion)[i] in Texts(cell, exclusion);
  }

  // ---------- the row ----------

  // Includes, then excludes, each in their order.
  function Partition(ranges: seq<IPRange>): seq<IPRange>
  {
    OfKind(ranges, false) + OfKind(ranges, true)
  }

  lemma {:induction false} PartitionKeeps(ranges: seq<IPRange>)
    ensures multiset(Partition(ranges)) == multiset(ranges)
  {
    if ranges != [] {
      var n := |ranges| - 1;
      PartitionKeeps(ranges[..n]);
      assert ranges == ranges[..n] + [ranges[n]];
    }
  }

  lemma {:induction false} OfKindConcat(a: seq<IPRange>, b: seq<IPRange>, exclusion: bool)
    ensures OfKind(a + b, exclusion) == OfKind(a, exclusion) + OfKind(b, exclusion)
  {
    if b == [] {
      assert a + b == a;
    } else {
      var n := |b| - 1;
      assert (a + b)[..|a + b| - 1] == a + b[..n];
      OfKindConcat(a, b[..n], exclusion);
    }
  }

  lemma {:induction false} OfOneKind(a: seq<IPRange>, exclusion: bool)
    requires forall i :: 0 <= i < |a| ==> a[i].exclusion == exclusion
    ensures OfKind(a, exclusion) == a && OfKind(a, !exclusion) == []
  {
    if a != [] {
      OfOneKind(a[..|a| - 1], exclusion);
    }
  }

  // Includes followed by excludes fall apart in one way only.
  lemma SplitByKind(a: seq<IPRange>, b: seq<IPRange>)
    requires (forall i :: 0 <= i < |a| ==> !a[i].exclusion) && (forall i :: 0 <= i < |b| ==> b[i].exclusion)
    ensures OfKind(a + b, false) == a && OfKind(a + b, true) == b
  {
    OfKindConcat(a, b, false);
    OfKindConcat(a, b, true);
    OfOneKind(a, false);
    OfOneKind(b, true);
  }

  lemma KindOfRead(net: Net, texts: seq<string>, exclusion: bool, rs: seq<IPRange>)
    requires ReadEntries(net, texts, exclusion) == Some(rs)
    ensures forall i :: 0 <= i < |rs| ==> rs[i].exclusion == exclusion
  {
    ReadEntriesAt(net, texts, exclusion);
  }

  ghost predicate AllGood(net: Net, ranges: seq<IPRange>)
  {
    forall r :: r in ranges ==> GoodInCell(net, r)
  }

  lemma {:induction false} KindMembers(ranges: seq<IPRange>, exclusion: bool)
    ensures forall r :: r in OfKind(ranges, exclusion) <==> r in ranges && r.exclusion == exclusion
  {
    if ranges != [] {
      KindMembers(ranges[..|ranges| - 1], exclusion);
      assert ranges == ranges[..|ranges| - 1] + [ranges[|ranges| - 1]];
    }
  }

  lemma GoodByKind(net: Net, ranges: seq<IPRange>)
    ensures AllGood(net, ranges) <==> AllGood(net, OfKind(ranges, false)) && AllGood(net, OfKind(ranges, true))
  {
    KindMembers(ranges, false);
    KindMembers(ranges, true);
  }

  // The row of an exported list reads back as its partition exactly when its ranges are good.
  lemma RowReadsBack(net: Net, ranges: seq<IPRange>)
    requires Sound(net)
    ensures ReadRow(net, PrintCell(OfKind(ranges, false)), PrintCell(OfKind(ranges, true))) == Some(Partition(ranges))
            <==> AllGood(net, ranges)
  {
    var inc, exc := OfKind(ranges, false), OfKind(ranges, true);
    var row := ReadRow(net, PrintCell(inc), PrintCell(exc));
    GoodByKind(net, ranges);
    if AllGood(net, ranges) {
      GoodCellReadsBack(net, inc, false);
      GoodCellReadsBack(net, exc, true);
    }
    if row == Some(Partition(ranges)) {
      var a := ReadEntries(net, Texts(PrintCell(inc), false), false).value;
      var b := ReadEntries(net, Texts(PrintCell(exc), true), true).value;
      KindOfRead(net, Texts(PrintCell(inc), false), false, a);
      KindOfRead(net, Texts(PrintCell(exc), true), true, b);
      SplitByKind(a, b);
      SplitByKind(inc, exc);
      ReadBackIsGood(net, inc, false);
      ReadBackIsGood(net, exc, true);
    }
  }

  // Exporting a list and importing its two cells gives the list back, includes first, exactly
  // when every range is good: two addresses, one address or one CIDR, and a description that
  // holds no space, ';' or '#'.
  method ExportThenImport(net: Net, ranges: seq<IPRange>) returns (row: Option<seq<IPRange>>)
    requires Sound(net)
    ensures row == Some(Partition(ranges)) <==> AllGood(net, ranges)
  {
    var includeCell, excludeCell := ExportCells(ranges);
    row := ImportRow(net, includeCell, excludeCell);
    RowReadsBack(net, ranges);
  }
}
