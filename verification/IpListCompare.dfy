// compareIPList: is the IP list on the PCE the consolidated list? The comparison is textual;
// what it decides about addresses rests on the consolidated form being unique.
module IpListCompare {
  import opened Bits
  import opened IpBytes
  import opened Blocks
  import opened Networks
  import opened CspIpList

  type Address = ip: seq<byte> | |ip| in {4, 16} witness [0, 0, 0, 0]

  // The FromIP text of an entry: the text IPNet.String gives a network, a bare address in that
  // style, another spelling of a valid CIDR, or a text checkIp refuses.
  datatype FromText = Cidr(net: Network) | Host(ip: Address) | Alias(text: string) | Refused

  // The ToIP text: empty, or a bare address.
  datatype ToText = NoTo | To(ip: Address)

  datatype IPRange = IPRange(fromIP: FromText, toIP: ToText, exclusion: bool)

  // The texts compared as map keys; texts of networks differ when the networks do.
  datatype Key = NetKey(net: Network) | TextKey(text: string)

  function HostNet(ip: Address): Network
  {
    IPNet(ip, 8 * |ip|)
  }

  // checkIp: a bare address gets /32 or /128, a refused text becomes empty.
  function CheckIp(t: FromText): Key
  {
    match t
    case Cidr(n) => NetKey(n)
    case Host(ip) => NetKey(HostNet(ip))
    case Alias(text) => TextKey(text)
    case Refused => TextKey("")
  }

  // The comparison: equal lengths and the same keys on both sides.
  ghost predicate SameKeys(ranges: seq<IPRange>, consolidated: seq<Network>)
  {
    && |ranges| == |consolidated|
    && (forall i :: 0 <= i < |ranges| ==>
        CheckIp(ranges[i].fromIP).NetKey? && CheckIp(ranges[i].fromIP).net in consolidated)
    && (forall j :: 0 <= j < |consolidated| ==> HasKey(ranges, consolidated[j]))
  }

  ghost predicate HasKey(ranges: seq<IPRange>, n: Network)
  {
    exists i :: 0 <= i < |ranges| && CheckIp(ranges[i].fromIP) == NetKey(n)
  }

  method CompareIPList(ranges: seq<IPRange>, consolidatedIPs: seq<Network>) returns (same: bool)
    ensures same <==> SameKeys(ranges, consolidatedIPs)
  {
    if |ranges| != |consolidatedIPs| {
      return false;
    }
    var ipMap: map<Key, bool> := map[];
    for i := 0 to |consolidatedIPs|
      invariant forall k :: k in ipMap <==> exists j :: 0 <= j < i && k == NetKey(consolidatedIPs[j])
    {
      ipMap := ipMap[NetKey(consolidatedIPs[i]) := true];
    }
    var pceIPMap: map<Key, bool> := map[];
    for i := 0 to |ranges|
      invariant forall j :: 0 <= j < i ==> CheckIp(ranges[j].fromIP) in ipMap
      invariant forall k :: k in pceIPMap <==> exists j :: 0 <= j < i && k == CheckIp(ranges[j].fromIP)
    {
      var fromIP := CheckIp(ranges[i].fromIP);
      pceIPMap := pceIPMap[fromIP := true];
      if fromIP !in ipMap {
        assert fromIP.NetKey? ==> fromIP.net !in consolidatedIPs;
        return false;
      }
    }
    for i := 0 to |consolidatedIPs|
      invariant forall j :: 0 <= j < i ==> HasKey(ranges, consolidatedIPs[j])
    {
      if NetKey(consolidatedIPs[i]) !in pceIPMap {
        assert !HasKey(ranges, consolidatedIPs[i]);
        return false;
      }
    }
    return true;
  }

  // ---------- what the entries denote ----------

  predicate IsNet(t: FromText)
  {
    t.Cidr? || t.Host?
  }

  function NetOf(t: FromText): Network
    requires IsNet(t)
  {
    if t.Cidr? then t.net else HostNet(t.ip)
  }

  ghost predicate AllNets(ranges: seq<IPRange>)
  {
    forall i :: 0 <= i < |ranges| ==> IsNet(ranges[i].fromIP)
  }

  predicate Between(lo: bits, x: bits, hi: bits)
  {
    |x| == |lo| == |hi| && Lex(lo, x) <= 0 && Lex(x, hi) <= 0
  }

  // A network or address, or with a ToIP all addresses from the first to the second one.
  predicate EntryCovers(r: IPRange, x: bits)
    requires IsNet(r.fromIP)
  {
    match r.toIP
    case NoTo => Covers(Blk(NetOf(r.fromIP)), x)
    case To(last) => Between(IpBits(NetOf(r.fromIP).ip), x, IpBits(last))
  }

  // The addresses of a list: included and not excluded.
  ghost predicate Denotes(ranges: seq<IPRange>, x: bits)
    requires AllNets(ranges)
  {
    && (exists i :: 0 <= i < |ranges| && !ranges[i].exclusion && EntryCovers(ranges[i], x))
    && !(exists i :: 0 <= i < |ranges| && ranges[i].exclusion && EntryCovers(ranges[i], x))
  }

  // The list on the PCE denotes exactly the addresses of the consolidated networks.
  ghost predicate SameAddresses(ranges: seq<IPRange>, consolidated: seq<Network>)
    requires AllNets(ranges)
  {
    forall x :: Denotes(ranges, x) <==> CoveredBy(Blks(consolidated), x)
  }

  // A ToIP goes with a bare address of its family that is not above it.
  predicate WellFormed(r: IPRange)
  {
    r.toIP.To? ==> r.fromIP.Host? && |r.fromIP.ip| == |r.toIP.ip| && Lex(IpBits(r.fromIP.ip), IpBits(r.toIP.ip)) <= 0
  }

  // A list of plain include entries: single networks or addresses, no ranges, no exclusions.
  ghost predicate PlainIncludes(ranges: seq<IPRange>)
  {
    forall i :: 0 <= i < |ranges| ==> IsNet(ranges[i].fromIP) && ranges[i].toIP.NoTo? && !ranges[i].exclusion
  }

  ghost function EntryNets(ranges: seq<IPRange>): (r: seq<Network>)
    requires AllNets(ranges)
    ensures |r| == |ranges|
    ensures forall i {:trigger r[i]} :: 0 <= i < |ranges| ==> r[i] == NetOf(ranges[i].fromIP)
  {
    seq(|ranges|, i requires 0 <= i < |ranges| => NetOf(ranges[i].fromIP))
  }

  lemma CoveredByIndex(nets: seq<Network>, x: bits)
    ensures CoveredBy(Blks(nets), x) <==> exists i :: 0 <= i < |nets| && Covers(Blk(nets[i]), x)
  {
    if CoveredBy(Blks(nets), x) {
      var b :| b in Blks(nets) && Covers(b, x);
      var i :| 0 <= i < |nets| && Blks(nets)[i] == b;
      assert Covers(Blk(nets[i]), x);
    }
    forall i | 0 <= i < |nets| && Covers(Blk(nets[i]), x)
      ensures CoveredBy(Blks(nets), x)
    {
      assert Blks(nets)[i] in Blks(nets);
    }
  }

  lemma PlainDenotes(ranges: seq<IPRange>, x: bits)
    requires PlainIncludes(ranges)
    ensures AllNets(ranges)
    ensures Denotes(ranges, x) <==> CoveredBy(Blks(EntryNets(ranges)), x)
  {
    var nets := EntryNets(ranges);
    CoveredByIndex(nets, x);
    if CoveredBy(Blks(nets), x) {
      var i :| 0 <= i < |nets| && Covers(Blk(nets[i]), x);
      assert EntryCovers(ranges[i], x);
    }
    if Denotes(ranges, x) {
      var i :| 0 <= i < |ranges| && !ranges[i].exclusion && EntryCovers(ranges[i], x);
      assert Covers(Blk(nets[i]), x);
    }
  }

  lemma PlainSameAddresses(ranges: seq<IPRange>, consolidated: seq<Network>)
    requires PlainIncludes(ranges)
    ensures AllNets(ranges)
    ensures SameAddresses(ranges, consolidated) <==> SameUnion(Blks(consolidated), Blks(EntryNets(ranges)))
  {
    forall x
      ensures Denotes(ranges, x) <==> CoveredBy(Blks(EntryNets(ranges)), x)
    {
      PlainDenotes(ranges, x);
    }
  }

  lemma InBlks(nets: seq<Network>, n: Network)
    ensures Blk(n) in Blks(nets) <==> n in nets
  {
    if n in nets {
      var i :| 0 <= i < |nets| && nets[i] == n;
      assert Blks(nets)[i] == Blk(n);
    }
    if Blk(n) in Blks(nets) {
      var i :| 0 <= i < |nets| && Blks(nets)[i] == Blk(n);
      BlkInjective(nets[i], n);
    }
  }

  lemma SameBlksSameNets(s: seq<Network>, t: seq<Network>)
    ensures SameMembers(Blks(s), Blks(t)) <==> forall n :: n in s <==> n in t
  {
    if SameMembers(Blks(s), Blks(t)) {
      forall n
        ensures n in s <==> n in t
      {
        InBlks(s, n);
        InBlks(t, n);
      }
    }
    if forall n :: n in s <==> n in t {
      SameMembersInBlks(s, t);
      SameMembersInBlks(t, s);
    }
  }

  lemma KeysAreMembers(ranges: seq<IPRange>, consolidated: seq<Network>)
    requires AllNets(ranges)
    ensures SameKeys(ranges, consolidated) <==>
            |ranges| == |consolidated| && SameMembers(Blks(consolidated), Blks(EntryNets(ranges)))
  {
    var nets := EntryNets(ranges);
    SameBlksSameNets(consolidated, nets);
    forall i | 0 <= i < |ranges|
      ensures CheckIp(ranges[i].fromIP) == NetKey(nets[i]) && nets[i] in nets
    {
    }
    forall n
      ensures n in nets <==> HasKey(ranges, n)
    {
      if n in nets {
        var i :| 0 <= i < |nets| && nets[i] == n;
        assert CheckIp(ranges[i].fromIP) == NetKey(n);
      }
      if HasKey(ranges, n) {
        var i :| 0 <= i < |ranges| && CheckIp(ranges[i].fromIP) == NetKey(n);
        assert nets[i] == n;
      }
    }
  }

  // An exact cover as small as the canonical one is itself canonical.
  lemma SmallestIsCanonical(k: seq<Block>, c: seq<Block>)
    requires Canonical(k) && AllWf(c) && SameUnion(k, c) && |k| == |c|
    ensures Canonical(c)
  {
    CanonicalIsUniqueSmallest(k, c);
    forall i, j | 0 <= i < j < |c|
      ensures Disjoint(c[i], c[j])
    {
      assert c[i] in k && c[j] in k;
      if c[i] == c[j] {
        DropTwin(k, c, i, j);
      }
      var a :| 0 <= a < |k| && k[a] == c[i];
      var b :| 0 <= b < |k| && k[b] == c[j];
      assert a < b ==> Disjoint(k[a], k[b]);
      assert b < a ==> Disjoint(k[b], k[a]);
    }
  }

  lemma DropTwin(k: seq<Block>, c: seq<Block>, i: nat, j: nat)
    requires Canonical(k) && AllWf(c) && SameUnion(k, c) && i < j < |c| && c[i] == c[j]
    ensures |k| < |c|
  {
    var d := c[..j] + c[j + 1..];
    assert d[i] == c[i];
    assert forall b :: b in d ==> b in c;
    forall b | b in c
      ensures b in d
    {
      var n :| 0 <= n < |c| && c[n] == b;
      assert n < j ==> d[n] == b;
      assert n > j ==> d[n - 1] == b;
    }
    CanonicalIsUniqueSmallest(k, d);
  }

  // For plain include entries against a consolidated list: the comparison says "same" exactly
  // when the two lists denote the same addresses and the entries are in consolidated form too.
  lemma PlainComparisonDecides(ranges: seq<IPRange>, consolidated: seq<Network>)
    requires PlainIncludes(ranges) && Canonical(Blks(consolidated))
    ensures AllNets(ranges)
    ensures SameKeys(ranges, consolidated) <==>
            SameAddresses(ranges, consolidated) && Canonical(Blks(EntryNets(ranges)))
  {
    var k, c := Blks(consolidated), Blks(EntryNets(ranges));
    BlksAreWf(EntryNets(ranges));
    KeysAreMembers(ranges, consolidated);
    PlainSameAddresses(ranges, consolidated);
    if SameKeys(ranges, consolidated) {
      SmallestIsCanonical(k, c);
    }
    if SameUnion(k, c) && Canonical(c) {
      CanonicalFormsAgree(k, c);
    }
  }

  // ---------- lists with ranges and exclusions ----------

  // An address behind the last one of some network, up to the end of the range, is one of a
  // network again: the networks have no gap between the two addresses.
  ghost predicate GapFree(nets: seq<Network>, lo: bits, hi: bits)
  {
    forall n :: n in nets && Wf(Blk(n)) && EndsBefore(n, lo, hi) ==> ContinuesAfter(nets, n)
  }

  predicate EndsBefore(n: Network, lo: bits, hi: bits)
    requires Wf(Blk(n))
  {
    Between(lo, Last(Blk(n)), hi) && Last(Blk(n)) != hi
  }

  ghost predicate ContinuesAfter(nets: seq<Network>, n: Network)
    requires Wf(Blk(n))
  {
    exists m :: m in nets && |m.ip| == |n.ip| && Wf(Blk(m))
      && Number(First(Blk(m))) <= Number(Last(Blk(n))) + 1 <= Number(Last(Blk(m)))
  }

  lemma {:induction false} NumberBound(x: bits)
    ensures Number(x) < Pow2(|x|)
  {
    if x != [] {
      NumberBound(x[..|x| - 1]);
    }
  }

  // The bits of a number not above that of y.
  lemma BitsOfNumber(n: nat, y: bits) returns (x: bits)
    requires n <= Number(y)
    ensures |x| == |y| && Number(x) == n
  {
    NumberBound(y);
    x := ByteBits(n, |y|);
    ByteBitsNumber(n, |y|);
  }

  lemma BetweenNumbers(lo: bits, x: bits, hi: bits)
    requires |lo| == |x| == |hi|
    ensures Between(lo, x, hi) <==> Number(lo) <= Number(x) <= Number(hi)
  {
    LexIsNumeric(lo, x);
    LexIsNumeric(x, hi);
    LexFlip(lo, x);
    LexFlip(x, hi);
  }

  lemma CoverOf(nets: seq<Network>, x: bits) returns (n: Network)
    requires CoveredBy(Blks(nets), x)
    ensures n in nets && Wf(Blk(n)) && Covers(Blk(n), x) && |x| == 8 * |n.ip|
    ensures Number(First(Blk(n))) <= Number(x) <= Number(Last(Blk(n)))
  {
    CoveredByIndex(nets, x);
    var i :| 0 <= i < |nets| && Covers(Blk(nets[i]), x);
    n := nets[i];
    BlkIsWf(n);
    BlockIsNumberRange(Blk(n), x);
  }

  lemma CoveredIn(nets: seq<Network>, n: Network, x: bits)
    requires n in nets && Wf(Blk(n)) && |x| == 8 * |n.ip|
    requires Number(First(Blk(n))) <= Number(x) <= Number(Last(Blk(n)))
    ensures CoveredBy(Blks(nets), x)
  {
    BlockIsNumberRange(Blk(n), x);
    InBlks(nets, n);
  }

  // Without a gap, everything from a covered address on is covered.
  lemma {:induction false} NoGapCovers(nets: seq<Network>, lo: bits, x: bits, hi: bits)
    requires CoveredBy(Blks(nets), lo) && GapFree(nets, lo, hi) && Between(lo, x, hi)
    ensures CoveredBy(Blks(nets), x)
    decreases Number(x)
  {
    BetweenNumbers(lo, x, hi);
    LexIsNumeric(lo, x);
    if x != lo {
      var y := BitsOfNumber(Number(x) - 1, x);
      BetweenNumbers(lo, y, hi);
      NoGapCovers(nets, lo, y, hi);
      var n := CoverOf(nets, y);
      if Number(x) <= Number(Last(Blk(n))) {
        CoveredIn(nets, n, x);
      } else {
        LexIsNumeric(y, Last(Blk(n)));
        LexIsNumeric(y, hi);
        assert EndsBefore(n, lo, hi);
        var m :| m in nets && |m.ip| == |n.ip| && Wf(Blk(m))
          && Number(First(Blk(m))) <= Number(Last(Blk(n))) + 1 <= Number(Last(Blk(m)));
        CoveredIn(nets, m, x);
      }
    }
  }

  // If everything in between is covered, there is no gap.
  lemma CoveredHasNoGap(nets: seq<Network>, lo: bits, hi: bits)
    requires |lo| == |hi| && forall x :: Between(lo, x, hi) ==> CoveredBy(Blks(nets), x)
    ensures GapFree(nets, lo, hi)
  {
    forall n | n in nets && Wf(Blk(n)) && EndsBefore(n, lo, hi)
      ensures ContinuesAfter(nets, n)
    {
      var last := Last(Blk(n));
      BetweenNumbers(lo, last, hi);
      LexIsNumeric(last, hi);
      var x := BitsOfNumber(Number(last) + 1, hi);
      BetweenNumbers(lo, x, hi);
      var m := CoverOf(nets, x);
    }
  }

  // No entry excludes, and no range leaves the consolidated networks.
  ghost predicate Harmless(ranges: seq<IPRange>, consolidated: seq<Network>)
  {
    forall i :: 0 <= i < |ranges| ==> HarmlessEntry(ranges[i], consolidated)
  }

  ghost predicate HarmlessEntry(r: IPRange, consolidated: seq<Network>)
  {
    && !r.exclusion
    && (r.toIP.To? && r.fromIP.Host? ==> GapFree(consolidated, IpBits(r.fromIP.ip), IpBits(r.toIP.ip)))
  }

  // The first address of an entry is one of its own.
  lemma EntryStarts(r: IPRange)
    requires IsNet(r.fromIP) && WellFormed(r)
    ensures EntryCovers(r, IpBits(NetOf(r.fromIP).ip)) && Covers(Blk(NetOf(r.fromIP)), IpBits(NetOf(r.fromIP).ip))
  {
    BlkIsWf(NetOf(r.fromIP));
    LexFlip(IpBits(NetOf(r.fromIP).ip), IpBits(NetOf(r.fromIP).ip));
  }

  // An entry covers at least its network.
  lemma EntryHoldsNet(r: IPRange, x: bits)
    requires IsNet(r.fromIP) && WellFormed(r) && Covers(Blk(NetOf(r.fromIP)), x)
    ensures EntryCovers(r, x)
  {
    if r.toIP.To? {
      HostCoversItself(r.fromIP.ip, x);
      EntryStarts(r);
    }
  }

  lemma HostCoversItself(ip: Address, x: bits)
    requires Covers(Blk(HostNet(ip)), x)
    ensures x == IpBits(ip)
  {
    assert IpBits(ip)[..8 * |ip|] == IpBits(ip);
  }

  lemma NetHasEntry(ranges: seq<IPRange>, consolidated: seq<Network>, n: Network) returns (i: nat)
    requires SameKeys(ranges, consolidated) && n in consolidated
    ensures i < |ranges| && IsNet(ranges[i].fromIP) && NetOf(ranges[i].fromIP) == n
  {
    var j :| 0 <= j < |consolidated| && consolidated[j] == n;
    assert HasKey(ranges, consolidated[j]);
    i :| 0 <= i < |ranges| && CheckIp(ranges[i].fromIP) == NetKey(n);
  }

  lemma ExcludedDiffers(ranges: seq<IPRange>, consolidated: seq<Network>, i: nat)
    requires SameKeys(ranges, consolidated) && AllNets(ranges)
    requires i < |ranges| && ranges[i].exclusion && WellFormed(ranges[i])
    ensures !SameAddresses(ranges, consolidated)
  {
    var n := NetOf(ranges[i].fromIP);
    EntryStarts(ranges[i]);
    InBlks(consolidated, n);
    assert Covers(Blk(n), IpBits(n.ip));
    assert CoveredBy(Blks(consolidated), IpBits(n.ip)) && !Denotes(ranges, IpBits(n.ip));
  }

  lemma SameHasNoGap(ranges: seq<IPRange>, consolidated: seq<Network>, i: nat)
    requires AllNets(ranges) && SameAddresses(ranges, consolidated) && (forall k :: 0 <= k < |ranges| ==>
            !ranges[k].exclusion)
    requires i < |ranges| && WellFormed(ranges[i])
    ensures HarmlessEntry(ranges[i], consolidated)
  {
    var r := ranges[i];
    if r.toIP.To? {
      var lo, hi := IpBits(r.fromIP.ip), IpBits(r.toIP.ip);
      forall x | Between(lo, x, hi)
        ensures CoveredBy(Blks(consolidated), x)
      {
        assert EntryCovers(r, x);
        assert Denotes(ranges, x);
      }
      CoveredHasNoGap(consolidated, lo, hi);
    }
  }

  lemma HarmlessCovered(ranges: seq<IPRange>, consolidated: seq<Network>, i: nat, x: bits)
    requires SameKeys(ranges, consolidated) && AllNets(ranges) && i < |ranges| && WellFormed(ranges[i])
    requires HarmlessEntry(ranges[i], consolidated) && EntryCovers(ranges[i], x)
    ensures CoveredBy(Blks(consolidated), x)
  {
    var r := ranges[i];
    var n := NetOf(r.fromIP);
    InBlks(consolidated, n);
    if r.toIP.To? {
      EntryStarts(r);
      assert CoveredBy(Blks(consolidated), IpBits(n.ip));
      NoGapCovers(consolidated, IpBits(r.fromIP.ip), x, IpBits(r.toIP.ip));
    }
  }

  lemma CoveredDenoted(ranges: seq<IPRange>, consolidated: seq<Network>, x: bits)
    requires SameKeys(ranges, consolidated) && AllNets(ranges) && CoveredBy(Blks(consolidated), x)
    requires forall i :: 0 <= i < |ranges| ==> WellFormed(ranges[i])
    requires forall i :: 0 <= i < |ranges| ==> !ranges[i].exclusion
    ensures Denotes(ranges, x)
  {
    var n := CoverOf(consolidated, x);
    var i := NetHasEntry(ranges, consolidated, n);
    EntryHoldsNet(ranges[i], x);
  }

  lemma HarmlessIsSame(ranges: seq<IPRange>, consolidated: seq<Network>)
    requires SameKeys(ranges, consolidated) && AllNets(ranges) && Harmless(ranges, consolidated)
    requires forall i :: 0 <= i < |ranges| ==> WellFormed(ranges[i])
    ensures SameAddresses(ranges, consolidated)
  {
    NoneExcludes(ranges, consolidated);
    forall x | CoveredBy(Blks(consolidated), x)
      ensures Denotes(ranges, x)
    {
      CoveredDenoted(ranges, consolidated, x);
    }
    forall x | Denotes(ranges, x)
      ensures CoveredBy(Blks(consolidated), x)
    {
      var i :| 0 <= i < |ranges| && !ranges[i].exclusion && EntryCovers(ranges[i], x);
      HarmlessCovered(ranges, consolidated, i, x);
    }
  }

  lemma NoneExcludes(ranges: seq<IPRange>, consolidated: seq<Network>)
    requires Harmless(ranges, consolidated)
    ensures forall i :: 0 <= i < |ranges| ==> !ranges[i].exclusion
  {
    forall i | 0 <= i < |ranges|
      ensures !ranges[i].exclusion
    {
      assert HarmlessEntry(ranges[i], consolidated);
    }
  }

  // Only FromIP is compared. A list said to be the same denotes the same addresses exactly when
  // no entry excludes and no range has a gap in the consolidated networks.
  lemma WhenSameIsRight(ranges: seq<IPRange>, consolidated: seq<Network>)
    requires SameKeys(ranges, consolidated) && forall i :: 0 <= i < |ranges| ==> WellFormed(ranges[i])
    ensures AllNets(ranges)
    ensures SameAddresses(ranges, consolidated) <==> Harmless(ranges, consolidated)
  {
    if Harmless(ranges, consolidated) {
      HarmlessIsSame(ranges, consolidated);
    }
    if SameAddresses(ranges, consolidated) {
      forall i | 0 <= i < |ranges|
        ensures !ranges[i].exclusion
      {
        if ranges[i].exclusion {
          ExcludedDiffers(ranges, consolidated, i);
        }
      }
      forall i | 0 <= i < |ranges|
        ensures HarmlessEntry(ranges[i], consolidated)
      {
        SameHasNoGap(ranges, consolidated, i);
      }
    }
  }

  lemma GapFreeOfSame(s: seq<Network>, t: seq<Network>, lo: bits, hi: bits)
    requires (forall n :: n in s <==> n in t) && GapFree(s, lo, hi)
    ensures GapFree(t, lo, hi)
  {
    forall n | n in t && Wf(Blk(n)) && EndsBefore(n, lo, hi)
      ensures ContinuesAfter(t, n)
    {
      assert ContinuesAfter(s, n);
      var m :| m in s && |m.ip| == |n.ip| && Wf(Blk(m))
        && Number(First(Blk(m))) <= Number(Last(Blk(n))) + 1 <= Number(Last(Blk(m)));
      assert m in t;
    }
  }

  lemma HarmlessOfSame(ranges: seq<IPRange>, s: seq<Network>, t: seq<Network>)
    requires (forall n :: n in s <==> n in t) && Harmless(ranges, s)
    ensures Harmless(ranges, t)
  {
    forall i | 0 <= i < |ranges|
      ensures HarmlessEntry(ranges[i], t)
    {
      assert HarmlessEntry(ranges[i], s);
      if ranges[i].toIP.To? && ranges[i].fromIP.Host? {
        GapFreeOfSame(s, t, IpBits(ranges[i].fromIP.ip), IpBits(ranges[i].toIP.ip));
      }
    }
  }

  lemma SameKeysOfItself(ranges: seq<IPRange>)
    requires AllNets(ranges)
    ensures SameKeys(ranges, EntryNets(ranges))
  {
    var nets := EntryNets(ranges);
    forall i | 0 <= i < |ranges|
      ensures CheckIp(ranges[i].fromIP) == NetKey(nets[i]) && nets[i] in nets && HasKey(ranges, nets[i])
    {
    }
  }

  // The list is a consolidated one, written as such: no exclusions, no range that leaves the
  // networks of the entries, and those canonical.
  ghost predicate InConsolidatedForm(ranges: seq<IPRange>)
    requires AllNets(ranges)
  {
    Harmless(ranges, EntryNets(ranges)) && Canonical(Blks(EntryNets(ranges)))
  }

  lemma SameOfForm(ranges: seq<IPRange>, consolidated: seq<Network>)
    requires AllNets(ranges) && Canonical(Blks(consolidated))
    requires forall i :: 0 <= i < |ranges| ==> WellFormed(ranges[i])
    requires SameAddresses(ranges, consolidated) && InConsolidatedForm(ranges)
    ensures SameKeys(ranges, consolidated) && Harmless(ranges, consolidated)
  {
    var nets := EntryNets(ranges);
    SameKeysOfItself(ranges);
    HarmlessIsSame(ranges, nets);
    assert SameUnion(Blks(consolidated), Blks(nets));
    CanonicalFormsAgree(Blks(consolidated), Blks(nets));
    KeysAreMembers(ranges, consolidated);
    SameBlksSameNets(consolidated, nets);
    HarmlessOfSame(ranges, nets, consolidated);
  }

  lemma FormOfSame(ranges: seq<IPRange>, consolidated: seq<Network>)
    requires AllNets(ranges) && Canonical(Blks(consolidated))
    requires SameKeys(ranges, consolidated) && Harmless(ranges, consolidated)
    ensures InConsolidatedForm(ranges)
  {
    var nets := EntryNets(ranges);
    KeysAreMembers(ranges, consolidated);
    SameBlksSameNets(consolidated, nets);
    HarmlessOfSame(ranges, consolidated, nets);
    BlksAreWf(nets);
    SmallestIsCanonical(Blks(consolidated), Blks(nets));
  }

  // For any list of networks, addresses and ranges, excluded or not, against a consolidated one:
  // it is said to be the same, and rightly, exactly when both denote the same addresses and the
  // list is in consolidated form.
  lemma ComparisonDecidesAddresses(ranges: seq<IPRange>, consolidated: seq<Network>)
    requires AllNets(ranges) && Canonical(Blks(consolidated))
    requires forall i :: 0 <= i < |ranges| ==> WellFormed(ranges[i])
    ensures SameKeys(ranges, consolidated) && Harmless(ranges, consolidated) <==>
            SameAddresses(ranges, consolidated) && InConsolidatedForm(ranges)
  {
    if SameKeys(ranges, consolidated) && Harmless(ranges, consolidated) {
      HarmlessIsSame(ranges, consolidated);
      FormOfSame(ranges, consolidated);
    }
    if SameAddresses(ranges, consolidated) && InConsolidatedForm(ranges) {
      SameOfForm(ranges, consolidated);
    }
  }

  // Entries that exclude every consolidated network compare equal and denote nothing.
  lemma ExclusionsCompareEqual(ranges: seq<IPRange>, consolidated: seq<Network>)
    requires |ranges| == |consolidated| > 0
    requires forall i :: 0 <= i < |ranges| ==> ranges[i] == IPRange(Cidr(consolidated[i]), NoTo, true)
    ensures AllNets(ranges) && SameKeys(ranges, consolidated) && !SameAddresses(ranges, consolidated)
  {
    assert forall i :: 0 <= i < |ranges| ==> CheckIp(ranges[i].fromIP) == NetKey(consolidated[i]);
    forall j | 0 <= j < |consolidated|
      ensures HasKey(ranges, consolidated[j])
    {
      assert CheckIp(ranges[j].fromIP) == NetKey(consolidated[j]);
    }
    ExcludedDiffers(ranges, consolidated, 0);
  }

  // A range compares equal to the one address it begins with, such as 10.0.0.0-10.0.0.255 to
  // 10.0.0.0/32, however many more it denotes.
  lemma RangeComparesEqual(first: Address, last: Address)
    requires |first| == |last| && Lex(IpBits(first), IpBits(last)) < 0
    ensures var ranges, consolidated := [IPRange(Host(first), To(last), false)], [HostNet(first)];
            SameKeys(ranges, consolidated) && AllNets(ranges) && !SameAddresses(ranges, consolidated)
  {
    var ranges, consolidated := [IPRange(Host(first), To(last), false)], [HostNet(first)];
    assert CheckIp(ranges[0].fromIP) == NetKey(consolidated[0]);
    assert HasKey(ranges, consolidated[0]);
    var x := IpBits(last);
    LexFlip(x, x);
    LexFlip(IpBits(first), x);
    assert EntryCovers(ranges[0], x);
    assert Denotes(ranges, x);
    CoveredByIndex(consolidated, x);
    if Covers(Blk(HostNet(first)), x) {
      HostCoversItself(first, x);
    }
  }
}
