// Consolidation of a cloud provider's networks: nested networks dropped, then passes of
// greedy merging over the sorted list until its length stops changing.
module CspIpList {
  import opened Bits
  import opened Seqs
  import opened IpBytes
  import opened Blocks
  import opened Consolidation
  import opened UnbrokenCovers
  import opened Networks

  // What net.ParseCIDR makes of one key of the map of unique networks.
  datatype Parsed = BadCIDR | Net(net: Network)

  // The networks that parse, in the order of the keys.
  function Nets(keys: seq<Parsed>): (r: seq<Network>)
    ensures forall n :: n in r <==> Net(n) in keys
  {
    if keys == [] then []
    else if keys[0].Net? then [keys[0].net] + Nets(keys[1..])
    else Nets(keys[1..])
  }

  lemma {:induction false} NetsSnoc(keys: seq<Parsed>, key: Parsed)
    ensures Nets(keys + [key]) == Nets(keys) + (if key.Net? then [key.net] else [])
  {
    if keys == [] {
      assert [key][1..] == [];
    } else {
      assert (keys + [key])[1..] == keys[1..] + [key];
      NetsSnoc(keys[1..], key);
    }
  }

  // The networks as IPNet.String prints them and the next net.ParseCIDR reads them.
  function Norms(nets: seq<Network>): (r: seq<Network>)
    ensures |r| == |nets| && forall i {:trigger r[i]} :: 0 <= i < |nets| ==> r[i] == Norm(nets[i])
  {
    seq(|nets|, i requires 0 <= i < |nets| => Norm(nets[i]))
  }

  // The input of the consolidation: the networks of the keys, IPv4-mapped ones read as IPv4.
  function Read(keys: seq<Parsed>): seq<Network>
  {
    Norms(Nets(keys))
  }

  ghost predicate BasesUnmapped(nets: seq<Network>)
  {
    forall i :: 0 <= i < |nets| ==> !Mapped(nets[i].ip)
  }

  lemma NormsOfUnmapped(nets: seq<Network>)
    requires BasesUnmapped(nets)
    ensures Norms(nets) == nets
  {
  }

  function Blks(nets: seq<Network>): (r: seq<Block>)
    ensures |r| == |nets| && forall i {:trigger r[i]} :: 0 <= i < |nets| ==> r[i] == Blk(nets[i])
  {
    seq(|nets|, i requires 0 <= i < |nets| => Blk(nets[i]))
  }

  lemma BlksSnoc(nets: seq<Network>, n: Network)
    ensures Blks(nets + [n]) == Blks(nets) + [Blk(n)]
  {
  }

  lemma DropStep<T>(s: seq<T>, i: nat)
    requires i < |s|
    ensures s[i..][0] == s[i] && s[i..][1..] == s[i + 1..] && s[i..] == [s[i]] + s[i + 1..]
  {
  }

  lemma TakeAll<T>(s: seq<T>, t: seq<T>)
    ensures s[..|s|] == s == s[0..] && t + s[|s|..] == t && [] + s == s
  {
  }

  lemma BlksAreWf(nets: seq<Network>)
    ensures AllWf(Blks(nets))
  {
    forall b | b in Blks(nets)
      ensures Wf(b)
    {
      var i :| 0 <= i < |nets| && Blks(nets)[i] == b;
      BlkIsWf(nets[i]);
    }
  }

  // ---------- getLastIP ----------

  method GetLastIP(ipNet: Network) returns (last: seq<byte>)
    ensures last == LastIP(ipNet)
  {
    var ip, mask := ipNet.ip, Mask(ipNet);
    var lastIP := new byte[|ip|](i requires 0 <= i < |ip| => ip[i]);
    for i := 0 to lastIP.Length
      invariant forall k :: 0 <= k < i ==> lastIP[k] == OrByte(ip[k], NotByte(mask[k]))
      invariant forall k :: i <= k < lastIP.Length ==> lastIP[k] == ip[k]
    {
      lastIP[i] := OrByte(lastIP[i], NotByte(mask[i]));
    }
    last := lastIP[..];
    assert last == LastIP(ipNet);
  }

  // ---------- removeSubsetIPs ----------

  // The parsing loop: keys that do not parse are skipped.
  method ParseKeys(keys: seq<Parsed>) returns (ipNets: seq<Network>)
    ensures ipNets == Nets(keys)
  {
    ipNets := [];
    for k := 0 to |keys|
      invariant ipNets == Nets(keys[..k])
    {
      assert keys[..k + 1] == keys[..k] + [keys[k]];
      NetsSnoc(keys[..k], keys[k]);
      if keys[k].Net? {
        ipNets := ipNets + [keys[k].net];
      }
    }
    assert keys[..|keys|] == keys;
  }

  // The two-endpoint test: ipNet2 contains the first and the last address of ipNet1.
  method InsideOther(ipNet1: Network, ipNet2: Network) returns (inside: bool)
    ensures inside <==> Inside(Blk(Norm(ipNet1)), Blk(Norm(ipNet2))) && !Straddles(ipNet1)
  {
    EndpointTestIsInside(ipNet1, ipNet2);
    inside := false;
    if Contains(ipNet2, ipNet1.ip) {
      var last := GetLastIP(ipNet1);
      inside := Contains(ipNet2, last);
    }
  }

  // The positions the code keeps.
  function KeepFlags(nets: seq<Network>): (f: seq<bool>)
    ensures |f| == |nets|
  {
    seq(|nets|, i requires 0 <= i < |nets| => Kept(Blks(Norms(nets)), i) || Straddles(nets[i]))
  }

  // The inner loop: does network i pass for a part of another one of the list?
  method IsSubset(ipNets: seq<Network>, i: nat) returns (isSubset: bool)
    requires i < |ipNets|
    ensures isSubset <==> !KeepFlags(ipNets)[i]
  {
    ghost var blocks := Blks(Norms(ipNets));
    isSubset := false;
    for j := 0 to |ipNets|
      invariant forall k :: 0 <= k < j && k != i ==> !Inside(blocks[i], blocks[k]) || Straddles(ipNets[i])
    {
      if i != j {
        assert blocks[i] == Blk(Norm(ipNets[i])) && blocks[j] == Blk(Norm(ipNets[j]));
        isSubset := InsideOther(ipNets[i], ipNets[j]);
        if isSubset {
          NotKept(blocks, i, j);
          return;
        }
      }
    }
  }

  // The networks that lie inside no other one of the list, and those whose last address alone
  // is IPv4-mapped, in list order.
  method RemoveSubsetIPs(keys: seq<Parsed>) returns (filteredIPs: seq<Network>)
    ensures BasesUnmapped(filteredIPs)
    ensures Blks(filteredIPs) == PickFlagged(Blks(Read(keys)), KeepFlags(Nets(keys)), |Nets(keys)|)
  {
    var ipNets := ParseKeys(keys);
    ghost var blocks, flags := Blks(Norms(ipNets)), KeepFlags(ipNets);
    filteredIPs := [];
    for i := 0 to |ipNets|
      invariant BasesUnmapped(filteredIPs)
      invariant Blks(filteredIPs) == PickFlagged(blocks, flags, i)
    {
      PickFlaggedStep(blocks, flags, i);
      var isSubset := IsSubset(ipNets, i);
      if !isSubset {
        var ipNet := PrintedAndRead(ipNets, i);
        BlksSnoc(filteredIPs, ipNet);
        filteredIPs := filteredIPs + [ipNet];
      }
    }
  }

  // The network as the text of the filtered list is read again.
  method PrintedAndRead(ipNets: seq<Network>, i: nat) returns (ipNet: Network)
    requires i < |ipNets|
    ensures ipNet == Norm(ipNets[i]) && !Mapped(ipNet.ip) && Blk(ipNet) == Blks(Norms(ipNets))[i]
  {
    ipNet := Norm(ipNets[i]);
  }

  // None of the networks whose last address alone is IPv4-mapped lies inside another one.
  ghost predicate StraddlersOutermost(nets: seq<Network>)
  {
    forall n :: n in nets && Straddles(n) ==> Outermost(Blks(Norms(nets)), Blk(n))
  }

  // The code keeps the survivors, and nothing else, exactly when that is so.
  lemma KeepsSurvivors(nets: seq<Network>)
    ensures PickFlagged(Blks(Norms(nets)), KeepFlags(nets), |nets|) == Survivors(Blks(Norms(nets))) <==>
            StraddlersOutermost(nets)
  {
    var s, f, g := Blks(Norms(nets)), KeptFlags(Blks(Norms(nets))), KeepFlags(nets);
    forall i | 0 <= i < |nets|
      ensures g[i] <==> f[i] || Straddles(nets[i])
    {
    }
    MoreSet(f, g, |nets|);
    PickedLength(s, f, |nets|);
    PickedLength(s, g, |nets|);
    forall i | 0 <= i < |nets| && Straddles(nets[i])
      ensures f[i] <==> Outermost(s, Blk(nets[i]))
    {
      KeptIsOutermost(s, i);
    }
    if f == g {
      forall n | n in nets && Straddles(n)
        ensures Outermost(s, Blk(n))
      {
        var i :| 0 <= i < |nets| && nets[i] == n;
        assert f[i] == g[i];
      }
    }
    if StraddlersOutermost(nets) {
      forall i | 0 <= i < |nets|
        ensures f[i] == g[i]
      {
        assert nets[i] in nets;
      }
    }
  }

  // ---------- mergeConsecutiveRanges ----------

  // Where n goes in a list sorted by base address.
  function Position(n: Network, s: seq<Network>): (k: nat)
    ensures k <= |s|
    ensures forall i :: 0 <= i < k ==> Compare(s[i].ip, n.ip) < 0
    ensures k < |s| ==> Compare(s[k].ip, n.ip) >= 0
  {
    if s == [] || Compare(s[0].ip, n.ip) >= 0 then 0 else 1 + Position(n, s[1..])
  }

  lemma InsertedMultiset(r: seq<Network>, k: nat, n: Network)
    requires k <= |r|
    ensures multiset(r[..k] + [n] + r[k..]) == multiset(r) + multiset{n}
  {
    assert r == r[..k] + r[k..];
  }

  // sort.Slice by bytes.Compare of the base addresses.
  function SortByIP(s: seq<Network>): (r: seq<Network>)
    ensures multiset(r) == multiset(s)
  {
    if s == [] then []
    else
      var r := SortByIP(s[1..]);
      var k := Position(s[0], r);
      InsertedMultiset(r, k, s[0]);
      assert s == [s[0]] + s[1..];
      r[..k] + [s[0]] + r[k..]
  }

  lemma SortMembers(s: seq<Network>)
    ensures |SortByIP(s)| == |s| && forall n :: n in SortByIP(s) <==> n in s
  {
    assert |multiset(SortByIP(s))| == |multiset(s)|;
    assert forall n :: n in SortByIP(s) <==> n in multiset(SortByIP(s));
    assert forall n :: n in s <==> n in multiset(s);
  }

  // Pairwise disjoint, in increasing order of base address.
  ghost predicate Tidy(nets: seq<Network>)
  {
    AllWf(Blks(nets)) && PairwiseDisjoint(Blks(nets)) && SortedByFirst(Blks(nets))
  }

  lemma BlksInsert(s: seq<Network>, k: nat, n: Network)
    requires k <= |s|
    ensures Blks(s[..k] + [n] + s[k..]) == Blks(s)[..k] + [Blk(n)] + Blks(s)[k..]
  {
  }

  // A sorted list has all members before the position below n and all after it above n.
  lemma PositionSplits(n: Network, s: seq<Network>, k: nat)
    requires Tidy(s) && k == Position(n, s)
    requires forall i :: 0 <= i < |s| ==> Disjoint(Blk(n), Blks(s)[i])
    ensures Wf(Blk(n))
    ensures forall i :: 0 <= i < k ==> Lex(First(Blks(s)[i]), First(Blk(n))) < 0
    ensures forall i :: k <= i < |s| ==> Lex(First(Blk(n)), First(Blks(s)[i])) < 0
  {
    BlkIsWf(n);
    forall i | 0 <= i < k
      ensures Lex(First(Blks(s)[i]), First(Blk(n))) < 0
    {
      CompareIsOrder(s[i], n);
    }
    if k < |s| {
      CompareIsOrder(s[k], n);
      BelowFirstBelowAll(Blks(s), k, Blk(n));
    }
  }

  lemma {:induction false} SortTidies(s: seq<Network>)
    requires PairwiseDisjoint(Blks(s))
    ensures Tidy(SortByIP(s))
  {
    if s != [] {
      var tail := s[1..];
      var r := SortByIP(tail);
      var k := Position(s[0], r);
      assert forall i :: 0 <= i < |tail| ==> Blks(tail)[i] == Blks(s)[i + 1];
      SortTidies(tail);
      SortMembers(tail);
      forall i | 0 <= i < |r|
        ensures Disjoint(Blk(s[0]), Blks(r)[i])
      {
        assert r[i] in tail;
        var j :| 0 <= j < |tail| && tail[j] == r[i];
        assert Disjoint(Blks(s)[0], Blks(s)[j + 1]);
      }
      PositionSplits(s[0], r, k);
      InsertKeepsOrder(Blks(r), k, Blk(s[0]));
      BlksInsert(r, k, s[0]);
    }
  }

  // ---------- one pass ----------

  // canMerge.
  method TestMerge(ipNet1: Network, ipNet2: Network) returns (ok: bool)
    ensures ok <==> Mergeable(Blk(ipNet1), Blk(ipNet2))
  {
    CanMergeIsMergeable(ipNet1, ipNet2);
    ok := CanMerge(ipNet1, ipNet2);
  }

  // The network one bit shorter at the same base address, where there is one.
  function Shorter(n: Network): Network
  {
    if n.ones > 0 && ValidNet(IPNet(n.ip, n.ones - 1)) then IPNet(n.ip, n.ones - 1) else n
  }

  // merge, called on siblings in order: their parent, at the base address of the first.
  method MergeSiblings(ipNet1: Network, ipNet2: Network) returns (m: Network)
    requires Siblings(Blk(ipNet1), Blk(ipNet2)) && Mergeable(Blk(ipNet1), Blk(ipNet2))
    requires Wf(Blk(ipNet1)) && First(Parent(Blk(ipNet1))) == First(Blk(ipNet1))
    ensures Blk(m) == Parent(Blk(ipNet1)) && m == Shorter(ipNet1)
  {
    CanMergeIsMergeable(ipNet1, ipNet2);
    MergeIsParent(ipNet1, ipNet2);
    m := Merge(ipNet1, ipNet2);
    BaseIsFirst(m);
    BaseIsFirst(ipNet1);
    IpBitsInjective(m.ip, ipNet1.ip);
  }

  // What a network becomes when it takes up its followers, and the rest of the list.
  function Absorb(n: Network, rest: seq<Network>): (r: (Network, seq<Network>))
    ensures |r.1| <= |rest|
    decreases |rest|
  {
    if rest != [] && Mergeable(Blk(n), Blk(rest[0])) then Absorb(Shorter(n), rest[1..]) else (n, rest)
  }

  // One pass, as a function of the sorted list.
  function Pass(nets: seq<Network>): (r: seq<Network>)
    ensures |r| <= |nets|
    decreases |nets|
  {
    if nets == [] then []
    else
      var (n, rest) := Absorb(nets[0], nets[1..]);
      [n] + Pass(rest)
  }

  // A pass that drops nothing has merged nothing, and no two neighbours can merge.
  lemma {:induction false} PassOfSettled(nets: seq<Network>)
    requires |Pass(nets)| == |nets|
    ensures Pass(nets) == nets && NoNeighboursMerge(Blks(nets), |nets|)
    decreases |nets|
  {
    if nets != [] {
      DropStep(nets, 0);
      var rest := nets[1..];
      var (n, left) := Absorb(nets[0], rest);
      assert n == nets[0] && left == rest;
      PassOfSettled(rest);
      forall k: nat | k < |nets|
        ensures !MergeableAt(Blks(nets), k)
      {
        if k > 0 {
          assert Blks(rest)[k - 1] == Blks(nets)[k] && !MergeableAt(Blks(rest), k - 1);
          if k + 1 < |nets| {
            assert Blks(rest)[k] == Blks(nets)[k + 1];
          }
        }
      }
    }
  }

  // The inner loop: the block after the finished ones takes up its followers. The list is
  // done + blocks[i..] before and done + [current] + blocks[next..] after.
  method AbsorbFollowers(nets: seq<Network>, i: nat, ghost done: seq<Block>, ghost s: seq<Block>)
      returns (current: Network, next: nat)
    requires i < |nets| && Kin(done + Blks(nets)[i..], s)
    ensures i < next <= |nets| && Kin(done + [Blk(current)] + Blks(nets)[next..], s)
    ensures Pass(nets[i..]) == [current] + Pass(nets[next..])
  {
    ghost var blocks := Blks(nets);
    current := nets[i];
    next := i + 1;
    DropStep(blocks, i);
    assert done + ([Blk(current)] + blocks[next..]) == done + [Blk(current)] + blocks[next..];
    while next < |nets|
      invariant i < next <= |nets|
      invariant Kin(done + [Blk(current)] + blocks[next..], s)
      invariant Absorb(current, nets[next..]) == Absorb(nets[i], nets[i + 1..])
    {
      DropStep(blocks, next);
      DropStep(nets, next);
      var ok := TestMerge(current, nets[next]);
      if !ok {
        break;
      }
      MergeGuard(done, Blk(current), blocks[next..], s);
      current := MergeSiblings(current, nets[next]);
      next := next + 1;
    }
    DropStep(nets, i);
  }

  // One pass over the sorted networks: the current block absorbs its followers as long as it
  // can merge with the next one.
  method MergePass(nets: seq<Network>, ghost s: seq<Block>) returns (tmpIPs: seq<Network>)
    requires Kin(Blks(nets), s)
    ensures tmpIPs == Pass(nets)
    ensures Kin(Blks(tmpIPs), s)
  {
    ghost var blocks := Blks(nets);
    tmpIPs := [];
    var i := 0;
    TakeAll(blocks, []);
    TakeAll(nets, []);
    assert Blks(tmpIPs) == [];
    while i < |nets|
      invariant 0 <= i <= |nets|
      invariant Kin(Blks(tmpIPs) + blocks[i..], s)
      invariant tmpIPs + Pass(nets[i..]) == Pass(nets)
    {
      var current, next := AbsorbFollowers(nets, i, Blks(tmpIPs), s);
      BlksSnoc(tmpIPs, current);
      JoinRegroups(tmpIPs, [current], Pass(nets[next..]));
      tmpIPs := tmpIPs + [current];
      i := next;
    }
    TakeAll(nets, tmpIPs);
    TakeAll(blocks, Blks(tmpIPs));
  }

  // ---------- passes until the length stays ----------

  lemma SortedSameBlocks(nets: seq<Network>)
    ensures SameMembers(Blks(nets), Blks(SortByIP(nets)))
  {
    SortMembers(nets);
    SameMembersInBlks(SortByIP(nets), nets);
    SameMembersInBlks(nets, SortByIP(nets));
  }

  lemma SameMembersInBlks(t: seq<Network>, s: seq<Network>)
    requires forall n :: n in t ==> n in s
    ensures forall b :: b in Blks(t) ==> b in Blks(s)
  {
    forall b | b in Blks(t)
      ensures b in Blks(s)
    {
      var i :| 0 <= i < |t| && Blks(t)[i] == b;
      assert t[i] in s;
      var j :| 0 <= j < |s| && s[j] == t[i];
      assert Blks(s)[j] == b;
    }
  }

  lemma SortedBasesUnmapped(nets: seq<Network>)
    requires BasesUnmapped(nets)
    ensures BasesUnmapped(SortByIP(nets))
  {
    SortMembers(nets);
    forall i | 0 <= i < |SortByIP(nets)|
      ensures !Mapped(SortByIP(nets)[i].ip)
    {
      assert SortByIP(nets)[i] in nets;
    }
  }

  lemma SortedIsKin(nets: seq<Network>, s: seq<Block>)
    requires AllWf(s) && UnbrokenCover(Blks(nets), s)
    ensures Kin(Blks(SortByIP(nets)), s)
  {
    SortTidies(nets);
    SortedSameBlocks(nets);
    CoverReordered(Blks(nets), Blks(SortByIP(nets)), s);
  }

  // When a pass over the sorted list can merge nothing, siblings are apart.
  lemma Settled(nets: seq<Network>)
    requires PairwiseDisjoint(Blks(nets)) && NoNeighboursMerge(Blks(SortByIP(nets)), |nets|)
    ensures SiblingsApart(Blks(nets))
  {
    SortTidies(nets);
    SortMembers(nets);
    SortedSameBlocks(nets);
    SortedSuffice(Blks(nets), Blks(SortByIP(nets)));
  }

  // The passes until the length stays, as a function of the list.
  function Merged(ips: seq<Network>): seq<Network>
    decreases |ips|
  {
    SortMembers(ips);
    var tmpIPs := Pass(SortByIP(ips));
    if |tmpIPs| == |ips| then ips else Merged(tmpIPs)
  }

  lemma {:induction false} AbsorbKeepsBase(n: Network, rest: seq<Network>)
    requires !Mapped(n.ip) && BasesUnmapped(rest)
    ensures !Mapped(Absorb(n, rest).0.ip) && BasesUnmapped(Absorb(n, rest).1)
    decreases |rest|
  {
    if rest != [] && Mergeable(Blk(n), Blk(rest[0])) {
      AbsorbKeepsBase(Shorter(n), rest[1..]);
    }
  }

  lemma {:induction false} PassKeepsBases(nets: seq<Network>)
    requires BasesUnmapped(nets)
    ensures BasesUnmapped(Pass(nets))
    decreases |nets|
  {
    if nets != [] {
      AbsorbKeepsBase(nets[0], nets[1..]);
      PassKeepsBases(Absorb(nets[0], nets[1..]).1);
    }
  }

  lemma {:induction false} MergedKeepsBases(ips: seq<Network>)
    requires BasesUnmapped(ips)
    ensures BasesUnmapped(Merged(ips))
    decreases |ips|
  {
    SortMembers(ips);
    SortedBasesUnmapped(ips);
    PassKeepsBases(SortByIP(ips));
    if |Pass(SortByIP(ips))| != |ips| {
      MergedKeepsBases(Pass(SortByIP(ips)));
    }
  }

  // For every list of disjoint networks, of one address family or both: the one coarsest cover
  // of its blocks that reaches across no other block's start; and siblings stay only where a
  // block of the other family starts between them, so for one family there are none.
  method MergeConsecutiveRanges(ips: seq<Network>) returns (filteredIPs: seq<Network>)
    requires PairwiseDisjoint(Blks(ips))
    ensures filteredIPs == Merged(ips)
    ensures NoNeighboursMerge(Blks(SortByIP(filteredIPs)), |filteredIPs|) && SiblingsApart(Blks(filteredIPs))
    ensures CoarsestUnbroken(Blks(filteredIPs), Blks(ips))
    ensures OneWidth(Blks(ips)) ==> Canonical(Blks(filteredIPs))
  {
    filteredIPs := ips;
    BlksAreWf(ips);
    CoversItself(Blks(ips));
    while true
      invariant UnbrokenCover(Blks(filteredIPs), Blks(ips))
      invariant Merged(filteredIPs) == Merged(ips)
      decreases |filteredIPs|
    {
      SortedIsKin(filteredIPs, Blks(ips));
      SortMembers(filteredIPs);
      var ipNets := SortByIP(filteredIPs);
      var tmpIPs := MergePass(ipNets, Blks(ips));
      if |filteredIPs| == |tmpIPs| {
        PassOfSettled(ipNets);
        break;
      }
      filteredIPs := tmpIPs;
    }
    Settled(filteredIPs);
    ApartIsCoarsest(Blks(ips), Blks(filteredIPs));
    if OneWidth(Blks(ips)) {
      SameUnionSameWidth(Blks(ips), Blks(filteredIPs));
      ApartInOneFamily(Blks(filteredIPs));
    }
  }

  // ---------- the whole consolidation ----------

  // What a consolidation of the blocks s is: c covers the survivors of s.
  lemma ConsolidatedFromSurvivors(s: seq<Block>, c: seq<Block>)
    requires AllWf(s) && UnbrokenCover(c, Survivors(s))
    ensures SameUnion(c, s) <==> TwinsAreNested(s)
    ensures Nested(s, c) <==> TwinsAreNested(s)
  {
    SurvivorsKeepUnion(s);
    assert SameUnion(Survivors(s), c);
    assert SameUnion(c, s) <==> SameUnion(Survivors(s), s);
    if TwinsAreNested(s) {
      SurvivorsNestAll(s);
    }
    if Nested(s, c) {
      NestedKeepsUnion(s, c);
    }
  }

  // Single blocks around all members of s leave nothing of s uncovered.
  lemma NestedKeepsUnion(s: seq<Block>, c: seq<Block>)
    requires Nested(s, c) && SameUnion(Survivors(s), c)
    ensures SameUnion(c, s)
  {
    SurvivorsAreMembers(s);
    forall x
      ensures CoveredBy(c, x) <==> CoveredBy(s, x)
    {
      if CoveredBy(s, x) {
        NestedCovers(s, c, x);
      }
      if CoveredBy(c, x) {
        assert CoveredBy(Survivors(s), x);
        var b :| b in Survivors(s) && Covers(b, x);
        assert b in s;
      }
    }
  }

  lemma SurvivorsOneWidth(s: seq<Block>)
    requires OneWidth(s)
    ensures OneWidth(Survivors(s))
  {
    SurvivorsAreMembers(s);
  }

  // The result of the passes over the survivors, in some order.
  ghost predicate MergedFrom(result: seq<Network>, s: seq<Block>)
  {
    exists kept: seq<Network> :: BasesUnmapped(kept) && Blks(kept) == Survivors(s) && result == Merged(kept)
  }

  // With no filter: the result is the one coarsest unbroken cover of the survivors, for any mix
  // of families. It covers what the input covers, and every input network lies inside one
  // output block, exactly when no outermost network is listed twice; and for one address family
  // it is the one smallest list of blocks covering what it covers.
  method ConsolidateNetworks(keys: seq<Parsed>) returns (workingIPList: seq<Network>)
    requires StraddlersOutermost(Nets(keys))
    ensures MergedFrom(workingIPList, Blks(Read(keys)))
    ensures CoarsestUnbroken(Blks(workingIPList), Survivors(Blks(Read(keys)))) && SiblingsApart(Blks(workingIPList))
    ensures PairwiseDisjoint(Blks(workingIPList)) && BasesUnmapped(workingIPList)
    ensures SameUnion(Blks(workingIPList), Blks(Read(keys))) <==> TwinsAreNested(Blks(Read(keys)))
    ensures Nested(Blks(Read(keys)), Blks(workingIPList)) <==> TwinsAreNested(Blks(Read(keys)))
    ensures OneWidth(Blks(Read(keys))) ==> Canonical(Blks(workingIPList)) && UniqueSmallest(Blks(workingIPList))
  {
    var kept := RemoveSubsetIPs(keys);
    KeepsSurvivors(Nets(keys));
    SurvivorsDisjoint(Blks(Read(keys)));
    workingIPList := MergeConsecutiveRanges(kept);
    MergedKeepsBases(kept);
    BlksAreWf(Read(keys));
    BlksAreWf(workingIPList);
    ConsolidatedFromSurvivors(Blks(Read(keys)), Blks(workingIPList));
    if OneWidth(Blks(Read(keys))) {
      SurvivorsOneWidth(Blks(Read(keys)));
      CanonicalIsSmallest(Blks(workingIPList));
    }
  }

  // The inner search of testIPRanges: some consolidated network holds both end points.
  method FindAround(n: Network, consolidated: seq<Network>) returns (found: bool)
    ensures found <==> InsideOne(Blk(Norm(n)), Blks(Norms(consolidated))) && !Straddles(n)
  {
    ghost var blocks := Blks(Norms(consolidated));
    found := false;
    for j := 0 to |consolidated|
      invariant forall k :: 0 <= k < j ==> !Inside(Blk(Norm(n)), blocks[k]) || Straddles(n)
    {
      found := InsideOther(n, consolidated[j]);
      assert blocks[j] == Blk(Norm(consolidated[j]));
      if found {
        assert blocks[j] in blocks;
        break;
      }
    }
  }

  ghost predicate NoStraddlers(nets: seq<Network>)
  {
    forall n :: n in nets ==> !Straddles(n)
  }

  // testIPRanges: is every original network inside a single consolidated one? Networks whose
  // last address alone is IPv4-mapped are found in none.
  method TestIPRanges(originals: seq<Parsed>, consolidated: seq<Network>) returns (allFound: bool)
    ensures allFound <==> Nested(Blks(Read(originals)), Blks(Norms(consolidated))) && NoStraddlers(Nets(originals))
  {
    var inner := ParseKeys(originals);
    ghost var blocks, around := Blks(Norms(inner)), Blks(Norms(consolidated));
    for i := 0 to |inner|
      invariant forall k :: 0 <= k < i ==> InsideOne(blocks[k], around) && !Straddles(inner[k])
    {
      assert blocks[i] == Blk(Norm(inner[i]));
      var found := FindAround(inner[i], consolidated);
      if !found {
        assert inner[i] in inner;
        if !InsideOne(blocks[i], around) {
          NotNested(blocks, i, around);
        }
        return false;
      }
    }
    return true;
  }

  ghost predicate InsideOne(a: Block, t: seq<Block>)
  {
    exists b :: b in t && Inside(a, b)
  }

  lemma NotNested(s: seq<Block>, k: nat, t: seq<Block>)
    requires k < |s| && !InsideOne(s[k], t)
    ensures !Nested(s, t)
  {
    assert s[k] in s;
  }

  // Two spellings of one network, such as 10.0.0.1/8 and 10.0.0.0/8, delete each other: the
  // consolidation of the two covers nothing.
  lemma TwoSpellingsVanish(n: Network)
    ensures Survivors(Blks(Read([Net(n), Net(n)]))) == [] && !TwinsAreNested(Blks(Read([Net(n), Net(n)])))
  {
    NetsSnoc([], Net(n));
    NetsSnoc([Net(n)], Net(n));
    assert [] + [Net(n)] == [Net(n)] && [Net(n)] + [Net(n)] == [Net(n), Net(n)];
    var b := Blk(Norm(n));
    var s := [b, b];
    assert Blks(Read([Net(n), Net(n)])) == s;
    assert KeptFlags(s) == [false, false] by {
      NotKept(s, 0, 1);
      NotKept(s, 1, 0);
    }
    PickFlaggedStep(s, [false, false], 0);
    PickFlaggedStep(s, [false, false], 1);
    assert s[0] == s[1];
  }

  // After a consolidation the self-check passes exactly when no outermost network was listed
  // twice and no network's last address alone was IPv4-mapped.
  method ConsolidateAndTest(keys: seq<Parsed>) returns (workingIPList: seq<Network>, allFound: bool)
    requires StraddlersOutermost(Nets(keys))
    ensures allFound <==> TwinsAreNested(Blks(Read(keys))) && NoStraddlers(Nets(keys))
  {
    workingIPList := ConsolidateNetworks(keys);
    NormsOfUnmapped(workingIPList);
    allFound := TestIPRanges(keys, workingIPList);
  }
}
