// The operations of cspiplist.go on parsed networks, byte by byte, and the block operations
// they amount to.
module Networks {
  import opened Bits
  import opened IpBytes
  import opened Blocks
  import opened Consolidation

  function Mask(n: IPNet): seq<byte>
  {
    CIDRMask(n.ones, 8 * |n.ip|)
  }

  // net.IPMask.Size: (prefix length, total bits); (0, 0) for a nil mask.
  function MaskSize(n: IPNet): (int, int)
  {
    if Mask(n) == [] then (0, 0) else (n.ones, 8 * |n.ip|)
  }

  // A network as net.ParseCIDR returns it: prefix length in range, host bits cleared.
  predicate ValidNet(n: IPNet)
  {
    && |n.ip| in {4, 16}
    && 0 <= n.ones <= 8 * |n.ip|
    && forall i :: n.ones <= i < 8 * |n.ip| ==> !IpBits(n.ip)[i]
  }

  type Network = n: IPNet | ValidNet(n) witness IPNet([0, 0, 0, 0], 32)

  // The block of addresses a network stands for.
  function Blk(n: Network): Block
  {
    Block(8 * |n.ip|, IpBits(n.ip)[..n.ones])
  }

  // net.IP.To4 succeeds on a 16-byte address exactly when it is IPv4-mapped.
  predicate Mapped(ip: seq<byte>)
  {
    |ip| == 16 && (forall i :: 0 <= i < 10 ==> ip[i] == 0x00) && ip[10] == 0xFF && ip[11] == 0xFF
  }

  function To4(ip: seq<byte>): seq<byte>
  {
    if Mapped(ip) then ip[12..] else ip
  }

  // net.IPNet.Contains: equal once masked, on addresses of one length.
  predicate Contains(n: IPNet, ip: seq<byte>)
  {
    var nn, x := To4(n.ip), To4(ip);
    var m := if |Mask(n)| == 16 && |nn| == 4 then Mask(n)[12..] else Mask(n);
    |nn| in {4, 16} && |m| == |nn| == |x| && AndBytes(nn, m) == AndBytes(x, m)
  }

  // net.IP.Mask on slices of one length; nil when the lengths differ.
  function MaskIP(ip: seq<byte>, mask: seq<byte>): seq<byte>
  {
    if |ip| != |mask| then [] else AndBytes(ip, mask)
  }

  // canMerge.
  predicate CanMerge(n1: IPNet, n2: IPNet)
  {
    var (ones1, bits1) := MaskSize(n1);
    var (ones2, bits2) := MaskSize(n2);
    if bits1 != bits2 || ones1 != ones2 then false
    else
      var mask := CIDRMask(ones1 - 1, bits1);
      MaskIP(n1.ip, mask) == MaskIP(n2.ip, mask)
  }

  // merge.
  function Merge(n1: IPNet, n2: IPNet): IPNet
  {
    var (ones, width) := MaskSize(n1);
    var newMask := CIDRMask(ones - 1, width);
    var newIP := MaskIP(n1.ip, newMask);
    IPNet(if Compare(n2.ip, newIP) < 0 then MaskIP(n2.ip, newMask) else newIP, ones - 1)
  }

  function LastIP(n: Network): seq<byte>
  {
    OrNotBytes(n.ip, Mask(n))
  }

  // The network as IPNet.String prints it: an IPv4-mapped one as the IPv4 network.
  function Norm(n: Network): (m: Network)
    ensures !Mapped(m.ip)
  {
    if Mapped(n.ip) then
      MappedNetwork(n);
      IPNet(n.ip[12..], n.ones - 96)
    else n
  }

  // A network outside the IPv4-mapped range whose last address lies in it.
  predicate Straddles(n: Network)
  {
    !Mapped(n.ip) && Mapped(LastIP(n))
  }

  // ---------- the IPv4-mapped range ----------

  const MAPPED_PREFIX: bits := Repeat(false, 80) + Repeat(true, 16)

  lemma {:induction false} IpBitsConcat(x: seq<byte>, y: seq<byte>)
    ensures IpBits(x + y) == IpBits(x) + IpBits(y)
  {
    if x == [] {
      assert x + y == y;
    } else {
      assert (x + y)[1..] == x[1..] + y;
      IpBitsConcat(x[1..], y);
    }
  }

  lemma {:induction false} ZeroBytes(x: seq<byte>)
    requires forall i :: 0 <= i < |x| ==> x[i] == 0x00
    ensures IpBits(x) == Repeat(false, 8 * |x|)
  {
    if x != [] {
      ZeroBytes(x[1..]);
      LowOnes(0, 0, 8);
    }
  }

  // An address is IPv4-mapped exactly when its first 96 bits are the prefix.
  lemma MappedBits(ip: seq<byte>)
    requires |ip| == 16
    ensures Mapped(ip) <==> IpBits(ip)[..96] == MAPPED_PREFIX
  {
    var prefix: seq<byte> := seq(10, _ => 0x00) + [0xFF, 0xFF];
    PrefixBits(prefix);
    assert ip == ip[..12] + ip[12..];
    IpBitsConcat(ip[..12], ip[12..]);
    assert IpBits(ip)[..96] == IpBits(ip[..12]);
    if IpBits(ip)[..96] == MAPPED_PREFIX {
      IpBitsInjective(ip[..12], prefix);
    }
    if Mapped(ip) {
      assert ip[..12] == prefix;
    }
  }

  lemma PrefixBits(prefix: seq<byte>)
    requires prefix == seq(10, _ => 0x00) + [0xFF, 0xFF]
    ensures IpBits(prefix) == MAPPED_PREFIX
  {
    var zeros: seq<byte> := seq(10, _ => 0x00);
    ZeroBytes(zeros);
    IpBitsConcat(zeros, [0xFF, 0xFF]);
  }

  // A network in the IPv4-mapped range has a prefix of at least 96 bits, and the rest of it is
  // an IPv4 network.
  lemma MappedNetwork(n: Network)
    requires Mapped(n.ip)
    ensures n.ones >= 96 && ValidNet(IPNet(n.ip[12..], n.ones - 96))
    ensures IpBits(n.ip) == MAPPED_PREFIX + IpBits(n.ip[12..])
  {
    MappedBits(n.ip);
    assert IpBits(n.ip)[95] == MAPPED_PREFIX[95];
    assert n.ip == n.ip[..12] + n.ip[12..];
    IpBitsConcat(n.ip[..12], n.ip[12..]);
  }

  // ---------- what they amount to ----------

  lemma BaseIsFirst(n: Network)
    ensures Wf(Blk(n)) && |Blk(n).prefix| == n.ones && IpBits(n.ip) == First(Blk(n))
  {
  }

  lemma MaskOfNetwork(n: Network)
    ensures Mask(n) == MaskBytes(n.ones, |n.ip|)
  {
  }

  lemma LastIPIsLast(n: Network)
    ensures Wf(Blk(n)) && IpBits(LastIP(n)) == Last(Blk(n))
  {
    MaskOfNetwork(n);
    LastBits(n.ip, n.ones);
  }

  lemma BlkIsWf(n: Network)
    ensures Wf(Blk(n)) && |Blk(n).prefix| == n.ones
    ensures IpBits(n.ip) == First(Blk(n)) && IpBits(LastIP(n)) == Last(Blk(n))
  {
    BaseIsFirst(n);
    LastIPIsLast(n);
  }

  // A network is determined by its block.
  lemma BlkInjective(m: Network, n: Network)
    requires Blk(m) == Blk(n)
    ensures m == n
  {
    BlkIsWf(m);
    BlkIsWf(n);
    IpBitsInjective(m.ip, n.ip);
  }

  // getLastIP's result is the base address plus 2^(free bits) - 1.
  lemma LastIPNumber(n: Network)
    ensures Number(IpBits(LastIP(n))) == Number(IpBits(n.ip)) + Pow2(8 * |n.ip| - n.ones) - 1
  {
    BlkIsWf(n);
    LastNumber(Blk(n), 8 * |n.ip| - n.ones);
  }

  lemma {:induction false} MaskTail(ones: nat, len: nat, k: nat)
    requires 8 * k <= ones && k <= len
    ensures MaskBytes(ones, len)[k..] == MaskBytes(ones - 8 * k, len - k)
    decreases k
  {
    if k > 0 {
      MaskTail(ones - 8, len - 1, k - 1);
    }
  }

  // Contains compares in IPv4 whenever the network prints as IPv4.
  lemma ContainsMasks(n: Network, ip: seq<byte>)
    ensures Contains(n, ip) <==>
            |To4(ip)| == |Norm(n).ip| && MaskTo(Norm(n).ip, Norm(n).ones) == MaskTo(To4(ip), Norm(n).ones)
  {
    MaskOfNetwork(n);
    if Mapped(n.ip) {
      MappedNetwork(n);
      MaskTail(n.ones, 16, 12);
    }
  }

  // Contains is membership in the block, an IPv4-mapped address or network read as IPv4.
  lemma ContainsIsCovers(n: Network, ip: seq<byte>)
    ensures Contains(n, ip) <==> Covers(Blk(Norm(n)), IpBits(To4(ip)))
  {
    ContainsMasks(n, ip);
    if |To4(ip)| == |Norm(n).ip| {
      MaskToAgrees(Norm(n).ip, To4(ip), Norm(n).ones);
    }
  }

  // The last address of an IPv4-mapped network is IPv4-mapped, to that of the IPv4 network.
  lemma LastOfMapped(n: Network)
    requires Mapped(n.ip)
    ensures Mapped(LastIP(n)) && To4(LastIP(n)) == LastIP(Norm(n))
  {
    var last := LastIP(n);
    MappedNetwork(n);
    LastIPIsLast(n);
    LastIPIsLast(Norm(n));
    MappedBits(last);
    assert IpBits(last)[..96] == IpBits(n.ip)[..96];
    assert last == last[..12] + last[12..];
    IpBitsConcat(last[..12], last[12..]);
    assert IpBits(last[12..]) == IpBits(last)[96..];
    DropOfLast(n);
    IpBitsInjective(last[12..], LastIP(Norm(n)));
  }

  lemma DropOfLast(n: Network)
    requires Mapped(n.ip)
    ensures Wf(Blk(n)) && Wf(Blk(Norm(n))) && Last(Blk(n))[96..] == Last(Blk(Norm(n)))
  {
    MappedNetwork(n);
    assert IpBits(n.ip)[..n.ones] == MAPPED_PREFIX + IpBits(Norm(n).ip)[..n.ones - 96];
  }

  // The two-endpoint test of removeSubsetIPs is block inclusion, but that a network whose last
  // address alone is IPv4-mapped passes it for no other network.
  lemma EndpointTestIsInside(inner: Network, outer: Network)
    ensures Contains(outer, inner.ip) && Contains(outer, LastIP(inner)) <==>
            Inside(Blk(Norm(inner)), Blk(Norm(outer))) && !Straddles(inner)
  {
    ContainsIsCovers(outer, inner.ip);
    ContainsIsCovers(outer, LastIP(inner));
    BlkIsWf(Norm(inner));
    BlkIsWf(Norm(outer));
    InclusionByEnds(Blk(Norm(inner)), Blk(Norm(outer)));
    if Mapped(inner.ip) {
      LastOfMapped(inner);
    }
  }

  // Those networks are ::/80, ::8000:0:0/81, and so on to ::fffe:0:0/95: eighty zeros, then
  // less than sixteen ones.
  lemma StraddlersAre(n: Network)
    ensures Straddles(n) <==>
            |n.ip| == 16 && 80 <= n.ones < 96 && Blk(n).prefix == Repeat(false, 80) + Repeat(true, n.ones - 80)
  {
    if |n.ip| == 16 {
      MappedBits(n.ip);
      MappedBits(LastIP(n));
      BlkIsWf(n);
      var first, last := IpBits(n.ip), IpBits(LastIP(n));
      if n.ones >= 96 {
        assert first[..96] == last[..96];
      } else if n.ones < 80 {
        assert last[79] && !MAPPED_PREFIX[79];
      } else {
        assert last[..96] == Blk(n).prefix + Repeat(true, 96 - n.ones);
        assert MAPPED_PREFIX[..n.ones] == Repeat(false, 80) + Repeat(true, n.ones - 80);
        assert MAPPED_PREFIX == MAPPED_PREFIX[..n.ones] + Repeat(true, 96 - n.ones);
        assert last[..96][..n.ones] == Blk(n).prefix;
        assert !first[95] && MAPPED_PREFIX[95];
      }
    }
  }

  // So ::/80, which lies inside ::/0, does not pass for it: its last address is taken for
  // 255.255.255.255.
  lemma StraddlerIsMissed()
    ensures var inner, outer := IPNet(seq(16, _ => 0x00), 80), IPNet(seq(16, _ => 0x00), 0);
            && ValidNet(inner) && ValidNet(outer) && Inside(Blk(inner), Blk(outer))
            && Straddles(inner) && !Contains(outer, LastIP(inner))
  {
    var zeros: seq<byte> := seq(16, _ => 0x00);
    ZeroBytes(zeros);
    var inner, outer: Network := IPNet(zeros, 80), IPNet(zeros, 0);
    assert Blk(inner).prefix == Repeat(false, 80) + Repeat(true, 0);
    StraddlersAre(inner);
    EndpointTestIsInside(inner, outer);
    ContainsIsCovers(outer, inner.ip);
  }

  // A 16-byte network never "contains" an IPv4-mapped address, whatever its prefix.
  lemma MappedIsNeverContained(n: Network, ip: seq<byte>)
    requires |n.ip| == 16 && !Mapped(n.ip) && Mapped(ip)
    ensures !Contains(n, ip)
  {
  }

  function MaskTo(ip: seq<byte>, k: nat): (r: seq<byte>)
    ensures |r| == |ip|
  {
    AndBytes(ip, MaskBytes(k, |ip|))
  }

  // Masked addresses agree when the addresses agree on the masked length.
  lemma MaskToAgrees(x: seq<byte>, y: seq<byte>, k: nat)
    requires |x| == |y| && k <= 8 * |x|
    ensures MaskTo(x, k) == MaskTo(y, k) <==> IpBits(x)[..k] == IpBits(y)[..k]
  {
    BaseBits(x, k);
    BaseBits(y, k);
    assert IpBits(MaskTo(x, k))[..k] == IpBits(x)[..k];
    assert IpBits(MaskTo(y, k))[..k] == IpBits(y)[..k];
    if IpBits(x)[..k] == IpBits(y)[..k] {
      IpBitsInjective(MaskTo(x, k), MaskTo(y, k));
    }
  }

  lemma ParentOfBlk(n: Network)
    requires n.ones > 0
    ensures Blk(n).prefix != [] && Parent(Blk(n)) == Block(8 * |n.ip|, IpBits(n.ip)[..n.ones - 1])
  {
    assert IpBits(n.ip)[..n.ones][..n.ones - 1] == IpBits(n.ip)[..n.ones - 1];
  }

  // Masking any address gives a valid network, the block of the bits kept.
  lemma MaskedIsNetwork(ip: seq<byte>, k: nat)
    requires |ip| in {4, 16} && k <= 8 * |ip|
    ensures ValidNet(IPNet(MaskTo(ip, k), k)) && Blk(IPNet(MaskTo(ip, k), k)) == Block(8 * |ip|, IpBits(ip)[..k])
  {
    BaseBits(ip, k);
    assert IpBits(MaskTo(ip, k))[..k] == IpBits(ip)[..k];
  }

  // canMerge accepts exactly networks of one family and length that agree once one bit shorter.
  lemma CanMergeIsMergeable(n1: Network, n2: Network)
    ensures CanMerge(n1, n2) <==> Mergeable(Blk(n1), Blk(n2))
  {
    if |n1.ip| == |n2.ip| && n1.ones == n2.ones {
      if n1.ones > 0 {
        MaskToAgrees(n1.ip, n2.ip, n1.ones - 1);
        ParentOfBlk(n1);
        ParentOfBlk(n2);
      }
    }
  }

  // merge returns the parent block, as a valid network of the same family.
  lemma MergeIsParent(n1: Network, n2: Network)
    requires CanMerge(n1, n2) && n1.ones > 0
    ensures ValidNet(Merge(n1, n2))
    ensures Blk(Merge(n1, n2)) == Parent(Blk(n1)) && |Merge(n1, n2).ip| == |n1.ip|
  {
    MaskedIsNetwork(n1.ip, n1.ones - 1);
    ParentOfBlk(n1);
  }

  // Two networks of prefix length zero pass canMerge, and merge then has no mask left.
  lemma MergeOfZeroLength(n: Network)
    requires n.ones == 0
    ensures CanMerge(n, n) && Merge(n, n) == IPNet([], -1) && Mask(Merge(n, n)) == []
  {
  }

  // bytes.Compare on base addresses is the order of the blocks' first addresses.
  lemma CompareIsOrder(n1: Network, n2: Network)
    ensures Compare(n1.ip, n2.ip) == Lex(First(Blk(n1)), First(Blk(n2)))
  {
    BlkIsWf(n1);
    BlkIsWf(n2);
    CompareIsLex(n1.ip, n2.ip);
  }

  // On base addresses of one family that order is the order of the numbers they spell.
  lemma CompareIsNumeric(n1: Network, n2: Network)
    requires |n1.ip| == |n2.ip|
    ensures Compare(n1.ip, n2.ip) < 0 <==> Number(IpBits(n1.ip)) < Number(IpBits(n2.ip))
  {
    CompareIsLex(n1.ip, n2.ip);
    LexIsNumeric(IpBits(n1.ip), IpBits(n2.ip));
  }
}
