// Addresses and networks as the byte slices of Go's net package, and what the byte-wise
// operations of the consolidation do to the bits.
module IpBytes {
  import opened Bits

  type byte = x: int | 0 <= x < 256

  // A network: base address, 4 bytes for IPv4 and 16 for IPv6, and the length of its mask.
  datatype IPNet = IPNet(ip: seq<byte>, ones: int)

  // ---------- bytes ----------

  // The n low bits of a number, most significant first.
  function ByteBits(x: nat, n: nat): (r: bits)
    ensures |r| == n
  {
    if n == 0 then [] else ByteBits(x / 2, n - 1) + [x % 2 == 1]
  }

  // Bitwise and of the n low bits.
  function BitAnd(x: nat, y: nat, n: nat): (r: nat)
    ensures r <= x
  {
    if n == 0 then 0
    else 2 * BitAnd(x / 2, y / 2, n - 1) + (if x % 2 == 1 && y % 2 == 1 then 1 else 0)
  }

  function AndByte(x: byte, y: byte): byte
  {
    BitAnd(x, y, 8)
  }

  function NotByte(x: byte): byte
  {
    255 - x
  }

  function OrByte(x: byte, y: byte): byte
  {
    NotByte(AndByte(NotByte(x), NotByte(y)))
  }

  lemma {:induction false} ByteBitsNumber(x: nat, n: nat)
    requires x < Pow2(n)
    ensures Number(ByteBits(x, n)) == x
  {
    if n > 0 {
      ByteBitsNumber(x / 2, n - 1);
    }
  }

  lemma {:induction false} BitAndBits(x: nat, y: nat, n: nat)
    ensures forall i :: 0 <= i < n ==> ByteBits(BitAnd(x, y, n), n)[i] == (ByteBits(x, n)[i] && ByteBits(y, n)[i])
  {
    if n > 0 {
      BitAndBits(x / 2, y / 2, n - 1);
    }
  }

  lemma {:induction false} NotBits(x: nat, n: nat)
    requires x < Pow2(n)
    ensures forall i :: 0 <= i < n ==> ByteBits(Pow2(n) - 1 - x, n)[i] == !ByteBits(x, n)[i]
  {
    if n > 0 {
      NotBits(x / 2, n - 1);
      assert (Pow2(n) - 1 - x) / 2 == Pow2(n - 1) - 1 - x / 2;
    }
  }

  lemma NotByteBits(x: byte)
    ensures forall i :: 0 <= i < 8 ==> ByteBits(NotByte(x), 8)[i] == !ByteBits(x, 8)[i]
  {
    NotBits(x, 8);
  }

  lemma OrByteBits(x: byte, y: byte)
    ensures forall i :: 0 <= i < 8 ==> ByteBits(OrByte(x, y), 8)[i] == (ByteBits(x, 8)[i] || ByteBits(y, 8)[i])
  {
    NotByteBits(x);
    NotByteBits(y);
    BitAndBits(NotByte(x), NotByte(y), 8);
    NotByteBits(AndByte(NotByte(x), NotByte(y)));
  }

  lemma ByteOrder(a: byte, b: byte)
    ensures a < b <==> Lex(ByteBits(a, 8), ByteBits(b, 8)) < 0
    ensures a == b <==> ByteBits(a, 8) == ByteBits(b, 8)
  {
    ByteBitsNumber(a, 8);
    ByteBitsNumber(b, 8);
    LexIsNumeric(ByteBits(a, 8), ByteBits(b, 8));
  }

  // ---------- slices of bytes ----------

  function IpBits(ip: seq<byte>): (r: bits)
    ensures |r| == 8 * |ip|
  {
    if ip == [] then [] else ByteBits(ip[0], 8) + IpBits(ip[1..])
  }

  function AndBytes(ip: seq<byte>, mask: seq<byte>): (r: seq<byte>)
    requires |ip| == |mask|
    ensures |r| == |ip|
    ensures forall i :: 0 <= i < |ip| ==> r[i] == AndByte(ip[i], mask[i])
  {
    seq(|ip|, i requires 0 <= i < |ip| => AndByte(ip[i], mask[i]))
  }

  function OrNotBytes(ip: seq<byte>, mask: seq<byte>): (r: seq<byte>)
    requires |ip| == |mask|
    ensures |r| == |ip|
    ensures forall i :: 0 <= i < |ip| ==> r[i] == OrByte(ip[i], NotByte(mask[i]))
  {
    seq(|ip|, i requires 0 <= i < |ip| => OrByte(ip[i], NotByte(mask[i])))
  }

  lemma {:induction false} AndBytesBits(ip: seq<byte>, mask: seq<byte>)
    requires |ip| == |mask|
    ensures forall i :: 0 <= i < 8 * |ip| ==>
              IpBits(AndBytes(ip, mask))[i] == (IpBits(ip)[i] && IpBits(mask)[i])
  {
    if ip != [] {
      BitAndBits(ip[0], mask[0], 8);
      AndBytesBits(ip[1..], mask[1..]);
      assert AndBytes(ip, mask)[1..] == AndBytes(ip[1..], mask[1..]);
    }
  }

  lemma {:induction false} OrNotBytesBits(ip: seq<byte>, mask: seq<byte>)
    requires |ip| == |mask|
    ensures forall i :: 0 <= i < 8 * |ip| ==>
              IpBits(OrNotBytes(ip, mask))[i] == (IpBits(ip)[i] || !IpBits(mask)[i])
  {
    if ip != [] {
      NotByteBits(mask[0]);
      OrByteBits(ip[0], NotByte(mask[0]));
      OrNotBytesBits(ip[1..], mask[1..]);
      assert OrNotBytes(ip, mask)[1..] == OrNotBytes(ip[1..], mask[1..]);
    }
  }

  // bytes.Compare.
  function Compare(x: seq<byte>, y: seq<byte>): int
    decreases |x|
  {
    if x == [] && y == [] then 0
    else if x == [] then -1
    else if y == [] then 1
    else if x[0] < y[0] then -1
    else if x[0] > y[0] then 1
    else Compare(x[1..], y[1..])
  }

  // Comparing bytes is comparing bits, also across lengths.
  lemma {:induction false} CompareIsLex(x: seq<byte>, y: seq<byte>)
    ensures Compare(x, y) == Lex(IpBits(x), IpBits(y))
    decreases |x|
  {
    if x != [] && y != [] {
      var a, b := ByteBits(x[0], 8), ByteBits(y[0], 8);
      ByteOrder(x[0], y[0]);
      ByteOrder(y[0], x[0]);
      LexFlip(a, b);
      if x[0] == y[0] {
        CompareIsLex(x[1..], y[1..]);
        LexCommonHead(a, IpBits(x[1..]), IpBits(y[1..]));
      } else {
        LexHeadDecides(a, b, IpBits(x[1..]), IpBits(y[1..]));
      }
    } else if x != [] {
      assert IpBits(x) != [];
    } else if y != [] {
      assert IpBits(y) != [];
    }
  }

  lemma {:induction false} IpBitsInjective(x: seq<byte>, y: seq<byte>)
    requires IpBits(x) == IpBits(y)
    ensures x == y
  {
    if x != [] {
      var a, b := ByteBits(x[0], 8), ByteBits(y[0], 8);
      assert IpBits(x)[..8] == a && IpBits(y)[..8] == b;
      assert IpBits(x)[8..] == IpBits(x[1..]) && IpBits(y)[8..] == IpBits(y[1..]);
      ByteOrder(x[0], y[0]);
      IpBitsInjective(x[1..], y[1..]);
    }
  }

  // ---------- masks ----------

  // The byte whose k leading bits are set: ^(0xff >> k).
  function PrefixByte(k: nat): byte
    requires k < 8
  {
    NotByte(255 / Pow2(k))
  }

  function MaskBytes(ones: nat, len: nat): (m: seq<byte>)
    ensures |m| == len
    decreases len
  {
    if len == 0 then []
    else if ones >= 8 then [0xFF] + MaskBytes(ones - 8, len - 1)
    else [PrefixByte(ones)] + MaskBytes(0, len - 1)
  }

  // net.CIDRMask: nil for a width that is no address width or a length outside 0..width.
  function CIDRMask(ones: int, width: int): seq<byte>
  {
    if width !in {32, 128} || ones < 0 || ones > width then [] else MaskBytes(ones, width / 8)
  }

  lemma {:induction false} LowOnes(x: nat, z: nat, n: nat)
    requires z <= n && x == Pow2(z) - 1
    ensures forall i :: 0 <= i < n ==> ByteBits(x, n)[i] == (i >= n - z)
  {
    if n > 0 {
      LowOnes(x / 2, if z == 0 then 0 else z - 1, n - 1);
    }
  }

  lemma ShiftedByte(k: nat)
    requires k < 8
    ensures 255 / Pow2(k) == Pow2(8 - k) - 1
  {
    assert Pow2(0) == 1 && Pow2(1) == 2 && Pow2(2) == 4 && Pow2(3) == 8;
    assert Pow2(4) == 16 && Pow2(5) == 32 && Pow2(6) == 64 && Pow2(7) == 128 && Pow2(8) == 256;
    assert k in {0, 1, 2, 3, 4, 5, 6, 7};
  }

  lemma PrefixByteBits(k: nat)
    requires k < 8
    ensures forall i :: 0 <= i < 8 ==> ByteBits(PrefixByte(k), 8)[i] == (i < k)
  {
    var x := 255 / Pow2(k);
    ShiftedByte(k);
    LowOnes(x, 8 - k, 8);
    NotByteBits(x);
  }

  lemma WholeByteBits()
    ensures forall i :: 0 <= i < 8 ==> ByteBits(0xFF, 8)[i]
  {
    LowOnes(255, 8, 8);
  }

  lemma {:induction false} MaskBits(ones: nat, len: nat)
    requires ones <= 8 * len
    ensures forall i :: 0 <= i < 8 * len ==> IpBits(MaskBytes(ones, len))[i] == (i < ones)
    decreases len
  {
    if len > 0 {
      var m := MaskBytes(ones, len);
      var rest := if ones >= 8 then ones - 8 else 0;
      var tail := IpBits(MaskBytes(rest, len - 1));
      MaskBits(rest, len - 1);
      assert IpBits(m) == ByteBits(m[0], 8) + tail by {
        assert m[1..] == MaskBytes(rest, len - 1);
      }
      FirstMaskByte(ones, m[0]);
      forall i | 8 <= i < 8 * len
        ensures IpBits(m)[i] == (i < ones)
      {
        assert IpBits(m)[i] == tail[i - 8];
      }
    }
  }

  lemma FirstMaskByte(ones: nat, b: byte)
    requires b == if ones >= 8 then 0xFF else PrefixByte(ones)
    ensures forall i :: 0 <= i < 8 ==> ByteBits(b, 8)[i] == (i < ones)
  {
    if ones >= 8 {
      WholeByteBits();
    } else {
      PrefixByteBits(ones);
    }
  }

  // Masking keeps the prefix and clears the rest.
  lemma BaseBits(ip: seq<byte>, ones: nat)
    requires ones <= 8 * |ip|
    ensures IpBits(AndBytes(ip, MaskBytes(ones, |ip|))) == IpBits(ip)[..ones] + Repeat(false, 8 * |ip| - ones)
  {
    MaskBits(ones, |ip|);
    AndBytesBits(ip, MaskBytes(ones, |ip|));
  }

  // Or-ing with the inverted mask keeps the prefix and sets the rest.
  lemma LastBits(ip: seq<byte>, ones: nat)
    requires ones <= 8 * |ip|
    ensures IpBits(OrNotBytes(ip, MaskBytes(ones, |ip|))) == IpBits(ip)[..ones] + Repeat(true, 8 * |ip| - ones)
  {
    MaskBits(ones, |ip|);
    OrNotBytesBits(ip, MaskBytes(ones, |ip|));
  }
}
