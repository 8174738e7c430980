// Bit strings: the addresses and prefixes of section 3.1 of RFC 4632, their order and the
// numbers they spell.
module Bits {

  type bits = seq<bool>

  function Pow2(n: nat): (p: nat)
    ensures p >= 1
  {
    if n == 0 then 1 else 2 * Pow2(n - 1)
  }

  // n copies of one bit.
  function Repeat(b: bool, n: nat): (r: bits)
    ensures |r| == n && forall i :: 0 <= i < n ==> r[i] == b
  {
    seq(n, _ => b)
  }

  // The number a bit string spells, most significant bit first.
  function Number(x: bits): nat
  {
    if x == [] then 0 else 2 * Number(x[..|x| - 1]) + (if x[|x| - 1] then 1 else 0)
  }

  // Lexicographic comparison; a proper prefix comes first.
  function Lex(x: bits, y: bits): (c: int)
    ensures c in {-1, 0, 1}
    decreases |x|
  {
    if x == [] && y == [] then 0
    else if x == [] then -1
    else if y == [] then 1
    else if x[0] == y[0] then Lex(x[1..], y[1..])
    else if y[0] then -1
    else 1
  }

  lemma {:induction false} LexFlip(x: bits, y: bits)
    ensures Lex(y, x) == -Lex(x, y)
    ensures Lex(x, y) == 0 <==> x == y
    decreases |x|
  {
    if x != [] && y != [] {
      LexFlip(x[1..], y[1..]);
      assert x == [x[0]] + x[1..] && y == [y[0]] + y[1..];
    }
  }

  lemma {:induction false} LexTransitive(x: bits, y: bits, z: bits)
    requires Lex(x, y) <= 0 && Lex(y, z) <= 0
    ensures Lex(x, z) <= 0
    decreases |x|
  {
    if x != [] && y != [] && z != [] && x[0] == y[0] == z[0] {
      LexTransitive(x[1..], y[1..], z[1..]);
    }
  }

  // A common head does not count.
  lemma {:induction false} LexCommonHead(h: bits, x: bits, y: bits)
    ensures Lex(h + x, h + y) == Lex(x, y)
    decreases |h|
  {
    if h == [] {
      assert h + x == x && h + y == y;
    } else {
      assert (h + x)[1..] == h[1..] + x && (h + y)[1..] == h[1..] + y;
      LexCommonHead(h[1..], x, y);
    }
  }

  // Heads of one length that differ decide.
  lemma {:induction false} LexHeadDecides(h: bits, k: bits, x: bits, y: bits)
    requires |h| == |k| && h != k
    ensures Lex(h + x, k + y) == Lex(h, k)
    decreases |h|
  {
    assert (h + x)[1..] == h[1..] + x && (k + y)[1..] == k[1..] + y;
    if h[0] == k[0] {
      assert h == [h[0]] + h[1..] && k == [k[0]] + k[1..];
      LexHeadDecides(h[1..], k[1..], x, y);
    }
  }

  // On bit strings of one length the order is numeric order.
  lemma {:induction false} LexIsNumeric(x: bits, y: bits)
    requires |x| == |y|
    ensures Lex(x, y) < 0 <==> Number(x) < Number(y)
    ensures Number(x) == Number(y) <==> x == y
    decreases |x|
  {
    if x != [] {
      var n := |x| - 1;
      var h, k := x[..n], y[..n];
      assert x == h + [x[n]] && y == k + [y[n]];
      LexIsNumeric(h, k);
      LexFlip(h, k);
      if h == k {
        LexCommonHead(h, [x[n]], [y[n]]);
      } else {
        LexHeadDecides(h, k, [x[n]], [y[n]]);
      }
    }
  }

  // Filling the free bits of a prefix with ones reaches Pow2(n) - 1 above filling them with zeros.
  lemma {:induction false} FillNumber(p: bits, n: nat)
    ensures Number(p + Repeat(true, n)) == Number(p + Repeat(false, n)) + Pow2(n) - 1
  {
    if n == 0 {
      assert p + Repeat(true, 0) == p && p + Repeat(false, 0) == p;
    } else {
      FillNumber(p, n - 1);
      assert p + Repeat(true, n) == p + Repeat(true, n - 1) + [true];
      assert p + Repeat(false, n) == p + Repeat(false, n - 1) + [false];
    }
  }

  // Between a prefix filled with zeros and filled with ones lie exactly the strings it heads.
  lemma {:induction false} LexBetween(p: bits, x: bits)
    requires |p| <= |x|
    ensures Lex(p + Repeat(false, |x| - |p|), x) <= 0 && Lex(x, p + Repeat(true, |x| - |p|)) <= 0 <==> p <= x
  {
    var n := |x| - |p|;
    var lo, hi := p + Repeat(false, n), p + Repeat(true, n);
    var h, t := x[..|p|], x[|p|..];
    assert x == h + t;
    if h == p {
      LexCommonHead(p, Repeat(false, n), t);
      LexCommonHead(p, t, Repeat(true, n));
      LexExtremes(t);
    } else {
      LexHeadDecides(p, h, Repeat(false, n), t);
      LexHeadDecides(h, p, t, Repeat(true, n));
      LexFlip(p, h);
    }
  }

  lemma {:induction false} LexExtremes(t: bits)
    ensures Lex(Repeat(false, |t|), t) <= 0 && Lex(t, Repeat(true, |t|)) <= 0
  {
    if t != [] {
      LexExtremes(t[1..]);
      assert Repeat(false, |t|)[1..] == Repeat(false, |t| - 1);
      assert Repeat(true, |t|)[1..] == Repeat(true, |t| - 1);
    }
  }
}
