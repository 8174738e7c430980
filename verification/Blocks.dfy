// CIDR blocks as prefixes of addresses, and what makes a list of them a canonical cover.
module Blocks {
  import opened Bits
  import opened Seqs

  // All addresses of one width that start with the prefix.
  datatype Block = Block(width: nat, prefix: bits)

  predicate Wf(b: Block)
  {
    |b.prefix| <= b.width
  }

  predicate Covers(b: Block, x: bits)
  {
    |x| == b.width && b.prefix <= x
  }

  predicate Inside(a: Block, b: Block)
  {
    a.width == b.width && b.prefix <= a.prefix
  }

  predicate Disjoint(a: Block, b: Block)
  {
    !Inside(a, b) && !Inside(b, a)
  }

  function Parent(b: Block): Block
    requires b.prefix != []
  {
    Block(b.width, b.prefix[..|b.prefix| - 1])
  }

  // The two different halves of one block.
  predicate Siblings(a: Block, b: Block)
  {
    a != b && a.prefix != [] && b.prefix != [] && |a.prefix| == |b.prefix| && Parent(a) == Parent(b)
  }

  // The first and the last address of a block.
  function First(b: Block): bits
    requires Wf(b)
  {
    b.prefix + Repeat(false, b.width - |b.prefix|)
  }

  function Last(b: Block): bits
    requires Wf(b)
  {
    b.prefix + Repeat(true, b.width - |b.prefix|)
  }

  // ---------- what the predicates mean for addresses ----------

  // Inclusion of address sets is decided by the two end points, and is Inside.
  lemma InclusionByEnds(a: Block, b: Block)
    requires Wf(a) && Wf(b)
    ensures Inside(a, b) <==> Covers(b, First(a)) && Covers(b, Last(a))
    ensures Inside(a, b) <==> forall x :: Covers(a, x) ==> Covers(b, x)
  {
    assert Covers(a, First(a)) && Covers(a, Last(a));
    if a.width == b.width && |a.prefix| < |b.prefix| {
      assert First(a)[|a.prefix|] != Last(a)[|a.prefix|];
    }
  }

  // Two blocks are nested or share no address.
  lemma NestedOrApart(a: Block, b: Block)
    requires Wf(a) && Wf(b)
    ensures Disjoint(a, b) <==> !exists x :: Covers(a, x) && Covers(b, x)
  {
    forall x | Covers(a, x) && Covers(b, x)
      ensures Inside(a, b) || Inside(b, a)
    {
    }
    if Inside(a, b) {
      assert Covers(a, First(a)) && Covers(b, First(a));
    } else if Inside(b, a) {
      assert Covers(a, First(b)) && Covers(b, First(b));
    }
  }

  lemma LastNumber(b: Block, free: nat)
    requires Wf(b) && free == b.width - |b.prefix|
    ensures Number(Last(b)) == Number(First(b)) + Pow2(free) - 1
  {
    FillNumber(b.prefix, free);
  }

  // A block is a run of Pow2(free bits) consecutive numbers.
  lemma BlockIsNumberRange(b: Block, x: bits)
    requires Wf(b) && |x| == b.width
    ensures Number(Last(b)) == Number(First(b)) + Pow2(b.width - |b.prefix|) - 1
    ensures Covers(b, x) <==> Number(First(b)) <= Number(x) <= Number(Last(b))
  {
    LastNumber(b, b.width - |b.prefix|);
    LexBetween(b.prefix, x);
    LexIsNumeric(First(b), x);
    LexIsNumeric(x, Last(b));
    LexFlip(First(b), x);
    LexFlip(x, Last(b));
  }

  // A half of a block covers the addresses of the block with the half's next bit.
  lemma HalfCovers(w: nat, p: bits, bit: bool, x: bits)
    requires |p| < w
    ensures Covers(Block(w, p + [bit]), x) <==> Covers(Block(w, p), x) && x[|p|] == bit
  {
    assert (p + [bit])[|p|] == bit;
    if Covers(Block(w, p), x) && x[|p|] == bit {
      assert x[..|p| + 1] == p + [bit];
    }
  }

  // The parent of two siblings covers exactly what the two cover.
  lemma ParentOfSiblings(a: Block, b: Block, x: bits)
    requires Wf(a) && Siblings(a, b)
    ensures Covers(Parent(a), x) <==> Covers(a, x) || Covers(b, x)
  {
    var n := |a.prefix| - 1;
    var p := a.prefix[..n];
    assert a.prefix == p + [a.prefix[n]];
    assert b.prefix == p + [b.prefix[n]];
    HalfCovers(a.width, p, a.prefix[n], x);
    HalfCovers(a.width, p, b.prefix[n], x);
  }

  // ---------- lists of blocks ----------

  ghost predicate AllWf(s: seq<Block>)
  {
    forall b :: b in s ==> Wf(b)
  }

  ghost predicate CoveredBy(s: seq<Block>, x: bits)
  {
    exists b :: b in s && Covers(b, x)
  }

  ghost predicate SameUnion(s: seq<Block>, t: seq<Block>)
  {
    forall x :: CoveredBy(s, x) <==> CoveredBy(t, x)
  }

  ghost predicate PairwiseDisjoint(s: seq<Block>)
  {
    forall i, j {:trigger Disjoint(s[i], s[j])} :: 0 <= i < j < |s| ==> Disjoint(s[i], s[j])
  }

  ghost predicate NoSiblings(s: seq<Block>)
  {
    forall a, b :: a in s && b in s ==> !Siblings(a, b)
  }

  ghost predicate Canonical(s: seq<Block>)
  {
    AllWf(s) && PairwiseDisjoint(s) && NoSiblings(s)
  }

  ghost predicate SameMembers(s: seq<Block>, t: seq<Block>)
  {
    forall b :: b in s <==> b in t
  }

  // Every block of s lies inside one block of t.
  ghost predicate Nested(s: seq<Block>, t: seq<Block>)
  {
    forall a :: a in s ==> exists b :: b in t && Inside(a, b)
  }

  lemma NestedCovers(s: seq<Block>, t: seq<Block>, x: bits)
    requires Nested(s, t) && CoveredBy(s, x)
    ensures CoveredBy(t, x)
  {
    var a :| a in s && Covers(a, x);
    var b :| b in t && Inside(a, b);
    assert Covers(b, x);
  }

  lemma MemberCoveringIsUnique(s: seq<Block>, i: nat, j: nat, x: bits)
    requires AllWf(s) && PairwiseDisjoint(s) && i < |s| && j < |s|
    requires Covers(s[i], x) && Covers(s[j], x)
    ensures i == j
  {
    if i < j {
      NestedOrApart(s[i], s[j]);
    } else if j < i {
      NestedOrApart(s[j], s[i]);
    }
  }

  // ---------- the canonical cover is the unique smallest one ----------

  // Two members of s are the halves of a block inside b.
  ghost predicate SiblingsWithin(s: seq<Block>, b: Block)
  {
    exists x, y :: x in s && y in s && Siblings(x, y) && Inside(Parent(x), b)
  }

  // A block whose addresses are all covered lies inside one member, unless it holds siblings.
  lemma {:induction false} CoveredBlockInsideMember(s: seq<Block>, b: Block)
    requires AllWf(s) && Wf(b)
    requires forall x :: Covers(b, x) ==> CoveredBy(s, x)
    ensures (exists m :: m in s && Inside(b, m)) || SiblingsWithin(s, b)
    decreases b.width - |b.prefix|
  {
    if |b.prefix| == b.width {
      assert Covers(b, b.prefix);
      var m :| m in s && Covers(m, b.prefix);
      assert Inside(b, m);
    } else {
      var l, r := Block(b.width, b.prefix + [false]), Block(b.width, b.prefix + [true]);
      assert forall x :: Covers(l, x) || Covers(r, x) ==> Covers(b, x);
      CoveredBlockInsideMember(s, l);
      CoveredBlockInsideMember(s, r);
      if !SiblingsWithin(s, b) {
        SiblingsWithinHalf(s, b, l);
        SiblingsWithinHalf(s, b, r);
        HalvesAreSiblings(b);
        var m :| m in s && Inside(l, m);
        var n :| n in s && Inside(r, n);
        HalfInside(b, false, m);
        HalfInside(b, true, n);
        assert Parent(l) == b;
      }
    }
  }

  lemma SiblingsWithinHalf(s: seq<Block>, b: Block, h: Block)
    requires Inside(h, b)
    ensures SiblingsWithin(s, h) ==> SiblingsWithin(s, b)
  {
    if x, y :| x in s && y in s && Siblings(x, y) && Inside(Parent(x), h) {
      assert Inside(Parent(x), b);
    }
  }

  lemma HalvesAreSiblings(b: Block)
    ensures Siblings(Block(b.width, b.prefix + [false]), Block(b.width, b.prefix + [true]))
  {
    var l, r := b.prefix + [false], b.prefix + [true];
    assert l[|b.prefix|] != r[|b.prefix|];
    assert l[..|b.prefix|] == r[..|b.prefix|];
  }

  // A block around one half of b is that half or lies around b.
  lemma HalfInside(b: Block, bit: bool, m: Block)
    ensures var h := Block(b.width, b.prefix + [bit]); Inside(h, m) ==> m == h || Inside(b, m)
  {
    var h := b.prefix + [bit];
    if m.prefix <= h {
      if |m.prefix| <= |b.prefix| {
        assert m.prefix == b.prefix[..|m.prefix|];
      } else {
        assert m.prefix == h;
      }
    }
  }

  // k is a list of blocks apart from each other, and each block of c lies inside one of them.
  ghost predicate Coarser(k: seq<Block>, c: seq<Block>)
  {
    AllWf(k) && AllWf(c) && PairwiseDisjoint(k) && SameUnion(k, c) && Nested(c, k)
  }

  lemma CanonicalIsCoarser(k: seq<Block>, c: seq<Block>)
    requires Canonical(k) && AllWf(c) && SameUnion(k, c)
    ensures Coarser(k, c)
  {
    forall b | b in c
      ensures exists m :: m in k && Inside(b, m)
    {
      assert forall y :: Covers(b, y) ==> CoveredBy(c, y);
      CoveredBlockInsideMember(k, b);
    }
  }

  // For every member of k some member of c lies inside it and covers its first address.
  lemma WitnessInside(k: seq<Block>, c: seq<Block>, i: nat)
    requires Coarser(k, c) && i < |k|
    ensures exists j :: 0 <= j < |c| && Covers(c[j], First(k[i])) && Inside(c[j], k[i])
  {
    var x := First(k[i]);
    assert Covers(k[i], x);
    assert CoveredBy(k, x);
    var b :| b in c && Covers(b, x);
    var m :| m in k && Inside(b, m);
    var i' :| 0 <= i' < |k| && k[i'] == m;
    MemberCoveringIsUnique(k, i, i', x);
    var j :| 0 <= j < |c| && c[j] == b;
  }

  // One index of c for each index of k; different indices of k get different ones.
  ghost function Witnesses(k: seq<Block>, c: seq<Block>, n: nat): (w: seq<nat>)
    requires Coarser(k, c) && n <= |k|
    ensures |w| == n
    ensures forall i :: 0 <= i < n ==> w[i] < |c| && Covers(c[w[i]], First(k[i])) && Inside(c[w[i]], k[i])
  {
    if n == 0 then []
    else
      WitnessInside(k, c, n - 1);
      var j :| 0 <= j < |c| && Covers(c[j], First(k[n - 1])) && Inside(c[j], k[n - 1]);
      Witnesses(k, c, n - 1) + [j]
  }

  lemma {:induction false} Pigeonhole(w: seq<nat>, n: nat)
    requires Distinct(w) && forall v :: v in w ==> v < n
    ensures |w| <= n
    ensures |w| == n ==> forall v :: 0 <= v < n ==> v in w
    decreases n
  {
    if w != [] {
      assert w[0] in w;
      if n - 1 in w {
        var p :| 0 <= p < |w| && w[p] == n - 1;
        var u := w[..p] + w[p + 1..];
        assert forall i :: 0 <= i < |u| ==> u[i] == w[if i < p then i else i + 1];
        assert forall v :: v in u ==> v in w;
        Pigeonhole(u, n - 1);
      } else {
        Pigeonhole(w, n - 1);
      }
    }
  }

  lemma WitnessesDiffer(k: seq<Block>, c: seq<Block>)
    requires Coarser(k, c)
    ensures Distinct(Witnesses(k, c, |k|))
  {
    var w := Witnesses(k, c, |k|);
    forall i, j | 0 <= i < j < |w|
      ensures w[i] != w[j]
    {
      if w[i] == w[j] {
        MemberCoveringIsUnique(k, i, j, First(k[j]));
      }
    }
  }

  // The coarser of two exact covers of the same addresses has no more members, and the same
  // members when it has as many.
  lemma CoarserIsSmaller(k: seq<Block>, c: seq<Block>)
    requires Coarser(k, c)
    ensures |k| <= |c|
    ensures |k| == |c| ==> SameMembers(k, c)
  {
    var w := Witnesses(k, c, |k|);
    WitnessesDiffer(k, c);
    Pigeonhole(w, |c|);
    if |k| == |c| {
      forall i | 0 <= i < |k|
        ensures c[w[i]] == k[i]
      {
        OnlyWitnessCovers(k, c, w, i);
      }
      forall b
        ensures b in k <==> b in c
      {
        if b in k {
          var i :| 0 <= i < |k| && k[i] == b;
          assert c[w[i]] in c;
        }
        if b in c {
          var j :| 0 <= j < |c| && c[j] == b;
          assert j in w;
          var i :| 0 <= i < |w| && w[i] == j;
          assert k[i] in k;
        }
      }
    }
  }

  // When every member of c is some witness, the witness inside k[i] is all of k[i].
  lemma OnlyWitnessCovers(k: seq<Block>, c: seq<Block>, w: seq<nat>, i: nat)
    requires Coarser(k, c) && i < |k| == |w|
    requires forall i :: 0 <= i < |w| ==> w[i] < |c| && Inside(c[w[i]], k[i])
    requires forall v :: 0 <= v < |c| ==> v in w
    ensures c[w[i]] == k[i]
  {
    forall x | Covers(k[i], x)
      ensures Covers(c[w[i]], x)
    {
      assert CoveredBy(k, x);
      var b :| b in c && Covers(b, x);
      var j :| 0 <= j < |c| && c[j] == b;
      assert j in w;
      var i' :| 0 <= i' < |w| && w[i'] == j;
      assert Covers(k[i'], x);
      MemberCoveringIsUnique(k, i, i', x);
    }
    InclusionByEnds(k[i], c[w[i]]);
    assert k[i].prefix <= c[w[i]].prefix && c[w[i]].prefix <= k[i].prefix;
  }

  // No exact cover of the same addresses by blocks has fewer members than a canonical one,
  // and an exact cover with as few members is the canonical one.
  lemma CanonicalIsUniqueSmallest(k: seq<Block>, c: seq<Block>)
    requires Canonical(k) && AllWf(c) && SameUnion(k, c)
    ensures |k| <= |c|
    ensures |k| == |c| ==> SameMembers(k, c)
  {
    CanonicalIsCoarser(k, c);
    CoarserIsSmaller(k, c);
  }

  // Two canonical lists denote the same addresses exactly when they have the same members.
  lemma CanonicalFormsAgree(k: seq<Block>, c: seq<Block>)
    requires Canonical(k) && Canonical(c)
    ensures SameUnion(k, c) <==> |k| == |c| && SameMembers(k, c)
  {
    if SameUnion(k, c) {
      CanonicalIsUniqueSmallest(k, c);
      CanonicalIsUniqueSmallest(c, k);
    }
  }
}
