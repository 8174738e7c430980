// Exact covers that respect an order running through blocks of both address families: no block
// reaches across the start of another. Among them there is one coarsest, and it is told by its
// siblings.
module UnbrokenCovers {
  import opened Bits
  import opened Blocks

  // a starts before b does.
  predicate Before(a: Block, b: Block)
  {
    Wf(a) && Wf(b) && Lex(First(a), First(b)) < 0
  }

  // c starts after r does, and before a block a inside r does.
  predicate Breaks(c: Block, r: Block, a: Block)
  {
    Before(r, c) && Before(c, a) && Inside(a, r)
  }

  // No block of u reaches across the start of another to take in a block of s.
  ghost predicate Unbroken(u: seq<Block>, s: seq<Block>)
  {
    forall c, r, a {:trigger Breaks(c, r, a)} :: c in u && r in u && a in s ==> !Breaks(c, r, a)
  }

  // The blocks of u are apart, cover what s covers, each block of s lies inside one of them,
  // and none reaches across the start of another.
  ghost predicate UnbrokenCover(u: seq<Block>, s: seq<Block>)
  {
    AllWf(u) && PairwiseDisjoint(u) && SameUnion(s, u) && Nested(s, u) && Unbroken(u, s)
  }

  // Between any two siblings starts a block of the other family.
  ghost predicate SiblingsApart(s: seq<Block>)
  {
    forall x, y {:trigger Siblings(x, y)} :: x in s && y in s && Siblings(x, y) && Before(x, y) ==>
      exists c :: c in s && c.width != x.width && Before(x, c) && Before(c, y)
  }

  // Every unbroken cover of s nests in k, itself one; none has fewer blocks, and none other as few.
  ghost predicate CoarsestUnbroken(k: seq<Block>, s: seq<Block>)
  {
    && UnbrokenCover(k, s)
    && forall u :: UnbrokenCover(u, s) ==> Nested(u, k) && |k| <= |u| && (|k| == |u| ==> SameMembers(k, u))
  }

  // ---------- the order of starts ----------

  predicate NotAfter(a: Block, b: Block)
  {
    Wf(a) && Wf(b) && Lex(First(a), First(b)) <= 0
  }

  lemma StartsCompare(a: Block, b: Block)
    requires Wf(a) && Wf(b)
    ensures Before(a, b) || NotAfter(b, a)
    ensures First(a) == First(b) <==> NotAfter(a, b) && NotAfter(b, a)
    ensures Before(a, b) ==> !NotAfter(b, a)
  {
    LexFlip(First(a), First(b));
  }

  lemma BeforeTransitive(a: Block, b: Block, c: Block)
    requires (Before(a, b) && NotAfter(b, c)) || (NotAfter(a, b) && Before(b, c))
    ensures Before(a, c)
  {
    LexTransitive(First(a), First(b), First(c));
    LexFlip(First(a), First(c));
    StartsCompare(a, b);
    StartsCompare(b, c);
  }

  lemma InsideStartsLater(a: Block, b: Block)
    requires Wf(a) && Wf(b) && Inside(a, b)
    ensures NotAfter(b, a)
  {
    LexBetween(b.prefix, First(a));
  }

  // Each block of an exact cover starts where one of the covered blocks inside it does.
  lemma StartOfMember(s: seq<Block>, k: seq<Block>, b: Block) returns (a: Block)
    requires AllWf(s) && AllWf(k) && PairwiseDisjoint(k) && SameUnion(s, k) && Nested(s, k) && b in k
    ensures a in s && Inside(a, b) && First(a) == First(b)
  {
    var x := First(b);
    assert Covers(b, x);
    assert CoveredBy(k, x);
    a :| a in s && Covers(a, x);
    var m :| m in k && Inside(a, m);
    var i :| 0 <= i < |k| && k[i] == m;
    var j :| 0 <= j < |k| && k[j] == b;
    MemberCoveringIsUnique(k, i, j, x);
    assert a.prefix == x[..|a.prefix|];
    assert First(a) == First(b);
  }

  lemma CoversItself(s: seq<Block>)
    requires AllWf(s) && PairwiseDisjoint(s)
    ensures UnbrokenCover(s, s)
  {
    assert forall a :: a in s ==> Inside(a, a);
    forall c, r, a | c in s && r in s && a in s
      ensures !Breaks(c, r, a)
    {
      if Inside(a, r) {
        var i :| 0 <= i < |s| && s[i] == a;
        var j :| 0 <= j < |s| && s[j] == r;
        assert Covers(a, First(a));
        MemberCoveringIsUnique(s, i, j, First(a));
        StartsCompare(r, c);
      }
    }
  }

  // The order of the list does not matter.
  lemma CoverReordered(u: seq<Block>, v: seq<Block>, s: seq<Block>)
    requires UnbrokenCover(u, s) && SameMembers(u, v) && PairwiseDisjoint(v)
    ensures UnbrokenCover(v, s)
  {
  }

  lemma ApartReordered(s: seq<Block>, t: seq<Block>)
    requires SiblingsApart(s) && SameMembers(s, t)
    ensures SiblingsApart(t)
  {
  }

  // ---------- the coarsest cover ----------

  // A block of an unbroken cover does not hold siblings of a cover whose siblings are apart.
  lemma HoldsNoSiblings(s: seq<Block>, u: seq<Block>, k: seq<Block>, r: Block, x: Block, y: Block)
    requires AllWf(s) && UnbrokenCover(u, s) && UnbrokenCover(k, s) && SiblingsApart(k)
    requires r in u && x in k && y in k && Siblings(x, y) && Before(x, y)
    ensures !Inside(Parent(x), r)
  {
    var c :| c in k && c.width != x.width && Before(x, c) && Before(c, y);
    var a := StartOfMember(s, k, y);
    var e := StartOfMember(s, k, c);
    var d :| d in u && Inside(e, d);
    if Inside(Parent(x), r) {
      InsideStartsLater(x, r);
      BeforeTransitive(r, x, c);
      InsideStartsLater(e, d);
      StartsCompare(e, c);
      StartsCompare(a, y);
      if Before(r, d) {
        BeforeTransitive(c, y, a);
        BeforeTransitive(e, c, a);
        BeforeTransitive(d, e, a);
        assert Breaks(d, r, a);
      } else {
        StartsCompare(d, r);
        StartsCompare(r, d);
        assert Before(d, r);
        BeforeTransitive(r, c, e);
        assert Breaks(r, d, e);
      }
    }
  }

  lemma UnbrokenNests(s: seq<Block>, u: seq<Block>, k: seq<Block>)
    requires AllWf(s) && UnbrokenCover(u, s) && UnbrokenCover(k, s) && SiblingsApart(k)
    ensures Nested(u, k)
  {
    forall r | r in u
      ensures exists m :: m in k && Inside(r, m)
    {
      forall x | Covers(r, x)
        ensures CoveredBy(k, x)
      {
        assert CoveredBy(u, x);
        assert CoveredBy(s, x);
      }
      CoveredBlockInsideMember(k, r);
      if SiblingsWithin(k, r) {
        var x, y :| x in k && y in k && Siblings(x, y) && Inside(Parent(x), r);
        HalvesStartApart(x, y);
        if Before(x, y) {
          HoldsNoSiblings(s, u, k, r, x, y);
        } else {
          HoldsNoSiblings(s, u, k, r, y, x);
        }
      }
    }
  }

  lemma HalvesStartApart(x: Block, y: Block)
    requires Wf(x) && Wf(y) && Siblings(x, y)
    ensures Before(x, y) || Before(y, x)
  {
    LexFlip(First(x), First(y));
    var n := |x.prefix| - 1;
    assert x.prefix == x.prefix[..n] + [x.prefix[n]] && y.prefix == y.prefix[..n] + [y.prefix[n]];
    assert First(x)[n] == x.prefix[n] && First(y)[n] == y.prefix[n];
  }

  // An unbroken cover whose siblings are apart is the coarsest.
  lemma ApartIsCoarsest(s: seq<Block>, k: seq<Block>)
    requires AllWf(s) && UnbrokenCover(k, s) && SiblingsApart(k)
    ensures CoarsestUnbroken(k, s)
  {
    forall u | UnbrokenCover(u, s)
      ensures Nested(u, k) && |k| <= |u| && (|k| == |u| ==> SameMembers(k, u))
    {
      UnbrokenNests(s, u, k);
      assert SameUnion(k, u);
      CoarserIsSmaller(k, u);
    }
  }
}
