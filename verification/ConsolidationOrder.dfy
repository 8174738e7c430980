// The map of unique networks is ranged over in any order; the consolidated networks do not
// depend on it.
module ConsolidationOrder {
  import opened Bits
  import opened Seqs
  import opened Blocks
  import opened Consolidation
  import opened Networks
  import opened CspIpList

  // ---------- permuted lists ----------

  lemma SplitAround<T>(t: seq<T>, x: T) returns (j: nat)
    requires x in t
    ensures j < |t| && t[j] == x && t == t[..j] + [x] + t[j + 1..]
    ensures multiset(t[..j] + t[j + 1..]) == multiset(t) - multiset{x}
  {
    j :| j < |t| && t[j] == x;
    assert t == t[..j] + [x] + t[j + 1..];
    assert multiset(t) == multiset(t[..j]) + multiset{x} + multiset(t[j + 1..]);
  }

  lemma {:induction false} ImagesPermute<T, K>(s: seq<T>, t: seq<T>, key: T -> K)
    requires multiset(s) == multiset(t)
    ensures multiset(Images(s, key)) == multiset(Images(t, key))
    decreases |s|
  {
    if s == [] {
      assert |multiset(t)| == 0;
    } else {
      var x := s[0];
      assert s == [x] + s[1..];
      assert x in multiset(t);
      var j := SplitAround(t, x);
      var rest := t[..j] + t[j + 1..];
      ImagesPermute(s[1..], rest, key);
      assert Images(s, key) == [key(x)] + Images(s[1..], key);
      assert Images(t, key) == Images(t[..j], key) + [key(x)] + Images(t[j + 1..], key);
      assert Images(rest, key) == Images(t[..j], key) + Images(t[j + 1..], key);
    }
  }

  lemma {:induction false} NetsCount(keys: seq<Parsed>, n: Network)
    ensures multiset(Nets(keys))[n] == multiset(keys)[Net(n)]
  {
    if keys != [] {
      NetsCount(keys[1..], n);
      assert keys == [keys[0]] + keys[1..];
    }
  }

  lemma NetsPermute(keys: seq<Parsed>, keys': seq<Parsed>)
    requires multiset(keys) == multiset(keys')
    ensures multiset(Nets(keys)) == multiset(Nets(keys'))
  {
    forall n
      ensures multiset(Nets(keys))[n] == multiset(Nets(keys'))[n]
    {
      NetsCount(keys, n);
      NetsCount(keys', n);
    }
  }

  function NormBlk(n: Network): Block
  {
    Blk(Norm(n))
  }

  lemma ReadPermutes(keys: seq<Parsed>, keys': seq<Parsed>)
    requires multiset(keys) == multiset(keys')
    ensures multiset(Nets(keys)) == multiset(Nets(keys'))
    ensures multiset(Blks(Read(keys))) == multiset(Blks(Read(keys')))
  {
    NetsPermute(keys, keys');
    ImagesPermute(Nets(keys), Nets(keys'), NormBlk);
    ReadImages(keys);
    ReadImages(keys');
  }

  lemma ReadImages(keys: seq<Parsed>)
    ensures Blks(Read(keys)) == Images(Nets(keys), NormBlk)
  {
    var nets, blocks, images := Nets(keys), Blks(Read(keys)), Images(Nets(keys), NormBlk);
    forall i | 0 <= i < |nets|
      ensures blocks[i] == images[i]
    {
      assert Norms(nets)[i] == Norm(nets[i]);
    }
  }

  lemma {:induction false} BlksCount(nets: seq<Network>, n: Network)
    ensures multiset(Blks(nets))[Blk(n)] == multiset(nets)[n]
  {
    if nets != [] {
      var rest := nets[1..];
      BlksCount(rest, n);
      assert nets == [nets[0]] + rest && Blks(nets) == [Blk(nets[0])] + Blks(rest);
      if Blk(nets[0]) == Blk(n) {
        BlkInjective(nets[0], n);
      }
    }
  }

  // Networks with the same blocks are the same networks.
  lemma SameBlocksSameNetworks(s: seq<Network>, t: seq<Network>)
    requires multiset(Blks(s)) == multiset(Blks(t))
    ensures multiset(s) == multiset(t)
  {
    forall n
      ensures multiset(s)[n] == multiset(t)[n]
    {
      BlksCount(s, n);
      BlksCount(t, n);
    }
  }

  // ---------- sorted lists ----------

  lemma SameHead(s: seq<Network>, t: seq<Network>)
    requires Tidy(s) && Tidy(t) && multiset(s) == multiset(t) && s != []
    ensures t != [] && s[0] == t[0]
  {
    assert s[0] in multiset(t);
    var j :| 0 <= j < |t| && t[j] == s[0];
    assert t[0] in multiset(s);
    var k :| 0 <= k < |s| && s[k] == t[0];
    if j > 0 && k > 0 {
      assert Lex(First(Blks(s)[0]), First(Blks(s)[k])) < 0 && Lex(First(Blks(t)[0]), First(Blks(t)[j])) < 0;
      LexFlip(First(Blk(s[0])), First(Blk(t[0])));
    }
  }

  lemma TidyTail(s: seq<Network>)
    requires Tidy(s) && s != []
    ensures Tidy(s[1..])
  {
    var b, c := Blks(s), Blks(s[1..]);
    assert forall i :: 0 <= i < |c| ==> c[i] == b[i + 1];
    BlksAreWf(s[1..]);
    forall i, j | 0 <= i < j < |c|
      ensures Disjoint(c[i], c[j]) && Lex(First(c[i]), First(c[j])) < 0
    {
      assert Disjoint(b[i + 1], b[j + 1]) && Lex(First(b[i + 1]), First(b[j + 1])) < 0;
    }
  }

  lemma {:induction false} TidyIsUnique(s: seq<Network>, t: seq<Network>)
    requires Tidy(s) && Tidy(t) && multiset(s) == multiset(t)
    ensures s == t
  {
    if s == [] {
      assert |multiset(t)| == 0;
    } else {
      SameHead(s, t);
      TidyTail(s);
      TidyTail(t);
      assert s == [s[0]] + s[1..] && t == [t[0]] + t[1..];
      assert multiset(s[1..]) == multiset(s) - multiset{s[0]};
      assert multiset(t[1..]) == multiset(t) - multiset{t[0]};
      TidyIsUnique(s[1..], t[1..]);
    }
  }

  // Sorting disjoint networks undoes any permutation: the order has no ties.
  lemma SortIgnoresOrder(s: seq<Network>, t: seq<Network>)
    requires multiset(s) == multiset(t) && PairwiseDisjoint(Blks(s)) && PairwiseDisjoint(Blks(t))
    ensures SortByIP(s) == SortByIP(t)
  {
    SortTidies(s);
    SortTidies(t);
    TidyIsUnique(SortByIP(s), SortByIP(t));
  }

  // ---------- the consolidation ----------

  lemma MergedIgnoresOrder(s: seq<Network>, t: seq<Network>)
    requires multiset(s) == multiset(t) && PairwiseDisjoint(Blks(s)) && PairwiseDisjoint(Blks(t))
    ensures multiset(Merged(s)) == multiset(Merged(t))
  {
    SortIgnoresOrder(s, t);
    assert |s| == |multiset(s)| == |t|;
  }

  lemma StraddlersIgnoreOrder(keys: seq<Parsed>, keys': seq<Parsed>)
    requires multiset(keys) == multiset(keys') && StraddlersOutermost(Nets(keys))
    ensures StraddlersOutermost(Nets(keys'))
  {
    ReadPermutes(keys, keys');
    var s, t := Blks(Read(keys)), Blks(Read(keys'));
    forall n | n in Nets(keys') && Straddles(n)
      ensures Outermost(t, Blk(n))
    {
      assert n in multiset(Nets(keys'));
      assert Outermost(s, Blk(n));
      forall c | c in t && c != Blk(n)
        ensures !Inside(Blk(n), c)
      {
        assert c in multiset(t);
      }
    }
  }

  // Two runs over the same networks in any two orders give the same networks, for one address
  // family or both, and whether or not networks are listed twice.
  method ConsolidateTwice(keys: seq<Parsed>, keys': seq<Parsed>) returns (once: seq<Network>, twice: seq<Network>)
    requires multiset(keys) == multiset(keys') && StraddlersOutermost(Nets(keys))
    ensures multiset(once) == multiset(twice)
  {
    StraddlersIgnoreOrder(keys, keys');
    once := ConsolidateNetworks(keys);
    twice := ConsolidateNetworks(keys');
    ghost var s, t := Blks(Read(keys)), Blks(Read(keys'));
    ghost var kept :| Blks(kept) == Survivors(s) && once == Merged(kept);
    ghost var kept' :| Blks(kept') == Survivors(t) && twice == Merged(kept');
    ReadPermutes(keys, keys');
    SurvivorsIgnoreOrder(s, t);
    SameBlocksSameNetworks(kept, kept');
    SurvivorsDisjoint(s);
    SurvivorsDisjoint(t);
    MergedIgnoresOrder(kept, kept');
  }
}
