// What dropping nested blocks and merging neighbours do to a list of blocks, in whatever
// order the list comes.
module Consolidation {
  import opened Bits
  import opened Blocks
  import opened UnbrokenCovers

  // ---------- dropping every block that lies inside another ----------

  predicate Kept(s: seq<Block>, i: nat)
    requires i < |s|
  {
    forall j :: 0 <= j < |s| && j != i ==> !Inside(s[i], s[j])
  }

  lemma NotKept(s: seq<Block>, i: nat, j: nat)
    requires i < |s| && j < |s| && i != j && Inside(s[i], s[j])
    ensures !Kept(s, i)
  {
  }

  // Listed once and inside no other block of the list.
  ghost predicate Outermost(s: seq<Block>, b: Block)
  {
    multiset(s)[b] == 1 && forall c :: c in s && c != b ==> !Inside(b, c)
  }

  lemma CountAround(s: seq<Block>, i: nat)
    requires i < |s|
    ensures multiset(s)[s[i]] == 1 <==> forall j :: 0 <= j < |s| && j != i ==> s[j] != s[i]
  {
    assert s == s[..i] + [s[i]] + s[i + 1..];
    assert multiset(s) == multiset(s[..i]) + multiset{s[i]} + multiset(s[i + 1..]);
    if forall j :: 0 <= j < |s| && j != i ==> s[j] != s[i] {
      assert s[i] !in s[..i] && s[i] !in s[i + 1..];
    }
    forall j | 0 <= j < |s| && j != i && s[j] == s[i]
      ensures s[i] in multiset(s[..i]) || s[i] in multiset(s[i + 1..])
    {
      if j < i {
        assert s[..i][j] == s[i];
      } else {
        assert s[i + 1..][j - i - 1] == s[i];
      }
    }
  }

  // What the positions that are kept hold does not depend on the positions.
  lemma KeptIsOutermost(s: seq<Block>, i: nat)
    requires i < |s|
    ensures Kept(s, i) <==> Outermost(s, s[i])
  {
    CountAround(s, i);
    if Kept(s, i) {
      assert forall j :: 0 <= j < |s| && j != i ==> s[j] != s[i] by {
        assert Inside(s[i], s[i]);
      }
      forall c | c in s && c != s[i]
        ensures !Inside(s[i], c)
      {
        var j :| 0 <= j < |s| && s[j] == c;
      }
    }
    if Outermost(s, s[i]) {
      forall j | 0 <= j < |s| && j != i
        ensures !Inside(s[i], s[j])
      {
        assert s[j] in s && s[j] != s[i];
      }
    }
  }

  lemma PickedCountStep(s: seq<Block>, f: seq<bool>, n: nat, b: Block)
    requires n < |s| == |f|
    ensures multiset(PickFlagged(s, f, n + 1))[b] ==
            multiset(PickFlagged(s, f, n))[b] + (if f[n] && s[n] == b then 1 else 0)
  {
    PickFlaggedStep(s, f, n);
  }

  // How often b occurs below n.
  function Occurrences(s: seq<Block>, n: nat, b: Block): nat
    requires n <= |s|
  {
    if n == 0 then 0 else Occurrences(s, n - 1, b) + (if s[n - 1] == b then 1 else 0)
  }

  lemma {:induction false} OccurrencesCount(s: seq<Block>, n: nat, b: Block)
    requires n <= |s|
    ensures Occurrences(s, n, b) == multiset(s[..n])[b]
  {
    if n > 0 {
      OccurrencesCount(s, n - 1, b);
      assert s[..n] == s[..n - 1] + [s[n - 1]];
    }
  }

  // How often b occurs below n where the flag is set.
  function Marked(s: seq<Block>, f: seq<bool>, n: nat, b: Block): nat
    requires n <= |s| == |f|
  {
    if n == 0 then 0 else Marked(s, f, n - 1, b) + (if f[n - 1] && s[n - 1] == b then 1 else 0)
  }

  lemma {:induction false} MarkedCount(s: seq<Block>, f: seq<bool>, n: nat, b: Block)
    requires n <= |s| == |f|
    ensures multiset(PickFlagged(s, f, n))[b] == Marked(s, f, n, b)
  {
    if n == 0 {
    } else {
      MarkedCount(s, f, n - 1, b);
      PickedCountStep(s, f, n - 1, b);
    }
  }

  lemma {:induction false} MarkedAlike(s: seq<Block>, f: seq<bool>, n: nat, b: Block, keep: bool)
    requires n <= |s| == |f| && forall i :: 0 <= i < n && s[i] == b ==> f[i] == keep
    ensures Marked(s, f, n, b) == if keep then Occurrences(s, n, b) else 0
  {
    if n > 0 {
      MarkedAlike(s, f, n - 1, b, keep);
    }
  }

  lemma PickedCount(s: seq<Block>, b: Block)
    ensures multiset(Survivors(s))[b] == if Outermost(s, b) then multiset(s)[b] else 0
  {
    forall i | 0 <= i < |s| && s[i] == b
      ensures KeptFlags(s)[i] == Outermost(s, b)
    {
      KeptIsOutermost(s, i);
    }
    MarkedCount(s, KeptFlags(s), |s|, b);
    MarkedAlike(s, KeptFlags(s), |s|, b, Outermost(s, b));
    OccurrencesCount(s, |s|, b);
    assert s[..|s|] == s;
  }

  // The survivors do not depend on the order of the list.
  lemma SurvivorsIgnoreOrder(s: seq<Block>, t: seq<Block>)
    requires multiset(s) == multiset(t)
    ensures multiset(Survivors(s)) == multiset(Survivors(t))
  {
    assert forall c :: c in s <==> c in multiset(s);
    assert forall c :: c in t <==> c in multiset(t);
    forall b
      ensures multiset(Survivors(s))[b] == multiset(Survivors(t))[b]
    {
      PickedCount(s, b);
      PickedCount(t, b);
    }
  }

  function SetFlags(f: seq<bool>, n: nat): nat
    requires n <= |f|
  {
    if n == 0 then 0 else SetFlags(f, n - 1) + (if f[n - 1] then 1 else 0)
  }

  lemma {:induction false} PickedLength(s: seq<Block>, f: seq<bool>, n: nat)
    requires n <= |s| == |f|
    ensures |PickFlagged(s, f, n)| == SetFlags(f, n)
  {
    if n > 0 {
      PickedLength(s, f, n - 1);
      PickFlaggedStep(s, f, n - 1);
    }
  }

  // Flags that keep more set more.
  lemma {:induction false} MoreSet(f: seq<bool>, g: seq<bool>, n: nat)
    requires n <= |f| == |g| && forall i :: 0 <= i < n ==> f[i] ==> g[i]
    ensures SetFlags(f, n) <= SetFlags(g, n)
    ensures SetFlags(f, n) == SetFlags(g, n) ==> forall i :: 0 <= i < n ==> f[i] == g[i]
  {
    if n > 0 {
      MoreSet(f, g, n - 1);
    }
  }

  function KeptFlags(s: seq<Block>): (f: seq<bool>)
    ensures |f| == |s| && forall i :: 0 <= i < |s| ==> f[i] == Kept(s, i)
  {
    seq(|s|, i requires 0 <= i < |s| => Kept(s, i))
  }

  // The positions below n where the flag is set, in order.
  function Flagged(f: seq<bool>, n: nat): (r: seq<nat>)
    requires n <= |f|
    ensures forall k :: 0 <= k < |r| ==> r[k] < n
  {
    if n == 0 then [] else if f[n - 1] then Flagged(f, n - 1) + [n - 1] else Flagged(f, n - 1)
  }

  lemma {:induction false} FlaggedHolds(f: seq<bool>, n: nat)
    requires n <= |f|
    ensures forall i: nat :: i in Flagged(f, n) <==> i < n && f[i]
  {
    if n > 0 {
      FlaggedHolds(f, n - 1);
    }
  }

  lemma {:induction false} FlaggedIncreases(f: seq<bool>, n: nat, j: nat, k: nat)
    requires n <= |f| && j < k < |Flagged(f, n)|
    ensures Flagged(f, n)[j] < Flagged(f, n)[k]
  {
    if n > 0 && k < |Flagged(f, n - 1)| {
      FlaggedIncreases(f, n - 1, j, k);
    }
  }

  function Pick(s: seq<Block>, at: seq<nat>): (r: seq<Block>)
    requires forall k :: 0 <= k < |at| ==> at[k] < |s|
    ensures |r| == |at| && forall k :: 0 <= k < |at| ==> r[k] == s[at[k]]
  {
    seq(|at|, k requires 0 <= k < |at| => s[at[k]])
  }

  function PickFlagged(s: seq<Block>, f: seq<bool>, n: nat): seq<Block>
    requires n <= |s| == |f|
  {
    Pick(s, Flagged(f, n))
  }

  lemma PickFlaggedStep(s: seq<Block>, f: seq<bool>, n: nat)
    requires n < |s| == |f|
    ensures PickFlagged(s, f, n + 1) == PickFlagged(s, f, n) + (if f[n] then [s[n]] else [])
  {
  }

  // The blocks that lie inside no other one, in list order.
  function Survivors(s: seq<Block>): seq<Block>
  {
    PickFlagged(s, KeptFlags(s), |s|)
  }

  lemma SurvivorAt(s: seq<Block>, k: nat) returns (i: nat)
    requires k < |Survivors(s)|
    ensures i < |s| && Kept(s, i) && Survivors(s)[k] == s[i] && Flagged(KeptFlags(s), |s|)[k] == i
  {
    i := Flagged(KeptFlags(s), |s|)[k];
    FlaggedHolds(KeptFlags(s), |s|);
    assert i in Flagged(KeptFlags(s), |s|);
  }

  lemma KeptSurvives(s: seq<Block>, i: nat)
    requires i < |s| && Kept(s, i)
    ensures s[i] in Survivors(s)
  {
    var at := Flagged(KeptFlags(s), |s|);
    FlaggedHolds(KeptFlags(s), |s|);
    assert i in at;
    var k :| 0 <= k < |at| && at[k] == i;
    assert Survivors(s)[k] == s[i];
  }

  // Every block that occurs twice lies inside a strictly larger block of the list.
  ghost predicate TwinsAreNested(s: seq<Block>)
  {
    forall i, j :: 0 <= i < j < |s| && s[i] == s[j] ==> exists c :: c in s && c != s[i] && Inside(s[i], c)
  }

  lemma SurvivorsDisjoint(s: seq<Block>)
    ensures PairwiseDisjoint(Survivors(s))
  {
    forall j, k | 0 <= j < k < |Survivors(s)|
      ensures Disjoint(Survivors(s)[j], Survivors(s)[k])
    {
      var i := SurvivorAt(s, j);
      var i' := SurvivorAt(s, k);
      FlaggedIncreases(KeptFlags(s), |s|, j, k);
      assert !Inside(s[i], s[i']) && !Inside(s[i'], s[i]);
    }
  }

  lemma SurvivorsAreMembers(s: seq<Block>)
    ensures forall b :: b in Survivors(s) ==> b in s
  {
    forall b | b in Survivors(s)
      ensures b in s
    {
      var k :| 0 <= k < |Survivors(s)| && Survivors(s)[k] == b;
      var i := SurvivorAt(s, k);
    }
  }

  // Without twins at the top every block of the list lies inside one survivor.
  lemma {:induction false} InsideSurvivor(s: seq<Block>, i: nat)
    requires TwinsAreNested(s) && i < |s|
    ensures exists b :: b in Survivors(s) && Inside(s[i], b)
    decreases |s[i].prefix|
  {
    if Kept(s, i) {
      KeptSurvives(s, i);
    } else {
      var j :| 0 <= j < |s| && j != i && Inside(s[i], s[j]);
      var c := s[j];
      if c == s[i] {
        c :| c in s && c != s[i] && Inside(s[i], c);
      }
      var k :| 0 <= k < |s| && s[k] == c;
      InsideSurvivor(s, k);
      var b :| b in Survivors(s) && Inside(c, b);
      assert Inside(s[i], b);
    }
  }

  lemma SurvivorsNestAll(s: seq<Block>)
    requires TwinsAreNested(s)
    ensures Nested(s, Survivors(s))
  {
    forall a | a in s
      ensures exists b :: b in Survivors(s) && Inside(a, b)
    {
      var i :| 0 <= i < |s| && s[i] == a;
      InsideSurvivor(s, i);
    }
  }

  // A twin no larger block contains is dropped with its copy, and its addresses go with it.
  lemma TwinIsLost(s: seq<Block>, i: nat, j: nat)
    requires AllWf(s) && i < j < |s| && s[i] == s[j]
    requires forall c :: c in s && c != s[i] ==> !Inside(s[i], c)
    ensures CoveredBy(s, First(s[i])) && !CoveredBy(Survivors(s), First(s[i]))
  {
    var x := First(s[i]);
    assert s[i] in s && Covers(s[i], x);
    forall b | b in Survivors(s)
      ensures !Covers(b, x)
    {
      var p :| 0 <= p < |Survivors(s)| && Survivors(s)[p] == b;
      var k := SurvivorAt(s, p);
      assert b in s;
      NestedOrApart(b, s[i]);
    }
  }

  // Dropping nested blocks keeps the covered addresses exactly when no outermost block is
  // listed twice.
  lemma SurvivorsKeepUnion(s: seq<Block>)
    requires AllWf(s)
    ensures SameUnion(Survivors(s), s) <==> TwinsAreNested(s)
  {
    if TwinsAreNested(s) {
      SurvivorsNestAll(s);
      SurvivorsAreMembers(s);
      forall x
        ensures CoveredBy(Survivors(s), x) <==> CoveredBy(s, x)
      {
        if CoveredBy(s, x) {
          NestedCovers(s, Survivors(s), x);
        }
      }
    } else {
      var i, j :| 0 <= i < j < |s| && s[i] == s[j] && !exists c :: c in s && c != s[i] && Inside(s[i], c);
      TwinIsLost(s, i, j);
    }
  }

  // ---------- merging two neighbours of a sorted list ----------

  ghost predicate SortedByFirst(s: seq<Block>)
    requires AllWf(s)
  {
    forall i, j {:trigger Lex(First(s[i]), First(s[j]))} :: 0 <= i < j < |s| ==> Lex(First(s[i]), First(s[j])) < 0
  }

  // Inserting a block apart from all others at its place in the order.
  lemma InsertKeepsOrder(s: seq<Block>, k: nat, b: Block)
    requires AllWf(s) && PairwiseDisjoint(s) && SortedByFirst(s) && Wf(b) && k <= |s|
    requires forall i :: 0 <= i < |s| ==> Disjoint(b, s[i])
    requires forall i :: 0 <= i < k ==> Lex(First(s[i]), First(b)) < 0
    requires forall i :: k <= i < |s| ==> Lex(First(b), First(s[i])) < 0
    ensures var t := s[..k] + [b] + s[k..]; AllWf(t) && PairwiseDisjoint(t) && SortedByFirst(t)
  {
    var t := s[..k] + [b] + s[k..];
    forall i, j | 0 <= i < j < |t|
      ensures Disjoint(t[i], t[j]) && Wf(t[i]) && Wf(t[j]) && Lex(First(t[i]), First(t[j])) < 0
    {
      assert i != k ==> t[i] == s[if i < k then i else i - 1] && s[if i < k then i else i - 1] in s;
      assert j != k ==> t[j] == s[if j < k then j else j - 1] && s[if j < k then j else j - 1] in s;
    }
  }

  // Two blocks of one list apart from each other never start at the same address.
  lemma ApartStartsDiffer(a: Block, b: Block)
    requires Wf(a) && Wf(b) && Disjoint(a, b)
    ensures First(a) != First(b) && Lex(First(a), First(b)) != 0
  {
    LexFlip(First(a), First(b));
    NestedOrApart(a, b);
    assert Covers(a, First(a)) && Covers(b, First(b));
  }

  // Not after member k and apart from all is before every member from k on.
  lemma BelowFirstBelowAll(s: seq<Block>, k: nat, b: Block)
    requires AllWf(s) && SortedByFirst(s) && Wf(b) && k < |s|
    requires forall i :: 0 <= i < |s| ==> Disjoint(b, s[i])
    requires Lex(First(s[k]), First(b)) >= 0
    ensures forall i :: k <= i < |s| ==> Lex(First(b), First(s[i])) < 0
  {
    var x, y := First(b), First(s[k]);
    LexFlip(x, y);
    forall i | k <= i < |s|
      ensures Lex(x, First(s[i])) < 0
    {
      assert s[i] in s;
      LexFlip(y, First(s[i]));
      LexTransitive(x, y, First(s[i]));
      ApartStartsDiffer(b, s[i]);
    }
  }

  // The test made before a merge: equal widths and lengths, equal once one bit shorter. It
  // also accepts a block with itself, and two blocks of length zero.
  predicate Mergeable(a: Block, b: Block)
  {
    a.width == b.width && |a.prefix| == |b.prefix| && (a.prefix == [] || Parent(a) == Parent(b))
  }

  // Of two siblings in order, the first has the first address of the parent.
  lemma FirstOfParent(a: Block, b: Block)
    requires Wf(a) && Wf(b) && Siblings(a, b) && Lex(First(a), First(b)) < 0
    ensures First(Parent(a)) == First(a)
  {
    var n := |a.prefix| - 1;
    var p := a.prefix[..n];
    assert a.prefix == p + [a.prefix[n]] && b.prefix == p + [b.prefix[n]];
    var z := Repeat(false, a.width - n - 1);
    assert First(a) == p + ([a.prefix[n]] + z) && First(b) == p + ([b.prefix[n]] + z);
    LexCommonHead(p, [a.prefix[n]] + z, [b.prefix[n]] + z);
    assert !a.prefix[n];
  }

  // The list with neighbours k and k + 1 replaced by their parent.
  function MergedAt(s: seq<Block>, k: nat): seq<Block>
    requires k + 1 < |s| && s[k].prefix != []
  {
    s[..k] + [Parent(s[k])] + s[k + 2..]
  }

  // Merging two neighbours of a sorted, disjoint list: they are siblings, the covered
  // addresses stay, every block lies inside one of the new ones, order and disjointness stay.
  lemma MergeStep(s: seq<Block>, k: nat)
    requires AllWf(s) && PairwiseDisjoint(s) && SortedByFirst(s)
    requires k + 1 < |s| && Mergeable(s[k], s[k + 1])
    ensures Siblings(s[k], s[k + 1])
    ensures var t := MergedAt(s, k);
            AllWf(t) && PairwiseDisjoint(t) && SortedByFirst(t) && SameUnion(s, t) && Nested(s, t)
  {
    var a, b := s[k], s[k + 1];
    assert Disjoint(a, b);
    MergedMembers(s, k);
    MergedUnion(s, k);
    MergedStaysDisjoint(s, k);
    MergedStaysSorted(s, k);
  }

  lemma MergedStaysSorted(s: seq<Block>, k: nat)
    requires AllWf(s) && SortedByFirst(s) && k + 1 < |s| && Siblings(s[k], s[k + 1])
    requires AllWf(MergedAt(s, k))
    ensures SortedByFirst(MergedAt(s, k))
  {
    var t := MergedAt(s, k);
    FirstOfParent(s[k], s[k + 1]);
    forall i | 0 <= i < |t|
      ensures First(t[i]) == First(s[if i <= k then i else i + 1])
    {
      if i != k {
        assert t[i] == s[if i <= k then i else i + 1];
      }
    }
  }

  lemma MergedMembers(s: seq<Block>, k: nat)
    requires AllWf(s) && k + 1 < |s| && Siblings(s[k], s[k + 1])
    ensures AllWf(MergedAt(s, k))
    ensures forall c :: c in MergedAt(s, k) ==> c == Parent(s[k]) || c in s
    ensures forall c :: c in s ==> c == s[k] || c == s[k + 1] || c in MergedAt(s, k)
    ensures Parent(s[k]) in MergedAt(s, k)
    ensures Nested(s, MergedAt(s, k))
  {
    var t := MergedAt(s, k);
    assert t[k] == Parent(s[k]) && s[k] in s;
    forall c | c in s
      ensures c == s[k] || c == s[k + 1] || c in t
    {
      var i :| 0 <= i < |s| && s[i] == c;
      if i < k {
        assert t[i] == c;
      } else if i > k + 1 {
        assert t[i - 1] == c;
      }
    }
    forall c | c in s
      ensures exists d :: d in t && Inside(c, d)
    {
      if c == s[k] || c == s[k + 1] {
        assert Inside(c, Parent(s[k]));
      } else {
        assert Inside(c, c);
      }
    }
  }

  lemma MergedUnion(s: seq<Block>, k: nat)
    requires AllWf(s) && k + 1 < |s| && Siblings(s[k], s[k + 1])
    ensures SameUnion(s, MergedAt(s, k))
  {
    var t := MergedAt(s, k);
    MergedMembers(s, k);
    forall x
      ensures CoveredBy(s, x) <==> CoveredBy(t, x)
    {
      ParentOfSiblings(s[k], s[k + 1], x);
      if CoveredBy(s, x) {
        NestedCovers(s, t, x);
      }
    }
  }

  // A block apart from both halves is apart from the whole, unless it is the whole's outside.
  lemma ApartFromParent(a: Block, b: Block, c: Block)
    requires Wf(a) && Wf(b) && Wf(c) && Siblings(a, b) && Disjoint(a, c) && Disjoint(b, c)
    ensures Disjoint(Parent(a), c)
  {
    forall x | Covers(Parent(a), x)
      ensures !Covers(c, x)
    {
      ParentOfSiblings(a, b, x);
      NestedOrApart(a, c);
      NestedOrApart(b, c);
    }
    NestedOrApart(Parent(a), c);
  }

  lemma MergedStaysDisjoint(s: seq<Block>, k: nat)
    requires AllWf(s) && PairwiseDisjoint(s) && k + 1 < |s| && Siblings(s[k], s[k + 1])
    ensures PairwiseDisjoint(MergedAt(s, k))
  {
    var t := MergedAt(s, k);
    forall i | 0 <= i < |s| && i != k && i != k + 1
      ensures Disjoint(Parent(s[k]), s[i])
    {
      assert Disjoint(s[k], s[i]) && Disjoint(s[k + 1], s[i]) by {
        if i < k {
          assert Disjoint(s[i], s[k]) && Disjoint(s[i], s[k + 1]);
        }
      }
      ApartFromParent(s[k], s[k + 1], s[i]);
    }
    forall i, j | 0 <= i < j < |t|
      ensures Disjoint(t[i], t[j])
    {
      var i', j' := if i <= k then i else i + 1, if j <= k then j else j + 1;
      if i == k {
        assert t[j] == s[j'];
      } else if j == k {
        assert t[i] == s[i'];
      } else {
        assert t[i] == s[i'] && t[j] == s[j'];
      }
    }
  }

  // What the passes keep of the list l they work on, started on s.
  ghost predicate Kin(l: seq<Block>, s: seq<Block>)
  {
    AllWf(s) && UnbrokenCover(l, s) && SortedByFirst(l)
  }

  // In order, the members that start after one member come after it.
  lemma SortedIndices(s: seq<Block>, i: nat, j: nat)
    requires AllWf(s) && SortedByFirst(s) && i < |s| && j < |s|
    ensures Before(s[i], s[j]) <==> i < j
  {
    LexFlip(First(s[i]), First(s[j]));
    assert s[i] in s && s[j] in s;
  }

  // A block inside the parent of two neighbours is inside one of them.
  lemma PartInParent(l: seq<Block>, k: nat, s: seq<Block>, a: Block)
    requires Kin(l, s) && k + 1 < |l| && Siblings(l[k], l[k + 1]) && a in s && Inside(a, Parent(l[k]))
    requires AllWf(MergedAt(l, k)) && PairwiseDisjoint(MergedAt(l, k))
    ensures Inside(a, l[k]) || Inside(a, l[k + 1])
  {
    var t := MergedAt(l, k);
    MergedMembers(l, k);
    var m :| m in l && Inside(a, m);
    if m in t {
      var i :| 0 <= i < |t| && t[i] == m;
      assert t[k] == Parent(l[k]) && Covers(a, First(a));
      MemberCoveringIsUnique(t, i, k, First(a));
      assert l[k] in l && l[k + 1] in l && Inside(l[k], m);
      SameOrApart(l, k, m);
    }
  }

  lemma SameOrApart(s: seq<Block>, k: nat, m: Block)
    requires AllWf(s) && PairwiseDisjoint(s) && k < |s| && m in s && Inside(s[k], m)
    ensures m == s[k]
  {
    var i :| 0 <= i < |s| && s[i] == m;
    assert s[k] in s && Covers(s[k], First(s[k]));
    MemberCoveringIsUnique(s, i, k, First(s[k]));
  }

  // What starts after the parent of two neighbours starts after both.
  lemma AfterParent(l: seq<Block>, k: nat, c: Block)
    requires AllWf(l) && SortedByFirst(l) && k + 1 < |l| && Siblings(l[k], l[k + 1]) && AllWf(MergedAt(l, k))
    requires c in MergedAt(l, k) && Before(Parent(l[k]), c) && First(Parent(l[k])) == First(l[k])
    ensures c in l && Before(l[k], c) && Before(l[k + 1], c)
  {
    var t := MergedAt(l, k);
    var i :| 0 <= i < |t| && t[i] == c;
    StartsCompare(c, c);
    var j := if i < k then i else i + 1;
    assert i != k ==> c == l[j] && l[j] in l;
    assert l[k] in l;
    SortedIndices(l, k, j);
    SortedIndices(l, k + 1, j);
  }

  lemma ParentBreaksNothing(l: seq<Block>, k: nat, s: seq<Block>, c: Block, a: Block)
    requires Kin(l, s) && k + 1 < |l| && Siblings(l[k], l[k + 1]) && c in MergedAt(l, k) && a in s
    requires AllWf(MergedAt(l, k)) && PairwiseDisjoint(MergedAt(l, k)) && First(Parent(l[k])) == First(l[k])
    ensures !Breaks(c, Parent(l[k]), a)
  {
    var halfBreaks := Breaks(c, l[k], a) || Breaks(c, l[k + 1], a);
    assert l[k] in l && l[k + 1] in l;
    if Breaks(c, Parent(l[k]), a) {
      PartInParent(l, k, s, a);
      AfterParent(l, k, c);
    }
  }

  // Merging neighbours does not reach across the start of another block.
  lemma MergedStaysUnbroken(l: seq<Block>, k: nat, s: seq<Block>)
    requires Kin(l, s) && k + 1 < |l| && Siblings(l[k], l[k + 1])
    requires AllWf(MergedAt(l, k)) && PairwiseDisjoint(MergedAt(l, k)) && First(Parent(l[k])) == First(l[k])
    ensures Unbroken(MergedAt(l, k), s)
  {
    var t, p := MergedAt(l, k), Parent(l[k]);
    MergedMembers(l, k);
    assert l[k] in l;
    forall c, r, a | c in t && r in t && a in s
      ensures !Breaks(c, r, a)
    {
      if r == p {
        ParentBreaksNothing(l, k, s, c, a);
      } else {
        assert !Breaks(if c == p then l[k] else c, r, a);
      }
    }
  }

  // Every merge of a pass: the two neighbours x and rest[0] are distinct siblings of prefix
  // length at least one, and replacing them by their parent keeps what the pass keeps.
  lemma MergeGuard(done: seq<Block>, x: Block, rest: seq<Block>, s: seq<Block>)
    requires Kin(done + [x] + rest, s) && rest != [] && Mergeable(x, rest[0])
    ensures Siblings(x, rest[0]) && Wf(x) && First(Parent(x)) == First(x)
    ensures Kin(done + [Parent(x)] + rest[1..], s)
  {
    var l, k := done + [x] + rest, |done|;
    assert l[k] == x && l[k + 1] == rest[0];
    MergeStep(l, k);
    assert x in l && rest[0] in l;
    assert Lex(First(l[k]), First(l[k + 1])) < 0;
    FirstOfParent(x, rest[0]);
    MergedStaysUnbroken(l, k, s);
    assert MergedAt(l, k) == done + [Parent(x)] + rest[1..];
  }

  // ---------- a pass that merges nothing leaves siblings only apart ----------

  predicate MergeableAt(s: seq<Block>, k: nat)
  {
    k + 1 < |s| && Mergeable(s[k], s[k + 1])
  }

  ghost predicate NoNeighboursMerge(s: seq<Block>, n: nat)
  {
    forall k: nat :: k < n ==> !MergeableAt(s, k)
  }

  ghost predicate OneWidth(s: seq<Block>)
  {
    forall a, b :: a in s && b in s ==> a.width == b.width
  }

  // A block whose first address lies between those of two siblings starts inside one of them.
  lemma BetweenSiblings(a: Block, b: Block, c: Block)
    requires Wf(a) && Wf(b) && Wf(c) && Siblings(a, b) && c.width == a.width
    requires Lex(First(a), First(c)) < 0 && Lex(First(c), First(b)) < 0
    ensures Covers(a, First(c))
  {
    var n, x := |a.prefix| - 1, First(c);
    var p, z := a.prefix[..n], Repeat(false, a.width - n - 1);
    FirstOfParentBelow(a, b, x);
    assert a.prefix == p + [a.prefix[n]] && b.prefix == p + [b.prefix[n]];
    assert x == p + ([x[n]] + x[n + 1..]);
    assert First(a) == p + ([a.prefix[n]] + z) && First(b) == p + ([b.prefix[n]] + z);
    LexCommonHead(p, [a.prefix[n]] + z, [x[n]] + x[n + 1..]);
    LexCommonHead(p, [x[n]] + x[n + 1..], [b.prefix[n]] + z);
    if x[n] {
      LexExtremes(x[n + 1..]);
      LexFlip(x[n + 1..], z);
      LexCommonHead([true], x[n + 1..], z);
    }
    HalfCovers(a.width, p, a.prefix[n], x);
  }

  lemma FirstOfParentBelow(a: Block, b: Block, x: bits)
    requires Wf(a) && Wf(b) && Siblings(a, b) && |x| == a.width
    requires Lex(First(a), x) < 0 && Lex(x, First(b)) < 0
    ensures Covers(Parent(a), x)
  {
    LexTransitive(First(a), x, First(b));
    LexFlip(First(a), First(b));
    LexFlip(First(a), x);
    LexFlip(x, First(b));
    FirstOfParent(a, b);
    LexBetween(b.prefix, First(b));
    LexBetween(Parent(a).prefix, First(b));
    assert Covers(Parent(a), First(b));
    LexTransitive(x, First(b), Last(Parent(a)));
    LexBetween(Parent(a).prefix, x);
  }

  // In a sorted, disjoint list in which no two neighbours can be merged, between any two siblings
  // starts a block of the other family.
  lemma NeighboursSuffice(s: seq<Block>)
    requires AllWf(s) && PairwiseDisjoint(s) && SortedByFirst(s) && NoNeighboursMerge(s, |s|)
    ensures SiblingsApart(s)
  {
    forall x, y | x in s && y in s && Siblings(x, y) && Before(x, y)
      ensures exists c :: c in s && c.width != x.width && Before(x, c) && Before(c, y)
    {
      var i :| 0 <= i < |s| && s[i] == x;
      var j :| 0 <= j < |s| && s[j] == y;
      SortedIndices(s, i, j);
      assert !MergeableAt(s, i);
      var c := s[i + 1];
      assert c in s;
      SortedIndices(s, i, i + 1);
      SortedIndices(s, i + 1, j);
      if c.width == x.width {
        BetweenSiblings(x, y, c);
        assert Covers(c, First(c));
        MemberCoveringIsUnique(s, i, i + 1, First(c));
      }
    }
  }

  // Nor does the order in which such a list is kept matter.
  lemma SortedSuffice(s: seq<Block>, t: seq<Block>)
    requires AllWf(t) && PairwiseDisjoint(t) && SortedByFirst(t) && NoNeighboursMerge(t, |t|) && SameMembers(s, t)
    ensures SiblingsApart(s)
  {
    NeighboursSuffice(t);
    ApartReordered(t, s);
  }

  // In a list of one family there are none then.
  lemma ApartInOneFamily(s: seq<Block>)
    requires AllWf(s) && SiblingsApart(s) && OneWidth(s)
    ensures NoSiblings(s)
  {
    forall x, y | x in s && y in s
      ensures !Siblings(x, y)
    {
      if Siblings(x, y) {
        HalvesStartApart(x, y);
        assert Siblings(y, x);
      }
    }
  }

  // With two address families in one list the order can put a block of the other family
  // between two siblings: 0.0.0.0/1, 4000::/2 and 128.0.0.0/1 are sorted, no neighbours can be
  // merged, and the two IPv4 blocks are siblings.
  lemma OtherFamilyBetweenSiblings()
    ensures var s := [Block(32, [false]), Block(128, [false, true]), Block(32, [true])];
            AllWf(s) && PairwiseDisjoint(s) && SortedByFirst(s) && NoNeighboursMerge(s, |s|) && !NoSiblings(s)
  {
    var a, b, c := Block(32, [false]), Block(128, [false, true]), Block(32, [true]);
    var s := [a, b, c];
    assert First(a)[0] == First(b)[0] == false && First(c)[0] == true;
    assert First(a)[1..][0] == false && First(b)[1..][0] == true;
    assert Parent(a).prefix == [] == Parent(c).prefix;
    assert Siblings(a, c) && a in s && c in s;
  }

  // What two lists cover fixes the address widths that occur in them.
  lemma SameUnionSameWidth(s: seq<Block>, t: seq<Block>)
    requires AllWf(s) && AllWf(t) && SameUnion(s, t) && OneWidth(s)
    ensures OneWidth(t)
  {
    forall a, b | a in t && b in t
      ensures a.width == b.width
    {
      assert Covers(a, First(a)) && Covers(b, First(b));
      assert CoveredBy(s, First(a)) && CoveredBy(s, First(b));
    }
  }

  // k is the one smallest list of blocks that covers what it covers.
  ghost predicate UniqueSmallest(k: seq<Block>)
  {
    forall c :: AllWf(c) && SameUnion(k, c) ==> |k| <= |c| && (|k| == |c| ==> SameMembers(k, c))
  }

  lemma CanonicalIsSmallest(k: seq<Block>)
    requires Canonical(k)
    ensures UniqueSmallest(k)
  {
    forall c | AllWf(c) && SameUnion(k, c)
      ensures |k| <= |c| && (|k| == |c| ==> SameMembers(k, c))
    {
      CanonicalIsUniqueSmallest(k, c);
    }
  }
}
