// What several models need: an option, and facts about sequences and sets.
module Seqs {

  datatype Option<T> = None | Some(value: T)

  predicate Distinct<T(==)>(s: seq<T>)
  {
    forall i, j :: 0 <= i < j < |s| ==> s[i] != s[j]
  }

  lemma JoinRegroups<T>(a: seq<T>, b: seq<T>, c: seq<T>)
    ensures a + (b + c) == a + b + c
  {
  }

  lemma TakeNext<T>(a: seq<T>, s: seq<T>, i: nat)
    requires i < |s|
    ensures a + s[..i] + [s[i]] == a + s[..i + 1]
  {
  }

  function Members<T>(s: seq<T>): set<T>
  {
    set x | x in s
  }

  lemma MembersStep<T>(s: seq<T>, i: nat)
    requires i < |s|
    ensures Members(s[..i + 1]) == Members(s[..i]) + {s[i]}
  {
    assert s[..i + 1] == s[..i] + [s[i]];
  }

  lemma MembersSnoc<T>(s: seq<T>, x: T)
    ensures Members(s + [x]) == Members(s) + {x}
  {
  }

  function Images<T, K>(s: seq<T>, key: T -> K): (r: seq<K>)
    ensures |r| == |s| && forall i {:trigger r[i]} :: 0 <= i < |r| ==> r[i] == key(s[i])
  {
    seq(|s|, i requires 0 <= i < |s| => key(s[i]))
  }

  lemma KeyHasMember<T, K>(s: seq<T>, key: T -> K, x: T, t: seq<T>) returns (y: T)
    requires x in s && Members(Images(s, key)) == Members(Images(t, key))
    ensures y in t && key(y) == key(x)
  {
    var i :| 0 <= i < |s| && s[i] == x;
    assert Images(s, key)[i] in Members(Images(s, key));
    var j :| 0 <= j < |t| && Images(t, key)[j] == key(x);
    y := t[j];
  }

  // Two lists with the same keys have the same members exactly when of any two members that
  // clash, different ones of one key, one from each list, both are in both lists.
  lemma SameByKey<T, K>(s: seq<T>, t: seq<T>, key: T -> K, clash: (T, T) -> bool)
    requires forall x, y :: key(x) == key(y) <==> x == y || clash(x, y)
    ensures Members(s) == Members(t) <==>
            Members(Images(s, key)) == Members(Images(t, key))
            && forall x, y :: x in s && y in t && clash(x, y) ==> x in t && y in s
  {
    if Members(s) == Members(t) {
      SameImages(s, t, key);
      SameImages(t, s, key);
      assert forall x :: x in s <==> x in Members(s);
      assert forall x :: x in t <==> x in Members(t);
    }
    if Members(Images(s, key)) == Members(Images(t, key))
       && forall x, y :: x in s && y in t && clash(x, y) ==> x in t && y in s {
      forall x | x in s
        ensures x in t
      {
        var y := KeyHasMember(s, key, x, t);
      }
      forall y | y in t
        ensures y in s
      {
        var x := KeyHasMember(t, key, y, s);
        assert key(x) == key(y);
      }
    }
  }

  lemma SameImages<T, K>(s: seq<T>, t: seq<T>, key: T -> K)
    requires Members(s) <= Members(t)
    ensures Members(Images(s, key)) <= Members(Images(t, key))
  {
    forall i | 0 <= i < |s|
      ensures Images(s, key)[i] in Images(t, key)
    {
      assert s[i] in Members(s);
      var j :| 0 <= j < |t| && t[j] == s[i];
      assert Images(t, key)[j] == key(s[i]);
    }
  }

  // Is some key of one map not in the other? Goes through all keys, in any order.
  method AnyMissing<T(==)>(keys: set<T>, others: set<T>) returns (missing: bool)
    ensures missing <==> !(keys <= others)
  {
    missing := false;
    var todo := keys;
    while todo != {}
      invariant todo <= keys
      invariant missing <==> !(keys - todo <= others)
      decreases |todo|
    {
      var k :| k in todo;
      todo := todo - {k};
      if k !in others {
        missing := true;
      }
    }
  }

  // Do two maps differ in their keys?
  method KeysDiffer<T(==)>(keys: set<T>, others: set<T>) returns (differ: bool)
    ensures differ <==> keys != others
  {
    var added := AnyMissing(keys, others);
    var removed := AnyMissing(others, keys);
    differ := added || removed;
  }
}
