// From the apps without traffic to deny rules: chunking, and the actors of each rule.
module DenyChunks {

  const MAX_APPS_PER_RULE: nat := 198

  function Concat<T>(chunks: seq<seq<T>>): seq<T>
  {
    if chunks == [] then [] else chunks[0] + Concat(chunks[1..])
  }

  lemma {:induction false} ConcatSnoc<T>(chunks: seq<seq<T>>, c: seq<T>)
    ensures Concat(chunks + [c]) == Concat(chunks) + c
  {
    if chunks == [] {
      assert [c][1..] == [];
    } else {
      assert (chunks + [c])[1..] == chunks[1..] + [c];
      ConcatSnoc(chunks[1..], c);
    }
  }

  // What a split of apps into chunks of at most n promises: nothing lost or reordered, every
  // chunk but the last one full, no chunk empty. For n <= 0 there are no chunks at all.
  ghost predicate IsChunking<T>(chunks: seq<seq<T>>, apps: seq<T>, n: int)
  {
    if n <= 0 then chunks == []
    else
      && Concat(chunks) == apps
      && (forall k :: 0 <= k < |chunks| ==> 0 < |chunks[k]| <= n)
      && (forall k :: 0 <= k < |chunks| - 1 ==> |chunks[k]| == n)
  }

  method ChunkApps<T>(apps: seq<T>, n: int) returns (chunks: seq<seq<T>>)
    ensures IsChunking(chunks, apps, n)
  {
    if |apps| == 0 || n <= 0 {
      return [];
    }
    chunks := [];
    var i := 0;
    while i < |apps|
      invariant 0 <= i
      invariant Concat(chunks) == apps[..if i < |apps| then i else |apps|]
      invariant forall k :: 0 <= k < |chunks| ==> 0 < |chunks[k]| <= n
      invariant forall k :: 0 <= k < |chunks| && (i < |apps| || k < |chunks| - 1) ==> |chunks[k]| == n
      decreases |apps| - i
    {
      var end := i + n;
      if end > |apps| {
        end := |apps|;
      }
      ConcatSnoc(chunks, apps[i..end]);
      assert apps[..end] == apps[..i] + apps[i..end];
      chunks := chunks + [apps[i..end]];
      i := i + n;
    }
  }

  // A chunking is unique, and has ceil(|apps| / n) chunks.
  lemma {:induction false} ChunkCount<T>(chunks: seq<seq<T>>, apps: seq<T>, n: int)
    requires n > 0 && IsChunking(chunks, apps, n)
    ensures n * (|chunks| - 1) < |apps| <= n * |chunks| || (chunks == [] && apps == [])
    ensures |chunks| == (|apps| + n - 1) / n
  {
    ChunkBounds(chunks, apps, n);
    Ceiling(|apps|, n, |chunks|);
  }

  lemma {:induction false} ChunkBounds<T>(chunks: seq<seq<T>>, apps: seq<T>, n: int)
    requires n > 0 && IsChunking(chunks, apps, n)
    ensures n * (|chunks| - 1) < |apps| <= n * |chunks| || (chunks == [] && apps == [])
    decreases |chunks|
  {
    if chunks != [] {
      var rest := chunks[1..];
      assert IsChunking(rest, Concat(rest), n);
      ChunkBounds(rest, Concat(rest), n);
      assert n * |chunks| == n * |rest| + n;
    }
  }

  lemma Ceiling(len: nat, n: int, k: nat)
    requires n > 0 && (n * (k - 1) < len <= n * k || (k == 0 && len == 0))
    ensures (len + n - 1) / n == k
  {
    var r := len + n - 1 - n * k;
    assert n * (k - 1) == n * k - n;
    assert 0 <= r < n;
    DivUnique(n, k, r);
  }

  lemma DivUnique(n: int, k: nat, r: int)
    requires 0 <= r < n
    ensures (n * k + r) / n == k
  {
    var q := (n * k + r) / n;
    assert n * q <= n * k + r < n * q + n;
    assert n * (q - k) == n * q - n * k;
    SmallMultiple(n, q - k);
  }

  lemma SmallMultiple(n: int, d: int)
    requires -n < n * d < n
    ensures d == 0
  {
    assert d >= 1 ==> n * d >= n;
    assert d <= -1 ==> n * d <= -n;
  }

  // The chunks as a function.
  function Chunks<T>(apps: seq<T>, n: int): (chunks: seq<seq<T>>)
    decreases |apps|
  {
    if |apps| == 0 || n <= 0 then []
    else if |apps| <= n then [apps]
    else [apps[..n]] + Chunks(apps[n..], n)
  }

  lemma {:induction false} ChunksAreChunking<T>(apps: seq<T>, n: int)
    ensures IsChunking(Chunks(apps, n), apps, n)
    decreases |apps|
  {
    if n > 0 && |apps| > n {
      ChunksAreChunking(apps[n..], n);
      assert apps == apps[..n] + apps[n..];
      assert Chunks(apps, n)[1..] == Chunks(apps[n..], n);
    }
  }

  // There is only one way to chunk.
  lemma {:induction false} ChunkingIsUnique<T>(chunks: seq<seq<T>>, apps: seq<T>, n: int)
    requires IsChunking(chunks, apps, n)
    ensures chunks == Chunks(apps, n)
    decreases |chunks|
  {
    if n > 0 && chunks != [] {
      var rest := chunks[1..];
      assert chunks == [chunks[0]] + rest;
      assert apps[|chunks[0]|..] == Concat(rest);
      ChunkingIsUnique(rest, Concat(rest), n);
      if rest == [] {
        assert apps == chunks[0];
      } else {
        assert rest[0] == chunks[1];
        assert apps[..n] == chunks[0];
      }
    }
  }
}
