// The string functions of Go that the CSV cells are printed and parsed with; a char is one byte.
module Text {
  import opened Seqs

  // ---------- split and join ----------

  // strings.Join.
  function Join(parts: seq<string>, sep: char): string
  {
    if parts == [] then "" else if |parts| == 1 then parts[0] else parts[0] + [sep] + Join(parts[1..], sep)
  }

  // strings.Split; never empty.
  function Split(s: string, sep: char): (r: seq<string>)
    ensures r != []
  {
    if s == "" then [""]
    else
      var rest := Split(s[1..], sep);
      if s[0] == sep then [""] + rest else [[s[0]] + rest[0]] + rest[1..]
  }

  lemma {:induction false} JoinOfSplit(s: string, sep: char)
    ensures Join(Split(s, sep), sep) == s
  {
    if s != "" {
      JoinOfSplit(s[1..], sep);
      var rest := Split(s[1..], sep);
      if s[0] == sep {
        assert ([""] + rest)[1..] == rest;
        assert s == [sep] + s[1..];
      } else {
        var r := [[s[0]] + rest[0]] + rest[1..];
        assert r[1..] == rest[1..] && |r| == |rest|;
        assert s == [s[0]] + s[1..];
      }
    }
  }

  lemma {:induction false} SplitPartsLackSep(s: string, sep: char)
    ensures forall p :: p in Split(s, sep) ==> sep !in p
  {
    if s != "" {
      SplitPartsLackSep(s[1..], sep);
    }
  }

  lemma {:induction false} SplitOfPart(p: string, sep: char)
    requires sep !in p
    ensures Split(p, sep) == [p]
  {
    if p != "" {
      SplitOfPart(p[1..], sep);
      assert [p[0]] + p[1..] == p;
    }
  }

  lemma {:induction false} SplitAtSep(p: string, t: string, sep: char)
    requires sep !in p
    ensures Split(p + [sep] + t, sep) == [p] + Split(t, sep)
  {
    if p == "" {
      assert ([sep] + t)[1..] == t && "" + [sep] + t == [sep] + t;
    } else {
      assert (p + [sep] + t)[1..] == p[1..] + [sep] + t;
      SplitAtSep(p[1..], t, sep);
      assert [p[0]] + p[1..] == p;
    }
  }

  // Splitting undoes joining exactly when there are parts and none holds the separator.
  lemma {:induction false} SplitOfJoin(parts: seq<string>, sep: char)
    ensures Split(Join(parts, sep), sep) == parts <==> parts != [] && forall p :: p in parts ==> sep !in p
  {
    if parts != [] && forall p :: p in parts ==> sep !in p {
      SplitOfGoodJoin(parts, sep);
    }
    SplitPartsLackSep(Join(parts, sep), sep);
  }

  lemma {:induction false} SplitOfGoodJoin(parts: seq<string>, sep: char)
    requires parts != [] && forall p :: p in parts ==> sep !in p
    ensures Split(Join(parts, sep), sep) == parts
  {
    if |parts| == 1 {
      SplitOfPart(parts[0], sep);
    } else {
      assert parts == [parts[0]] + parts[1..];
      SplitOfGoodJoin(parts[1..], sep);
      SplitAtSep(parts[0], Join(parts[1..], sep), sep);
    }
  }

  lemma {:induction false} SingleSplit(s: string, sep: char)
    ensures |Split(s, sep)| == 1 <==> sep !in s
  {
    if s != "" {
      SingleSplit(s[1..], sep);
      assert s == [s[0]] + s[1..];
    }
  }

  // ---------- removing and replacing ----------

  // strings.ReplaceAll(s, sep + " ", sep).
  function DropSpaceAfter(s: string, sep: char): (r: string)
    ensures |r| <= |s|
  {
    if s == "" then ""
    else if |s| >= 2 && s[0] == sep && s[1] == ' ' then [sep] + DropSpaceAfter(s[2..], sep)
    else [s[0]] + DropSpaceAfter(s[1..], sep)
  }

  predicate SpaceAfter(s: string, sep: char)
  {
    exists i :: 0 <= i < |s| - 1 && s[i] == sep && s[i + 1] == ' '
  }

  lemma {:induction false} DropSpaceIsIdentity(s: string, sep: char)
    ensures DropSpaceAfter(s, sep) == s <==> !SpaceAfter(s, sep)
    ensures SpaceAfter(s, sep) ==> |DropSpaceAfter(s, sep)| < |s|
  {
    if s != "" {
      var t := s[1..];
      assert s == [s[0]] + t;
      DropSpaceIsIdentity(t, sep);
      if |s| >= 2 && s[0] == sep && s[1] == ' ' {
        assert s[0 + 1] == ' ';
      } else {
        assert SpaceAfter(s, sep) <==> SpaceAfter(t, sep) by {
          if SpaceAfter(s, sep) {
            var i :| 0 <= i < |s| - 1 && s[i] == sep && s[i + 1] == ' ';
            assert t[i - 1] == sep && t[i - 1 + 1] == ' ';
          }
          if SpaceAfter(t, sep) {
            var i :| 0 <= i < |t| - 1 && t[i] == sep && t[i + 1] == ' ';
            assert s[i + 1] == sep && s[i + 1 + 1] == ' ';
          }
        }
        assert DropSpaceAfter(s, sep)[1..] == DropSpaceAfter(t, sep);
      }
    }
  }

  // strings.ReplaceAll(s, c, "").
  function Without(s: string, c: char): (r: string)
    ensures c !in r
  {
    if s == "" then "" else if s[0] == c then Without(s[1..], c) else [s[0]] + Without(s[1..], c)
  }

  lemma {:induction false} WithoutAppend(s: string, t: string, c: char)
    ensures Without(s + t, c) == Without(s, c) + Without(t, c)
  {
    if s == "" {
      assert s + t == t;
    } else {
      assert (s + t)[1..] == s[1..] + t;
      WithoutAppend(s[1..], t, c);
    }
  }

  lemma {:induction false} WithoutIsIdentity(s: string, c: char)
    ensures Without(s, c) == s <==> c !in s
  {
    if s != "" {
      WithoutIsIdentity(s[1..], c);
      assert s == [s[0]] + s[1..];
    }
  }

  // strings.Count of one char.
  function Count(s: string, c: char): nat
  {
    if s == "" then 0 else Count(s[1..], c) + (if s[0] == c then 1 else 0)
  }

  lemma {:induction false} CountAppend(s: string, t: string, c: char)
    ensures Count(s + t, c) == Count(s, c) + Count(t, c)
  {
    if s == "" {
      assert s + t == t;
    } else {
      assert (s + t)[1..] == s[1..] + t;
      CountAppend(s[1..], t, c);
    }
  }

  lemma {:induction false} CountZero(s: string, c: char)
    ensures Count(s, c) == 0 <==> c !in s
  {
    if s != "" {
      CountZero(s[1..], c);
    }
  }

  lemma CountOnce(s: string, t: string, c: char)
    requires c !in s && c !in t
    ensures Count(s + [c] + t, c) == 1
  {
    CountAppend(s + [c], t, c);
    CountAppend(s, [c], c);
    CountZero(s, c);
    CountZero(t, c);
  }

  lemma {:induction false} WithoutOnce(s: string, t: string, c: char)
    requires c !in s && c !in t
    ensures Without(s + [c] + t, c) == s + t
  {
    if s == "" {
      assert ("" + [c] + t)[1..] == t && "" + t == t;
      WithoutIsIdentity(t, c);
    } else {
      assert (s + [c] + t)[1..] == s[1..] + [c] + t;
      WithoutOnce(s[1..], t, c);
      assert [s[0]] + (s[1..] + t) == s + t;
    }
  }

  // ---------- cells: parts joined by ';', read back with "; " taken for ";" ----------

  function ReadCell(cell: string): seq<string>
  {
    if cell == "" then [] else Split(DropSpaceAfter(cell, ';'), ';')
  }

  predicate StartsWith(p: string, c: char)
  {
    p != "" && p[0] == c
  }

  // In a joined cell a space follows a separator exactly where a part begins with one.
  lemma {:induction false} SpaceAfterInJoin(parts: seq<string>)
    requires forall p :: p in parts ==> ';' !in p
    ensures SpaceAfter(Join(parts, ';'), ';') <==> exists i :: 1 <= i < |parts| && StartsWith(parts[i], ' ')
  {
    if |parts| == 1 {
      assert parts[0] in parts;
      assert forall i :: 0 <= i < |parts[0]| ==> parts[0][i] in parts[0];
    }
    if |parts| > 1 {
      var rest := parts[1..];
      var tail := Join(rest, ';');
      var s := parts[0] + [';'] + tail;
      SpaceAfterInJoin(rest);
      assert parts[0] in parts;
      if SpaceAfter(s, ';') {
        var i :| 0 <= i < |s| - 1 && s[i] == ';' && s[i + 1] == ' ';
        if i > |parts[0]| {
          assert tail[i - |parts[0]| - 1] == ';' && tail[i - |parts[0]| - 1 + 1] == ' ';
          assert SpaceAfter(tail, ';');
          var j :| 1 <= j < |rest| && StartsWith(rest[j], ' ');
          assert StartsWith(parts[j + 1], ' ');
        } else {
          assert i == |parts[0]|;
          assert StartsWith(parts[1], ' ');
        }
      }
      if j :| 1 <= j < |parts| && StartsWith(parts[j], ' ') {
        if j == 1 {
          assert s[|parts[0]|] == ';' && s[|parts[0]| + 1] == ' ';
        } else {
          assert StartsWith(rest[j - 1], ' ');
          var i :| 0 <= i < |tail| - 1 && tail[i] == ';' && tail[i + 1] == ' ';
          assert s[i + |parts[0]| + 1] == ';' && s[i + |parts[0]| + 1 + 1] == ' ';
        }
      }
    }
  }

  // Reading a cell gives back the joined parts exactly when no part holds a ';', only the
  // first may begin with a space, and the parts are not one empty part.
  lemma ReadOfJoin(parts: seq<string>)
    ensures ReadCell(Join(parts, ';')) == parts <==>
            && parts != [""]
            && (forall p :: p in parts ==> ';' !in p)
            && (forall i :: 1 <= i < |parts| ==> !StartsWith(parts[i], ' '))
  {
    var cell := Join(parts, ';');
    var read := DropSpaceAfter(cell, ';');
    SplitPartsLackSep(read, ';');
    JoinOfSplit(read, ';');
    DropSpaceIsIdentity(cell, ';');
    SplitOfJoin(parts, ';');
    if forall p :: p in parts ==> ';' !in p {
      SpaceAfterInJoin(parts);
    }
  }

  function Unspaced(p: string): string
  {
    if StartsWith(p, ' ') then p[1..] else p
  }

  function UnspacedAll(parts: seq<string>): (r: seq<string>)
    ensures |r| == |parts| && forall i {:trigger r[i]} :: 0 <= i < |r| ==> r[i] == Unspaced(parts[i])
  {
    seq(|parts|, i requires 0 <= i < |parts| => Unspaced(parts[i]))
  }

  lemma DropAtSep(t: string)
    ensures DropSpaceAfter([';'] + t, ';') == [';'] + DropSpaceAfter(Unspaced(t), ';')
  {
    var s := [';'] + t;
    assert s[1..] == t && (t != "" ==> s[1] == t[0] && s[2..] == t[1..]);
  }

  lemma DropPlain(c: char, t: string)
    requires c != ';'
    ensures DropSpaceAfter([c] + t, ';') == [c] + DropSpaceAfter(t, ';')
  {
    assert ([c] + t)[1..] == t;
  }

  lemma {:induction false} DropAfterPart(p: string, t: string)
    requires ';' !in p
    ensures DropSpaceAfter(p + ([';'] + t), ';') == p + ([';'] + DropSpaceAfter(Unspaced(t), ';'))
  {
    if p == "" {
      DropAtSep(t);
      assert p + ([';'] + t) == [';'] + t;
    } else {
      DropAfterPart(p[1..], t);
      DropPlain(p[0], p[1..] + ([';'] + t));
      Uncons(p, [';'] + t);
      Uncons(p, [';'] + DropSpaceAfter(Unspaced(t), ';'));
    }
  }

  lemma Uncons(p: string, t: string)
    requires p != ""
    ensures p + t == [p[0]] + (p[1..] + t)
  {
  }

  lemma UnspacedJoin(parts: seq<string>)
    requires parts != []
    ensures Unspaced(Join(parts, ';')) == Join([Unspaced(parts[0])] + parts[1..], ';')
  {
    var more := [Unspaced(parts[0])] + parts[1..];
    assert more[1..] == parts[1..];
  }

  lemma JoinCons(first: string, rest: seq<string>)
    requires rest != []
    ensures Join([first] + rest, ';') == first + ([';'] + Join(rest, ';'))
  {
    assert ([first] + rest)[1..] == rest;
  }

  lemma UnspacedCons(rest: seq<string>)
    requires rest != []
    ensures [Unspaced(rest[0])] + UnspacedAll(rest[1..]) == UnspacedAll(rest)
    ensures ';' !in rest[0] ==> ';' !in Unspaced(rest[0])
  {
  }

  lemma {:induction false} DropInJoin(first: string, rest: seq<string>)
    requires ';' !in first && forall i :: 0 <= i < |rest| ==> ';' !in rest[i]
    ensures DropSpaceAfter(Join([first] + rest, ';'), ';') == Join([first] + UnspacedAll(rest), ';')
    decreases |rest|
  {
    if rest == [] {
      assert [first] + UnspacedAll(rest) == [first] == [first] + rest;
      DropSpaceIsIdentity(first, ';');
      assert forall i :: 0 <= i < |first| ==> first[i] in first;
    } else {
      JoinCons(first, rest);
      DropAfterPart(first, Join(rest, ';'));
      UnspacedJoin(rest);
      UnspacedCons(rest);
      DropInJoin(Unspaced(rest[0]), rest[1..]);
      JoinCons(first, UnspacedAll(rest));
    }
  }

  // Of any cell the parts between the separators are read, each but the first without the one
  // space it may begin with.
  lemma CellParts(parts: seq<string>)
    requires parts != [] && parts != [""] && forall p :: p in parts ==> ';' !in p
    ensures ReadCell(Join(parts, ';')) == [parts[0]] + UnspacedAll(parts[1..])
  {
    var r := [parts[0]] + UnspacedAll(parts[1..]);
    assert forall i :: 0 <= i < |parts| ==> parts[i] in parts;
    assert [parts[0]] + parts[1..] == parts;
    DropInJoin(parts[0], parts[1..]);
    forall i | 0 <= i < |r|
      ensures ';' !in r[i]
    {
    }
    SplitOfJoin(r, ';');
    assert |parts| == 1 ==> parts == [parts[0]];
  }

  // ---------- numbers ----------

  // The largest int of a 64-bit platform.
  const MAX_INT: int := 0x7fff_ffff_ffff_ffff

  predicate Digit(c: char)
  {
    '0' <= c <= '9'
  }

  function DigitOf(n: nat): (c: char)
    requires n < 10
    ensures Digit(c) && c as int - '0' as int == n
  {
    '0' + n as char
  }

  // strconv.Itoa of a number that is not negative.
  function Itoa(n: nat): (s: string)
    ensures s != "" && forall c :: c in s ==> Digit(c)
  {
    if n < 10 then [DigitOf(n)] else Itoa(n / 10) + [DigitOf(n % 10)]
  }

  function Digits(s: string): nat
    requires forall c :: c in s ==> Digit(c)
  {
    if s == "" then 0
    else
      assert Digit(s[|s| - 1]) by { assert s[|s| - 1] in s; }
      10 * Digits(s[..|s| - 1]) + (s[|s| - 1] as int - '0' as int)
  }

  // strconv.Atoi: an optional sign, digits, in the range of an int.
  function Atoi(s: string): Option<int>
  {
    var neg := StartsWith(s, '-');
    var t := if neg || StartsWith(s, '+') then s[1..] else s;
    if t == "" || exists c :: c in t && !Digit(c) then None
    else
      var d: int := Digits(t);
      var n := if neg then -d else d;
      if -1 - MAX_INT <= n <= MAX_INT then Some(n) else None
  }

  lemma {:induction false} DigitsOfItoa(n: nat)
    ensures Digits(Itoa(n)) == n
  {
    if n >= 10 {
      DigitsOfItoa(n / 10);
      assert Itoa(n)[..|Itoa(n)| - 1] == Itoa(n / 10);
    } else {
      assert Itoa(n)[..0] == "";
    }
  }

  // Parsing undoes printing.
  lemma AtoiOfItoa(n: nat)
    requires n <= MAX_INT
    ensures Atoi(Itoa(n)) == Some(n)
  {
    DigitsOfItoa(n);
    assert Digit(Itoa(n)[0]) by {
      assert Itoa(n)[0] in Itoa(n);
    }
  }

  predicate Zeros(z: string)
  {
    forall c :: c in z ==> c == '0'
  }

  // Leading zeros do not count.
  lemma {:induction false} DigitsAfterZeros(z: string, t: string)
    requires Zeros(z) && forall c :: c in t ==> Digit(c)
    ensures (forall c :: c in z + t ==> Digit(c)) && Digits(z + t) == Digits(t)
    decreases |z| + |t|
  {
    var s := z + t;
    if s != "" {
      var n := |s| - 1;
      if t == "" {
        assert z[..n] + "" == s[..n] && s[n] == z[n] && z[n] in z;
        assert forall c :: c in z[..n] ==> c in z;
        DigitsAfterZeros(z[..n], "");
      } else {
        assert s[..n] == z + t[..|t| - 1] && s[n] == t[|t| - 1];
        DigitsAfterZeros(z, t[..|t| - 1]);
      }
    }
  }

  // A string of digits is zeros and then the number as it is printed.
  lemma {:induction false} DigitsSpell(t: string) returns (z: string)
    requires t != "" && forall c :: c in t ==> Digit(c)
    ensures Zeros(z) && t == z + Itoa(Digits(t))
  {
    var n := |t| - 1;
    var front, d := t[..n], t[n] as int - '0' as int;
    assert t[n] in t && t == front + [t[n]];
    assert Itoa(d) == [t[n]];
    if n == 0 {
      assert Digits(front) == 0;
      z := "";
    } else {
      z := DigitsSpell(front);
      if Digits(front) == 0 {
        assert Itoa(0) == "0" && t == (z + "0") + [t[n]];
        z := z + "0";
      }
    }
  }

  predicate Unsigned(t: string, n: nat)
  {
    t != "" && (forall c :: c in t ==> Digit(c)) && Digits(t) == n
  }

  // n printed, after any zeros.
  ghost predicate Spelled(t: string, n: nat)
  {
    exists z :: Zeros(z) && t == z + Itoa(n)
  }

  lemma UnsignedIsSpelled(t: string, n: nat)
    ensures Unsigned(t, n) <==> Spelled(t, n)
    ensures Spelled(t, n) ==> !StartsWith(t, '-') && !StartsWith(t, '+')
  {
    if Unsigned(t, n) {
      var z := DigitsSpell(t);
    }
    if z :| Zeros(z) && t == z + Itoa(n) {
      DigitsAfterZeros(z, Itoa(n));
      DigitsOfItoa(n);
      assert t[0] in t;
    }
  }

  // A text is read as n exactly when it spells n, after a sign or not, and n fits an int.
  lemma AtoiDecides(s: string, n: int)
    ensures Atoi(s) == Some(n) <==>
            && -0x8000_0000_0000_0000 <= n <= 0x7fff_ffff_ffff_ffff
            && if StartsWith(s, '-') then n <= 0 && Spelled(s[1..], -n)
               else n >= 0 && Spelled(if StartsWith(s, '+') then s[1..] else s, n)
  {
    var t := if StartsWith(s, '-') || StartsWith(s, '+') then s[1..] else s;
    UnsignedIsSpelled(t, if n >= 0 then n else -n);
  }

  // Different numbers print differently.
  lemma ItoaInjective(m: nat, n: nat)
    requires Itoa(m) == Itoa(n)
    ensures m == n
  {
    DigitsOfItoa(m);
    DigitsOfItoa(n);
  }

  // strconv.Itoa, and "%d".
  function ItoaInt(n: int): (s: string)
    ensures s != ""
  {
    if n < 0 then "-" + Itoa(-n) else Itoa(n)
  }

  lemma AtoiOfItoaInt(n: int)
    requires -MAX_INT <= n <= MAX_INT
    ensures Atoi(ItoaInt(n)) == Some(n)
  {
    if n < 0 {
      DigitsOfItoa(-n);
      assert ItoaInt(n)[1..] == Itoa(-n);
    } else {
      AtoiOfItoa(n);
    }
  }

  // ---------- numbers joined by dashes ----------

  lemma ItoaIntPlain(n: int)
    requires n >= 0
    ensures ' ' !in ItoaInt(n) && '-' !in ItoaInt(n) && ItoaInt(n) != "" && Digit(ItoaInt(n)[0])
  {
    assert ItoaInt(n)[0] in Itoa(n);
  }

  lemma HeadsDecide(a: string, s: string, b: string, t: string)
    requires '-' !in a && '-' !in b && a + "-" + s == b + "-" + t
    ensures a == b && s == t
  {
    assert a + "-" + s == a + ['-'] + s && b + "-" + t == b + ['-'] + t;
    SplitAtSep(a, s, '-');
    SplitAtSep(b, t, '-');
    assert ([a] + Split(s, '-'))[0] == a && ([b] + Split(t, '-'))[0] == b;
    SameHead(a, s, t);
  }

  lemma SameHead(h: string, s: string, t: string)
    requires h + "-" + s == h + "-" + t
    ensures s == t
  {
    assert (h + "-" + s)[|h| + 1..] == s && (h + "-" + t)[|h| + 1..] == t;
  }

  lemma NumberHeads(m: int, s: string, n: int, t: string)
    requires m >= 0 && n >= 0 && ItoaInt(m) + "-" + s == ItoaInt(n) + "-" + t
    ensures m == n && s == t
  {
    ItoaIntPlain(m);
    ItoaIntPlain(n);
    HeadsDecide(ItoaInt(m), s, ItoaInt(n), t);
    ItoaInjective(m, n);
  }

  lemma IntHeads(m: int, s: string, n: int, t: string)
    requires ItoaInt(m) + "-" + s == ItoaInt(n) + "-" + t
    ensures m == n && s == t
  {
    var x, y := ItoaInt(m) + "-" + s, ItoaInt(n) + "-" + t;
    FirstOfInt(m);
    FirstOfInt(n);
    assert x[0] == y[0];
    if m >= 0 {
      NumberHeads(m, s, n, t);
    } else {
      PastSign(m, s);
      PastSign(n, t);
      NumberHeads(-m, s, -n, t);
    }
  }

  lemma PastSign(n: int, s: string)
    requires n < 0
    ensures (ItoaInt(n) + "-" + s)[1..] == ItoaInt(-n) + "-" + s
  {
    assert ItoaInt(n)[1..] == Itoa(-n);
  }

  lemma FirstOfInt(n: int)
    ensures ItoaInt(n)[0] == '-' <==> n < 0
  {
    if n >= 0 {
      ItoaIntPlain(n);
    }
  }

  lemma {:induction false} SplitBeforeLast(s: string, p: string, sep: char)
    requires sep !in p
    ensures Split(s + [sep] + p, sep) == Split(s, sep) + [p]
  {
    if s == "" {
      SplitAtSep("", p, sep);
      SplitOfPart(p, sep);
    } else {
      assert (s + [sep] + p)[1..] == s[1..] + [sep] + p;
      SplitBeforeLast(s[1..], p, sep);
    }
  }

  lemma TailsDecide(s: string, a: string, t: string, b: string)
    requires '-' !in a && '-' !in b && s + "-" + a == t + "-" + b
    ensures s == t && a == b
  {
    assert s + "-" + a == s + ['-'] + a && t + "-" + b == t + ['-'] + b;
    SplitBeforeLast(s, a, '-');
    SplitBeforeLast(t, b, '-');
    LastPart(Split(s, '-'), a, Split(t, '-'), b);
    assert (s + "-" + a)[..|s|] == s && (t + "-" + b)[..|t|] == t;
  }

  lemma LastPart(s: seq<string>, a: string, t: seq<string>, b: string)
    requires s + [a] == t + [b]
    ensures a == b
  {
    assert (s + [a])[|s + [a]| - 1] == a && (t + [b])[|t + [b]| - 1] == b;
  }

  lemma ItoaIntInjective(m: int, n: int)
    requires ItoaInt(m) == ItoaInt(n)
    ensures m == n
  {
    assert ItoaInt(m) + "-" + "" == ItoaInt(n) + "-" + "";
    IntHeads(m, "", n, "");
  }

  // ---------- case ----------

  function LowerChar(c: char): (l: char)
    ensures 'A' <= c <= 'Z' ==> l as int == c as int + 32
  {
    if 'A' <= c <= 'Z' then 'a' + (c - 'A') else c
  }

  // strings.ToLower on ASCII.
  function ToLower(s: string): (r: string)
    ensures |r| == |s| && forall i :: 0 <= i < |s| ==> r[i] == LowerChar(s[i])
  {
    seq(|s|, i requires 0 <= i < |s| => LowerChar(s[i]))
  }
}
