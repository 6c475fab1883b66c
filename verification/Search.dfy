/** First-occurrence search and splitting, as strings.Index and strings.Split of Go. */
module Search {
  import opened Bytes

  predicate At(s: bytes, pat: bytes, i: int) {
    0 <= i && i + |pat| <= |s| && s[i..i + |pat|] == pat
  }

  ghost predicate Contains(s: bytes, pat: bytes) {
    exists i :: At(s, pat, i)
  }

  function IndexFrom(s: bytes, pat: bytes, from: nat): (r: int)
    ensures r == -1 ==> forall j :: from <= j ==> !At(s, pat, j)
    ensures r != -1 ==> r >= from && At(s, pat, r) && forall j :: from <= j < r ==> !At(s, pat, j)
    decreases |s| - from
  {
    if from + |pat| > |s| then -1
    else if s[from..from + |pat|] == pat then from
    else IndexFrom(s, pat, from + 1)
  }

  /** The first occurrence of `pat`, or -1. */
  function Index(s: bytes, pat: bytes): (r: int)
    ensures r == -1 <==> !Contains(s, pat)
    ensures r != -1 ==> At(s, pat, r) && forall j :: 0 <= j < r ==> !At(s, pat, j)
  {
    var r := IndexFrom(s, pat, 0);
    assert forall j {:trigger At(s, pat, j)} :: j < 0 ==> !At(s, pat, j);
    r
  }

  /** The first occurrence, without a search. */
  ghost predicate First(s: bytes, pat: bytes, i: int) {
    At(s, pat, i) && forall j :: 0 <= j < i ==> !At(s, pat, j)
  }

  lemma FirstIsIndex(s: bytes, pat: bytes, i: int)
    ensures First(s, pat, i) <==> i == Index(s, pat) && Contains(s, pat)
  {
  }

  function Split(s: bytes, sep: bytes): (parts: seq<bytes>)
    requires sep != []
    ensures parts != []
  {
    var i := Index(s, sep);
    if i == -1 then [s] else [s[..i]] + Split(s[i + |sep|..], sep)
  }

  // ---------- Where a delimiter is found first ----------

  lemma AtShift(a: bytes, b: bytes, pat: bytes, i: int)
    requires i >= 0
    ensures At(a + b, pat, |a| + i) == At(b, pat, i)
  {
    if i + |pat| <= |b| {
      assert (a + b)[|a| + i..|a| + i + |pat|] == b[i..i + |pat|];
    }
  }

  lemma AtPrefix(a: bytes, b: bytes, pat: bytes, i: int)
    requires 0 <= i && i + |pat| <= |a|
    ensures At(a + b, pat, i) == At(a, pat, i)
  {
    assert (a + b)[i..i + |pat|] == a[i..i + |pat|];
  }

  /** A delimiter written after `x` is found there if and only if neither `x` contains it nor an
      occurrence straddles the two; what follows does not matter. */
  lemma FoundWhereWritten(x: bytes, sep: bytes, y: bytes)
    requires sep != []
    ensures Index(x + sep + y, sep) == |x| <==> !Contains(x + sep[..|sep| - 1], sep)
    ensures 0 <= Index(x + sep + y, sep) <= |x|
  {
    var s := x + sep + y;
    var head, tail := x + sep[..|sep| - 1], sep[|sep| - 1..] + y;
    assert s == head + tail;
    assert At(s, sep, |x|);
    forall i
      ensures At(head, sep, i) <==> At(s, sep, i) && i < |x|
    {
      if 0 <= i < |x| {
        AtPrefix(head, tail, sep, i);
      }
    }
  }

  lemma OutsideGap(a: bytes, gap: bytes, b: bytes, pat: bytes, i: int, k: int)
    requires forall c :: c in gap ==> c !in pat
    requires At(a + gap + b, pat, i) && i <= k < i + |pat|
    ensures k < |a| || |a| + |gap| <= k
  {
    var s := a + gap + b;
    assert s[k] == s[i..i + |pat|][k - i] == pat[k - i];
    assert pat[k - i] !in gap;
  }

  lemma BesideGap(a: bytes, gap: bytes, b: bytes, pat: bytes, i: int)
    requires gap != [] && pat != [] && forall c :: c in gap ==> c !in pat
    requires At(a + gap + b, pat, i)
    ensures i + |pat| <= |a| || |a| + |gap| <= i
  {
    var k := if i < |a| then |a| else i;
    if k < i + |pat| {
      OutsideGap(a, gap, b, pat, i, k);
    }
  }

  /** An occurrence has no byte in a gap whose bytes it does not use. */
  lemma AcrossGap(a: bytes, gap: bytes, b: bytes, pat: bytes)
    requires gap != [] && pat != [] && forall c :: c in gap ==> c !in pat
    ensures Contains(a + gap + b, pat) <==> Contains(a, pat) || Contains(b, pat)
  {
    var s := a + gap + b;
    assert s == a + (gap + b) && s == (a + gap) + b;
    hide At;
    if i :| At(s, pat, i) {
      Within(s, pat, i);
      BesideGap(a, gap, b, pat, i);
      if i + |pat| <= |a| {
        AtPrefix(a, gap + b, pat, i);
      } else {
        AtShift(a + gap, b, pat, i - |a| - |gap|);
      }
    }
    if i :| At(a, pat, i) {
      Within(a, pat, i);
      AtPrefix(a, gap + b, pat, i);
    }
    if i :| At(b, pat, i) {
      Within(b, pat, i);
      AtShift(a + gap, b, pat, i);
      assert At(s, pat, |a + gap| + i);
    }
  }

  lemma Within(s: bytes, pat: bytes, i: int)
    requires At(s, pat, i)
    ensures 0 <= i && i + |pat| <= |s|
  {
  }

  /** An occurrence starts where its first byte can be. */
  lemma HeadWithout(head: bytes, x: bytes, pat: bytes)
    requires pat != [] && pat[0] !in head
    ensures Contains(head + x, pat) <==> Contains(x, pat)
  {
    var s := head + x;
    if i :| At(s, pat, i) {
      assert s[i] == s[i..i + |pat|][0] == pat[0];
      AtShift(head, x, pat, i - |head|);
    }
    if i :| At(x, pat, i) {
      AtShift(head, x, pat, i);
      assert At(s, pat, |head| + i);
    }
  }

  /** The first occurrence lies beyond a head that cannot start one. */
  lemma IndexAfter(head: bytes, x: bytes, pat: bytes)
    requires pat != [] && pat[0] !in head && Contains(x, pat)
    ensures Index(head + x, pat) == |head| + Index(x, pat)
  {
    var s, i := head + x, Index(head + x, pat);
    HeadWithout(head, x, pat);
    assert s[i] == s[i..i + |pat|][0] == pat[0];
    AtShift(head, x, pat, i - |head|);
    AtShift(head, x, pat, Index(x, pat));
  }

  /** The first occurrence, given whether there is one at offset 0 or 1. */
  lemma IndexAfterTwo(head: bytes, x: bytes, pat: bytes)
    requires |head| == 2 && Contains(x, pat)
    ensures Index(head + x, pat) ==
      if At(head + x, pat, 0) then 0 else if At(head + x, pat, 1) then 1 else 2 + Index(x, pat)
  {
    var s, i := head + x, Index(head + x, pat);
    AtShift(head, x, pat, Index(x, pat));
    if i >= 2 {
      AtShift(head, x, pat, i - 2);
    }
  }

  /** An occurrence ends where its last byte can be. */
  lemma TailWithout(x: bytes, tail: bytes, pat: bytes)
    requires pat != [] && pat[|pat| - 1] !in tail
    ensures Contains(x + tail, pat) <==> Contains(x, pat)
  {
    var s := x + tail;
    if i :| At(s, pat, i) {
      var k := i + |pat| - 1;
      assert s[k] == s[i..i + |pat|][|pat| - 1] == pat[|pat| - 1];
      AtPrefix(x, tail, pat, i);
    }
    if i :| At(x, pat, i) {
      AtPrefix(x, tail, pat, i);
    }
  }

  /** A doubled byte after one more of that byte: it was there before or it straddles. */
  lemma DoubledAtEnd(x: bytes, c: byte)
    ensures Contains(x + [c], [c, c]) <==> Contains(x, [c, c]) || (x != [] && x[|x| - 1] == c)
  {
    var s, pat := x + [c], [c, c];
    if i :| At(s, pat, i) {
      if i + 2 <= |x| {
        AtPrefix(x, [c], pat, i);
      } else {
        assert s[i..i + 2][0] == x[|x| - 1];
      }
    }
    if i :| At(x, pat, i) {
      AtPrefix(x, [c], pat, i);
    }
    if x != [] && x[|x| - 1] == c {
      assert s[|x| - 1..|x| + 1] == pat;
      assert At(s, pat, |x| - 1);
    }
  }

  /** The first part is what was written before a separator exactly when that is found there. */
  lemma SplitAfter(x: bytes, sep: bytes, y: bytes)
    requires sep != []
    ensures Split(x + sep + y, sep)[0] == x <==> !Contains(x + sep[..|sep| - 1], sep)
    ensures Split(x + sep + y, sep)[0] == x ==> Split(x + sep + y, sep) == [x] + Split(y, sep)
  {
    var s := x + sep + y;
    FoundWhereWritten(x, sep, y);
    assert s[..|x|] == x && s[|x| + |sep|..] == y;
    assert |s[..Index(s, sep)]| == Index(s, sep);
  }

  lemma SplitLast(x: bytes, sep: bytes)
    requires sep != []
    ensures Split(x, sep)[0] == x <==> !Contains(x, sep)
    ensures !Contains(x, sep) ==> Split(x, sep) == [x]
  {
    var i := Index(x, sep);
    if i != -1 {
      assert |x[..i]| < |x|;
    }
  }

  lemma IndexDivides(s: bytes, sep: bytes)
    requires Index(s, sep) != -1
    ensures var i := Index(s, sep); 0 <= i && i + |sep| <= |s| && s == s[..i] + sep + s[i + |sep|..]
  {
    var i := Index(s, sep);
    assert At(s, sep, i);
    hide Index;
    assert s == s[..i] + s[i..i + |sep|] + s[i + |sep|..];
  }

  lemma SplitUnfolds(s: bytes, sep: bytes)
    requires sep != []
    ensures var i := Index(s, sep);
      if i == -1 then Split(s, sep) == [s]
      else
        && 0 <= i && i + |sep| <= |s|
        && Split(s, sep) == [s[..i]] + Split(s[i + |sep|..], sep)
        && s == s[..i] + sep + s[i + |sep|..]
  {
    if Index(s, sep) != -1 {
      IndexDivides(s, sep);
    }
    hide Index, At;
  }

  /** The parts and the separators between them make up the whole. */
  lemma SplitCovers(s: bytes, sep: bytes)
    requires sep != []
    ensures var parts := Split(s, sep);
      && (|parts| == 2 ==> s == parts[0] + sep + parts[1])
      && (|parts| > 2 ==> |parts[0]| + |parts[1]| + |parts[2]| + 2 * |sep| <= |s|)
  {
    hide Split, Index;
    SplitUnfolds(s, sep);
    var i := Index(s, sep);
    if i != -1 {
      var rest := s[i + |sep|..];
      SplitUnfolds(rest, sep);
      var j := Index(rest, sep);
      if j != -1 {
        SplitUnfolds(rest[j + |sep|..], sep);
      }
    }
  }

  /** A part ends where the next separator begins, or with the whole. */
  ghost predicate UpTo(s: bytes, sep: bytes, part: bytes) {
    if Contains(s, sep) then First(s, sep, |part|) && part == s[..|part|] else part == s
  }

  lemma FirstPart(s: bytes, sep: bytes, part: bytes)
    requires sep != []
    ensures UpTo(s, sep, part) <==> Split(s, sep)[0] == part
    ensures Contains(s, sep) <==> |Split(s, sep)| > 1
    ensures Contains(s, sep) ==> Split(s, sep)[1..] == Split(s[|Split(s, sep)[0]| + |sep|..], sep)
  {
    SplitUnfolds(s, sep);
    FirstIsIndex(s, sep, |part|);
    hide Split, First;
  }
}
