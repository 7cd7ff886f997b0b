/** The current brute-force engine: it walks the permutations of the cities in
    lexicographic order, one per step, with the in-place successor function of
    Knuth's Algorithm L, and keeps the shortest closed tour seen so far. */
module LexBruteForce {
  import opened Wrappers
  import opened Tour
  import opened Util
  import opened Record
  import opened SwapBruteForce

  // ---------------------------------------------------------------------
  // Lexicographic order
  // ---------------------------------------------------------------------

  /** a comes strictly before b: they agree up to some position j, where a is smaller. */
  ghost predicate LexLess(a: seq<nat>, b: seq<nat>)
  {
    |a| == |b| && exists j :: 0 <= j < |a| && a[..j] == b[..j] && a[j] < b[j]
  }

  ghost predicate NonIncreasing(s: seq<nat>)
  {
    forall i, j :: 0 <= i <= j < |s| ==> s[i] >= s[j]
  }

  ghost predicate NonDecreasing(s: seq<nat>)
  {
    forall i, j :: 0 <= i <= j < |s| ==> s[i] <= s[j]
  }

  /** Position j starts an ascent: the next value is larger. */
  predicate Ascent(s: seq<nat>, j: int)
  {
    0 <= j && j + 1 < |s| && s[j] < s[j + 1]
  }

  lemma {:induction false} ChainDescends(s: seq<nat>, i: nat, j: nat)
    requires i <= j < |s|
    requires forall m :: i <= m < j ==> !Ascent(s, m)
    ensures s[i] >= s[j]
  {
    if i < j {
      ChainDescends(s, i, j - 1);
      assert !Ascent(s, j - 1);
    }
  }

  lemma LexLessPrepend(c: seq<nat>, a: seq<nat>, b: seq<nat>)
    requires LexLess(a, b)
    ensures LexLess(c + a, c + b)
  {
    var j :| 0 <= j < |a| && a[..j] == b[..j] && a[j] < b[j];
    assert (c + a)[..|c| + j] == c + a[..j];
    assert (c + b)[..|c| + j] == c + b[..j];
  }

  /** Two arrangements of the same values that agree on a prefix also agree, as multisets, on the rest. */
  lemma TailPermutes(s: seq<nat>, t: seq<nat>, j: nat)
    requires |s| == |t| && j <= |s| && s[..j] == t[..j] && multiset(s) == multiset(t)
    ensures multiset(s[j..]) == multiset(t[j..])
  {
    assert s == s[..j] + s[j..];
    assert t == t[..j] + t[j..];
    calc {
      multiset(s[j..]);
      multiset(s) - multiset(s[..j]);
      multiset(t) - multiset(t[..j]);
      multiset(t[j..]);
    }
  }

  /** ... so the value of t at j is found in s at some position m >= j. */
  lemma TailSource(s: seq<nat>, t: seq<nat>, j: nat) returns (m: nat)
    requires |s| == |t| && j < |s| && s[..j] == t[..j] && multiset(s) == multiset(t)
    ensures j <= m < |s| && s[m] == t[j]
  {
    TailPermutes(s, t, j);
    assert t[j..][0] == t[j];
    assert t[j] in multiset(s[j..]);
    var i :| 0 <= i < |s[j..]| && s[j..][i] == t[j];
    m := j + i;
  }

  /** An ascending arrangement comes first among all arrangements of its values. */
  lemma {:induction false} SortedIsLeast(a: seq<nat>, b: seq<nat>)
    requires |a| == |b| && NonDecreasing(a) && multiset(b) == multiset(a)
    ensures a == b || LexLess(a, b)
  {
    if |a| > 0 {
      var m := TailSource(a, b, 0);
      assert a[0] <= b[0];
      if a[0] < b[0] {
        assert a[..0] == b[..0] && a[0] < b[0];
      } else {
        assert a[..1] == b[..1];
        TailPermutes(a, b, 1);
        assert a == [a[0]] + a[1..];
        assert b == [b[0]] + b[1..];
        SortedIsLeast(a[1..], b[1..]);
        if a[1..] != b[1..] {
          LexLessPrepend([a[0]], a[1..], b[1..]);
        }
      }
    }
  }

  // ---------------------------------------------------------------------
  // The successor function, as scanned by the in-place loops
  // ---------------------------------------------------------------------

  /** Last j < i with s[j] < s[j + 1]: the first scan after it has seen positions 0..i-1. */
  function LastAscentBelow(s: seq<nat>, i: nat): (r: Option<nat>)
    requires i < |s|
    ensures r.Some? ==> r.value < i && Ascent(s, r.value)
    ensures r.Some? ==> forall j :: r.value < j < i ==> !Ascent(s, j)
    ensures r.None? ==> forall j :: 0 <= j < i ==> !Ascent(s, j)
  {
    if i == 0 then None
    else if s[i - 1] < s[i] then Some(i - 1)
    else LastAscentBelow(s, i - 1)
  }

  /** The largest k with s[k] < s[k + 1], if there is one. */
  function LastAscent(s: seq<nat>): Option<nat>
  {
    if |s| == 0 then None else LastAscentBelow(s, |s| - 1)
  }

  /** Last j in k..i-1 with s[j] > s[k], or k itself if there is none: the second scan. */
  function LastAboveBelow(s: seq<nat>, k: nat, i: nat): (r: nat)
    requires k <= i <= |s| && k < |s|
    ensures k <= r && (r == k || (r < i && s[r] > s[k]))
    ensures forall j :: r < j < i ==> s[j] <= s[k]
  {
    if i == k then k
    else if s[i - 1] > s[k] then i - 1
    else LastAboveBelow(s, k, i - 1)
  }

  /** The lexicographic successor of s (Algorithm L), or s itself when s is the last arrangement. */
  function NextPerm(s: seq<nat>): (r: seq<nat>)
    ensures |r| == |s|
    ensures LastAscent(s).Some? ==> r[..LastAscent(s).value] == s[..LastAscent(s).value]
    ensures LastAscent(s).Some? ==> r[LastAscent(s).value] > s[LastAscent(s).value]
  {
    match LastAscent(s)
    case None => s
    case Some(k) =>
      var l := LastAboveBelow(s, k, |s|);
      var u := Swapped(s, k, l);
      u[..k + 1] + Reverse(u[k + 1..])
  }

  /** There is no ascent exactly when the arrangement is non-increasing. */
  lemma NoAscentIffNonIncreasing(s: seq<nat>)
    ensures LastAscent(s).None? <==> NonIncreasing(s)
  {
    if LastAscent(s).None? && |s| > 0 {
      forall i, j | 0 <= i <= j < |s|
        ensures s[i] >= s[j]
      {
        ChainDescends(s, i, j);
      }
    }
    if LastAscent(s).Some? {
      var k := LastAscent(s).value;
      assert Ascent(s, k);
    }
  }

  /** The positions k and l the successor works with, and what they guarantee. */
  lemma PivotFacts(s: seq<nat>) returns (k: nat, l: nat)
    requires LastAscent(s).Some?
    ensures k == LastAscent(s).value && l == LastAboveBelow(s, k, |s|)
    ensures k < l < |s| && s[k] < s[l]
    ensures forall j :: k < j < |s| - 1 ==> !Ascent(s, j)
    ensures forall j :: l < j < |s| ==> s[j] <= s[k]
    ensures NextPerm(s) == Swapped(s, k, l)[..k + 1] + Reverse(Swapped(s, k, l)[k + 1..])
  {
    k := LastAscent(s).value;
    l := LastAboveBelow(s, k, |s|);
    assert k + 1 < |s| && s[k + 1] > s[k];
  }

  lemma NextPermPermutes(s: seq<nat>)
    ensures |NextPerm(s)| == |s|
    ensures multiset(NextPerm(s)) == multiset(s)
  {
    if LastAscent(s).Some? {
      var k, l := PivotFacts(s);
      var u := Swapped(s, k, l);
      SwappedPermutes(s, k, l);
      ReversePermutes(u[k + 1..]);
      assert u == u[..k + 1] + u[k + 1..];
    }
  }

  /** The successor moves strictly forward in lexicographic order. */
  lemma NextPermIsGreater(s: seq<nat>)
    requires LastAscent(s).Some?
    ensures LexLess(s, NextPerm(s))
  {
    var k, l := PivotFacts(s);
    var r := NextPerm(s);
    assert r[..k] == s[..k];
    assert r[k] == s[l];
  }

  /** Swapping positions k and l keeps the part behind k non-increasing, step by step. */
  lemma SwapKeepsDescent(s: seq<nat>, k: nat, l: nat)
    requires k < l < |s| && s[k] < s[l]
    requires forall j :: k < j < |s| - 1 ==> !Ascent(s, j)
    requires forall j :: l < j < |s| ==> s[j] <= s[k]
    ensures forall i :: k < i < |s| - 1 ==> !Ascent(Swapped(s, k, l), i)
  {
    var u := Swapped(s, k, l);
    forall i | k < i < |s| - 1
      ensures !Ascent(u, i)
    {
      assert !Ascent(s, i);
    }
  }

  /** Reversing a run that descends step by step gives an ascending run. */
  lemma ReverseAscends(v: seq<nat>)
    requires forall i :: 0 <= i < |v| - 1 ==> !Ascent(v, i)
    ensures NonDecreasing(Reverse(v))
  {
    var r := Reverse(v);
    forall i, j | 0 <= i <= j < |r|
      ensures r[i] <= r[j]
    {
      ChainDescends(v, |v| - 1 - j, |v| - 1 - i);
    }
  }

  /** After the swap, the part behind k is ascending once reversed. */
  lemma SuffixAscends(s: seq<nat>, k: nat, l: nat)
    requires k < l < |s| && s[k] < s[l]
    requires forall j :: k < j < |s| - 1 ==> !Ascent(s, j)
    requires forall j :: l < j < |s| ==> s[j] <= s[k]
    ensures NonDecreasing(Reverse(Swapped(s, k, l)[k + 1..]))
  {
    var u := Swapped(s, k, l);
    SwapKeepsDescent(s, k, l);
    var v := u[k + 1..];
    forall i | 0 <= i < |v| - 1
      ensures !Ascent(v, i)
    {
      assert !Ascent(u, k + 1 + i);
      assert v[i] == u[k + 1 + i] && v[i + 1] == u[k + 1 + i + 1];
    }
    ReverseAscends(v);
  }

  /** The successor keeps every position before the pivot k. */
  lemma KeepsBeforePivot(s: seq<nat>, j: nat)
    requires LastAscent(s).Some? && j <= LastAscent(s).value
    ensures |NextPerm(s)| == |s| && NextPerm(s)[..j] == s[..j]
  {
    var k, l := PivotFacts(s);
    var u := Swapped(s, k, l);
    var r := NextPerm(s);
    assert r[..k + 1] == u[..k + 1];
    forall i | 0 <= i < j
      ensures r[i] == s[i]
    {
      assert r[i] == u[..k + 1][i];
    }
  }

  /** A t that first exceeds s before the pivot also exceeds the successor there. */
  lemma ImmediateBeforePivot(s: seq<nat>, t: seq<nat>, j: nat)
    requires LastAscent(s).Some? && j < LastAscent(s).value
    requires |t| == |s| && s[..j] == t[..j] && s[j] < t[j]
    ensures LexLess(NextPerm(s), t)
  {
    KeepsBeforePivot(s, j + 1);
    var r := NextPerm(s);
    assert r[j] == r[..j + 1][j] == s[..j + 1][j];
    assert r[..j] == r[..j + 1][..j];
    assert s[..j] == s[..j + 1][..j];
  }

  /** The successor puts at the pivot the least value behind it that beats s[k];
      a t that exceeds s at the pivot has at least that value there. */
  lemma PivotValueIsLeast(s: seq<nat>, t: seq<nat>)
    requires LastAscent(s).Some?
    requires multiset(t) == multiset(s) && |t| == |s|
    requires s[..LastAscent(s).value] == t[..LastAscent(s).value]
    requires s[LastAscent(s).value] < t[LastAscent(s).value]
    ensures NextPerm(s)[LastAscent(s).value] <= t[LastAscent(s).value]
  {
    var k, l := PivotFacts(s);
    var u := Swapped(s, k, l);
    var r := NextPerm(s);
    assert r[k] == u[..k + 1][k] == s[l];
    var m := TailSource(s, t, k);
    assert k < m <= l;
    ChainDescends(s, m, l);
  }

  /** Behind the pivot the successor is ascending. */
  lemma TailAscends(s: seq<nat>)
    requires LastAscent(s).Some?
    ensures |NextPerm(s)| == |s|
    ensures NonDecreasing(NextPerm(s)[LastAscent(s).value + 1..])
  {
    var k, l := PivotFacts(s);
    var u := Swapped(s, k, l);
    SuffixAscends(s, k, l);
    assert NextPerm(s)[k + 1..] == Reverse(u[k + 1..]);
  }

  /** An ascending tail after an agreeing prefix is least. */
  lemma AscendingTailIsLeast(r: seq<nat>, t: seq<nat>, j: nat)
    requires |r| == |t| && j <= |r| && multiset(r) == multiset(t)
    requires r[..j] == t[..j] && NonDecreasing(r[j..])
    ensures r == t || LexLess(r, t)
  {
    TailPermutes(r, t, j);
    SortedIsLeast(r[j..], t[j..]);
    assert r == r[..j] + r[j..];
    assert t == t[..j] + t[j..];
    if r[j..] != t[j..] {
      LexLessPrepend(r[..j], r[j..], t[j..]);
    }
  }

  /** When t also agrees with the successor at the pivot, the ascending rest
      of the successor makes it least. */
  lemma PivotTie(s: seq<nat>, t: seq<nat>)
    requires LastAscent(s).Some?
    requires multiset(t) == multiset(s) && |t| == |s|
    requires NextPerm(s)[..LastAscent(s).value + 1] == t[..LastAscent(s).value + 1]
    ensures NextPerm(s) == t || LexLess(NextPerm(s), t)
  {
    NextPermPermutes(s);
    TailAscends(s);
    AscendingTailIsLeast(NextPerm(s), t, LastAscent(s).value + 1);
  }

  /** A t that first exceeds s at the pivot is the successor or comes after it. */
  lemma ImmediateAtPivot(s: seq<nat>, t: seq<nat>)
    requires LastAscent(s).Some?
    requires multiset(t) == multiset(s) && |t| == |s|
    requires s[..LastAscent(s).value] == t[..LastAscent(s).value]
    requires s[LastAscent(s).value] < t[LastAscent(s).value]
    ensures NextPerm(s) == t || LexLess(NextPerm(s), t)
  {
    var k := LastAscent(s).value;
    var r := NextPerm(s);
    KeepsBeforePivot(s, k);
    PivotValueIsLeast(s, t);
    if t[k] > r[k] {
      assert r[..k] == t[..k] && r[k] < t[k];
    } else {
      assert r[..k + 1] == r[..k] + [r[k]];
      assert t[..k + 1] == t[..k] + [t[k]];
      PivotTie(s, t);
    }
  }

  /** No arrangement of the same values lies strictly between s and its successor. */
  lemma NextPermIsImmediate(s: seq<nat>, t: seq<nat>)
    requires LastAscent(s).Some?
    requires multiset(t) == multiset(s) && LexLess(s, t)
    ensures NextPerm(s) == t || LexLess(NextPerm(s), t)
  {
    var k, l := PivotFacts(s);
    var j :| 0 <= j < |s| && s[..j] == t[..j] && s[j] < t[j];
    assert j <= k by {
      if j > k {
        var m := TailSource(s, t, j);
        ChainDescends(s, j, m);
        assert false;
      }
    }
    if j < k {
      ImmediateBeforePivot(s, t, j);
    } else {
      ImmediateAtPivot(s, t);
    }
  }

  /** When there is no ascent, s is the last arrangement of its values: nothing comes after it. */
  lemma NoAscentIsLast(s: seq<nat>, t: seq<nat>)
    requires LastAscent(s).None?
    requires multiset(t) == multiset(s)
    ensures !LexLess(s, t)
  {
    NoAscentIffNonIncreasing(s);
    forall j | 0 <= j < |s| && |s| == |t| && s[..j] == t[..j]
      ensures !(s[j] < t[j])
    {
      var m := TailSource(s, t, j);
    }
  }

  // ---------------------------------------------------------------------
  // next_permutation, in place
  // ---------------------------------------------------------------------

  /** Writing u's tail after position k backwards over itself gives u[..k + 1] + Reverse(u[k + 1..]). */
  lemma TailReversed(u: seq<nat>, v: seq<nat>, k: nat)
    requires k < |u| == |v|
    requires forall i :: 0 <= i <= k ==> v[i] == u[i]
    requires forall i :: k < i < |u| ==> v[i] == u[|u| - 1 - (i - k - 1)]
    ensures v == u[..k + 1] + Reverse(u[k + 1..])
  {
  }

  /** Advances perm to its lexicographic successor; answers false, leaving
      perm alone, when perm is already the last arrangement. The first scan
      runs over 0..len - 1, which underflows for an empty perm, so an empty
      perm is not allowed. */
  method NextPermutation(perm: array<nat>) returns (advanced: bool)
    requires perm.Length > 0
    modifies perm
    ensures advanced == LastAscent(old(perm[..])).Some?
    ensures perm[..] == NextPerm(old(perm[..]))
  {
    ghost var s := perm[..];
    var len := perm.Length;
    var k: Option<nat> := None;
    for i := 0 to len - 1
      invariant perm[..] == s
      invariant k == LastAscentBelow(s, i)
    {
      if perm[i] < perm[i + 1] {
        k := Some(i);
      }
    }
    if k.None? {
      return false;
    }
    var kk := k.value;
    var l := kk;
    for i := kk to len
      invariant perm[..] == s
      invariant l == LastAboveBelow(s, kk, i)
    {
      if perm[i] > perm[kk] {
        l := i;
      }
    }
    Swap(perm, kk, l);
    ReverseAfter(perm, kk);
    return true;
  }

  /** perm[k + 1..len].reverse(): the entries after k, written backwards. */
  method ReverseAfter(perm: array<nat>, k: nat)
    requires k < perm.Length
    modifies perm
    ensures perm[..] == old(perm[..])[..k + 1] + Reverse(old(perm[..])[k + 1..])
  {
    var len := perm.Length;
    var u := perm[..];
    forall i | k + 1 <= i < len {
      perm[i] := u[len - 1 - (i - k - 1)];
    }
    TailReversed(u, perm[..], k);
  }

  // ---------------------------------------------------------------------
  // The stepping engine
  // ---------------------------------------------------------------------

  /** The arrangement the engine holds after measuring `measured`. */
  ghost function Current(n: nat, measured: seq<seq<nat>>): seq<nat>
  {
    if |measured| == 0 then Iota(n) else measured[|measured| - 1]
  }

  /** The arrangement the engine held before measuring measured[j]. */
  ghost function Before(n: nat, measured: seq<seq<nat>>, j: nat): seq<nat>
    requires j < |measured|
  {
    if j == 0 then Iota(n) else measured[j - 1]
  }

  /** b is the successor of a, which had one. */
  ghost predicate Follows(a: seq<nat>, b: seq<nat>)
  {
    LastAscent(a).Some? && b == NextPerm(a)
  }

  /** Each measured tour is the successor of the one before it (of the
      identity, for the first). */
  ghost predicate Enumerated(n: nat, measured: seq<seq<nat>>)
  {
    forall j {:trigger Before(n, measured, j)} :: 0 <= j < |measured| ==> Follows(Before(n, measured, j), measured[j])
  }

  /** Measuring the successor of the current arrangement extends the enumeration. */
  lemma EnumeratedStep(n: nat, measured: seq<seq<nat>>, next: seq<nat>)
    requires Enumerated(n, measured) && IsPerm(Current(n, measured), n)
    requires Follows(Current(n, measured), next)
    ensures Enumerated(n, measured + [next]) && Current(n, measured + [next]) == next
    ensures IsPerm(next, n)
  {
    var m := measured + [next];
    forall j | 0 <= j < |m|
      ensures Follows(Before(n, m, j), m[j])
    {
      if j < |measured| {
        assert m[j] == measured[j];
        assert Before(n, m, j) == Before(n, measured, j);
      }
    }
    NextPermPermutes(Current(n, measured));
  }

  lemma Successor012()
    ensures Follows([0, 1, 2], [0, 2, 1])
  {
    var s: seq<nat> := [0, 1, 2];
    assert LastAscent(s) == Some(1);
    assert LastAboveBelow(s, 1, 3) == 2;
    assert Swapped(s, 1, 2) == [0, 2, 1];
    assert Reverse([1]) == [1];
  }

  lemma Successor021()
    ensures Follows([0, 2, 1], [1, 0, 2])
  {
    var s: seq<nat> := [0, 2, 1];
    assert LastAscent(s) == Some(0);
    assert LastAboveBelow(s, 0, 3) == 2;
    assert Swapped(s, 0, 2) == [1, 2, 0];
    assert Reverse([2, 0]) == [0, 2];
  }

  lemma Successor102()
    ensures Follows([1, 0, 2], [1, 2, 0])
  {
    var s: seq<nat> := [1, 0, 2];
    assert LastAscent(s) == Some(1);
    assert LastAboveBelow(s, 1, 3) == 2;
    assert Swapped(s, 1, 2) == [1, 2, 0];
    assert Reverse([0]) == [0];
  }

  lemma Successor120()
    ensures Follows([1, 2, 0], [2, 0, 1])
  {
    var s: seq<nat> := [1, 2, 0];
    assert LastAscent(s) == Some(0);
    assert LastAboveBelow(s, 0, 3) == 1;
    assert Swapped(s, 0, 1) == [2, 1, 0];
    assert Reverse([1, 0]) == [0, 1];
  }

  lemma Successor201()
    ensures Follows([2, 0, 1], [2, 1, 0])
  {
    var s: seq<nat> := [2, 0, 1];
    assert LastAscent(s) == Some(1);
    assert LastAboveBelow(s, 1, 3) == 2;
    assert Swapped(s, 1, 2) == [2, 1, 0];
    assert Reverse([0]) == [0];
  }

  /** The worked instance: from [0, 1, 2] the successors are 021, 102, 120,
      201, 210, and 210 has none, so the engine measures exactly five tours. */
  lemma ThreeCities()
    ensures Enumerated(3, [[0, 2, 1], [1, 0, 2], [1, 2, 0], [2, 0, 1], [2, 1, 0]])
    ensures LastAscent(Current(3, [[0, 2, 1], [1, 0, 2], [1, 2, 0], [2, 0, 1], [2, 1, 0]])).None?
  {
    var tours: seq<seq<nat>> := [[0, 2, 1], [1, 0, 2], [1, 2, 0], [2, 0, 1], [2, 1, 0]];
    forall j | 0 <= j < |tours|
      ensures Follows(Before(3, tours, j), tours[j])
    {
      if j == 0 {
        assert Before(3, tours, 0) == [0, 1, 2] by { assert Iota(3) == [0, 1, 2]; }
        Successor012();
      } else if j == 1 {
        Successor021();
      } else if j == 2 {
        Successor102();
      } else if j == 3 {
        Successor120();
      } else {
        Successor201();
      }
    }
    assert LastAscent([2, 1, 0]).None?;
  }

  // ---------------------------------------------------------------------
  // Exhaustion: from the identity every arrangement is reached once
  // ---------------------------------------------------------------------

  lemma LexLessTransitive(a: seq<nat>, b: seq<nat>, c: seq<nat>)
    requires LexLess(a, b) && LexLess(b, c)
    ensures LexLess(a, c)
  {
    var i :| 0 <= i < |a| && a[..i] == b[..i] && a[i] < b[i];
    var j :| 0 <= j < |b| && b[..j] == c[..j] && b[j] < c[j];
    var k := if i < j then i else j;
    assert a[..k] == a[..i][..k] && b[..k] == b[..i][..k];
    assert b[..k] == b[..j][..k] && c[..k] == c[..j][..k];
    if i < j {
      assert b[..j][i] == c[..j][i];
    } else if j < i {
      assert a[..i][j] == b[..i][j];
    }
    assert a[..k] == c[..k] && a[k] < c[k];
  }

  /** The order is strict: a before b rules out b before a, and a == b. */
  lemma LexLessAsymmetric(a: seq<nat>, b: seq<nat>)
    ensures LexLess(a, b) ==> !LexLess(b, a) && a != b
  {
    if LexLess(a, b) {
      var i :| 0 <= i < |a| && a[..i] == b[..i] && a[i] < b[i];
      forall j | 0 <= j < i
        ensures a[j] == b[j]
      {
        assert a[..i][j] == b[..i][j];
      }
      forall j | i < j <= |a|
        ensures a[..j] != b[..j]
      {
        assert a[..j][i] != b[..j][i];
      }
    }
  }

  /** Any two arrangements of the same length are equal or ordered one way. */
  lemma {:induction false} LexTotal(a: seq<nat>, b: seq<nat>)
    requires |a| == |b|
    ensures a == b || LexLess(a, b) || LexLess(b, a)
  {
    if |a| > 0 && a != b {
      if a[0] < b[0] {
        assert a[..0] == b[..0];
      } else if b[0] < a[0] {
        assert b[..0] == a[..0];
      } else {
        assert a == [a[0]] + a[1..];
        assert b == [b[0]] + b[1..];
        LexTotal(a[1..], b[1..]);
        if LexLess(a[1..], b[1..]) {
          LexLessPrepend([a[0]], a[1..], b[1..]);
        } else if LexLess(b[1..], a[1..]) {
          LexLessPrepend([b[0]], b[1..], a[1..]);
        }
      }
    }
  }

  /** The identity comes first among the permutations of 0..n-1. */
  lemma IotaIsLeast(n: nat, t: seq<nat>)
    requires IsPerm(t, n)
    ensures t == Iota(n) || LexLess(Iota(n), t)
  {
    PermFacts(t, n);
    SortedIsLeast(Iota(n), t);
  }

  /** Every tour the engine reaches is a permutation of 0..n-1. */
  lemma {:induction false} EnumeratedPerm(n: nat, measured: seq<seq<nat>>, j: nat)
    requires Enumerated(n, measured) && j < |measured|
    ensures IsPerm(measured[j], n)
  {
    if j > 0 {
      EnumeratedPerm(n, measured, j - 1);
    }
    assert Follows(Before(n, measured, j), measured[j]);
    NextPermPermutes(Before(n, measured, j));
  }

  /** Each tour reached comes strictly after the one held before it. */
  ghost predicate Climbs(n: nat, measured: seq<seq<nat>>)
  {
    forall j {:trigger Before(n, measured, j)} :: 0 <= j < |measured| ==> LexLess(Before(n, measured, j), measured[j])
  }

  lemma EnumeratedClimbs(n: nat, measured: seq<seq<nat>>)
    requires Enumerated(n, measured)
    ensures Climbs(n, measured)
  {
    forall j | 0 <= j < |measured|
      ensures LexLess(Before(n, measured, j), measured[j])
    {
      assert Follows(Before(n, measured, j), measured[j]);
      NextPermIsGreater(Before(n, measured, j));
    }
  }

  /** So each tour reached comes strictly after everything held before it. */
  lemma {:induction false} ClimbsAbove(n: nat, measured: seq<seq<nat>>, i: nat, j: nat)
    requires Climbs(n, measured) && i <= j < |measured|
    ensures LexLess(Before(n, measured, i), measured[j])
    decreases j - i
  {
    assert LexLess(Before(n, measured, i), measured[i]);
    if i < j {
      ClimbsAbove(n, measured, i + 1, j);
      assert Before(n, measured, i + 1) == measured[i];
      LexLessTransitive(Before(n, measured, i), measured[i], measured[j]);
    }
  }

  /** So no tour is reached twice, and the identity is never reached again. */
  lemma EnumeratedDistinct(n: nat, measured: seq<seq<nat>>)
    requires Enumerated(n, measured)
    ensures NoRepeats([Iota(n)] + measured)
  {
    var q := [Iota(n)] + measured;
    EnumeratedClimbs(n, measured);
    forall i, j | 0 <= i < j < |q|
      ensures q[i] != q[j]
    {
      ClimbsAbove(n, measured, i, j - 1);
      assert Before(n, measured, i) == q[i];
      LexLessAsymmetric(q[i], q[j]);
    }
  }

  lemma EnumeratedPrefix(n: nat, measured: seq<seq<nat>>, k: nat)
    requires Enumerated(n, measured) && k <= |measured|
    ensures Enumerated(n, measured[..k])
  {
    var p := measured[..k];
    forall j | 0 <= j < |p|
      ensures Follows(Before(n, p, j), p[j])
    {
      assert Follows(Before(n, measured, j), measured[j]);
      assert Before(n, p, j) == Before(n, measured, j);
    }
  }

  /** The last tour reached follows the one held before it, a permutation
      reached by the shorter enumeration. */
  lemma EnumeratedLast(n: nat, measured: seq<seq<nat>>)
    requires Enumerated(n, measured) && |measured| > 0
    ensures Enumerated(n, measured[..|measured| - 1])
    ensures Follows(Current(n, measured[..|measured| - 1]), measured[|measured| - 1])
    ensures IsPerm(Current(n, measured[..|measured| - 1]), n)
  {
    var k := |measured| - 1;
    assert Current(n, measured[..k]) == Before(n, measured, k);
    assert Follows(Before(n, measured, k), measured[k]);
    EnumeratedPrefix(n, measured, k);
    if k > 0 {
      EnumeratedPerm(n, measured, k - 1);
    }
  }

  /** A permutation before the successor x of c, other than x, is c or before c. */
  lemma BeforeSuccessor(c: seq<nat>, x: seq<nat>, t: seq<nat>)
    requires Follows(c, x) && multiset(t) == multiset(c) && |t| == |c|
    requires LexLess(t, x)
    ensures t == c || LexLess(t, c)
  {
    LexTotal(t, c);
    SuccessorIsImmediate(c, t);
    LexLessAsymmetric(x, t);
    LexLessAsymmetric(t, x);
  }

  /** NextPermIsImmediate, for any t of the same values. */
  lemma SuccessorIsImmediate(c: seq<nat>, t: seq<nat>)
    requires LastAscent(c).Some? && multiset(t) == multiset(c)
    ensures LexLess(c, t) ==> NextPerm(c) == t || LexLess(NextPerm(c), t)
  {
    if LexLess(c, t) {
      NextPermIsImmediate(c, t);
    }
  }

  /** Every permutation up to the current one has been the identity or reached. */
  lemma {:induction false} EnumeratedCovers(n: nat, measured: seq<seq<nat>>, t: seq<nat>)
    requires Enumerated(n, measured) && IsPerm(t, n)
    requires t == Current(n, measured) || LexLess(t, Current(n, measured))
    ensures t == Iota(n) || t in measured
    decreases |measured|
  {
    if |measured| == 0 {
      IotaIsLeast(n, t);
      LexLessAsymmetric(Iota(n), t);
    } else if t != Current(n, measured) {
      var k := |measured| - 1;
      var prefix := measured[..k];
      EnumeratedLast(n, measured);
      PermFacts(t, n);
      PermFacts(Current(n, prefix), n);
      BeforeSuccessor(Current(n, prefix), measured[k], t);
      EnumeratedCovers(n, prefix, t);
    }
  }

  /** Once the current arrangement has no successor, every permutation of
      0..n-1 is the identity or has been reached. */
  lemma EnumerationComplete(n: nat, measured: seq<seq<nat>>)
    requires Enumerated(n, measured) && LastAscent(Current(n, measured)).None?
    ensures forall t :: IsPerm(t, n) <==> t == Iota(n) || t in measured
  {
    var c := Current(n, measured);
    if |measured| > 0 {
      EnumeratedPerm(n, measured, |measured| - 1);
    }
    forall t | IsPerm(t, n)
      ensures t == Iota(n) || t in measured
    {
      PermFacts(t, n);
      PermFacts(c, n);
      LexTotal(t, c);
      NoAscentIsLast(c, t);
      EnumeratedCovers(n, measured, t);
    }
    forall t | t in measured
      ensures IsPerm(t, n)
    {
      var j :| 0 <= j < |measured| && measured[j] == t;
      EnumeratedPerm(n, measured, j);
    }
  }

  /** A sequence of tours without repeats has as many distinct tours as entries. */
  lemma {:induction false} DistinctCard(q: seq<seq<nat>>)
    requires NoRepeats(q)
    ensures |set x | x in q| == |q|
  {
    if q != [] {
      var k := |q| - 1;
      var p := q[..k];
      assert q == p + [q[k]];
      assert NoRepeats(p);
      DistinctCard(p);
      assert (set x | x in q) == (set x | x in p) + {q[k]};
    }
  }

  /** From the identity the engine reaches exactly n! - 1 further tours
      before the successor runs out. */
  lemma EnumerationCount(n: nat, measured: seq<seq<nat>>)
    requires Enumerated(n, measured) && LastAscent(Current(n, measured)).None?
    ensures |measured| == Fact(n) - 1
  {
    var q := [Iota(n)] + measured;
    var all := Perms(Iota(n), 0);
    EnumerationComplete(n, measured);
    EnumeratedDistinct(n, measured);
    AllTours(n);
    assert (set x | x in q) == (set x | x in all);
    DistinctCard(q);
    DistinctCard(all);
  }

  /** The search state after measuring `measured`: the engine holds `current`,
      the last arrangement reached, and keeps the record of the shortest tour. */
  ghost predicate Searched(w: Weight, n: nat, current: seq<nat>, measured: seq<seq<nat>>,
                           length: real, path: Option<seq<nat>>, best: nat)
  {
    && current == Current(n, measured)
    && IsPerm(current, n)
    && Enumerated(n, measured)
    && Tracks(Cyclic(w), measured, length, path, best)
    && (path.Some? ==> IsPerm(path.value, n))
  }

  /** One step of the engine keeps the search state. */
  lemma SearchStep(w: Weight, n: nat, current: seq<nat>, measured: seq<seq<nat>>, length: real, path: Option<seq<nat>>,
                   best: nat, next: seq<nat>, newLength: real)
    requires Searched(w, n, current, measured, length, path, best)
    requires Follows(current, next)
    requires newLength == CyclicLength(w, next)
    ensures newLength < length ==> Searched(w, n, next, measured + [next], newLength, Some(next), |measured|)
    ensures newLength >= length ==> Searched(w, n, next, measured + [next], length, path, best)
  {
    EnumeratedStep(n, measured, next);
    TracksStep(Cyclic(w), measured, length, path, best, next, newLength);
  }

  /** Once the successor runs out, the kept length is no more than the closed
      length of any permutation. That includes the identity, which the engine
      never measures: with two or more cities one of its rotations is measured,
      and a rotation has the same closed length. */
  lemma ExhaustedIsShortest(w: Weight, n: nat, current: seq<nat>, measured: seq<seq<nat>>, length: real,
                            path: Option<seq<nat>>, best: nat)
    requires Searched(w, n, current, measured, length, path, best)
    requires NonIncreasing(current) && n >= 2
    ensures forall t :: IsPerm(t, n) ==> length <= CyclicLength(w, t)
    ensures path.Some? ==> forall t :: IsPerm(t, n) ==> CyclicLength(w, path.value) <= CyclicLength(w, t)
  {
    NoAscentIffNonIncreasing(current);
    EnumerationComplete(n, measured);
    var id := Iota(n);
    var r := Rotate(id, 1);
    assert r[0] == 1;
    assert id == id[..1] + id[1..];
    assert multiset(r) == multiset(id);
    RotateKeepsLength(w, id, 1);
    forall t | IsPerm(t, n)
      ensures length <= CyclicLength(w, t)
    {
      var u := if t == id then r else t;
      assert u in measured;
      var j :| 0 <= j < |measured| && measured[j] == u;
      assert length <= Cyclic(w)(measured[j]);
    }
  }

  class BruteForce {
    const cities: seq<City>
    /** Square root used by the Euclidean distance. */
    const sqrt: real -> real
    const perm: array<nat>
    var pCount: nat
    var length: real
    var path: Option<seq<nat>>
    /** The tours measured so far, in order. */
    ghost var measured: seq<seq<nat>>
    /** Position in `measured` of the tour held in `path`. */
    ghost var best: nat

    function Weight(): Weight
    {
      CityWeight(cities, Euclid(sqrt))
    }

    ghost predicate Valid()
      reads this, perm
    {
      && perm.Length == |cities|
      && |measured| == pCount
      && Searched(Weight(), |cities|, perm[..], measured, length, path, best)
    }

    constructor Init(cities: seq<City>, sqrt: real -> real)
      ensures Valid() && fresh(perm)
      ensures this.cities == cities && this.sqrt == sqrt
      ensures perm[..] == Iota(|cities|) && pCount == 0 && length == F64Max && path == None
    {
      this.cities := cities;
      this.sqrt := sqrt;
      perm := new nat[|cities|](i => i);
      pCount := 0;
      length := F64Max;
      path := None;
      measured := [];
      new;
      assert perm[..] == Iota(|cities|);
    }

    /** Reported length and best tour; the tour is only there after a step
        found one shorter than F64Max. */
    function State(): (r: (real, seq<nat>, nat))
      requires Valid() && path.Some?
      reads this, perm
      ensures r.0 == CyclicLength(Weight(), r.1) && r.0 < F64Max
      ensures IsPerm(r.1, |cities|)
      ensures r.2 == pCount
    {
      (length, path.value, pCount)
    }

    /** Measures the next permutation; answers true, changing nothing, when
        the last one has been measured. */
    method Step() returns (done: bool)
      requires Valid() && perm.Length > 0
      modifies this, perm
      ensures Valid()
      ensures done == NonIncreasing(old(perm[..]))
      ensures done ==> perm[..] == old(perm[..]) && pCount == old(pCount)
                       && length == old(length) && path == old(path)
      ensures !done ==> perm[..] == NextPerm(old(perm[..])) && pCount == old(pCount) + 1
      ensures !done ==>
                var newLength := CyclicLength(Weight(), perm[..]);
                if newLength < old(length) then length == newLength && path == Some(perm[..])
                else length == old(length) && path == old(path)
      ensures length <= old(length)
      ensures done ==> pCount == Fact(|cities|) - 1
      ensures done && |cities| >= 2 ==> forall t :: IsPerm(t, |cities|) ==> length <= CyclicLength(Weight(), t)
    {
      ghost var before := perm[..];
      NoAscentIffNonIncreasing(before);
      var advanced := NextPermutation(perm);
      if !advanced {
        assert perm[..] == before;
        EnumerationCount(|cities|, measured);
        if |cities| >= 2 {
          ExhaustedIsShortest(Weight(), |cities|, before, measured, length, path, best);
        }
        return true;
      }
      var next := perm[..];
      var newLength := MeasureCycle(Weight(), next);
      Keep(before, next, newLength);
      return false;
    }

    /** The second half of step: count the tour just reached and keep it when
        it is strictly shorter than the best so far. */
    method Keep(ghost before: seq<nat>, next: seq<nat>, newLength: real)
      requires |measured| == pCount
      requires Searched(Weight(), |cities|, before, measured, length, path, best)
      requires Follows(before, next) && newLength == CyclicLength(Weight(), next)
      modifies this
      ensures |measured| == pCount == old(pCount) + 1
      ensures Searched(Weight(), |cities|, next, measured, length, path, best)
      ensures newLength < old(length) ==> length == newLength && path == Some(next)
      ensures newLength >= old(length) ==> length == old(length) && path == old(path)
    {
      SearchStep(Weight(), |cities|, before, measured, length, path, best, next, newLength);
      if newLength < length {
        length, path, best := newLength, Some(next), |measured|;
      }
      pCount, measured := pCount + 1, measured + [next];
    }
  }
}
