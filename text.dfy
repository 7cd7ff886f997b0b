/** Decimal text of city indices: to_string on unsigned integers, the usize
    parse of a command-line count, joining indices with a separator, and the
    split that reads such a line back. */
module Text {
  import opened Wrappers

  // ---------------------------------------------------------------------
  // Digits
  // ---------------------------------------------------------------------

  predicate IsDigit(c: char)
  {
    '0' <= c <= '9'
  }

  predicate AllDigits(s: string)
  {
    forall i :: 0 <= i < |s| ==> IsDigit(s[i])
  }

  function DigitChar(d: nat): (c: char)
    requires d < 10
    ensures IsDigit(c)
  {
    (48 + d) as char
  }

  function DigitValue(c: char): (d: nat)
    requires IsDigit(c)
    ensures d < 10
  {
    c as int - 48
  }

  /** to_string of an unsigned integer: its decimal digits, most significant
      first, with no sign and no leading zero. */
  function NatToString(n: nat): (r: string)
    ensures |r| > 0 && AllDigits(r)
    ensures r[0] == '0' ==> n == 0
    decreases n
  {
    if n < 10 then [DigitChar(n)] else NatToString(n / 10) + [DigitChar(n % 10)]
  }

  /** The number a non-empty run of digits denotes. */
  function DigitsValue(s: string): nat
    requires AllDigits(s)
  {
    if s == [] then 0 else DigitsValue(s[..|s| - 1]) * 10 + DigitValue(s[|s| - 1])
  }

  /** Reading back the digits of n gives n. */
  lemma {:induction false} NatToStringValue(n: nat)
    ensures DigitsValue(NatToString(n)) == n
    decreases n
  {
    var r := NatToString(n);
    if n >= 10 {
      NatToStringValue(n / 10);
      assert r[..|r| - 1] == NatToString(n / 10);
    }
    assert DigitValue(r[|r| - 1]) == n % 10;
  }

  /** Different indices are written differently. */
  lemma NatToStringInjective(a: nat, b: nat)
    requires NatToString(a) == NatToString(b)
    ensures a == b
  {
    NatToStringValue(a);
    NatToStringValue(b);
  }

  /** The parse of one piece of text as an index: digits only. */
  function ParseNat(s: string): (r: Option<nat>)
    ensures r.Some? <==> |s| > 0 && AllDigits(s)
  {
    if |s| > 0 && AllDigits(s) then Some(DigitsValue(s)) else None
  }

  lemma ParseNatRoundTrip(n: nat)
    ensures ParseNat(NatToString(n)) == Some(n)
  {
    NatToStringValue(n);
  }

  // ---------------------------------------------------------------------
  // usize parse
  // ---------------------------------------------------------------------

  /** One more than the largest usize on a 64-bit target. */
  const UsizeLimit: nat := 0x1_0000_0000_0000_0000

  /** str::parse::<usize>: an optional '+', then at least one digit and
      nothing else, with a value that fits in a usize. Leading zeros are
      allowed; surrounding spaces are not. */
  function ParseUsize(s: string): (r: Option<nat>)
    ensures r.Some? ==> r.value < UsizeLimit
    ensures r.Some? ==> |s| > 0
    ensures |s| > 0 && s[0] != '+' && !IsDigit(s[0]) ==> r.None?
  {
    var digits := if |s| > 0 && s[0] == '+' then s[1..] else s;
    if |digits| == 0 || !AllDigits(digits) then None
    else if DigitsValue(digits) >= UsizeLimit then None
    else Some(DigitsValue(digits))
  }

  /** Every usize reads back from its decimal text, with or without a '+'. */
  lemma ParseUsizeRoundTrip(n: nat)
    requires n < UsizeLimit
    ensures ParseUsize(NatToString(n)) == Some(n)
    ensures ParseUsize("+" + NatToString(n)) == Some(n)
  {
    NatToStringValue(n);
    assert ("+" + NatToString(n))[1..] == NatToString(n);
  }

  // ---------------------------------------------------------------------
  // Joining and splitting
  // ---------------------------------------------------------------------

  /** The indices of p in decimal with `sep` between neighbours and no
      separator at either end. */
  function Join(p: seq<nat>, sep: string): (r: string)
    ensures r == "" <==> |p| == 0
  {
    if |p| == 0 then ""
    else if |p| == 1 then NatToString(p[0])
    else NatToString(p[0]) + sep + Join(p[1..], sep)
  }

  /** Appending one index appends a separator and its digits. */
  lemma {:induction false} JoinSnoc(p: seq<nat>, x: nat, sep: string)
    requires |p| > 0
    ensures Join(p + [x], sep) == Join(p, sep) + sep + NatToString(x)
    decreases |p|
  {
    var q := p + [x];
    assert q[0] == p[0] && |q| > 1;
    assert Join(q, sep) == NatToString(p[0]) + sep + Join(q[1..], sep);
    if |p| == 1 {
      assert q[1..] == [x];
    } else {
      assert q[1..] == p[1..] + [x];
      JoinSnoc(p[1..], x, sep);
      assert Join(p, sep) == NatToString(p[0]) + sep + Join(p[1..], sep);
    }
  }

  /** A separator with a character c that no digit shares occurs once per
      pair of neighbours: |p| - 1 times. */
  lemma {:induction false} JoinSeparators(p: seq<nat>, sep: string, c: char)
    requires |p| > 0 && !IsDigit(c) && multiset(sep)[c] == 1
    ensures multiset(Join(p, sep))[c] == |p| - 1
    decreases |p|
  {
    var d := NatToString(p[0]);
    forall i | 0 <= i < |d|
      ensures d[i] != c
    {
    }
    assert c !in d;
    if |p| > 1 {
      JoinSeparators(p[1..], sep, c);
      assert multiset(d + sep + Join(p[1..], sep)) == multiset(d) + multiset(sep) + multiset(Join(p[1..], sep));
    }
  }

  /** sep occurs in s starting at position i. */
  predicate OccursAt(s: string, sep: string, i: nat)
  {
    i + |sep| <= |s| && s[i..i + |sep|] == sep
  }

  /** The first position at or after k where sep occurs in s. */
  function FindFrom(s: string, sep: string, k: nat): (r: Option<nat>)
    requires |sep| > 0 && k <= |s|
    ensures r.Some? ==> k <= r.value && OccursAt(s, sep, r.value)
    ensures r.Some? ==> forall i :: k <= i < r.value ==> !OccursAt(s, sep, i)
    ensures r.None? ==> forall i :: k <= i ==> !OccursAt(s, sep, i)
    decreases |s| - k
  {
    if k + |sep| > |s| then None
    else if s[k..k + |sep|] == sep then Some(k)
    else FindFrom(s, sep, k + 1)
  }

  /** str::split: the pieces of s between the occurrences of sep, scanning
      from the left; a string without sep is a single piece. */
  function Split(s: string, sep: string): (r: seq<string>)
    requires |sep| > 0
    ensures |r| > 0
    decreases |s|
  {
    match FindFrom(s, sep, 0)
    case None => [s]
    case Some(i) => [s[..i]] + Split(s[i + |sep|..], sep)
  }

  /** Parses every piece, failing if any piece is not an index. */
  function ParsePieces(pieces: seq<string>): (r: Option<seq<nat>>)
    ensures r.Some? ==> |r.value| == |pieces|
  {
    if |pieces| == 0 then Some([])
    else match (ParseNat(pieces[0]), ParsePieces(pieces[1..]))
      case (Some(n), Some(ns)) => Some([n] + ns)
      case _ => None
  }

  /** A separator that starts with a non-digit is first found right after
      a run of digits. */
  lemma FindAfterDigits(d: string, sep: string, rest: string)
    requires AllDigits(d) && |sep| > 0 && !IsDigit(sep[0])
    ensures FindFrom(d + sep + rest, sep, 0) == Some(|d|)
    ensures FindFrom(d, sep, 0) == None
  {
    var s := d + sep + rest;
    assert s[|d|..|d| + |sep|] == sep;
    assert OccursAt(s, sep, |d|);
    forall i | 0 <= i < |d|
      ensures !OccursAt(s, sep, i)
    {
      if i + |sep| <= |s| {
        assert s[i..i + |sep|][0] == s[i] == d[i];
      }
    }
    forall i | 0 <= i
      ensures !OccursAt(d, sep, i)
    {
      if i + |sep| <= |d| {
        assert d[i..i + |sep|][0] == d[i];
      }
    }
  }

  /** Splitting a joined line gives back the digits of each index. */
  lemma {:induction false} SplitJoin(p: seq<nat>, sep: string)
    requires |p| > 0 && |sep| > 0 && !IsDigit(sep[0])
    ensures Split(Join(p, sep), sep) == seq(|p|, i requires 0 <= i < |p| => NatToString(p[i]))
    decreases |p|
  {
    var d := NatToString(p[0]);
    if |p| == 1 {
      FindAfterDigits(d, sep, "");
    } else {
      var rest := Join(p[1..], sep);
      FindAfterDigits(d, sep, rest);
      assert (d + sep + rest)[..|d|] == d;
      assert (d + sep + rest)[|d| + |sep|..] == rest;
      SplitJoin(p[1..], sep);
    }
  }

  /** The reader of a joined line: split on sep, then parse each piece. */
  function ParseJoined(s: string, sep: string): Option<seq<nat>>
    requires |sep| > 0
  {
    ParsePieces(Split(s, sep))
  }

  lemma {:induction false} ParseDigitPieces(p: seq<nat>)
    ensures ParsePieces(seq(|p|, i requires 0 <= i < |p| => NatToString(p[i]))) == Some(p)
    decreases |p|
  {
    if |p| > 0 {
      var pieces := seq(|p|, i requires 0 <= i < |p| => NatToString(p[i]));
      assert pieces[1..] == seq(|p| - 1, i requires 0 <= i < |p| - 1 => NatToString(p[1..][i]));
      ParseDigitPieces(p[1..]);
      ParseNatRoundTrip(p[0]);
      assert p == [p[0]] + p[1..];
    }
  }

  /** Reading a joined line back gives the indices it was made from. */
  lemma JoinRoundTrip(p: seq<nat>, sep: string)
    requires |p| > 0 && |sep| > 0 && !IsDigit(sep[0])
    ensures ParseJoined(Join(p, sep), sep) == Some(p)
  {
    SplitJoin(p, sep);
    ParseDigitPieces(p);
  }
}
