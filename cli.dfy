/** The command line of the current solver (src/main.rs): the checks on the
    algorithm name, the input mode and the city count, and the rewriting of
    the solver's tour into the printed form, which starts at city 0 and goes
    first towards the lower of its two neighbours. */
module Cli {
  import opened Wrappers
  import opened Tour
  import opened Text

  // ---------------------------------------------------------------------
  // Arguments
  // ---------------------------------------------------------------------

  datatype Algorithm = Annealing | BruteForce

  /** Where the cities come from: typed in, or `count` random ones. */
  datatype Mode = Input | Random(count: nat)

  /** The errors run returns before any solving, one per message. */
  datatype ArgError =
    | TooFewArguments
    | UnknownAlgorithm(name: string)
    | MissingCount
    | InvalidCount(text: string)
    | TooFewCities
    | UnknownMode(name: string)

  /** char::is_whitespace: the Unicode White_Space characters. */
  predicate IsWhitespace(c: char)
  {
    || '\t' <= c <= '\r' || c == ' ' || c == '\U{0085}' || c == '\U{00A0}' || c == '\U{1680}'
    || '\U{2000}' <= c <= '\U{200A}' || c == '\U{2028}' || c == '\U{2029}' || c == '\U{202F}'
    || c == '\U{205F}' || c == '\U{3000}'
  }

  /** The first position at or after k that does not hold whitespace. */
  function SkipLeading(s: string, k: nat): (i: nat)
    requires k <= |s|
    ensures k <= i <= |s|
    ensures forall m :: k <= m < i ==> IsWhitespace(s[m])
    ensures i < |s| ==> !IsWhitespace(s[i])
    decreases |s| - k
  {
    if k < |s| && IsWhitespace(s[k]) then SkipLeading(s, k + 1) else k
  }

  /** The end of s[lo..j] once its trailing whitespace is dropped. */
  function SkipTrailing(s: string, lo: nat, j: nat): (e: nat)
    requires lo <= j <= |s|
    ensures lo <= e <= j
    ensures forall m :: e <= m < j ==> IsWhitespace(s[m])
    ensures e > lo ==> !IsWhitespace(s[e - 1])
    decreases j
  {
    if j > lo && IsWhitespace(s[j - 1]) then SkipTrailing(s, lo, j - 1) else j
  }

  /** str::trim: s without its leading and trailing whitespace. */
  function Trim(s: string): (r: string)
    ensures |r| <= |s|
    ensures |r| > 0 ==> !IsWhitespace(r[0]) && !IsWhitespace(r[|r| - 1])
  {
    var a := SkipLeading(s, 0);
    s[a..SkipTrailing(s, a, |s|)]
  }

  predicate AllWhitespace(s: string)
  {
    forall k :: 0 <= k < |s| ==> IsWhitespace(s[k])
  }

  /** Trimming a word padded with whitespace on both sides gives the word,
      when the word neither starts nor ends with whitespace. */
  lemma TrimPadded(front: string, word: string, back: string)
    requires AllWhitespace(front) && AllWhitespace(back)
    requires |word| > 0 && !IsWhitespace(word[0]) && !IsWhitespace(word[|word| - 1])
    ensures Trim(front + word + back) == word
  {
    var s := front + word + back;
    LeadingPadding(s, |front|, 0);
    TrailingPadding(s, |front|, |front| + |word|, |s|);
    assert s[|front|..|front| + |word|] == word;
  }

  lemma {:induction false} LeadingPadding(s: string, a: nat, k: nat)
    requires k <= a < |s| && !IsWhitespace(s[a])
    requires forall m :: k <= m < a ==> IsWhitespace(s[m])
    ensures SkipLeading(s, k) == a
    decreases a - k
  {
    if k < a {
      LeadingPadding(s, a, k + 1);
    }
  }

  lemma {:induction false} TrailingPadding(s: string, lo: nat, e: nat, j: nat)
    requires lo < e <= j <= |s| && !IsWhitespace(s[e - 1])
    requires forall m :: e <= m < j ==> IsWhitespace(s[m])
    ensures SkipTrailing(s, lo, j) == e
    decreases j - e
  {
    if e < j {
      TrailingPadding(s, lo, e, j - 1);
    }
  }

  /** The lower-case letter of an upper-case ASCII letter; every other
      character is its own lower case here. */
  function LowerChar(c: char): char
  {
    if 'A' <= c <= 'Z' then (c as int + 32) as char else c
  }

  /** str::to_lowercase restricted to ASCII letters. */
  function Lower(s: string): (r: string)
    ensures |r| == |s|
    ensures forall i :: 0 <= i < |s| ==> r[i] == LowerChar(s[i])
  {
    seq(|s|, i requires 0 <= i < |s| => LowerChar(s[i]))
  }

  /** The form in which an argument is matched against the known words. */
  function Normalize(s: string): string
  {
    Lower(Trim(s))
  }

  /** The algorithm an argument names, by its long or short name. */
  function AlgorithmNamed(word: string): Option<Algorithm>
  {
    if word == "an" || word == "annealing" then Some(Annealing)
    else if word == "bf" || word == "brute-force" then Some(BruteForce)
    else None
  }

  /** The input-mode words and the random-mode words. */
  predicate IsInputMode(word: string)
  {
    word == "in" || word == "inp" || word == "input"
  }

  predicate IsRandomMode(word: string)
  {
    word == "rand" || word == "random"
  }

  /** The checks at the top of run, in their order: at least the program
      name and two arguments, a known algorithm, then a known input mode;
      in random mode a fourth argument that parses as a usize of at least 2.
      The count is not trimmed. */
  function ParseArgs(args: seq<string>): (r: Result<(Algorithm, Mode), ArgError>)
    ensures r == Err(TooFewArguments) <==> |args| < 3
    ensures |args| >= 3 ==> (r == Err(UnknownAlgorithm(args[1])) <==> AlgorithmNamed(Normalize(args[1])).None?)
    ensures r.Ok? ==> AlgorithmNamed(Normalize(args[1])) == Some(r.value.0)
    ensures r.Ok? && r.value.1.Input? ==> IsInputMode(Normalize(args[2]))
    ensures r.Ok? && r.value.1.Random? ==> IsRandomMode(Normalize(args[2]))
    ensures r.Ok? && r.value.1.Random? ==>
      |args| >= 4 && ParseUsize(args[3]) == Some(r.value.1.count) && r.value.1.count >= 2
  {
    if |args| < 3 then Err(TooFewArguments)
    else match AlgorithmNamed(Normalize(args[1]))
      case None => Err(UnknownAlgorithm(args[1]))
      case Some(algorithm) =>
        var mode := Normalize(args[2]);
        if IsInputMode(mode) then Ok((algorithm, Input))
        else if IsRandomMode(mode) then
          if |args| < 4 then Err(MissingCount)
          else match ParseUsize(args[3])
            case None => Err(InvalidCount(args[3]))
            case Some(count) => if count < 2 then Err(TooFewCities) else Ok((algorithm, Random(count)))
        else Err(UnknownMode(args[2]))
  }

  /** With a known algorithm, random mode is accepted exactly when a count
      of at least 2 follows; the error says which part is wrong. */
  lemma RandomModeCount(args: seq<string>)
    requires |args| >= 3 && AlgorithmNamed(Normalize(args[1])).Some? && IsRandomMode(Normalize(args[2]))
    ensures ParseArgs(args).Ok? <==> |args| >= 4 && ParseUsize(args[3]).Some? && ParseUsize(args[3]).value >= 2
    ensures ParseArgs(args) == Err(MissingCount) <==> |args| == 3
    ensures |args| >= 4 ==>
      && (ParseArgs(args) == Err(InvalidCount(args[3])) <==> ParseUsize(args[3]).None?)
      && (ParseArgs(args) == Err(TooFewCities) <==> ParseUsize(args[3]).Some? && ParseUsize(args[3]).value < 2)
  {
  }

  /** Input mode checks no count: whatever follows, a known algorithm is
      accepted; an unknown mode word is an error. */
  lemma ModeChecks(args: seq<string>)
    requires |args| >= 3 && AlgorithmNamed(Normalize(args[1])).Some?
    ensures IsInputMode(Normalize(args[2])) ==> ParseArgs(args) == Ok((AlgorithmNamed(Normalize(args[1])).value, Input))
    ensures !IsInputMode(Normalize(args[2])) && !IsRandomMode(Normalize(args[2])) ==>
      ParseArgs(args) == Err(UnknownMode(args[2]))
  {
  }

  /** The short name of each algorithm. */
  function ShortName(algorithm: Algorithm): string
  {
    if algorithm == Annealing then "an" else "bf"
  }

  /** A word between whitespace normalizes to its lower case. */
  lemma NormalizeIs(front: string, word: string, back: string, lower: string)
    requires AllWhitespace(front) && AllWhitespace(back)
    requires |word| > 0 && !IsWhitespace(word[0]) && !IsWhitespace(word[|word| - 1])
    requires |lower| == |word| && forall i :: 0 <= i < |word| ==> LowerChar(word[i]) == lower[i]
    ensures Normalize(front + word + back) == lower
  {
    TrimPadded(front, word, back);
  }

  /** The short names are their own normal form. */
  lemma ShortNameNormal(algorithm: Algorithm)
    ensures Normalize(ShortName(algorithm)) == ShortName(algorithm)
  {
    var name := ShortName(algorithm);
    NormalizeIs("", name, "", name);
    assert "" + name + "" == name;
  }

  lemma RandomNormal()
    ensures Normalize("random") == "random"
  {
    NormalizeIs("", "random", "", "random");
    assert "" + "random" + "" == "random";
  }

  /** A count of at least 2 written in decimal after the short name and
      "random" is accepted as such, whatever follows it. */
  lemma AcceptsRandom(program: string, algorithm: Algorithm, count: nat, extra: seq<string>)
    requires 2 <= count < UsizeLimit
    ensures ParseArgs([program, ShortName(algorithm), "random", NatToString(count)] + extra)
      == Ok((algorithm, Random(count)))
  {
    var args := [program, ShortName(algorithm), "random", NatToString(count)] + extra;
    ShortNameNormal(algorithm);
    RandomNormal();
    assert args[1] == ShortName(algorithm) && args[2] == "random" && args[3] == NatToString(count);
    assert AlgorithmNamed(Normalize(args[1])) == Some(algorithm);
    assert IsRandomMode(Normalize(args[2]));
    ParseUsizeRoundTrip(count);
  }

  /** Whitespace around the algorithm name does not matter, and its letters
      are matched in lower case. */
  lemma AcceptsPadded(program: string, front: string, word: string, back: string, mode: string, extra: seq<string>)
    requires AllWhitespace(front) && AllWhitespace(back)
    requires |word| > 0 && !IsWhitespace(word[0]) && !IsWhitespace(word[|word| - 1])
    requires AlgorithmNamed(Lower(word)).Some? && IsInputMode(Normalize(mode))
    ensures ParseArgs([program, front + word + back, mode] + extra) == Ok((AlgorithmNamed(Lower(word)).value, Input))
  {
    TrimPadded(front, word, back);
    var args := [program, front + word + back, mode] + extra;
    assert args[1] == front + word + back && args[2] == mode;
  }

  // ---------------------------------------------------------------------
  // The printed tour
  // ---------------------------------------------------------------------

  /** The first position of v in s. */
  function FirstIndex(s: seq<nat>, v: nat): (r: nat)
    requires v in s
    ensures r < |s| && s[r] == v
    ensures forall j :: 0 <= j < r ==> s[j] != v
  {
    if s[0] == v then 0 else 1 + FirstIndex(s[1..], v)
  }

  /** q read from its first city towards the lower of that city's two
      neighbours. */
  function Oriented(q: seq<nat>): (r: seq<nat>)
    requires |q| >= 2
    ensures |r| == |q| && r[0] == q[0] && r[1] <= r[|r| - 1]
  {
    if q[|q| - 1] < q[1] then [q[0]] + Reverse(q[1..]) else q
  }

  /** The printed order of a tour: rotated to start at the first 0, then
      oriented. */
  function Canonical(p: seq<nat>): (r: seq<nat>)
    requires 0 in p && |p| >= 2
    ensures |r| == |p| && r[0] == 0 && r[1] <= r[|r| - 1]
  {
    Oriented(Rotate(p, FirstIndex(p, 0)))
  }

  /** The rewriting in run: find 0, put the part from it first, and if the
      last city is lower than the second, reverse the whole path and move
      its last entry (the 0) back to the front. The source unwraps the
      search for 0 and reads path[1], so it demands both. */
  method Canonicalize(statePath: seq<nat>) returns (path: seq<nat>)
    requires 0 in statePath && |statePath| >= 2
    ensures path == Canonical(statePath)
  {
    var zeroIndex := 0;
    while statePath[zeroIndex] != 0
      invariant zeroIndex <= FirstIndex(statePath, 0)
      decreases FirstIndex(statePath, 0) - zeroIndex
    {
      zeroIndex := zeroIndex + 1;
    }
    var part1, part2 := statePath[..zeroIndex], statePath[zeroIndex..];
    path := part2 + part1;
    assert path == Rotate(statePath, FirstIndex(statePath, 0));
    if path[|path| - 1] < path[1] {
      ReverseSplit(path);
      path := Reverse(path);
      var last := path[|path| - 1];
      path := path[..|path| - 1];
      path := [last] + path;
    }
  }

  /** Reversing a tour puts its first city last, after the reversed rest. */
  lemma ReverseSplit(q: seq<nat>)
    requires |q| > 0
    ensures Reverse(q) == Reverse(q[1..]) + [q[0]]
  {
  }

  lemma RotatePermutes(s: seq<nat>, k: nat)
    requires k <= |s|
    ensures multiset(Rotate(s, k)) == multiset(s)
  {
    assert s == s[..k] + s[k..];
  }

  /** Orienting keeps the first city and the cities held, and puts the
      lower neighbour second. */
  lemma OrientedShape(q: seq<nat>)
    requires |q| >= 2
    ensures var r := Oriented(q);
      |r| == |q| && r[0] == q[0] && multiset(r) == multiset(q) && r[1] <= r[|r| - 1]
  {
    if q[|q| - 1] < q[1] {
      var t := q[1..];
      ReversePermutes(t);
      assert q == [q[0]] + t;
    }
  }

  /** The printed tour starts at 0, holds the same cities, and goes first to
      the lower of 0's two neighbours. */
  lemma CanonicalShape(p: seq<nat>)
    requires 0 in p && |p| >= 2
    ensures var r := Canonical(p);
      && |r| == |p| && r[0] == 0 && multiset(r) == multiset(p)
      && r[1] <= r[|r| - 1]
  {
    var k := FirstIndex(p, 0);
    RotatePermutes(p, k);
    OrientedShape(Rotate(p, k));
  }

  /** Under a symmetric weight the printed tour is as long as the solver's. */
  lemma CanonicalKeepsLength(w: Weight, p: seq<nat>)
    requires 0 in p && |p| >= 2 && Symmetric(w)
    ensures CyclicLength(w, Canonical(p)) == CyclicLength(w, p)
  {
    var k := FirstIndex(p, 0);
    var q := Rotate(p, k);
    RotateKeepsLength(w, p, k);
    if q[|q| - 1] < q[1] {
      var rq := Reverse(q);
      ReverseSplit(q);
      assert ShiftedRight(rq) == [q[0]] + Reverse(q[1..]);
      ReverseKeepsLength(w, q);
      ShiftRightKeepsLength(w, rq);
    }
  }

  /** Rewriting a printed tour again changes nothing. */
  lemma CanonicalIdempotent(p: seq<nat>)
    requires 0 in p && |p| >= 2
    ensures 0 in Canonical(p) && |Canonical(p)| >= 2
    ensures Canonical(Canonical(p)) == Canonical(p)
  {
    CanonicalShape(p);
    var r := Canonical(p);
    assert r[0] == 0;
    assert FirstIndex(r, 0) == 0;
    assert Rotate(r, 0) == r;
  }

  /** The printed line: the indices joined with commas; reading it back by
      splitting on commas gives the tour, and it holds one comma fewer than
      there are cities. */
  lemma OutputRoundTrip(path: seq<nat>)
    requires |path| > 0
    ensures ParseJoined(Join(path, ","), ",") == Some(path)
    ensures multiset(Join(path, ","))[','] == |path| - 1
  {
    JoinRoundTrip(path, ",");
    JoinSeparators(path, ",", ',');
  }
}
