/**
 * The helpers of src/app/utils.ts: the percentile-list parser, the two
 * percentile pickers (nearest rank and linear interpolation) and the
 * extraction of the JSON object embedded in a log line.
 */
module Utils {
  import opened Wrappers
  import opened Foreign
  import opened Sorting

  // ----- extractJson -----

  /** i is the least index of c in s. */
  predicate FirstIndex(s: string, c: char, i: int)
  {
    0 <= i < |s| && s[i] == c && c !in s[..i]
  }

  /** j is the greatest index of c in s. */
  predicate LastIndex(s: string, c: char, j: int)
  {
    0 <= j < |s| && s[j] == c && c !in s[j + 1..]
  }

  /** `s.indexOf(c)`: the least index of c, or -1 when s has none. */
  function IndexOf(s: string, c: char): (r: int)
    ensures r == -1 <==> c !in s
    ensures r != -1 ==> FirstIndex(s, c, r)
  {
    if s == [] then -1
    else if s[0] == c then 0
    else
      var r := IndexOf(s[1..], c);
      assert s == [s[0]] + s[1..];
      if r == -1 then -1
      else
        assert s[..r + 1] == [s[0]] + s[1..][..r];
        r + 1
  }

  /** `s.lastIndexOf(c)`: the greatest index of c, or -1 when s has none. */
  function LastIndexOf(s: string, c: char): (r: int)
    ensures r == -1 <==> c !in s
    ensures r != -1 ==> LastIndex(s, c, r)
  {
    if s == [] then -1
    else if s[|s| - 1] == c then |s| - 1
    else
      assert s == s[..|s| - 1] + [s[|s| - 1]];
      var r := LastIndexOf(s[..|s| - 1], c);
      assert r != -1 ==> s[r + 1..] == s[..|s| - 1][r + 1..] + [s[|s| - 1]];
      r
  }

  /**
   * `extractJson(line)`: decode the text from the first `{` to the last `}`
   * inclusive; nothing when either brace is missing, when the last `}` comes
   * before the first `{`, or when decoding fails.
   */
  function ExtractJson(decode: string -> Option<Record>, line: string): (r: Option<Record>)
    ensures '{' !in line || '}' !in line ==> r == None
    ensures forall i, j :: FirstIndex(line, '{', i) && LastIndex(line, '}', j) ==>
      r == if j < i then None else decode(line[i..j + 1])
  {
    var first := IndexOf(line, '{');
    var last := LastIndexOf(line, '}');
    if first < 0 || last < first then None
    else decode(line[first..last + 1])
  }

  // ----- parsePercentiles -----

  /** The characters of the separator pattern `/[ ,]+/`. */
  predicate IsSeparator(c: char)
  {
    c == ' ' || c == ','
  }

  /** The index of the first separator in s, or |s| when there is none. */
  function FirstSeparator(s: string): (i: nat)
    ensures i <= |s|
    ensures i < |s| ==> IsSeparator(s[i])
    ensures forall k :: 0 <= k < i ==> !IsSeparator(s[k])
  {
    if s == [] || IsSeparator(s[0]) then 0 else 1 + FirstSeparator(s[1..])
  }

  /** The length of the run of separators that s starts with. */
  function SeparatorRun(s: string): (n: nat)
    ensures n <= |s|
    ensures forall k :: 0 <= k < n ==> IsSeparator(s[k])
    ensures n < |s| ==> !IsSeparator(s[n])
  {
    if s == [] || !IsSeparator(s[0]) then 0 else 1 + SeparatorRun(s[1..])
  }

  /** t holds no space and no comma. */
  predicate SeparatorFree(t: string)
  {
    forall j :: 0 <= j < |t| ==> !IsSeparator(t[j])
  }

  /**
   * `s.split(/[ ,]+/)`: the pieces between maximal runs of spaces and commas.
   * A separator at the start or the end gives an empty first or last piece,
   * and the empty string gives one empty piece.
   */
  function SplitTokens(s: string): (r: seq<string>)
    ensures |r| >= 1
    ensures forall k :: 0 <= k < |r| ==> SeparatorFree(r[k])
    ensures s != [] && !IsSeparator(s[0]) ==> r[0] != []
    ensures forall k :: 0 < k < |r| - 1 ==> r[k] != []
    decreases |s|
  {
    var i := FirstSeparator(s);
    if i == |s| then [s]
    else
      var rest := s[i..][SeparatorRun(s[i..])..];
      var tail := SplitTokens(rest);
      assert SeparatorFree(s[..i]);
      assert |tail| > 1 ==> rest != [] && tail[0] != [];
      [s[..i]] + tail
  }

  /** s with its separators removed. */
  function WithoutSeparators(s: string): string
  {
    if s == [] then []
    else (if IsSeparator(s[0]) then [] else [s[0]]) + WithoutSeparators(s[1..])
  }

  /** The pieces laid end to end. */
  function Concat(ts: seq<string>): string
  {
    if ts == [] then [] else ts[0] + Concat(ts[1..])
  }

  lemma {:induction false} WithoutSeparatorsAppend(a: string, b: string)
    ensures WithoutSeparators(a + b) == WithoutSeparators(a) + WithoutSeparators(b)
  {
    if a != [] {
      assert (a + b)[1..] == a[1..] + b;
      WithoutSeparatorsAppend(a[1..], b);
    } else {
      assert a + b == b;
    }
  }

  lemma {:induction false} WithoutSeparatorsOfFree(s: string)
    requires forall k :: 0 <= k < |s| ==> !IsSeparator(s[k])
    ensures WithoutSeparators(s) == s
  {
    if s != [] {
      WithoutSeparatorsOfFree(s[1..]);
    }
  }

  lemma {:induction false} WithoutSeparatorsOfRun(s: string, n: nat)
    requires n <= |s|
    requires forall k :: 0 <= k < n ==> IsSeparator(s[k])
    ensures WithoutSeparators(s) == WithoutSeparators(s[n..])
  {
    if n > 0 {
      WithoutSeparatorsOfRun(s[1..], n - 1);
      assert s[1..][n - 1..] == s[n..];
    }
  }

  /** Splitting loses exactly the separators: the pieces put back together are s without its spaces and commas. */
  lemma {:induction false} SplitTokensKeepsEverythingElse(s: string)
    ensures Concat(SplitTokens(s)) == WithoutSeparators(s)
    decreases |s|
  {
    var i := FirstSeparator(s);
    if i == |s| {
      WithoutSeparatorsOfFree(s);
      assert Concat([s]) == s + Concat([]);
    } else {
      var run := SeparatorRun(s[i..]);
      var rest := s[i..][run..];
      SplitTokensKeepsEverythingElse(rest);
      var r := [s[..i]] + SplitTokens(rest);
      assert r[1..] == SplitTokens(rest);
      assert s == s[..i] + s[i..];
      WithoutSeparatorsAppend(s[..i], s[i..]);
      WithoutSeparatorsOfFree(s[..i]);
      WithoutSeparatorsOfRun(s[i..], run);
    }
  }

  /** t is a non-empty run of spaces and commas. */
  predicate SeparatorRunOf(t: string)
  {
    t != [] && forall j :: 0 <= j < |t| ==> IsSeparator(t[j])
  }

  /** The tokens with the separator runs between them put back: ts[0] + seps[0] + ts[1] + ... */
  function Join(ts: seq<string>, seps: seq<string>): string
    requires |ts| == |seps| + 1
  {
    if seps == [] then ts[0] else ts[0] + seps[0] + Join(ts[1..], seps[1..])
  }

  /**
   * The round trip of the split: s is its tokens joined by non-empty runs of
   * separators. With the tokens free of separators, this fixes where s breaks.
   */
  lemma {:induction false} SplitTokensRoundTrip(s: string) returns (seps: seq<string>)
    ensures |seps| + 1 == |SplitTokens(s)|
    ensures forall k :: 0 <= k < |seps| ==> SeparatorRunOf(seps[k])
    ensures Join(SplitTokens(s), seps) == s
    decreases |s|
  {
    var i := FirstSeparator(s);
    if i == |s| {
      seps := [];
    } else {
      var n := SplitStep(s);
      var tail := SplitTokensRoundTrip(s[i + n..]);
      seps := [s[i..i + n]] + tail;
      JoinCons(s[..i], s[i..i + n], SplitTokens(s[i + n..]), tail);
    }
  }

  /** One step of the split: the first token, the separator run after it, and the rest. */
  lemma SplitStep(s: string) returns (n: nat)
    requires FirstSeparator(s) < |s|
    ensures var i := FirstSeparator(s);
      && i + n <= |s|
      && SeparatorRunOf(s[i..i + n])
      && SplitTokens(s) == [s[..i]] + SplitTokens(s[i + n..])
      && s == s[..i] + s[i..i + n] + s[i + n..]
  {
    var i := FirstSeparator(s);
    n := SeparatorRun(s[i..]);
    assert SeparatorRunOf(s[i..i + n]) by {
      assert IsSeparator(s[i..][0]);
      assert s[i..][..n] == s[i..i + n];
    }
    assert SplitTokens(s) == [s[..i]] + SplitTokens(s[i + n..]) by {
      assert s[i..][n..] == s[i + n..];
    }
    ThreeParts(s, i, i + n);
  }

  /** s cut in three at i and j. */
  lemma ThreeParts(s: string, i: nat, j: nat)
    requires i <= j <= |s|
    ensures s == s[..i] + s[i..j] + s[j..]
  {
    assert s == s[..i] + s[i..];
    assert s[i..] == s[i..j] + s[j..];
  }

  /** Joining with one more token and run in front. */
  lemma JoinCons(t: string, sep: string, ts: seq<string>, seps: seq<string>)
    requires |ts| == |seps| + 1
    ensures Join([t] + ts, [sep] + seps) == t + sep + Join(ts, seps)
  {
    assert ([t] + ts)[1..] == ts && ([sep] + seps)[1..] == seps;
  }

  /** The first token is empty exactly when s is empty or starts with a separator. */
  lemma SplitTokensFirst(s: string)
    ensures SplitTokens(s)[0] == [] <==> s == [] || IsSeparator(s[0])
  {
    var i := FirstSeparator(s);
    if i < |s| {
      var n := SplitStep(s);
    }
  }

  /** The last token is empty exactly when s is empty or ends with a separator. */
  lemma SplitTokensLast(s: string)
    ensures var r := SplitTokens(s);
      r[|r| - 1] == [] <==> s == [] || IsSeparator(s[|s| - 1])
  {
    var r := SplitTokens(s);
    var seps := SplitTokensRoundTrip(s);
    var last := r[|r| - 1];
    assert SeparatorFree(last);
    if seps == [] {
      assert s == last;
    } else {
      JoinSnoc(r, seps);
      var sep := seps[|seps| - 1];
      assert SeparatorRunOf(sep);
      var front := Join(r[..|r| - 1], seps[..|seps| - 1]) + sep;
      assert s == front + last;
      assert front[|front| - 1] == sep[|sep| - 1];
      if last == [] {
        assert s == front;
      } else {
        assert s[|s| - 1] == last[|last| - 1];
      }
    }
  }

  /** The last token and separator run of a join come at its end. */
  lemma {:induction false} JoinSnoc(ts: seq<string>, seps: seq<string>)
    requires |ts| == |seps| + 1 && seps != []
    ensures Join(ts, seps) == Join(ts[..|ts| - 1], seps[..|seps| - 1]) + seps[|seps| - 1] + ts[|ts| - 1]
  {
    if |seps| > 1 {
      JoinSnoc(ts[1..], seps[1..]);
      assert ts[1..][..|ts| - 2] == ts[..|ts| - 1][1..];
      assert seps[1..][..|seps| - 2] == seps[..|seps| - 1][1..];
    }
  }

  /** The values `Number(t)` of the tokens that are finite and strictly inside (0, 100), in token order. */
  function KeepPercentiles(number: string -> Option<real>, tokens: seq<string>): (r: seq<real>)
    ensures |r| <= |tokens|
    ensures forall v :: v in r ==> 0.0 < v < 100.0
  {
    if tokens == [] then []
    else
      var rest := KeepPercentiles(number, tokens[1..]);
      match number(tokens[0])
      case Some(v) => if 0.0 < v < 100.0 then [v] + rest else rest
      case None => rest
  }

  /** `parsePercentiles(str)`; `number` is `Number` on a string, `None` when the result is not finite. */
  function ParsePercentiles(number: string -> Option<real>, str: string): (r: seq<real>)
    ensures forall v :: v in r ==> 0.0 < v < 100.0
  {
    KeepPercentiles(number, SplitTokens(str))
  }

  /** A value is kept exactly when some token converts to it and it lies strictly inside (0, 100). */
  lemma {:induction false} KeepPercentilesMembers(number: string -> Option<real>, tokens: seq<string>, v: real)
    ensures v in KeepPercentiles(number, tokens) <==>
      exists k :: 0 <= k < |tokens| && number(tokens[k]) == Some(v) && 0.0 < v < 100.0
  {
    if tokens != [] {
      KeepPercentilesMembers(number, tokens[1..], v);
      if exists k :: 0 <= k < |tokens| && number(tokens[k]) == Some(v) && 0.0 < v < 100.0 {
        var k :| 0 <= k < |tokens| && number(tokens[k]) == Some(v) && 0.0 < v < 100.0;
        if k > 0 {
          assert tokens[1..][k - 1] == tokens[k];
        }
      }
      if v in KeepPercentiles(number, tokens[1..]) {
        var k :| 0 <= k < |tokens[1..]| && number(tokens[1..][k]) == Some(v) && 0.0 < v < 100.0;
        assert tokens[k + 1] == tokens[1..][k];
      }
    }
  }

  /** Parsing is a filter, so it splits over the pieces of a token list: the kept values stay in token order. */
  lemma {:induction false} KeepPercentilesAppend(number: string -> Option<real>, a: seq<string>, b: seq<string>)
    ensures KeepPercentiles(number, a + b) == KeepPercentiles(number, a) + KeepPercentiles(number, b)
  {
    if a != [] {
      assert (a + b)[0] == a[0];
      assert (a + b)[1..] == a[1..] + b;
      KeepPercentilesAppend(number, a[1..], b);
    } else {
      assert a + b == b;
    }
  }

  /** When every token is a valid percentile, every one of them is kept, in order, repeats included. */
  lemma {:induction false} KeepPercentilesAllValid(number: string -> Option<real>, tokens: seq<string>)
    requires forall k :: 0 <= k < |tokens| ==> number(tokens[k]).Some? && 0.0 < number(tokens[k]).value < 100.0
    ensures |KeepPercentiles(number, tokens)| == |tokens|
    ensures forall k :: 0 <= k < |tokens| ==> KeepPercentiles(number, tokens)[k] == number(tokens[k]).value
  {
    if tokens != [] {
      KeepPercentilesAllValid(number, tokens[1..]);
      var r := KeepPercentiles(number, tokens);
      assert r == [number(tokens[0]).value] + KeepPercentiles(number, tokens[1..]);
      forall k | 0 < k < |tokens| ensures r[k] == number(tokens[k]).value {
        assert tokens[1..][k - 1] == tokens[k];
      }
    }
  }

  // ----- nearestRank and linearInterp -----

  /** Multiplying by a non-negative factor keeps an order. */
  lemma MulMonotone(a: real, b: real, c: real)
    requires a <= b && 0.0 <= c
    ensures a * c <= b * c
  {
  }

  /** Multiplying by a positive factor keeps a strict order. */
  lemma MulStrict(a: real, b: real, c: real)
    requires a < b && 0.0 < c
    ensures a * c < b * c
  {
    assert b * c - a * c == (b - a) * c;
  }

  /** `Math.ceil(x)`. */
  function Ceil(x: real): (c: int)
    ensures c as real - 1.0 < x <= c as real
  {
    -((-x).Floor)
  }

  lemma CeilMonotone(x: real, y: real)
    requires x <= y
    ensures Ceil(x) <= Ceil(y)
  {
  }

  /** `Math.min(Math.max(rank - 1, 0), n - 1)` with `rank = Math.ceil(p / 100 * n)`: the index nearestRank reads. */
  function NearestRankIndex(n: nat, p: real): (k: int)
    requires n > 0
    ensures 0 <= k < n
  {
    var rank := Ceil(p / 100.0 * n as real);
    var clamped := if rank - 1 > 0 then rank - 1 else 0;
    if clamped < n - 1 then clamped else n - 1
  }

  /** `nearestRank(sorted, p)`; `None` is the NaN of an empty input. */
  function NearestRank(sorted: seq<real>, p: real): (r: Option<real>)
    ensures r == None <==> sorted == []
    ensures r.Some? ==> r.value in sorted
  {
    var n := |sorted|;
    if n == 0 then None else Some(sorted[NearestRankIndex(n, p)])
  }

  /**
   * For p in (0, 100] the clamp never applies: the index is the least k such
   * that the first k + 1 values make up at least p percent of the n values.
   */
  lemma NearestRankIsLeastRank(n: nat, p: real)
    requires n > 0 && 0.0 < p <= 100.0
    ensures var k := NearestRankIndex(n, p);
      (k + 1) as real * 100.0 >= p * n as real && k as real * 100.0 < p * n as real
  {
    PercentOf(p, n as real);
  }

  /** p percent of a positive m is a positive amount at most m, and 100 times it is p * m. */
  lemma PercentOf(p: real, m: real)
    requires 0.0 < p <= 100.0 && m > 0.0
    ensures 0.0 < p / 100.0 * m <= m
    ensures p / 100.0 * m * 100.0 == p * m
  {
    MulStrict(0.0, p / 100.0, m);
    MulMonotone(p / 100.0, 1.0, m);
  }

  /** Nearest rank moves up with p on sorted input. */
  lemma NearestRankMonotone(sorted: seq<real>, p: real, q: real)
    requires Sorted(sorted) && sorted != []
    requires p <= q
    ensures NearestRank(sorted, p).value <= NearestRank(sorted, q).value
  {
    var n := |sorted|;
    MulMonotone(p / 100.0, q / 100.0, n as real);
    CeilMonotone(p / 100.0 * n as real, q / 100.0 * n as real);
    var kp, kq := NearestRankIndex(n, p), NearestRankIndex(n, q);
    assert kp <= kq;
    assert sorted[kp] <= sorted[kq];
  }

  /** The position `p / 100 * (n - 1)` linearInterp works from. */
  function Position(n: nat, p: real): real
  {
    p / 100.0 * ((n - 1) as real)
  }

  /** The point a fraction f of the way from a to b. */
  function Lerp(a: real, b: real, f: real): real
  {
    a + f * (b - a)
  }

  /** `linearInterp(sorted, p)`; `None` is the NaN of an empty input or of reading below index 0. */
  function LinearInterp(sorted: seq<real>, p: real): (r: Option<real>)
    ensures sorted == [] ==> r == None
    ensures sorted != [] && 0.0 <= p ==> r.Some?
  {
    var n := |sorted|;
    if n == 0 then None
    else
      var pos := Position(n, p);
      assert 0.0 <= p ==> 0.0 <= pos by {
        if 0.0 <= p {
          PositionNonNegative(n, p);
        }
      }
      var lo := pos.Floor;
      var hi := Ceil(pos);
      var frac := pos - lo as real;
      if hi >= n then Some(sorted[n - 1])
      else if lo < 0 then None
      else Some(Lerp(sorted[lo], sorted[hi], frac))
  }

  /** Where the position is a whole index k, linearInterp returns the value at k, with nothing interpolated. */
  lemma LinearInterpAtIndex(sorted: seq<real>, p: real, k: nat)
    requires k < |sorted|
    requires Position(|sorted|, p) == k as real
    ensures LinearInterp(sorted, p) == Some(sorted[k])
  {
    var pos := Position(|sorted|, p);
    assert pos.Floor == k && Ceil(pos) == k;
    assert Lerp(sorted[k], sorted[k], pos - k as real) == sorted[k];
  }

  /** Percentile 100 is the last value. */
  lemma LinearInterpHundred(sorted: seq<real>)
    requires sorted != []
    ensures LinearInterp(sorted, 100.0) == Some(sorted[|sorted| - 1])
  {
    LinearInterpAtIndex(sorted, 100.0, |sorted| - 1);
  }

  /** Interpolation stays between its ends. */
  lemma Between(a: real, b: real, f: real)
    requires a <= b && 0.0 <= f <= 1.0
    ensures a <= Lerp(a, b, f) <= b
  {
    MulMonotone(0.0, f, b - a);
    MulMonotone(f, 1.0, b - a);
  }

  /** For p >= 0 the position is not negative. */
  lemma PositionNonNegative(n: nat, p: real)
    requires n > 0 && 0.0 <= p
    ensures 0.0 <= Position(n, p)
  {
    var m := (n - 1) as real;
    calc {
      0.0;
    ==
      0.0 * m;
    <= { MulMonotone(0.0, p / 100.0, m); }
      p / 100.0 * m;
    ==
      Position(n, p);
    }
  }

  /** For p in [0, 100] the position lies in [0, n - 1]. */
  lemma PositionInRange(n: nat, p: real)
    requires n > 0 && 0.0 <= p <= 100.0
    ensures 0.0 <= Position(n, p) <= (n - 1) as real
  {
    var m := (n - 1) as real;
    PositionNonNegative(n, p);
    calc {
      Position(n, p);
    ==
      p / 100.0 * m;
    <= { MulMonotone(p / 100.0, 1.0, m); }
      1.0 * m;
    ==
      m;
    }
  }

  lemma PositionMonotone(n: nat, p: real, q: real)
    requires n > 0 && p <= q
    ensures Position(n, p) <= Position(n, q)
  {
    MulMonotone(p / 100.0, q / 100.0, (n - 1) as real);
  }

  /** For p in [0, 100] linearInterp never reads outside the input: it interpolates between two neighbours. */
  lemma LinearInterpValue(sorted: seq<real>, p: real)
    requires sorted != [] && 0.0 <= p <= 100.0
    ensures var pos := Position(|sorted|, p);
      var lo, hi := pos.Floor, Ceil(pos);
      0 <= lo <= hi < |sorted| && hi <= lo + 1 &&
      LinearInterp(sorted, p) == Some(Lerp(sorted[lo], sorted[hi], pos - lo as real))
  {
    PositionInRange(|sorted|, p);
  }

  /** Interpolation moves up with the fraction when the ends are in order. */
  lemma LerpMonotone(a: real, b: real, f: real, g: real)
    requires a <= b && f <= g
    ensures Lerp(a, b, f) <= Lerp(a, b, g)
  {
    MulMonotone(f, g, b - a);
  }

  /**
   * On sorted input and p in [0, 100] the result lies between the values at
   * the floor and the ceiling of the position, hence between the least and
   * the greatest value.
   */
  lemma LinearInterpBetween(sorted: seq<real>, p: real)
    requires Sorted(sorted) && sorted != []
    requires 0.0 <= p <= 100.0
    ensures var n, pos := |sorted|, Position(|sorted|, p);
      0 <= pos.Floor <= Ceil(pos) < n &&
      sorted[pos.Floor] <= LinearInterp(sorted, p).value <= sorted[Ceil(pos)] &&
      sorted[0] <= LinearInterp(sorted, p).value <= sorted[n - 1]
  {
    var pos := Position(|sorted|, p);
    LinearInterpValue(sorted, p);
    var lo, hi := pos.Floor, Ceil(pos);
    Between(sorted[lo], sorted[hi], pos - lo as real);
  }

  /** linearInterp moves up with p on sorted input. */
  lemma LinearInterpMonotone(sorted: seq<real>, p: real, q: real)
    requires Sorted(sorted) && sorted != []
    requires 0.0 <= p <= q <= 100.0
    ensures LinearInterp(sorted, p).value <= LinearInterp(sorted, q).value
  {
    var n := |sorted|;
    var pp, pq := Position(n, p), Position(n, q);
    PositionMonotone(n, p, q);
    LinearInterpBetween(sorted, p);
    LinearInterpBetween(sorted, q);
    var lp, hp, lq, hq := pp.Floor, Ceil(pp), pq.Floor, Ceil(pq);
    LinearInterpValue(sorted, p);
    LinearInterpValue(sorted, q);
    assert lp <= lq;
    if lp < lq {
      assert sorted[hp] <= sorted[lq];
    } else if hp != lp {
      assert hq == hp;
      LerpMonotone(sorted[lp], sorted[hp], pp - lp as real, pq - lq as real);
    }
  }
}
