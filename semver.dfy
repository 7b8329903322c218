/**
 * The version finder used by the tag matcher: the leftmost substring of a tag
 * that matches `(?-u:\d)+\.(?-u:\d)+\.(?-u:\d)+` (ASCII digits only), found
 * by a hand-written scanner instead of a regular-expression engine.
 *
 * At a fixed start position the pattern has at most one way to match up to
 * its last `\d+`: a digit can never match the `.` that follows a digit run,
 * so the first two runs are forced to be maximal, and the greedy last run is
 * maximal as well. The regex engine's leftmost-first answer is therefore the
 * match with the smallest start and, for that start, the largest end.
 */
module Semver {
  import opened Wrappers
  import opened Text

  /** The half-open span `s[start..end]` of a match. */
  datatype Span = Span(start: nat, end: nat)

  /** `s[a..b]` is a non-empty run of ASCII digits. */
  predicate DigitRun(s: string, a: int, b: int) {
    0 <= a < b <= |s| && forall t :: a <= t < b ==> IsAsciiDigit(s[t])
  }

  /** Reference definition: `s[i..j]` matches `\d+\.\d+\.\d+`, the dots at `p` and `q`. */
  ghost predicate IsVersionSplit(s: string, i: int, p: int, q: int, j: int) {
    && 0 <= i < p < q < j <= |s|
    && s[p] == '.' && s[q] == '.'
    && DigitRun(s, i, p) && DigitRun(s, p + 1, q) && DigitRun(s, q + 1, j)
  }

  /** Reference definition: `s[i..j]` matches `\d+\.\d+\.\d+`. */
  ghost predicate IsVersionAt(s: string, i: int, j: int) {
    exists p, q :: IsVersionSplit(s, i, p, q, j)
  }

  /** The match the regex engine reports: leftmost start, then longest. */
  ghost predicate IsLeftmostLongest(s: string, m: Span) {
    && IsVersionAt(s, m.start, m.end)
    && (forall i, j :: i < m.start ==> !IsVersionAt(s, i, j))
    && (forall j :: m.end < j ==> !IsVersionAt(s, m.start, j))
  }

  /** `s` contains some `\d+\.\d+\.\d+` substring. */
  ghost predicate HasVersion(s: string) {
    exists i, j :: IsVersionAt(s, i, j)
  }

  /** End of the maximal run of ASCII digits that starts at `k`. */
  function DigitsEnd(s: string, k: nat): (e: nat)
    requires k <= |s|
    ensures k <= e <= |s|
    ensures forall t :: k <= t < e ==> IsAsciiDigit(s[t])
    ensures e < |s| ==> !IsAsciiDigit(s[e])
    decreases |s| - k
  {
    if k < |s| && IsAsciiDigit(s[k]) then DigitsEnd(s, k + 1) else k
  }

  /** The end of the match anchored at `i`, if the pattern matches there. */
  function MatchAt(s: string, i: nat): (r: Option<nat>)
    requires i <= |s|
    ensures r.Some? ==> i < r.value <= |s|
  {
    var p := DigitsEnd(s, i);
    if p == i || p == |s| || s[p] != '.' then None
    else
      var q := DigitsEnd(s, p + 1);
      if q == p + 1 || q == |s| || s[q] != '.' then None
      else
        var j := DigitsEnd(s, q + 1);
        if j == q + 1 then None else Some(j)
  }

  /** The leftmost match starting at or after `i`. */
  function FindFrom(s: string, i: nat): (r: Option<Span>)
    requires i <= |s|
    ensures r.Some? ==> i <= r.value.start < r.value.end <= |s|
    decreases |s| - i
  {
    if i == |s| then None
    else
      match MatchAt(s, i)
      case Some(j) => Some(Span(i, j))
      case None => FindFrom(s, i + 1)
  }

  /** `Regex::find`: the span of the leftmost version substring of `s`. */
  function Find(s: string): (r: Option<Span>)
    ensures r.Some? ==> r.value.start < r.value.end <= |s|
  {
    FindFrom(s, 0)
  }

  /** `Match::as_str`: the text of the version found in `s`, if any. */
  function FindText(s: string): Option<string> {
    match Find(s)
    case None => None
    case Some(m) => Some(s[m.start..m.end])
  }

  /** Whatever the scanner reports at `i` is a version substring. */
  lemma MatchAtSound(s: string, i: nat)
    requires i <= |s| && MatchAt(s, i).Some?
    ensures IsVersionAt(s, i, MatchAt(s, i).value)
  {
    var p := DigitsEnd(s, i);
    var q := DigitsEnd(s, p + 1);
    assert IsVersionSplit(s, i, p, q, MatchAt(s, i).value);
  }

  /** Every version substring starting at `i` is found by the scanner, which takes the longest. */
  lemma MatchAtComplete(s: string, i: nat, j: nat)
    requires i <= |s| && IsVersionAt(s, i, j)
    ensures MatchAt(s, i).Some? && j <= MatchAt(s, i).value
  {
    var p, q :| IsVersionSplit(s, i, p, q, j);
    assert DigitsEnd(s, i) == p;
    assert DigitsEnd(s, p + 1) == q;
    assert DigitsEnd(s, q + 1) >= j;
  }

  /** Scanning skips a position that does not hold a digit. */
  lemma SkipNonDigit(s: string, i: nat)
    requires i < |s| && !IsAsciiDigit(s[i])
    ensures FindFrom(s, i) == FindFrom(s, i + 1)
  {
    assert DigitsEnd(s, i) == i;
  }

  /** The scanner reports `s[i..j]` when it splits as a version and no digit follows it. */
  lemma MatchAtSplit(s: string, i: nat, p: nat, q: nat, j: nat)
    requires IsVersionSplit(s, i, p, q, j) && (j == |s| || !IsAsciiDigit(s[j]))
    ensures FindFrom(s, i) == Some(Span(i, j))
  {
    MatchAtComplete(s, i, j);
    assert DigitsEnd(s, q + 1) == j;
  }

  /** A version split preceded by no digit at all is the version `FindText` reports. */
  lemma {:induction false} FindTextOfFirstSplit(s: string, i: nat, p: nat, q: nat, j: nat)
    requires IsVersionSplit(s, i, p, q, j) && (j == |s| || !IsAsciiDigit(s[j]))
    requires forall k :: 0 <= k < i ==> !IsAsciiDigit(s[k])
    ensures FindText(s) == Some(s[i..j])
  {
    MatchAtSplit(s, i, p, q, j);
    SkipNonDigits(s, 0, i);
  }

  /** Scanning skips a stretch of positions without digits. */
  lemma {:induction false} SkipNonDigits(s: string, k: nat, i: nat)
    requires k <= i <= |s| && forall t :: k <= t < i ==> !IsAsciiDigit(s[t])
    ensures FindFrom(s, k) == FindFrom(s, i)
    decreases i - k
  {
    if k < i {
      calc {
        FindFrom(s, k);
        { SkipNonDigit(s, k); }
        FindFrom(s, k + 1);
        { SkipNonDigits(s, k + 1, i); }
        FindFrom(s, i);
      }
    }
  }

  /** No version substring starting at `i` is longer than what the scanner reports there. */
  lemma MatchAtIsLongest(s: string, i: nat)
    requires i <= |s| && MatchAt(s, i).Some?
    ensures forall j :: MatchAt(s, i).value < j ==> !IsVersionAt(s, i, j)
  {
    forall j | MatchAt(s, i).value < j ensures !IsVersionAt(s, i, j) {
      if IsVersionAt(s, i, j) {
        MatchAtComplete(s, i, j);
      }
    }
  }

  /** Where the scanner reports nothing, no version substring starts. */
  lemma NoVersionWhereNoMatch(s: string, i: nat)
    requires i <= |s| && MatchAt(s, i).None?
    ensures forall j :: !IsVersionAt(s, i, j)
  {
    forall j ensures !IsVersionAt(s, i, j) {
      if IsVersionAt(s, i, j) {
        MatchAtComplete(s, i, j);
      }
    }
  }

  /** No version substring starts at or after the end of the string. */
  lemma NoVersionAtEnd(s: string, i: int, j: int)
    requires |s| <= i
    ensures !IsVersionAt(s, i, j)
  {
    forall p, q ensures !IsVersionSplit(s, i, p, q, j) {
    }
  }

  /** When the scanner from `i0` finds nothing, no version substring starts at or after `i0`. */
  lemma {:induction false} FindFromNoneIsComplete(s: string, i0: nat)
    requires i0 <= |s| && FindFrom(s, i0).None?
    ensures forall i, j :: i0 <= i ==> !IsVersionAt(s, i, j)
    decreases |s| - i0
  {
    if i0 == |s| {
      forall i, j | i0 <= i ensures !IsVersionAt(s, i, j) {
        NoVersionAtEnd(s, i, j);
      }
    } else {
      assert MatchAt(s, i0).None? && FindFrom(s, i0 + 1).None?;
      NoVersionWhereNoMatch(s, i0);
      FindFromNoneIsComplete(s, i0 + 1);
    }
  }

  /** The scanner from `i0` finds the leftmost, then longest, version substring at or after `i0`. */
  lemma {:induction false} FindFromIsLeftmostLongest(s: string, i0: nat)
    requires i0 <= |s|
    ensures FindFrom(s, i0).None? ==> forall i, j :: i0 <= i ==> !IsVersionAt(s, i, j)
    ensures FindFrom(s, i0).Some? ==>
              var m := FindFrom(s, i0).value;
              && IsVersionAt(s, m.start, m.end)
              && (forall i, j :: i0 <= i < m.start ==> !IsVersionAt(s, i, j))
              && (forall j :: m.end < j ==> !IsVersionAt(s, m.start, j))
    decreases |s| - i0
  {
    if FindFrom(s, i0).None? {
      FindFromNoneIsComplete(s, i0);
    } else if MatchAt(s, i0).Some? {
      assert FindFrom(s, i0) == Some(Span(i0, MatchAt(s, i0).value));
      MatchAtSound(s, i0);
      MatchAtIsLongest(s, i0);
    } else {
      assert FindFrom(s, i0) == FindFrom(s, i0 + 1);
      NoVersionWhereNoMatch(s, i0);
      FindFromIsLeftmostLongest(s, i0 + 1);
    }
  }

  /**
   * `Find` agrees with the regex engine's reference semantics: it returns the
   * leftmost-longest version substring, and nothing exactly when there is none.
   */
  lemma FindIsLeftmostLongest(s: string)
    ensures Find(s).Some? ==> IsLeftmostLongest(s, Find(s).value)
    ensures Find(s).None? <==> !HasVersion(s)
  {
    FindFromIsLeftmostLongest(s, 0);
  }

  /** Every leftmost-longest version substring of `s` is what `Find` reports. */
  lemma FindIsTheLeftmostLongest(s: string)
    ensures forall m :: IsLeftmostLongest(s, m) ==> 0 <= m.start <= m.end <= |s| && Find(s) == Some(m)
  {
    FindIsLeftmostLongest(s);
    forall m | IsLeftmostLongest(s, m) ensures 0 <= m.start <= m.end <= |s| && Find(s) == Some(m) {
      assert HasVersion(s);
      LeftmostLongestIsUnique(s, m, Find(s).value);
    }
  }

  /**
   * The version text exists exactly when `s` holds a version substring, and
   * it is the text of the regex engine's leftmost-longest match.
   */
  lemma FindTextIsLeftmostLongestText(s: string)
    ensures FindText(s).Some? <==> HasVersion(s)
    ensures forall m :: IsLeftmostLongest(s, m) ==> FindText(s) == Some(s[m.start..m.end])
  {
    FindIsLeftmostLongest(s);
    FindIsTheLeftmostLongest(s);
  }

  /** At most one span is the leftmost-longest version substring. */
  lemma LeftmostLongestIsUnique(s: string, m: Span, m': Span)
    requires IsLeftmostLongest(s, m) && IsLeftmostLongest(s, m')
    ensures m == m'
  {
    assert m.start < m'.start ==> !IsVersionAt(s, m.start, m.end);
    assert m'.start < m.start ==> !IsVersionAt(s, m'.start, m'.end);
    assert m.start == m'.start;
    assert m.end < m'.end ==> !IsVersionAt(s, m.start, m'.end);
    assert m'.end < m.end ==> !IsVersionAt(s, m'.start, m.end);
  }
}
