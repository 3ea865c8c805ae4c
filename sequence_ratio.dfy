/** The similarity ratio of `difflib.SequenceMatcher(None, a, b).ratio()`:
    `2 * M / T`, where `T = |a| + |b|` and `M` is the number of characters
    in the matching blocks that the Ratcliff/Obershelp recursion finds (the
    longest common block, then the same on what lies left of it and on what
    lies right of it). With no junk function every character may match. */
module SequenceRatio {

  /** A matching block: `a[i..i + k] == b[j..j + k]`. */
  datatype Block = Block(i: nat, j: nat, k: nat)

  /** Position (i, j) lies in the window `a[alo..ahi]` x `b[blo..bhi]`. */
  predicate InWindow(i: int, j: int, alo: nat, ahi: nat, blo: nat, bhi: nat) {
    alo <= i < ahi && blo <= j < bhi
  }

  /** (i', j') comes before (i, j): smaller i, or the same i and smaller j. */
  predicate Precedes(i': int, j': int, i: int, j: int) {
    i' < i || (i' == i && j' < j)
  }

  /** The length of the longest common run of `a` and `b` starting at `a[i]`
      and `b[j]`, inside the window that ends at `ahi` and `bhi`. */
  function RunLength(a: string, b: string, i: nat, j: nat, ahi: nat, bhi: nat): (k: nat)
    requires i <= ahi <= |a| && j <= bhi <= |b|
    ensures i + k <= ahi && j + k <= bhi
    decreases ahi - i
  {
    if i < ahi && j < bhi && a[i] == b[j] then 1 + RunLength(a, b, i + 1, j + 1, ahi, bhi) else 0
  }

  /** The run is a common block that cannot be extended inside the window. */
  lemma {:induction false} RunLengthMatches(a: string, b: string, i: nat, j: nat, ahi: nat, bhi: nat)
    requires i <= ahi <= |a| && j <= bhi <= |b|
    ensures var k := RunLength(a, b, i, j, ahi, bhi);
            && a[i..i + k] == b[j..j + k]
            && (i + k < ahi && j + k < bhi ==> a[i + k] != b[j + k])
    decreases ahi - i
  {
    if i < ahi && j < bhi && a[i] == b[j] {
      RunLengthMatches(a, b, i + 1, j + 1, ahi, bhi);
      var rest := RunLength(a, b, i + 1, j + 1, ahi, bhi);
      assert a[i..i + 1 + rest] == [a[i]] + a[i + 1..i + 1 + rest];
      assert b[j..j + 1 + rest] == [b[j]] + b[j + 1..j + 1 + rest];
    }
  }

  /** No common run starting at (i, j) is longer than `RunLength`. */
  lemma {:induction false} RunLengthMaximal(a: string, b: string, i: nat, j: nat, ahi: nat, bhi: nat, k: nat)
    requires i <= ahi <= |a| && j <= bhi <= |b|
    requires i + k <= ahi && j + k <= bhi && a[i..i + k] == b[j..j + k]
    ensures k <= RunLength(a, b, i, j, ahi, bhi)
    decreases k
  {
    if k > 0 {
      assert a[i] == a[i..i + k][0] && b[j] == b[j..j + k][0];
      assert a[i + 1..i + k] == a[i..i + k][1..];
      assert b[j + 1..j + k] == b[j..j + k][1..];
      RunLengthMaximal(a, b, i + 1, j + 1, ahi, bhi, k - 1);
    }
  }

  /** `best` is the first longest block among the window positions that come
      before (i, j) in the scan order of `find_longest_match`. */
  ghost predicate FirstLongestBefore(a: string, b: string, alo: nat, ahi: nat, blo: nat, bhi: nat, i: nat, j: nat, best: Block)
    requires alo <= ahi <= |a| && blo <= bhi <= |b|
  {
    && (forall i', j' :: InWindow(i', j', alo, ahi, blo, bhi) && Precedes(i', j', i, j) ==>
          RunLength(a, b, i', j', ahi, bhi) <= best.k)
    && (forall i', j' :: InWindow(i', j', alo, ahi, blo, bhi) && Precedes(i', j', best.i, best.j) ==>
          RunLength(a, b, i', j', ahi, bhi) < best.k)
    && (best.k == 0 ==> best.i == alo && best.j == blo)
    && (best.k > 0 ==>
          && InWindow(best.i, best.j, alo, ahi, blo, bhi)
          && Precedes(best.i, best.j, i, j)
          && RunLength(a, b, best.i, best.j, ahi, bhi) == best.k)
  }

  /** Moving on to the next row keeps `best` the first longest block. */
  lemma NextRow(a: string, b: string, alo: nat, ahi: nat, blo: nat, bhi: nat, i: nat, best: Block)
    requires alo <= ahi <= |a| && blo <= bhi <= |b| && alo <= i < ahi
    requires FirstLongestBefore(a, b, alo, ahi, blo, bhi, i, bhi, best)
    ensures FirstLongestBefore(a, b, alo, ahi, blo, bhi, i + 1, blo, best)
  {
    forall i', j' | InWindow(i', j', alo, ahi, blo, bhi) && Precedes(i', j', i + 1, blo)
      ensures RunLength(a, b, i', j', ahi, bhi) <= best.k
    {
      assert Precedes(i', j', i, bhi);
    }
  }

  /** Looking at position (i, j) and keeping the strictly longer block keeps
      `best` the first longest block. */
  lemma NextColumn(a: string, b: string, alo: nat, ahi: nat, blo: nat, bhi: nat, i: nat, j: nat, best: Block)
    requires alo <= ahi <= |a| && blo <= bhi <= |b| && alo <= i < ahi && blo <= j < bhi
    requires FirstLongestBefore(a, b, alo, ahi, blo, bhi, i, j, best)
    ensures var k := RunLength(a, b, i, j, ahi, bhi);
            FirstLongestBefore(a, b, alo, ahi, blo, bhi, i, j + 1, if k > best.k then Block(i, j, k) else best)
  {
    var k := RunLength(a, b, i, j, ahi, bhi);
    var next := if k > best.k then Block(i, j, k) else best;
    forall i', j' | InWindow(i', j', alo, ahi, blo, bhi) && Precedes(i', j', i, j + 1)
      ensures RunLength(a, b, i', j', ahi, bhi) <= next.k
    {
      if Precedes(i', j', i, j) {
      } else {
        assert i' == i && j' == j;
      }
    }
    if k > best.k {
      forall i', j' | InWindow(i', j', alo, ahi, blo, bhi) && Precedes(i', j', i, j)
        ensures RunLength(a, b, i', j', ahi, bhi) < next.k
      {
      }
    }
  }

  /** `best` is `(alo, blo, 0)` or a common run that starts in the window
      and is as long as it can be made there. */
  predicate IsCandidateBlock(a: string, b: string, alo: nat, ahi: nat, blo: nat, bhi: nat, best: Block)
    requires alo <= ahi <= |a| && blo <= bhi <= |b|
  {
    && (best.k == 0 ==> best.i == alo && best.j == blo)
    && (best.k > 0 ==>
          InWindow(best.i, best.j, alo, ahi, blo, bhi) && RunLength(a, b, best.i, best.j, ahi, bhi) == best.k)
  }

  /** Scans the window positions from (i, j) on, row by row, and replaces
      `best` only by a strictly longer block. */
  function LongestFrom(a: string, b: string, alo: nat, ahi: nat, blo: nat, bhi: nat, i: nat, j: nat, best: Block): (r: Block)
    requires alo <= ahi <= |a| && blo <= bhi <= |b|
    requires alo <= i <= ahi && blo <= j <= bhi
    requires IsCandidateBlock(a, b, alo, ahi, blo, bhi, best)
    ensures IsCandidateBlock(a, b, alo, ahi, blo, bhi, r)
    decreases ahi - i, bhi - j
  {
    if i == ahi then
      best
    else if j == bhi then
      LongestFrom(a, b, alo, ahi, blo, bhi, i + 1, blo, best)
    else
      var k := RunLength(a, b, i, j, ahi, bhi);
      LongestFrom(a, b, alo, ahi, blo, bhi, i, j + 1, if k > best.k then Block(i, j, k) else best)
  }

  /** The scan keeps `best` the first longest block of the positions seen. */
  lemma {:induction false} LongestFromIsFirstLongest(a: string, b: string, alo: nat, ahi: nat, blo: nat, bhi: nat, i: nat, j: nat, best: Block)
    requires alo <= ahi <= |a| && blo <= bhi <= |b|
    requires alo <= i <= ahi && blo <= j <= bhi
    requires IsCandidateBlock(a, b, alo, ahi, blo, bhi, best)
    requires FirstLongestBefore(a, b, alo, ahi, blo, bhi, i, j, best)
    ensures FirstLongestBefore(a, b, alo, ahi, blo, bhi, ahi, blo, LongestFrom(a, b, alo, ahi, blo, bhi, i, j, best))
    decreases ahi - i, bhi - j, 1
  {
    if i == ahi {
      forall i', j' | InWindow(i', j', alo, ahi, blo, bhi) && Precedes(i', j', ahi, blo)
        ensures RunLength(a, b, i', j', ahi, bhi) <= best.k
      {
        assert Precedes(i', j', i, j);
      }
    } else if j == bhi {
      RowStep(a, b, alo, ahi, blo, bhi, i, best);
    } else {
      ColumnStep(a, b, alo, ahi, blo, bhi, i, j, best);
    }
  }

  /** The end of row `i`: the scan goes on at the start of row `i + 1`. */
  lemma {:induction false} RowStep(a: string, b: string, alo: nat, ahi: nat, blo: nat, bhi: nat, i: nat, best: Block)
    requires alo <= ahi <= |a| && blo <= bhi <= |b|
    requires alo <= i < ahi
    requires IsCandidateBlock(a, b, alo, ahi, blo, bhi, best)
    requires FirstLongestBefore(a, b, alo, ahi, blo, bhi, i, bhi, best)
    ensures FirstLongestBefore(a, b, alo, ahi, blo, bhi, ahi, blo, LongestFrom(a, b, alo, ahi, blo, bhi, i, bhi, best))
    decreases ahi - i, 0, 0
  {
    NextRow(a, b, alo, ahi, blo, bhi, i, best);
    LongestFromIsFirstLongest(a, b, alo, ahi, blo, bhi, i + 1, blo, best);
  }

  /** Position (i, j) of a row: the scan goes on at (i, j + 1). */
  lemma {:induction false} ColumnStep(a: string, b: string, alo: nat, ahi: nat, blo: nat, bhi: nat, i: nat, j: nat, best: Block)
    requires alo <= ahi <= |a| && blo <= bhi <= |b|
    requires alo <= i < ahi && blo <= j < bhi
    requires IsCandidateBlock(a, b, alo, ahi, blo, bhi, best)
    requires FirstLongestBefore(a, b, alo, ahi, blo, bhi, i, j, best)
    ensures FirstLongestBefore(a, b, alo, ahi, blo, bhi, ahi, blo, LongestFrom(a, b, alo, ahi, blo, bhi, i, j, best))
    decreases ahi - i, bhi - j, 0
  {
    var k := RunLength(a, b, i, j, ahi, bhi);
    var next := if k > best.k then Block(i, j, k) else best;
    NextColumn(a, b, alo, ahi, blo, bhi, i, j, best);
    LongestFromIsFirstLongest(a, b, alo, ahi, blo, bhi, i, j + 1, next);
  }

  /** `find_longest_match(alo, ahi, blo, bhi)` without junk: a common block
      of `a[alo..ahi]` and `b[blo..bhi]`, `(alo, blo, 0)` when the two share
      no character. That it is the longest, and the first of the longest,
      is `LongestMatchIsLongest`. */
  function LongestMatch(a: string, b: string, alo: nat, ahi: nat, blo: nat, bhi: nat): (r: Block)
    requires alo <= ahi <= |a| && blo <= bhi <= |b|
    ensures alo <= r.i && r.i + r.k <= ahi && blo <= r.j && r.j + r.k <= bhi
    ensures r.k > 0 ==> RunLength(a, b, r.i, r.j, ahi, bhi) == r.k
    ensures r.k == 0 ==> r.i == alo && r.j == blo
  {
    LongestFrom(a, b, alo, ahi, blo, bhi, alo, blo, Block(alo, blo, 0))
  }

  /** The block `LongestMatch` finds is common to both sides. */
  lemma LongestMatchMatches(a: string, b: string, alo: nat, ahi: nat, blo: nat, bhi: nat)
    requires alo <= ahi <= |a| && blo <= bhi <= |b|
    ensures var r := LongestMatch(a, b, alo, ahi, blo, bhi);
            a[r.i..r.i + r.k] == b[r.j..r.j + r.k]
  {
    var r := LongestMatch(a, b, alo, ahi, blo, bhi);
    if r.k > 0 {
      RunLengthMatches(a, b, r.i, r.j, ahi, bhi);
    } else {
      assert a[r.i..r.i] == [] == b[r.j..r.j];
    }
  }

  /** `LongestMatch` is the longest common block of the window, and of
      several longest ones the one that starts first in `a`, then first in
      `b`: every common block is at most as long, and a block just as long
      does not start before it. */
  lemma LongestMatchIsLongest(a: string, b: string, alo: nat, ahi: nat, blo: nat, bhi: nat, i: nat, j: nat, k: nat)
    requires alo <= ahi <= |a| && blo <= bhi <= |b|
    requires alo <= i && i + k <= ahi && blo <= j && j + k <= bhi
    requires a[i..i + k] == b[j..j + k]
    ensures k <= LongestMatch(a, b, alo, ahi, blo, bhi).k
    ensures 0 < k == LongestMatch(a, b, alo, ahi, blo, bhi).k ==>
              !Precedes(i, j, LongestMatch(a, b, alo, ahi, blo, bhi).i, LongestMatch(a, b, alo, ahi, blo, bhi).j)
  {
    LongestFromIsFirstLongest(a, b, alo, ahi, blo, bhi, alo, blo, Block(alo, blo, 0));
    if k > 0 {
      RunLengthMaximal(a, b, i, j, ahi, bhi, k);
      assert InWindow(i, j, alo, ahi, blo, bhi);
      assert Precedes(i, j, ahi, blo);
    }
  }

  /** `M`: the total size of the matching blocks that `get_matching_blocks`
      finds in the window `a[alo..ahi]` x `b[blo..bhi]`. It never exceeds
      either side, and it covers both sides only when they are equal. */
  function MatchedChars(a: string, b: string, alo: nat, ahi: nat, blo: nat, bhi: nat): (m: nat)
    requires alo <= ahi <= |a| && blo <= bhi <= |b|
    ensures m <= ahi - alo && m <= bhi - blo
    ensures m == ahi - alo == bhi - blo ==> a[alo..ahi] == b[blo..bhi]
    decreases (ahi - alo) + (bhi - blo), 2
  {
    var r := LongestMatch(a, b, alo, ahi, blo, bhi);
    RunLengthMatches(a, b, r.i, r.j, ahi, bhi);
    MatchedAround(a, b, alo, ahi, blo, bhi, r)
  }

  /** The blocks found once `r` is the longest block of the window: `r`
      itself and those found left of it and right of it. */
  function MatchedAround(a: string, b: string, alo: nat, ahi: nat, blo: nat, bhi: nat, r: Block): (m: nat)
    requires alo <= ahi <= |a| && blo <= bhi <= |b|
    requires alo <= r.i && r.i + r.k <= ahi && blo <= r.j && r.j + r.k <= bhi
    requires a[r.i..r.i + r.k] == b[r.j..r.j + r.k]
    ensures r.k <= m <= ahi - alo && m <= bhi - blo
    ensures m == ahi - alo == bhi - blo ==> a[alo..ahi] == b[blo..bhi]
    decreases (ahi - alo) + (bhi - blo), 0
  {
    if r.k == 0 then
      0
    else
      var left := MatchedLeft(a, b, alo, blo, r);
      var right := MatchedRight(a, b, ahi, bhi, r);
      CombineFull(a, b, alo, ahi, blo, bhi, r.i, r.j, r.k, left, right);
      left + r.k + right
  }

  /** The blocks found left of `r`: only when both sides have something
      there. */
  function MatchedLeft(a: string, b: string, alo: nat, blo: nat, r: Block): (m: nat)
    requires alo <= r.i <= |a| && blo <= r.j <= |b| && r.k > 0
    ensures m <= r.i - alo && m <= r.j - blo
    ensures m == r.i - alo == r.j - blo ==> a[alo..r.i] == b[blo..r.j]
    decreases (r.i - alo) + (r.j - blo) + r.k, 1
  {
    if alo < r.i && blo < r.j then MatchedChars(a, b, alo, r.i, blo, r.j) else 0
  }

  /** The blocks found right of `r`: only when both sides have something
      there. */
  function MatchedRight(a: string, b: string, ahi: nat, bhi: nat, r: Block): (m: nat)
    requires r.i + r.k <= ahi <= |a| && r.j + r.k <= bhi <= |b| && r.k > 0
    ensures m <= ahi - (r.i + r.k) && m <= bhi - (r.j + r.k)
    ensures m == ahi - (r.i + r.k) == bhi - (r.j + r.k) ==> a[r.i + r.k..ahi] == b[r.j + r.k..bhi]
    decreases (ahi - r.i) + (bhi - r.j - r.k), 1
  {
    if r.i + r.k < ahi && r.j + r.k < bhi then MatchedChars(a, b, r.i + r.k, ahi, r.j + r.k, bhi) else 0
  }

  /** The windows are equal when a common block splits them into a left
      part and a right part that are both matched completely. */
  lemma CombineFull(a: string, b: string, alo: nat, ahi: nat, blo: nat, bhi: nat, i: nat, j: nat, k: nat, left: nat, right: nat)
    requires alo <= i && i + k <= ahi <= |a| && blo <= j && j + k <= bhi <= |b|
    requires a[i..i + k] == b[j..j + k]
    requires left <= i - alo && left <= j - blo
    requires right <= ahi - (i + k) && right <= bhi - (j + k)
    requires left == i - alo == j - blo ==> a[alo..i] == b[blo..j]
    requires right == ahi - (i + k) == bhi - (j + k) ==> a[i + k..ahi] == b[j + k..bhi]
    ensures left + k + right == ahi - alo == bhi - blo ==> a[alo..ahi] == b[blo..bhi]
  {
    if left + k + right == ahi - alo == bhi - blo {
      SliceThree(a, alo, i, i + k, ahi);
      SliceThree(b, blo, j, j + k, bhi);
    }
  }

  /** `SequenceMatcher(None, a, b).ratio()` with exact arithmetic. */
  function Ratio(a: string, b: string): (r: real)
    ensures 0.0 <= r <= 1.0
    ensures |a| + |b| == 0 ==> r == 1.0
  {
    var t := |a| + |b|;
    if t == 0 then 1.0
    else
      var m := MatchedChars(a, b, 0, |a|, 0, |b|);
      Fraction(2 * m, t);
      (2 * m) as real / t as real
  }

  /** A fraction x / t of naturals with x <= t lies in [0, 1]; it is 1.0
      only for x == t and 0.0 only for x == 0. */
  lemma Fraction(x: nat, t: nat)
    requires 0 < t && x <= t
    ensures 0.0 <= x as real / t as real <= 1.0
    ensures x as real / t as real == 1.0 <==> x == t
    ensures x as real / t as real == 0.0 <==> x == 0
  {
    var q := x as real / t as real;
    assert q * t as real == x as real;
  }

  // ---------------------------------------------------------------------
  // The ratio is 1.0 exactly for equal strings.

  lemma SliceThree(s: string, lo: nat, x: nat, y: nat, hi: nat)
    requires lo <= x <= y <= hi <= |s|
    ensures s[lo..hi] == s[lo..x] + s[x..y] + s[y..hi]
  {
  }

  /** Equal strings match completely. */
  lemma MatchedCharsOfEqual(a: string)
    ensures MatchedChars(a, a, 0, |a|, 0, |a|) == |a|
  {
    if |a| > 0 {
      LongestMatchIsLongest(a, a, 0, |a|, 0, |a|, 0, 0, |a|);
    }
  }

  /** The ratio is 1.0 exactly when the two strings are equal. */
  lemma RatioOneIffEqual(a: string, b: string)
    ensures Ratio(a, b) == 1.0 <==> a == b
  {
    var t := |a| + |b|;
    if t > 0 {
      var m := MatchedChars(a, b, 0, |a|, 0, |b|);
      Fraction(2 * m, t);
      if Ratio(a, b) == 1.0 {
        assert m == |a| == |b|;
        assert a == a[0..|a|] && b == b[0..|b|];
      }
      if a == b {
        MatchedCharsOfEqual(a);
      }
    }
  }

  /** The ratio is positive exactly when the strings share a character (or
      are both empty). */
  lemma RatioPositiveIffShared(a: string, b: string)
    ensures Ratio(a, b) > 0.0 <==>
              |a| + |b| == 0 || exists i, j :: 0 <= i < |a| && 0 <= j < |b| && a[i] == b[j]
  {
    var t := |a| + |b|;
    if t > 0 {
      var m := MatchedChars(a, b, 0, |a|, 0, |b|);
      Fraction(2 * m, t);
      MatchedPositiveIffShared(a, b);
    }
  }

  /** Some block is found exactly when the strings share a character. */
  lemma MatchedPositiveIffShared(a: string, b: string)
    ensures MatchedChars(a, b, 0, |a|, 0, |b|) > 0 <==>
              exists i, j :: 0 <= i < |a| && 0 <= j < |b| && a[i] == b[j]
  {
    if i, j :| 0 <= i < |a| && 0 <= j < |b| && a[i] == b[j] {
      SharedCharIsMatched(a, b, i, j);
    }
    if MatchedChars(a, b, 0, |a|, 0, |b|) > 0 {
      var i, j := MatchedCharIsShared(a, b);
    }
  }

  lemma SharedCharIsMatched(a: string, b: string, i: nat, j: nat)
    requires i < |a| && j < |b| && a[i] == b[j]
    ensures MatchedChars(a, b, 0, |a|, 0, |b|) > 0
  {
    var r := LongestMatch(a, b, 0, |a|, 0, |b|);
    LongestMatchMatches(a, b, 0, |a|, 0, |b|);
    assert a[i..i + 1] == [a[i]] == b[j..j + 1];
    LongestMatchIsLongest(a, b, 0, |a|, 0, |b|, i, j, 1);
    assert MatchedChars(a, b, 0, |a|, 0, |b|) == MatchedAround(a, b, 0, |a|, 0, |b|, r);
  }

  lemma MatchedCharIsShared(a: string, b: string) returns (i: nat, j: nat)
    requires MatchedChars(a, b, 0, |a|, 0, |b|) > 0
    ensures i < |a| && j < |b| && a[i] == b[j]
  {
    var r := LongestMatch(a, b, 0, |a|, 0, |b|);
    LongestMatchMatches(a, b, 0, |a|, 0, |b|);
    assert MatchedChars(a, b, 0, |a|, 0, |b|) == MatchedAround(a, b, 0, |a|, 0, |b|, r);
    assert r.k > 0;
    i, j := r.i, r.j;
    assert a[i] == a[r.i..r.i + r.k][0];
    assert b[j] == b[r.j..r.j + r.k][0];
  }
}
