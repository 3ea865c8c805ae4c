/** The similarity of a query and a candidate phrase: a weighted blend of
    the Jaccard index of their token sets and the sequence ratio of their
    re-joined tokens. */
module Similarity {
  import opened Normalizer
  import opened SequenceRatio

  /** `set(tokens)` */
  function TokenSet(tokens: seq<string>): (s: set<string>)
    ensures forall t :: t in s <==> t in tokens
  {
    set t | t in tokens
  }

  /** `max(x, y)` */
  function Max(x: int, y: int): (m: int)
    ensures x <= m && y <= m
    ensures m == x || m == y
  {
    if x >= y then x else y
  }

  /** A subset is no larger than its superset, and strictly smaller when it
      is a proper subset. */
  lemma SubsetSize<T>(x: set<T>, y: set<T>)
    requires x <= y
    ensures |x| <= |y|
    ensures x != y ==> |x| < |y|
  {
    if x != y {
      var e :| e in y && e !in x;
      var y' := y - {e};
      assert x <= y';
      if x != y' {
        SubsetSize(x, y');
      } else {
        assert |y| == |y'| + 1;
      }
    }
  }

  /** `jaccard(a_tokens, b_tokens)`: the share of the distinct tokens that
      both sides have, and 0.0 when neither side has a token. */
  function Jaccard(a: seq<string>, b: seq<string>): (r: real)
    ensures 0.0 <= r <= 1.0
    ensures TokenSet(a) == {} && TokenSet(b) == {} ==> r == 0.0
  {
    var sa, sb := TokenSet(a), TokenSet(b);
    if sa == {} && sb == {} then 0.0
    else
      SubsetSize(sa * sb, sa + sb);
      Fraction(|sa * sb|, Max(1, |sa + sb|));
      (|sa * sb| as real) / (Max(1, |sa + sb|) as real)
  }

  /** The Jaccard index does not depend on the order of its arguments. */
  lemma JaccardSymmetric(a: seq<string>, b: seq<string>)
    ensures Jaccard(a, b) == Jaccard(b, a)
  {
    var sa, sb := TokenSet(a), TokenSet(b);
    assert sa * sb == sb * sa;
    assert sa + sb == sb + sa;
  }

  /** The Jaccard index is 1.0 exactly when both sides have the same tokens
      and at least one. */
  lemma JaccardOneIff(a: seq<string>, b: seq<string>)
    ensures Jaccard(a, b) == 1.0 <==> TokenSet(a) == TokenSet(b) && TokenSet(a) != {}
  {
    var sa, sb := TokenSet(a), TokenSet(b);
    if sa != {} || sb != {} {
      var i, u := sa * sb, sa + sb;
      SubsetSize(i, u);
      assert |u| >= 1 by {
        if sa != {} {
          var e :| e in sa;
          assert e in u;
        } else {
          var e :| e in sb;
          assert e in u;
        }
      }
      Fraction(|i|, |u|);
      if sa == sb {
        assert i == u;
      }
      if i == u {
        assert sa == sb by {
          forall t ensures t in sa <==> t in sb {
            assert t in sa ==> t in u;
            assert t in sb ==> t in u;
          }
        }
      }
    }
  }

  /** The Jaccard index is 0.0 exactly when the two sides share no token. */
  lemma JaccardZeroIff(a: seq<string>, b: seq<string>)
    ensures Jaccard(a, b) == 0.0 <==> TokenSet(a) * TokenSet(b) == {}
  {
    var sa, sb := TokenSet(a), TokenSet(b);
    if sa != {} || sb != {} {
      var i, u := sa * sb, sa + sb;
      SubsetSize(i, u);
      assert |u| >= 1 by {
        if sa != {} {
          var e :| e in sa;
          assert e in u;
        } else {
          var e :| e in sb;
          assert e in u;
        }
      }
      Fraction(|i|, |u|);
    }
  }

  /** `score(query, candidate)`: 0.6 times the Jaccard index of the tokens
      plus 0.4 times the sequence ratio of the re-joined tokens. */
  function Score(query: string, candidate: string): (r: real)
    ensures 0.0 <= r <= 1.0
  {
    var a, b := Normalize(query), Normalize(candidate);
    0.6 * Jaccard(a, b) + 0.4 * Ratio(Join(a), Join(b))
  }

  /** A joined token sequence is empty exactly when there are no tokens. */
  lemma JoinEmptyIff(tokens: seq<string>)
    requires forall t :: t in tokens ==> IsToken(t)
    ensures Join(tokens) == "" <==> tokens == []
  {
    if tokens != [] {
      assert IsToken(tokens[0]);
      if |tokens| > 1 {
        assert |Join(tokens)| >= |tokens[0]|;
      }
    }
  }

  /** A query without a single letter or digit scores 0.4 against a
      candidate without one (no tokens on either side give Jaccard 0.0, and
      two empty joined strings have ratio 1.0) and 0.0 against any other. */
  lemma ScoreOfTokenlessQuery(query: string, candidate: string)
    requires Normalize(query) == []
    ensures Score(query, candidate) == if Normalize(candidate) == [] then 0.4 else 0.0
  {
    var b := Normalize(candidate);
    JoinEmptyIff(b);
    JaccardZeroIff([], b);
    if b != [] {
      assert MatchedChars(Join([]), Join(b), 0, 0, 0, |Join(b)|) == 0;
    }
  }

  /** The score is 1.0 exactly when the query and the candidate have the
      same tokens in the same order, and at least one. */
  lemma ScoreOneIff(query: string, candidate: string)
    ensures Score(query, candidate) == 1.0 <==>
              Normalize(query) == Normalize(candidate) && Normalize(query) != []
  {
    var a, b := Normalize(query), Normalize(candidate);
    JaccardOneIff(a, b);
    RatioOneIffEqual(Join(a), Join(b));
    JoinInjective(a, b);
    if a != [] {
      assert a[0] in TokenSet(a);
    }
  }

  /** The score is 0.0 exactly when at least one side has a token and the
      re-joined texts have no character in common (so no token either). */
  lemma ScoreZeroIff(query: string, candidate: string)
    ensures Score(query, candidate) == 0.0 <==>
              (Normalize(query) != [] || Normalize(candidate) != []) &&
              forall i, j :: 0 <= i < |Join(Normalize(query))| && 0 <= j < |Join(Normalize(candidate))| ==>
                Join(Normalize(query))[i] != Join(Normalize(candidate))[j]
  {
    var a, b := Normalize(query), Normalize(candidate);
    var ja, jb := Join(a), Join(b);
    JaccardZeroIff(a, b);
    RatioPositiveIffShared(ja, jb);
    JoinEmptyIff(a);
    JoinEmptyIff(b);
    if TokenSet(a) * TokenSet(b) != {} {
      var t :| t in TokenSet(a) * TokenSet(b);
      assert IsToken(t);
      var i := SharedTokenSharesChar(a, t);
      var j := SharedTokenSharesChar(b, t);
      assert ja[i] == jb[j];
    }
  }

  /** A token of the sequence contributes its first character to the joined
      string, at position `i`. */
  lemma {:induction false} SharedTokenSharesChar(tokens: seq<string>, t: string) returns (i: nat)
    requires t in tokens && t != []
    ensures i < |Join(tokens)| && Join(tokens)[i] == t[0]
    decreases |tokens|
  {
    var j := Join(tokens);
    if tokens[0] == t {
      i := 0;
      if |tokens| > 1 {
        assert j == t + " " + Join(tokens[1..]);
      }
    } else {
      var rest := tokens[1..];
      assert t in rest;
      var i' := SharedTokenSharesChar(rest, t);
      assert j == tokens[0] + " " + Join(rest);
      i := |tokens[0]| + 1 + i';
      assert j[i] == Join(rest)[i'];
    }
  }

  /** Only the tokens of a text matter: the query scores the same as its
      own normalised, re-joined form. */
  lemma ScoreDependsOnlyOnTokens(query: string, candidate: string)
    ensures Score(query, candidate) == Score(Join(Normalize(query)), candidate)
  {
    NormalizeIdempotent(query);
  }

  /** The Jaccard part of the score is symmetric, so any difference between
      `Score(q, c)` and `Score(c, q)` comes from the sequence ratio alone. */
  lemma ScoreAsymmetryIsRatio(query: string, candidate: string)
    ensures Score(query, candidate) - Score(candidate, query) ==
              0.4 * (Ratio(Join(Normalize(query)), Join(Normalize(candidate))) -
                     Ratio(Join(Normalize(candidate)), Join(Normalize(query))))
  {
    JaccardSymmetric(Normalize(query), Normalize(candidate));
  }
}
