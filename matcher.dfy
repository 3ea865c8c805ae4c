/** Choosing the answer for a query: every question and alternate phrasing
    of every FAQ item is scored against the query, and the first phrase
    with the highest positive score wins. */
module Matcher {
  import opened Normalizer
  import opened Similarity

  datatype Option<T> = None | Some(value: T)

  /** One entry of the knowledge base; an entry without alternates has the
      empty sequence. */
  datatype FaqItem = FaqItem(question: string, alternates: seq<string>, answer: string)

  /** `(answer, score, matched_question)` */
  datatype MatchResult = MatchResult(answer: Option<string>, score: real, phrase: Option<string>)

  /** The result before anything has been scored, and when nothing scores
      above 0.0. */
  const NoMatch := MatchResult(None, 0.0, None)

  /** The phrases of an item in the order they are tried: the question,
      then the alternates. */
  function Phrases(item: FaqItem): (ps: seq<string>)
    ensures |ps| == 1 + |item.alternates| && ps[0] == item.question
    ensures ps[1..] == item.alternates
  {
    [item.question] + item.alternates
  }

  /** Phrase `k` of item `t` exists. */
  predicate IsPhrase(items: seq<FaqItem>, t: int, k: int) {
    0 <= t < |items| && 0 <= k < |Phrases(items[t])|
  }

  function PhraseAt(items: seq<FaqItem>, t: int, k: int): string
    requires IsPhrase(items, t, k)
  {
    Phrases(items[t])[k]
  }

  /** Phrase `(u, l)` is tried before phrase `(t, k)`: it belongs to an
      earlier item, or it comes earlier in the same item. */
  predicate Before(u: int, l: int, t: int, k: int) {
    u < t || (u == t && l < k)
  }

  /** The result recorded when phrase `(t, k)` becomes the best so far. */
  function Hit(query: string, items: seq<FaqItem>, t: int, k: int): MatchResult
    requires IsPhrase(items, t, k)
  {
    MatchResult(Some(items[t].answer), Score(query, PhraseAt(items, t, k)), Some(PhraseAt(items, t, k)))
  }

  /** Among the phrases tried before `(i, j)`, phrase `(t, k)` has the
      highest score, that score is positive, every phrase tried before it
      scores strictly lower, and `best` records it. With `t == -1`, no
      phrase tried so far scores above 0.0 and `best` is `NoMatch`. */
  ghost predicate Leads(query: string, items: seq<FaqItem>, i: int, j: int, t: int, k: int, best: MatchResult) {
    if t == -1 then
      && best == NoMatch
      && forall u, l :: IsPhrase(items, u, l) && Before(u, l, i, j) ==> Score(query, PhraseAt(items, u, l)) <= 0.0
    else
      && IsPhrase(items, t, k)
      && Before(t, k, i, j)
      && best == Hit(query, items, t, k)
      && best.score > 0.0
      && forall u, l :: IsPhrase(items, u, l) && Before(u, l, i, j) ==>
           && Score(query, PhraseAt(items, u, l)) <= best.score
           && (Before(u, l, t, k) ==> Score(query, PhraseAt(items, u, l)) < best.score)
  }

  /** Phrase `(t, k)` wins: it has the highest score of all phrases, that
      score is positive, every phrase tried before it scores strictly lower,
      and `best` records its answer, score and text. */
  ghost predicate Wins(query: string, items: seq<FaqItem>, t: int, k: int, best: MatchResult) {
    && IsPhrase(items, t, k)
    && best == Hit(query, items, t, k)
    && best.score > 0.0
    && forall u, l :: IsPhrase(items, u, l) ==>
         && Score(query, PhraseAt(items, u, l)) <= best.score
         && (Before(u, l, t, k) ==> Score(query, PhraseAt(items, u, l)) < best.score)
  }

  /** What `best_match` promises: the first phrase with the highest score
      when that score is positive, and `(None, 0.0, None)` when every
      phrase scores 0.0. */
  ghost predicate IsFirstBest(query: string, items: seq<FaqItem>, best: MatchResult) {
    || (best == NoMatch && forall u, l :: IsPhrase(items, u, l) ==> Score(query, PhraseAt(items, u, l)) == 0.0)
    || exists t, k :: Wins(query, items, t, k, best)
  }

  /** One step of the inner loop: score phrase `(i, j)` and take it only when
      it beats the best score so far. */
  lemma LeadsStep(query: string, items: seq<FaqItem>, i: int, j: int, t: int, k: int, best: MatchResult)
    requires IsPhrase(items, i, j)
    requires Leads(query, items, i, j, t, k, best)
    ensures var sc := Score(query, PhraseAt(items, i, j));
            if sc > best.score then Leads(query, items, i, j + 1, i, j, Hit(query, items, i, j))
            else Leads(query, items, i, j + 1, t, k, best)
  {
    forall u, l | IsPhrase(items, u, l) && Before(u, l, i, j + 1)
      ensures Before(u, l, i, j) || (u == i && l == j)
    {
    }
  }

  /** Once every phrase of item `i` is scored, the scan goes on with the
      first phrase of item `i + 1`. */
  lemma LeadsNextItem(query: string, items: seq<FaqItem>, i: int, t: int, k: int, best: MatchResult)
    requires 0 <= i < |items|
    requires Leads(query, items, i, |Phrases(items[i])|, t, k, best)
    ensures Leads(query, items, i + 1, 0, t, k, best)
  {
    forall u, l | IsPhrase(items, u, l) && Before(u, l, i + 1, 0)
      ensures Before(u, l, i, |Phrases(items[i])|)
    {
    }
  }

  /** After the last item, leading means winning. */
  lemma LeadsAtEnd(query: string, items: seq<FaqItem>, t: int, k: int, best: MatchResult)
    requires Leads(query, items, |items|, 0, t, k, best)
    ensures IsFirstBest(query, items, best)
  {
    if t == -1 {
      forall u, l | IsPhrase(items, u, l)
        ensures Score(query, PhraseAt(items, u, l)) == 0.0
      {
        assert Before(u, l, |items|, 0);
      }
    } else {
      forall u, l | IsPhrase(items, u, l)
        ensures Before(u, l, |items|, 0)
      {
      }
      assert Wins(query, items, t, k, best);
    }
  }

  /** `best_match(query, faq_items)` */
  method BestMatch(query: string, items: seq<FaqItem>) returns (best: MatchResult)
    ensures IsFirstBest(query, items, best)
  {
    best := NoMatch;
    ghost var t, k := -1, 0;
    for i := 0 to |items|
      invariant Leads(query, items, i, 0, t, k, best)
    {
      best, t, k := ScanItem(query, items, i, best, t, k);
      LeadsNextItem(query, items, i, t, k, best);
    }
    LeadsAtEnd(query, items, t, k, best);
  }

  /** The inner loop of `best_match`: score every phrase of item `i`, in
      order, and keep the first one that beats the best score so far. */
  method ScanItem(query: string, items: seq<FaqItem>, i: int, best0: MatchResult, ghost t0: int, ghost k0: int)
    returns (best: MatchResult, ghost t: int, ghost k: int)
    requires 0 <= i < |items|
    requires Leads(query, items, i, 0, t0, k0, best0)
    ensures Leads(query, items, i, |Phrases(items[i])|, t, k, best)
  {
    best, t, k := best0, t0, k0;
    var item := items[i];
    var candidates := Phrases(item);
    for j := 0 to |candidates|
      invariant Leads(query, items, i, j, t, k, best)
    {
      var c := candidates[j];
      var sc := Score(query, c);
      LeadsStep(query, items, i, j, t, k, best);
      if sc > best.score {
        best := MatchResult(Some(item.answer), sc, Some(c));
        t, k := i, j;
      }
    }
  }

  // ---------------------------------------------------------------------
  // Consequences of the specification.

  /** The specification leaves no choice: two results that both satisfy
      `IsFirstBest` are the same. */
  lemma FirstBestUnique(query: string, items: seq<FaqItem>, x: MatchResult, y: MatchResult)
    requires IsFirstBest(query, items, x) && IsFirstBest(query, items, y)
    ensures x == y
  {
    if t, k :| Wins(query, items, t, k, x) {
      if t', k' :| Wins(query, items, t', k', y) {
      }
    }
  }

  /** The result names no phrase exactly when every phrase of every item
      scores 0.0, and then it is `(None, 0.0, None)`. */
  lemma NoWinnerIffAllZero(query: string, items: seq<FaqItem>, best: MatchResult)
    requires IsFirstBest(query, items, best)
    ensures best.phrase.None? ==> best == NoMatch
    ensures best.phrase.None? <==>
              forall u, l :: IsPhrase(items, u, l) ==> Score(query, PhraseAt(items, u, l)) == 0.0
  {
    if t, k :| Wins(query, items, t, k, best) {
      assert Score(query, PhraseAt(items, t, k)) > 0.0;
    }
  }

  /** When some phrase has exactly the query's tokens (and the query has
      one), the result scores 1.0 and its phrase has the query's tokens. */
  lemma ExactPhraseWins(query: string, items: seq<FaqItem>, best: MatchResult, t: int, k: int)
    requires IsFirstBest(query, items, best)
    requires IsPhrase(items, t, k)
    requires Normalize(PhraseAt(items, t, k)) == Normalize(query) != []
    ensures best.score == 1.0 && best.phrase.Some?
    ensures Normalize(best.phrase.value) == Normalize(query)
  {
    ScoreOneIff(query, PhraseAt(items, t, k));
    var t', k' :| Wins(query, items, t', k', best);
    assert Score(query, PhraseAt(items, t, k)) <= best.score;
    ScoreOneIff(query, PhraseAt(items, t', k'));
  }
}
