# FAQ matcher of a customer-support chatbot

This project models the matching engine of a small support chatbot. The
engine takes a free-text query and an FAQ knowledge base. Each entry has a
question, optional alternate phrasings and an answer. The engine returns the
answer of the phrase that is most similar to the query, with its score and
the phrase itself.

- `Normalizer` (`normalizer.dfy`): `normalize` lower-cases the text. It
  replaces every character outside `[a-z0-9]` and whitespace with a space,
  then splits on runs of whitespace. `Join` is `" ".join(tokens)`.
- `SequenceRatio` (`sequence_ratio.dfy`): the ratio of
  `difflib.SequenceMatcher(None, a, b).ratio()`. This is `2M / T`, where
  `T = |a| + |b|` and the ratio is 1.0 when `T = 0`. `M` is the number of
  characters in the matching blocks. difflib finds them by taking the
  longest common block of the window, preferring the earliest start in `a`
  and then in `b`. It then recurses on the parts left and right of that
  block.
- `Similarity` (`similarity.dfy`): `jaccard` of the token sets, and
  `score = 0.6 * jaccard + 0.4 * ratio` of the re-joined token strings.
- `Matcher` (`matcher.dfy`): `best_match` is imperative, with the source's
  two nested loops. `BestMatch` holds the loop over the items, and
  `ScanItem` holds the loop over one item's phrases. `BestMatch` is proved
  against `IsFirstBest`: the first phrase, in scan order, with the highest
  score wins when that score is positive. Otherwise the result is `(None, 0.0, None)`.

The sequence ratio is not symmetric in general: swapping the two strings can
change which block is found first. A symmetric ratio might be expected, but
difflib's is not, and the model follows the code, which calls difflib directly.
So symmetry is proved only for the Jaccard part (`JaccardSymmetric`), and
`ScoreAsymmetryIsRatio` shows that any asymmetry of the score comes from the
ratio alone.

## Model

| member | source | states |
|---|---|---|
| Normalizer.Lower | app.py:15 | each `A-Z` becomes its `a-z` letter, no ASCII capital is left, the length is kept, and every character other than `A-Z` stays where it was |
| Normalizer.NormalizeIgnoresCase | app.py:15 | a text and its lowercased form have the same tokens |
| Normalizer.Scrub | app.py:16 | the length is kept, token characters and whitespace stay where they are, every other character becomes a space, and the result holds only token characters and whitespace |
| Normalizer.Split | app.py:17 | the pieces are non-empty and hold no whitespace, and the pieces of a scrubbed text are tokens |
| Normalizer.Normalize | app.py:14-18 | every token is non-empty and made only of `a-z`/`0-9` characters |
| Normalizer.NormalizeAtSeparator | app.py:14-18 | a character that is not `[a-z0-9]` once lowercased separates tokens: the text on each side of it is normalised on its own |
| Normalizer.NormalizeWord | app.py:14-18 | a non-empty text of letters and digits is one token, lowercased |
| Normalizer.Join | app.py:28 | no tokens join to the empty string; otherwise the length is that of the tokens plus one separator between each two |
| Normalizer.SplitFromKeepsNonSpace | app.py:17 | splitting keeps every non-whitespace character, in order |
| Normalizer.ScrubThenDropSpace | app.py:16 | after the substitution, the non-whitespace characters are exactly the `[a-z0-9]` characters of the input |
| Normalizer.NormalizeKeepsTokenChars | app.py:14-18 | concatenating the tokens gives exactly the `[a-z0-9]` characters of the lower-cased text, in order |
| Normalizer.SplitJoin | app.py:17 | splitting the space-joined tokens gives back the tokens |
| Normalizer.JoinInjective | app.py:28 | two token sequences join to the same string if and only if they are equal |
| Normalizer.JoinChars | app.py:28 | the joined string holds only token characters and spaces |
| Normalizer.NormalizeIdempotent | app.py:14-18 | normalising the re-joined tokens gives the same tokens |
| SequenceRatio.RunLength | app.py:28 | the common run starting at `(i, j)` stays inside the window |
| SequenceRatio.RunLengthMatches | app.py:28 | the run found at `(i, j)` is a common block of both strings |
| SequenceRatio.RunLengthMaximal | app.py:28 | every common block starting at `(i, j)` is no longer than the run found |
| SequenceRatio.LongestFrom | app.py:28 | the row-by-row scan returns a common block inside the window |
| SequenceRatio.LongestFromIsFirstLongest | app.py:28 | the scan returns the longest block, and of those the one with the smallest start in `a`, then in `b` |
| SequenceRatio.LongestMatch | app.py:28 | the block found lies in the window; an empty block sits at the window's start |
| SequenceRatio.LongestMatchMatches | app.py:28 | the block found is common to both strings |
| SequenceRatio.LongestMatchIsLongest | app.py:28 | no common block of the window is longer, and an equally long one does not start earlier |
| SequenceRatio.MatchedChars | app.py:28 | the matched count is bounded by both window lengths, and when it fills both windows the windows are equal |
| SequenceRatio.MatchedAround | app.py:28 | the count around a block includes the block and keeps the same bounds |
| SequenceRatio.MatchedLeft | app.py:28 | blocks left of the longest block are only searched when both sides have characters there |
| SequenceRatio.MatchedRight | app.py:28 | blocks right of the longest block are only searched when both sides have characters there |
| SequenceRatio.CombineFull | app.py:28 | if the left part, the block and the right part fill both windows, the windows are equal |
| SequenceRatio.Ratio | app.py:28 | the ratio lies in [0, 1] and is 1.0 for two empty strings |
| SequenceRatio.MatchedCharsOfEqual | app.py:28 | a string matches itself completely |
| SequenceRatio.RatioOneIffEqual | app.py:28 | the ratio is 1.0 if and only if the strings are equal |
| SequenceRatio.RatioPositiveIffShared | app.py:28 | the ratio is positive if and only if the strings share a character |
| SequenceRatio.MatchedPositiveIffShared | app.py:28 | some character is matched if and only if the strings share a character |
| SequenceRatio.SharedCharIsMatched | app.py:28 | a shared character forces a positive matched count |
| SequenceRatio.MatchedCharIsShared | app.py:28 | a positive matched count yields a shared character |
| Similarity.TokenSet | app.py:21 | the set holds exactly the tokens of the sequence |
| Similarity.Max | app.py:23 | the result is one of the two arguments and no smaller than either |
| Similarity.SubsetSize | app.py:23 | the intersection is no larger than the union, and strictly smaller when it is a proper subset |
| Similarity.Jaccard | app.py:20-23 | the index lies in [0, 1]; two empty token sets give 0.0 |
| Similarity.JaccardSymmetric | app.py:20-23 | the index does not depend on argument order |
| Similarity.JaccardOneIff | app.py:20-23 | the index is 1.0 if and only if both token sets are equal and non-empty |
| Similarity.JaccardZeroIff | app.py:20-23 | the index is 0.0 if and only if the token sets are disjoint |
| Similarity.Score | app.py:25-30 | the blended score lies in [0, 1] |
| Similarity.JoinEmptyIff | app.py:28 | the joined string is empty if and only if there are no tokens |
| Similarity.ScoreOfTokenlessQuery | app.py:25-30 | a query without tokens scores 0.4 against a tokenless candidate and 0.0 against any other |
| Similarity.ScoreOneIff | app.py:25-30 | the score is 1.0 if and only if both texts have the same non-empty token sequence |
| Similarity.ScoreZeroIff | app.py:25-30 | the score is 0.0 if and only if some side has tokens and the joined texts share no character |
| Similarity.SharedTokenSharesChar | app.py:28 | a token of the sequence contributes its first character to the joined string, at a position it returns |
| Similarity.ScoreDependsOnlyOnTokens | app.py:25-30 | a query scores the same as its normalised, re-joined form |
| Similarity.ScoreAsymmetryIsRatio | app.py:25-30 | swapping query and candidate changes the score by 0.4 times the change of the ratio, and by nothing else |
| Matcher.Phrases | app.py:35 | the first phrase is the question and the others are the alternates, in their given order |
| Matcher.LeadsStep | app.py:36-39 | scoring one more phrase keeps the first-highest-so-far invariant; only a strictly higher score replaces the best |
| Matcher.LeadsNextItem | app.py:34-35 | finishing one item's phrases moves the invariant on to the next item |
| Matcher.LeadsAtEnd | app.py:40 | after the last item, the invariant means the result is the first best of all phrases |
| Matcher.ScanItem | app.py:36-39 | scanning the phrases of one item, in order, carries the first-highest-so-far invariant from the item's first phrase to past its last |
| Matcher.BestMatch | app.py:32-40 | the result is the first phrase with the highest positive score with its answer, or `(None, 0.0, None)` when every phrase scores 0.0 |
| Matcher.FirstBestUnique | app.py:32-40 | exactly one result meets the specification of the method |
| Matcher.NoWinnerIffAllZero | app.py:33-40 | the result names no phrase if and only if every phrase scores 0.0, and then it is `(None, 0.0, None)` |
| Matcher.ExactPhraseWins | app.py:32-40 | when some phrase has the query's non-empty tokens, the result scores 1.0 and its phrase has those tokens |

## Left out

- Loading the knowledge base (`load_faq`, JSON) is not modelled. An entry without `alternates` is given the empty sequence, as `item.get("alternates", [])` does.
- The Streamlit UI, the session history, the confidence threshold applied by the caller and the optional external text-generation fallback are not modelled. They are I/O and network code around the matcher.
- Normalizer.LowerChar: only ASCII `A-Z` are lower-cased. Python's `str.lower` also maps non-ASCII characters, and some of them give ASCII letters: the Kelvin sign U+212A becomes `k`, and U+0130 (capital I with dot above) becomes `i` followed by U+0307. So "İstanbul" gives `["i", "stanbul"]` in Python and `["stanbul"]` here.
- Normalizer.IsSpace: the whitespace set is the one of Python's `str.isspace()` and `re`'s `\s` for `str` patterns, written out explicitly.
- Similarity.Score: real arithmetic is exact, and IEEE-754 double rounding is not modelled. Scores that are equal here can differ in doubles: 11/50 comes from Jaccard 1/6 with ratio 3/10 and from Jaccard 1/5 with ratio 1/4, and in doubles the first gives 0.21999999999999997 and the second 0.22.
- Matcher.BestMatch: the first-of-equals tie-break holds for exact scores only. With double rounding, two phrases whose exact scores are equal can score apart, and the strict `>` of the loop then takes the later phrase when its rounded score is higher.
- SequenceRatio.Ratio: difflib's automatic junk heuristic (`autojunk`, active only when the second string has 200 or more characters) and its `b2j` index are not modelled. The model searches the longest block directly, which gives the same block when nothing is junk.
- difflib's `get_matching_blocks` merges adjacent blocks. That changes the block list but not the matched count, so only the count is modelled.
- The chatbot's Python strings may hold lone surrogates; Dafny's `char` cannot.
