/** Text normalisation of the FAQ matcher: lowercase, turn every character
    that is not a lowercase ASCII letter, digit or whitespace into a space,
    split on whitespace and keep the non-empty pieces. */
module Normalizer {

  /** `str.lower()` on ASCII: 'A'..'Z' become 'a'..'z', everything else is kept. */
  function LowerChar(c: char): char {
    if 'A' <= c <= 'Z' then (c as int - 'A' as int + 'a' as int) as char else c
  }

  /** Whitespace as Python's `str.isspace()`, `str.split()` and the regular
      expression class `\s` see it. */
  predicate IsSpace(c: char) {
    || '\t' <= c <= '\r'
    || '\U{1C}' <= c <= '\U{1F}'
    || c == ' '
    || c == '\U{85}'
    || c == '\U{A0}'
    || c == '\U{1680}'
    || '\U{2000}' <= c <= '\U{200A}'
    || c == '\U{2028}'
    || c == '\U{2029}'
    || c == '\U{202F}'
    || c == '\U{205F}'
    || c == '\U{3000}'
  }

  /** The characters the class `[a-z0-9]` accepts. */
  predicate IsTokenChar(c: char) {
    'a' <= c <= 'z' || '0' <= c <= '9'
  }

  predicate AllTokenChars(w: string) {
    forall k :: 0 <= k < |w| ==> IsTokenChar(w[k])
  }

  predicate NoSpace(w: string) {
    forall k :: 0 <= k < |w| ==> !IsSpace(w[k])
  }

  /** What a token returned by `Normalize` looks like. */
  predicate IsToken(w: string) {
    w != [] && AllTokenChars(w)
  }

  /** A text in which every character is a token character or whitespace. */
  predicate IsScrubbed(s: string) {
    forall k :: 0 <= k < |s| ==> IsTokenChar(s[k]) || IsSpace(s[k])
  }

  /** `text.lower()`: no ASCII capital is left, and every other character
      stays where it was. */
  function Lower(s: string): (r: string)
    ensures |r| == |s|
    ensures forall k :: 0 <= k < |r| ==> !('A' <= r[k] <= 'Z')
    ensures forall k :: 0 <= k < |s| && !('A' <= s[k] <= 'Z') ==> r[k] == s[k]
    ensures forall k :: 0 <= k < |s| && 'A' <= s[k] <= 'Z' ==> r[k] as int == s[k] as int + 32
  {
    seq(|s|, k requires 0 <= k < |s| => LowerChar(s[k]))
  }

  function ScrubChar(c: char): char {
    if IsTokenChar(c) || IsSpace(c) then c else ' '
  }

  /** `re.sub(r"[^a-z0-9\s]", " ", s)`: token characters and whitespace
      stay where they are, and every other character becomes a space. */
  function Scrub(s: string): (r: string)
    ensures |r| == |s| && IsScrubbed(r)
    ensures forall k :: 0 <= k < |s| && (IsTokenChar(s[k]) || IsSpace(s[k])) ==> r[k] == s[k]
    ensures forall k :: 0 <= k < |s| && !IsTokenChar(s[k]) && !IsSpace(s[k]) ==> r[k] == ' '
  {
    seq(|s|, k requires 0 <= k < |s| => ScrubChar(s[k]))
  }

  function Flush(word: string): seq<string> {
    if word == [] then [] else [word]
  }

  /** `str.split()` with `word` the piece read so far: runs of whitespace
      separate the pieces and no piece is empty. */
  function SplitFrom(s: string, word: string): (pieces: seq<string>)
    ensures forall p :: p in pieces ==> p != []
    ensures IsScrubbed(s) && AllTokenChars(word) ==> forall p :: p in pieces ==> IsToken(p)
    ensures NoSpace(word) ==> forall p :: p in pieces ==> NoSpace(p)
    decreases |s|
  {
    if s == [] then Flush(word)
    else if IsSpace(s[0]) then Flush(word) + SplitFrom(s[1..], "")
    else SplitFrom(s[1..], word + [s[0]])
  }

  /** `s.split()`: the pieces are non-empty and hold no whitespace, and
      those of a scrubbed text are tokens. */
  function Split(s: string): (pieces: seq<string>)
    ensures forall p :: p in pieces ==> p != [] && NoSpace(p)
    ensures IsScrubbed(s) ==> forall p :: p in pieces ==> IsToken(p)
  {
    SplitFrom(s, "")
  }

  /** `normalize(text)`: the tokens of the text. */
  function Normalize(text: string): (tokens: seq<string>)
    ensures forall t :: t in tokens ==> IsToken(t)
  {
    Split(Scrub(Lower(text)))
  }

  /** `" ".join(tokens)`: the tokens with one separator between each two. */
  function Join(tokens: seq<string>): (s: string)
    ensures tokens == [] ==> s == ""
    ensures tokens != [] ==> |s| == |Concat(tokens)| + |tokens| - 1
  {
    if |tokens| == 0 then ""
    else if |tokens| == 1 then tokens[0]
    else tokens[0] + " " + Join(tokens[1..])
  }

  /** The concatenation of a sequence of strings. */
  function Concat(pieces: seq<string>): string {
    if pieces == [] then "" else pieces[0] + Concat(pieces[1..])
  }

  /** The characters of `s` that `[a-z0-9]` accepts, in order. */
  function TokenCharsOf(s: string): (r: string)
    ensures AllTokenChars(r)
  {
    if s == [] then ""
    else if IsTokenChar(s[0]) then [s[0]] + TokenCharsOf(s[1..])
    else TokenCharsOf(s[1..])
  }

  /** The characters of `s` that are not whitespace, in order. */
  function NonSpace(s: string): string {
    if s == [] then ""
    else if IsSpace(s[0]) then NonSpace(s[1..])
    else [s[0]] + NonSpace(s[1..])
  }

  // ---------------------------------------------------------------------
  // Splitting keeps every non-whitespace character, in order.

  lemma {:induction false} SplitFromKeepsNonSpace(s: string, word: string)
    ensures Concat(SplitFrom(s, word)) == word + NonSpace(s)
    decreases |s|, 1
  {
    if s == [] {
      ConcatFlush(word);
    } else if IsSpace(s[0]) {
      KeepsNonSpaceAtSpace(s, word);
    } else {
      KeepsNonSpaceInWord(s, word);
    }
  }

  lemma {:induction false} KeepsNonSpaceAtSpace(s: string, word: string)
    requires s != [] && IsSpace(s[0])
    ensures Concat(SplitFrom(s, word)) == word + NonSpace(s)
    decreases |s|, 0
  {
    var rest := SplitFrom(s[1..], "");
    assert SplitFrom(s, word) == Flush(word) + rest;
    calc {
      Concat(Flush(word) + rest);
      { ConcatAppend(Flush(word), rest); }
      Concat(Flush(word)) + Concat(rest);
      { ConcatFlush(word); SplitFromKeepsNonSpace(s[1..], ""); }
      word + ("" + NonSpace(s[1..]));
      { assert "" + NonSpace(s[1..]) == NonSpace(s[1..]); }
      word + NonSpace(s);
    }
  }

  lemma {:induction false} KeepsNonSpaceInWord(s: string, word: string)
    requires s != [] && !IsSpace(s[0])
    ensures Concat(SplitFrom(s, word)) == word + NonSpace(s)
    decreases |s|, 0
  {
    assert SplitFrom(s, word) == SplitFrom(s[1..], word + [s[0]]);
    assert NonSpace(s) == [s[0]] + NonSpace(s[1..]);
    SplitFromKeepsNonSpace(s[1..], word + [s[0]]);
    assert word + [s[0]] + NonSpace(s[1..]) == word + ([s[0]] + NonSpace(s[1..]));
  }

  lemma ConcatFlush(word: string)
    ensures Concat(Flush(word)) == word
  {
    if word != [] {
      assert Concat([word]) == word + Concat([]);
    }
  }

  lemma {:induction false} ConcatAppend(x: seq<string>, y: seq<string>)
    ensures Concat(x + y) == Concat(x) + Concat(y)
    decreases |x|
  {
    if x == [] {
      assert x + y == y;
    } else {
      assert (x + y)[1..] == x[1..] + y;
      ConcatAppend(x[1..], y);
    }
  }

  /** Whitespace left after scrubbing is exactly what separates the tokens:
      dropping it leaves the token characters of the original text. */
  lemma {:induction false} ScrubThenDropSpace(s: string)
    ensures NonSpace(Scrub(s)) == TokenCharsOf(s)
    decreases |s|
  {
    if s != [] {
      assert Scrub(s) == [ScrubChar(s[0])] + Scrub(s[1..]);
      assert ([ScrubChar(s[0])] + Scrub(s[1..]))[1..] == Scrub(s[1..]);
      ScrubThenDropSpace(s[1..]);
    }
  }

  /** Normalising keeps every letter and digit of the lowercased text, in
      order, and nothing else. */
  lemma NormalizeKeepsTokenChars(text: string)
    ensures Concat(Normalize(text)) == TokenCharsOf(Lower(text))
  {
    SplitFromKeepsNonSpace(Scrub(Lower(text)), "");
    ScrubThenDropSpace(Lower(text));
  }

  // ---------------------------------------------------------------------
  // Splitting a joined token sequence gives the tokens back.

  lemma {:induction false} SplitFromWord(w: string, rest: string, word: string)
    requires NoSpace(w)
    ensures SplitFrom(w + rest, word) == SplitFrom(rest, word + w)
    decreases |w|
  {
    if w == [] {
      assert w + rest == rest;
      assert word + w == word;
    } else {
      assert (w + rest)[0] == w[0];
      assert (w + rest)[1..] == w[1..] + rest;
      SplitFromWord(w[1..], rest, word + [w[0]]);
      assert word + [w[0]] + w[1..] == word + w;
    }
  }

  /** `str.split()` undoes `" ".join` on tokens. */
  lemma {:induction false} SplitJoin(tokens: seq<string>)
    requires forall t :: t in tokens ==> IsToken(t)
    ensures Split(Join(tokens)) == tokens
    decreases |tokens|
  {
    if |tokens| == 1 {
      assert IsToken(tokens[0]);
      SplitFromWord(tokens[0], "", "");
      assert tokens[0] + "" == tokens[0];
      assert "" + tokens[0] == tokens[0];
      assert SplitFrom("", tokens[0]) == [tokens[0]];
    } else if |tokens| > 1 {
      var t0, rest := tokens[0], tokens[1..];
      assert IsToken(t0);
      SplitFromWord(t0, " " + Join(rest), "");
      assert t0 + " " + Join(rest) == t0 + (" " + Join(rest));
      assert "" + t0 == t0;
      assert (" " + Join(rest))[1..] == Join(rest);
      SplitJoin(rest);
    }
  }

  /** Joining tokens loses nothing: different token sequences join to
      different strings. */
  lemma JoinInjective(x: seq<string>, y: seq<string>)
    requires forall t :: t in x ==> IsToken(t)
    requires forall t :: t in y ==> IsToken(t)
    ensures Join(x) == Join(y) <==> x == y
  {
    SplitJoin(x);
    SplitJoin(y);
  }

  /** The joined tokens consist of token characters and single spaces. */
  lemma {:induction false} JoinChars(tokens: seq<string>)
    requires forall t :: t in tokens ==> IsToken(t)
    ensures forall k :: 0 <= k < |Join(tokens)| ==> IsTokenChar(Join(tokens)[k]) || Join(tokens)[k] == ' '
    decreases |tokens|
  {
    if |tokens| > 1 {
      var t0, rest := tokens[0], tokens[1..];
      assert IsToken(t0);
      JoinChars(rest);
      var j := Join(tokens);
      assert j == t0 + " " + Join(rest);
      forall k | 0 <= k < |j|
        ensures IsTokenChar(j[k]) || j[k] == ' '
      {
        if k < |t0| {
          assert j[k] == t0[k];
        } else if k > |t0| {
          assert j[k] == Join(rest)[k - |t0| - 1];
        }
      }
    } else if |tokens| == 1 {
      assert IsToken(tokens[0]);
    }
  }

  /** Normalising is idempotent: normalising the re-joined tokens of a text
      gives the same tokens. */
  lemma NormalizeIdempotent(text: string)
    ensures Normalize(Join(Normalize(text))) == Normalize(text)
  {
    var tokens := Normalize(text);
    var j := Join(tokens);
    JoinChars(tokens);
    assert Lower(j) == j;
    assert Scrub(j) == j;
    SplitJoin(tokens);
  }

  // ---------------------------------------------------------------------
  // Where the tokens break.

  lemma LowerAppend(x: string, y: string)
    ensures Lower(x + y) == Lower(x) + Lower(y)
  {
    assert forall k :: 0 <= k < |x + y| ==> Lower(x + y)[k] == (Lower(x) + Lower(y))[k];
  }

  lemma ScrubAppend(x: string, y: string)
    ensures Scrub(x + y) == Scrub(x) + Scrub(y)
  {
    assert forall k :: 0 <= k < |x + y| ==> Scrub(x + y)[k] == (Scrub(x) + Scrub(y))[k];
  }

  /** A whitespace character ends the piece read so far; what follows it is
      split on its own. */
  lemma {:induction false} SplitFromAtSpace(u: string, d: char, v: string, word: string)
    requires IsSpace(d)
    ensures SplitFrom(u + [d] + v, word) == SplitFrom(u, word) + SplitFrom(v, "")
    decreases |u|
  {
    if u == [] {
      assert u + [d] + v == [d] + v;
      assert ([d] + v)[1..] == v;
    } else {
      assert (u + [d] + v)[0] == u[0];
      assert (u + [d] + v)[1..] == u[1..] + [d] + v;
      if IsSpace(u[0]) {
        SplitFromAtSpace(u[1..], d, v, "");
      } else {
        SplitFromAtSpace(u[1..], d, v, word + [u[0]]);
      }
    }
  }

  /** A character that is not a letter or digit once lowercased separates
      tokens: the text on each side of it is normalised on its own. */
  lemma NormalizeAtSeparator(x: string, y: string, c: char)
    requires !IsTokenChar(LowerChar(c))
    ensures Normalize(x + [c] + y) == Normalize(x) + Normalize(y)
  {
    var lc := LowerChar(c);
    var d := ScrubChar(lc);
    calc {
      Scrub(Lower(x + [c] + y));
      { LowerAppend(x + [c], y); LowerAppend(x, [c]); assert Lower([c]) == [lc]; }
      Scrub(Lower(x) + [lc] + Lower(y));
      { ScrubAppend(Lower(x) + [lc], Lower(y)); ScrubAppend(Lower(x), [lc]); assert Scrub([lc]) == [d]; }
      Scrub(Lower(x)) + [d] + Scrub(Lower(y));
    }
    SplitFromAtSpace(Scrub(Lower(x)), d, Scrub(Lower(y)), "");
  }

  /** A run of letters and digits is a single token, lowercased. */
  lemma NormalizeWord(w: string)
    requires w != [] && AllTokenChars(Lower(w))
    ensures Normalize(w) == [Lower(w)]
  {
    var lw := Lower(w);
    assert Scrub(lw) == lw;
    SplitFromWord(lw, "", "");
    assert lw + "" == lw;
    assert "" + lw == lw;
  }

  /** Case does not matter: a text and its lowercased form have the same
      tokens. */
  lemma NormalizeIgnoresCase(text: string)
    ensures Normalize(Lower(text)) == Normalize(text)
  {
    assert Lower(Lower(text)) == Lower(text);
  }
}
