/** The query tokenizer used for BM25 indexing and querying. */
module Tokenize {
  import opened Common

  /** Membership in STOPWORDS: the English stopword set minus "not" and "no", which carry
      legal meaning. */
  predicate IsStopword(w: string) {
    w in
    {"a", "an", "and", "are", "as", "at", "be", "been", "being", "but", "by", "can", "could",
     "did", "do", "does", "doing", "done", "down", "during", "each", "few", "for", "from",
     "further", "get", "got", "had", "has", "have", "having", "he", "her", "here", "hers",
     "herself", "him", "himself", "his", "how", "i", "if", "in", "into", "is", "it", "its",
     "itself", "just", "let", "may", "me", "might", "more", "most", "much", "must", "my",
     "myself", "nor", "of", "off", "on", "once", "only", "or", "other", "ought", "our", "ours",
     "ourselves", "out", "over", "own", "same", "shall", "she", "should", "so", "some", "such",
     "than", "that", "the", "their", "theirs", "them", "themselves", "then", "there", "these",
     "they", "this", "those", "through", "to", "too", "under", "until", "up", "upon", "us",
     "very", "was", "we", "were", "what", "when", "where", "which", "while", "who", "whom",
     "why", "will", "with", "would", "yet", "you", "your", "yours", "yourself", "yourselves",
     "about", "above", "after", "again", "against", "all", "am", "any", "because", "before",
     "below", "between", "both", "also"}
  }

  /** The characters the `[^a-z0-9\-]+` substitution keeps. */
  predicate IsTokenChar(c: char) {
    IsLower(c) || IsDigit(c) || c == '-'
  }

  /** A well-formed token: non-empty and made of `[a-z0-9-]` only. */
  predicate IsToken(t: string) {
    t != [] && forall i :: 0 <= i < |t| ==> IsTokenChar(t[i])
  }

  // ---------------------------------------------------------------------------
  // Step 2: `(\d+)\(([a-zA-Z0-9])\)` replaced by `\1\2`
  // ---------------------------------------------------------------------------

  /** Length of the run of digits that starts `s`. */
  function DigitRun(s: string): (k: nat)
    ensures k <= |s|
    ensures forall i :: 0 <= i < k ==> IsDigit(s[i])
    ensures k < |s| ==> !IsDigit(s[k])
  {
    if s != [] && IsDigit(s[0]) then 1 + DigitRun(s[1..]) else 0
  }

  /** The subsection pattern matches at the start of `s`: digits, `(`, one letter or digit, `)`. */
  predicate SubsectionAt(s: string) {
    var k := DigitRun(s);
    0 < k && k + 3 <= |s| && s[k] == '(' && IsAlnum(s[k + 1]) && s[k + 2] == ')'
  }

  /** Scans left to right like `re.sub`: each match loses its two parentheses. */
  function MergeSubsections(s: string): string
    decreases |s|
  {
    if s == [] then []
    else if SubsectionAt(s) then
      var k := DigitRun(s);
      s[..k] + [s[k + 1]] + MergeSubsections(s[k + 3..])
    else [s[0]] + MergeSubsections(s[1..])
  }

  // ---------------------------------------------------------------------------
  // Step 3: `[^a-z0-9\-]+` replaced by one space
  // ---------------------------------------------------------------------------

  /** Length of the run of non-token characters that starts `s`. */
  function SeparatorRun(s: string): (k: nat)
    ensures k <= |s|
    ensures forall i :: 0 <= i < k ==> !IsTokenChar(s[i])
    ensures k < |s| ==> IsTokenChar(s[k])
  {
    if s != [] && !IsTokenChar(s[0]) then 1 + SeparatorRun(s[1..]) else 0
  }

  /** Each maximal run of characters outside `[a-z0-9-]` becomes a single space. */
  function Squash(s: string): (r: string)
    ensures forall i :: 0 <= i < |r| ==> IsTokenChar(r[i]) || r[i] == ' '
    decreases |s|
  {
    if s == [] then []
    else if IsTokenChar(s[0]) then [s[0]] + Squash(s[1..])
    else
      var k := SeparatorRun(s);
      [' '] + Squash(s[k..])
  }

  // ---------------------------------------------------------------------------
  // Step 4: `str.split()` with no separator
  // ---------------------------------------------------------------------------

  /** Length of the run of non-whitespace characters that starts `s`. */
  function WordRun(s: string): (k: nat)
    ensures k <= |s|
    ensures forall i :: 0 <= i < k ==> s[i] !in PyWhitespace
    ensures k < |s| ==> s[k] in PyWhitespace
  {
    if s != [] && s[0] !in PyWhitespace then 1 + WordRun(s[1..]) else 0
  }

  /** The maximal runs of non-whitespace characters, in order. */
  function SplitWhitespace(s: string): seq<string>
    decreases |s|
  {
    if s == [] then []
    else if s[0] in PyWhitespace then SplitWhitespace(s[1..])
    else
      var k := WordRun(s);
      [s[..k]] + SplitWhitespace(s[k..])
  }

  /** Every word of the split is non-empty and made of non-whitespace characters of the text. */
  lemma {:induction false} SplitWords(s: string)
    ensures forall w :: w in SplitWhitespace(s) ==> w != []
    ensures forall w :: w in SplitWhitespace(s) ==>
      forall i :: 0 <= i < |w| ==> w[i] !in PyWhitespace && w[i] in s
    decreases |s|
  {
    if s == [] {
    } else if s[0] in PyWhitespace {
      SplitWords(s[1..]);
      assert forall x :: x in s[1..] ==> x in s;
    } else {
      var k := WordRun(s);
      SplitWords(s[k..]);
      assert forall x :: x in s[k..] ==> x in s;
      assert forall x :: x in s[..k] ==> x in s;
      assert SplitWhitespace(s) == [s[..k]] + SplitWhitespace(s[k..]);
    }
  }

  /** `[t for t in tokens if t not in STOPWORDS]`. */
  function DropStopwords(tokens: seq<string>): (r: seq<string>)
    ensures forall t :: t in r ==> t in tokens && !IsStopword(t)
    ensures (forall t :: t in tokens ==> !IsStopword(t)) ==> r == tokens
  {
    if tokens == [] then []
    else if IsStopword(tokens[0]) then DropStopwords(tokens[1..])
    else [tokens[0]] + DropStopwords(tokens[1..])
  }

  /** `tokenize(text)`: lowercase, merge subsections, squash separators, split, drop stopwords. */
  function Tokenize(text: string): seq<string> {
    DropStopwords(SplitWhitespace(Squash(MergeSubsections(Lower(text)))))
  }

  // ---------------------------------------------------------------------------
  // Properties
  // ---------------------------------------------------------------------------

  /** Every token is non-empty, uses only `a`-`z`, `0`-`9` and `-`, and is not a stopword. */
  lemma TokensWellFormed(text: string)
    ensures forall t :: t in Tokenize(text) ==> IsToken(t) && !IsStopword(t)
  {
    var squashed := Squash(MergeSubsections(Lower(text)));
    WordsAreTokens(squashed);
  }

  /** Splitting text made of token characters and spaces yields tokens. */
  lemma WordsAreTokens(s: string)
    requires forall i :: 0 <= i < |s| ==> IsTokenChar(s[i]) || s[i] == ' '
    ensures forall w :: w in SplitWhitespace(s) ==> IsToken(w)
  {
    SpaceIsWhitespace();
    SplitWords(s);
    forall w | w in SplitWhitespace(s)
      ensures IsToken(w)
    {
      forall i | 0 <= i < |w|
        ensures IsTokenChar(w[i])
      {
        assert w[i] in s && w[i] !in PyWhitespace;
        var j :| 0 <= j < |s| && s[j] == w[i];
      }
    }
  }

  /** A single lower-case word that is not a stopword is its own token list. */
  lemma {:induction false} WordKept(w: string)
    requires IsToken(w) && !IsStopword(w)
    ensures Tokenize(w) == [w]
  {
    LowerIdentity(w);
    MergeWithoutParens(w);
    SquashToken(w, []);
    assert w + [] == w;
    SplitSingleToken(w);
  }

  /** "not" and "no" are kept because they are absent from the stopword set. */
  lemma NegationsKept(w: string)
    requires w == "not" || w == "no"
    ensures Tokenize(w) == [w]
  {
    assert IsToken(w);
    assert !IsStopword(w);
    WordKept(w);
  }

  /** No stopword starts with a digit. */
  lemma DigitLedNotStopword(w: string)
    requires w != [] && IsDigit(w[0])
    ensures !IsStopword(w)
  {
  }

  /** A digit run followed by a parenthesised letter or digit loses its parentheses. */
  lemma {:induction false} MergeSubsectionAt(d: string, c: char, rest: string)
    requires d != [] && AllDigits(d) && IsAlnum(c)
    ensures MergeSubsections(d + ['(', c, ')'] + rest) == d + [c] + MergeSubsections(rest)
  {
    var s := d + ['(', c, ')'] + rest;
    DigitRunOfDigits(d, ['(', c, ')'] + rest);
    assert s == d + (['(', c, ')'] + rest);
    assert SubsectionAt(s);
    assert s[|d| + 3..] == rest;
  }

  lemma {:induction false} DigitRunOfDigits(d: string, rest: string)
    requires AllDigits(d)
    requires rest != [] ==> !IsDigit(rest[0])
    ensures DigitRun(d + rest) == |d|
  {
    if d != [] {
      assert (d + rest)[1..] == d[1..] + rest;
      DigitRunOfDigits(d[1..], rest);
    }
  }

  /** `87103(a)`, and any digits-then-`(x)` query, becomes one token `87103a`. */
  lemma {:induction false} SubsectionMerged(d: string, c: char)
    requires d != [] && AllDigits(d) && IsAlnum(c)
    ensures Tokenize(d + ['(', c, ')']) == [d + [ToLower(c)]]
  {
    var text := d + ['(', c, ')'];
    var lowered := Lower(text);
    assert Lower(d) == d;
    assert lowered == d + ['(', ToLower(c), ')'];
    MergeSubsectionAt(d, ToLower(c), []);
    assert d + ['(', ToLower(c), ')'] + [] == lowered;
    var merged := d + [ToLower(c)];
    assert MergeSubsections(lowered) == merged;
    assert IsToken(merged);
    SquashToken(merged, []);
    assert Squash(merged) == merged;
    SplitSingleToken(merged);
    DigitLedNotStopword(merged);
  }

  /** Squash leaves a run of token characters untouched. */
  lemma {:induction false} SquashToken(w: string, rest: string)
    requires forall i :: 0 <= i < |w| ==> IsTokenChar(w[i])
    ensures Squash(w + rest) == w + Squash(rest)
  {
    if w != [] {
      assert (w + rest)[1..] == w[1..] + rest;
      SquashToken(w[1..], rest);
    } else {
      assert w + rest == rest;
    }
  }

  /** Token characters are never whitespace. */
  lemma TokenCharNotSpace(c: char)
    requires IsTokenChar(c)
    ensures c !in PyWhitespace
  {
  }

  lemma {:induction false} WordRunOfToken(w: string, rest: string)
    requires forall i :: 0 <= i < |w| ==> IsTokenChar(w[i])
    requires rest != [] ==> rest[0] in PyWhitespace
    ensures WordRun(w + rest) == |w|
  {
    if w != [] {
      TokenCharNotSpace(w[0]);
      assert (w + rest)[1..] == w[1..] + rest;
      WordRunOfToken(w[1..], rest);
    }
  }

  lemma SplitSingleToken(w: string)
    requires IsToken(w)
    ensures SplitWhitespace(w) == [w]
  {
    WordRunOfToken(w, []);
    assert w + [] == w;
    TokenCharNotSpace(w[0]);
  }

  // ---------------------------------------------------------------------------
  // Idempotence: tokenizing the space-joined tokens gives the same tokens
  // ---------------------------------------------------------------------------

  predicate AllTokens(ts: seq<string>) {
    forall t :: t in ts ==> IsToken(t)
  }

  /** Every character of a space-joined token list is a token character or the space. */
  lemma {:induction false} JoinedChars(ts: seq<string>)
    requires AllTokens(ts)
    ensures forall i :: 0 <= i < |Join(ts, " ")| ==>
      IsTokenChar(Join(ts, " ")[i]) || Join(ts, " ")[i] == ' '
  {
    if |ts| > 1 {
      assert ts[0] in ts;
      JoinedChars(ts[1..]);
      var w, rest := ts[0], Join(ts[1..], " ");
      var j := Join(ts, " ");
      assert j == w + (" " + rest);
      forall i | 0 <= i < |j| ensures IsTokenChar(j[i]) || j[i] == ' ' {
        if i < |w| {
          assert j[i] == w[i];
        } else if i == |w| {
          assert j[i] == ' ';
        } else {
          assert j[i] == rest[i - |w| - 1];
        }
      }
    } else if |ts| == 1 {
      assert ts[0] in ts;
    }
  }

  /** Text without upper-case letters is its own lower-case form. */
  lemma LowerIdentity(s: string)
    requires forall i :: 0 <= i < |s| ==> !IsUpper(s[i])
    ensures Lower(s) == s
  {
  }

  /** Text without `(` has no subsection to merge. */
  lemma {:induction false} MergeWithoutParens(s: string)
    requires forall i :: 0 <= i < |s| ==> s[i] != '('
    ensures MergeSubsections(s) == s
    decreases |s|
  {
    if s != [] {
      var k := DigitRun(s);
      assert !SubsectionAt(s) by {
        if k + 3 <= |s| { assert s[k] != '('; }
      }
      MergeWithoutParens(s[1..]);
    }
  }

  /** The space before a token is kept as the single separator. */
  lemma SquashSpace(tail: string)
    requires tail != [] && IsTokenChar(tail[0])
    ensures Squash(" " + tail) == " " + Squash(tail)
  {
    assert (" " + tail)[1..] == tail;
    assert SeparatorRun(" " + tail) == 1;
  }

  /** A space-joined list of tokens has nothing for Squash to change. */
  lemma {:induction false} SquashJoin(ts: seq<string>)
    requires AllTokens(ts)
    ensures Squash(Join(ts, " ")) == Join(ts, " ")
  {
    if |ts| == 1 {
      assert ts[0] in ts;
      SquashToken(ts[0], []);
      assert ts[0] + [] == ts[0];
    } else if |ts| > 1 {
      var w, tail := ts[0], Join(ts[1..], " ");
      assert Join(ts, " ") == w + (" " + tail) by {
        JoinCons(ts, " ");
      }
      assert Squash(tail) == tail && tail != [] && IsTokenChar(tail[0]) by {
        assert ts[1] in ts;
        SquashJoin(ts[1..]);
        JoinEnds(ts[1..], " ");
      }
      assert Squash(w + (" " + tail)) == w + Squash(" " + tail) by {
        assert w in ts;
        SquashToken(w, " " + tail);
      }
      SquashSpace(tail);
    }
  }

  lemma SpaceIsWhitespace()
    ensures ' ' in PyWhitespace
  {
  }

  /** A leading space is skipped by the split. */
  lemma SplitSkipsSpace(tail: string)
    ensures SplitWhitespace(" " + tail) == SplitWhitespace(tail)
  {
    SpaceIsWhitespace();
    assert (" " + tail)[1..] == tail;
  }

  /** A token followed by a space is split off as one word. */
  lemma SplitTokenThenSpace(w: string, tail: string)
    requires IsToken(w)
    ensures SplitWhitespace(w + (" " + tail)) == [w] + SplitWhitespace(" " + tail)
  {
    var s := w + (" " + tail);
    SpaceIsWhitespace();
    WordRunOfToken(w, " " + tail);
    TokenCharNotSpace(w[0]);
    assert s[0] == w[0];
    assert s[..|w|] == w;
    assert s[|w|..] == " " + tail;
  }

  /** Splitting a space-joined list of tokens gives the list back. */
  lemma {:induction false} SplitJoin(ts: seq<string>)
    requires AllTokens(ts)
    ensures SplitWhitespace(Join(ts, " ")) == ts
  {
    if |ts| == 1 {
      assert ts[0] in ts;
      SplitSingleToken(ts[0]);
    } else if |ts| > 1 {
      var w, tail := ts[0], Join(ts[1..], " ");
      assert Join(ts, " ") == w + (" " + tail) by {
        JoinCons(ts, " ");
      }
      assert SplitWhitespace(w + (" " + tail)) == [w] + SplitWhitespace(" " + tail) by {
        assert w in ts;
        SplitTokenThenSpace(w, tail);
      }
      assert SplitWhitespace(" " + tail) == ts[1..] by {
        SplitSkipsSpace(tail);
        SplitJoin(ts[1..]);
      }
      assert ts == [w] + ts[1..];
    }
  }

  /** A list of tokens none of which is a stopword survives a join-and-tokenize round trip. */
  lemma TokenizeJoined(ts: seq<string>)
    requires AllTokens(ts)
    requires forall t :: t in ts ==> !IsStopword(t)
    ensures Tokenize(Join(ts, " ")) == ts
  {
    var j := Join(ts, " ");
    JoinedChars(ts);
    forall i | 0 <= i < |j| ensures !IsUpper(j[i]) && j[i] != '(' {
    }
    LowerIdentity(j);
    MergeWithoutParens(j);
    SquashJoin(ts);
    SplitJoin(ts);
  }

  /** Tokenizing the space-joined output of `tokenize` returns the same list. */
  lemma TokenizeIdempotent(text: string)
    ensures Tokenize(Join(Tokenize(text), " ")) == Tokenize(text)
  {
    TokensWellFormed(text);
    TokenizeJoined(Tokenize(text));
  }
}
