/**
 * The text statistics of the data-analysis example page: the lexicon
 * sentiment score of one utterance, the token filter applied before word
 * frequencies are counted, the number of sentence pieces of an utterance
 * (`re.split` on runs of `.`, `!` and `?`) and the lexical diversity of a
 * meeting. Tokenisation and lower-casing are inputs.
 */
module TextStatistics {
  import opened Text

  // ---------------------------------------------------------------------
  // Lexicon sentiment
  // ---------------------------------------------------------------------

  const PositiveWords: seq<string> := [
    "bom", "ótimo", "excelente", "positivo", "feliz", "concordo", "aprovado",
    "sucesso", "eficiente", "eficaz", "melhor", "progresso", "avanço"
  ]

  const NegativeWords: seq<string> := [
    "ruim", "péssimo", "negativo", "triste", "discordo", "reprovado",
    "fracasso", "ineficiente", "ineficaz", "pior", "problema", "dificuldade"
  ]

  /** How many tokens, repeats included, belong to `lexicon`. */
  function Hits(tokens: seq<string>, lexicon: seq<string>): (r: nat)
    ensures r <= |tokens|
    decreases |tokens|
  {
    if tokens == [] then 0
    else Hits(tokens[..|tokens| - 1], lexicon) + if tokens[|tokens| - 1] in lexicon then 1 else 0
  }

  /** A difference over a positive total lies within [-1, 1] and has the difference's sign. */
  lemma RatioBounds(a: real, b: real)
    requires b > 0.0 && -b <= a <= b
    ensures -1.0 <= a / b <= 1.0
    ensures a / b == 0.0 <==> a == 0.0
    ensures a / b > 0.0 <==> a > 0.0
    ensures a == b ==> a / b == 1.0
    ensures a == -b ==> a / b == -1.0
  {
    var q := a / b;
    assert q * b == a;
    if a == b {
      assert (q - 1.0) * b == 0.0;
    }
    if a == -b {
      assert (q + 1.0) * b == 0.0;
    }
  }

  /** Positive hits minus negative hits over all hits, 0 without hits. */
  function Score(p: nat, n: nat): (r: real)
    ensures -1.0 <= r <= 1.0
    ensures r == 0.0 <==> p == n
    ensures r > 0.0 <==> p > n
    ensures p > 0 && n == 0 ==> r == 1.0
    ensures p == 0 && n > 0 ==> r == -1.0
  {
    var d: int := p - n;
    if p + n == 0 then 0.0
    else
      RatioBounds(d as real, (p + n) as real);
      d as real / (p + n) as real
  }

  /** The sentiment of an utterance's tokens, scored from its hits in the two lexicons. */
  function Sentiment(tokens: seq<string>): real
  {
    Score(Hits(tokens, PositiveWords), Hits(tokens, NegativeWords))
  }

  /** No word of the two lexicons is in both. */
  lemma LexiconsDisjoint(w: string)
    ensures !(w in PositiveWords && w in NegativeWords)
  {
    if w in PositiveWords {
      var i :| 0 <= i < |PositiveWords| && PositiveWords[i] == w;
      assert w[0] in "bóefcaspm" by {
        assert forall k :: 0 <= k < |PositiveWords| ==> PositiveWords[k][0] in "bóefcaspm";
      }
      assert forall k :: 0 <= k < |NegativeWords| ==> NegativeWords[k] != w;
    }
  }

  /** Hits add up over concatenation, so every occurrence counts. */
  lemma {:induction false} HitsAppend(a: seq<string>, b: seq<string>, lexicon: seq<string>)
    ensures Hits(a + b, lexicon) == Hits(a, lexicon) + Hits(b, lexicon)
    decreases |b|
  {
    if b != [] {
      assert (a + b)[..|a + b| - 1] == a + b[..|b| - 1];
      HitsAppend(a, b[..|b| - 1], lexicon);
    } else {
      assert a + b == a;
    }
  }

  /** A token out of the lexicon adds no hit; every token in it adds one. */
  lemma {:induction false} HitsBounds(tokens: seq<string>, lexicon: seq<string>)
    ensures (forall i :: 0 <= i < |tokens| ==> tokens[i] !in lexicon) ==> Hits(tokens, lexicon) == 0
    ensures (exists i :: 0 <= i < |tokens| && tokens[i] in lexicon) ==> Hits(tokens, lexicon) > 0
    ensures (forall i :: 0 <= i < |tokens| ==> tokens[i] in lexicon) ==> Hits(tokens, lexicon) == |tokens|
    decreases |tokens|
  {
    if tokens != [] {
      var init := tokens[..|tokens| - 1];
      HitsBounds(init, lexicon);
      assert forall i :: 0 <= i < |init| ==> init[i] == tokens[i];
      if exists i :: 0 <= i < |tokens| && tokens[i] in lexicon {
        var i :| 0 <= i < |tokens| && tokens[i] in lexicon;
        if i < |init| {
          assert init[i] in lexicon;
        }
      }
    }
  }

  /** Tokens outside both lexicons score 0. */
  lemma NeutralWithoutHits(tokens: seq<string>)
    requires forall i :: 0 <= i < |tokens| ==> tokens[i] !in PositiveWords && tokens[i] !in NegativeWords
    ensures Sentiment(tokens) == 0.0
  {
    HitsBounds(tokens, PositiveWords);
    HitsBounds(tokens, NegativeWords);
  }

  /** A positive word and no negative word score 1. */
  lemma OnlyPositiveScoresOne(tokens: seq<string>)
    requires exists i :: 0 <= i < |tokens| && tokens[i] in PositiveWords
    requires forall i :: 0 <= i < |tokens| ==> tokens[i] !in NegativeWords
    ensures Sentiment(tokens) == 1.0
  {
    HitsBounds(tokens, PositiveWords);
    HitsBounds(tokens, NegativeWords);
  }

  /** A negative word and no positive word score -1. */
  lemma OnlyNegativeScoresMinusOne(tokens: seq<string>)
    requires exists i :: 0 <= i < |tokens| && tokens[i] in NegativeWords
    requires forall i :: 0 <= i < |tokens| ==> tokens[i] !in PositiveWords
    ensures Sentiment(tokens) == -1.0
  {
    HitsBounds(tokens, PositiveWords);
    HitsBounds(tokens, NegativeWords);
  }

  /** Doubling every count leaves the score as it was. */
  lemma ScoreScaled(p: nat, n: nat)
    ensures Score(2 * p, 2 * n) == Score(p, n)
  {
    var d: int := p - n;
    if p + n > 0 {
      assert (2 * p - 2 * n) as real == 2.0 * d as real;
      assert (2 * p + 2 * n) as real == 2.0 * (p + n) as real;
      ScaledRatio(d as real, (p + n) as real);
    }
  }

  /** Repeating an utterance leaves its score as it was: repeats count on both sides. */
  lemma RepeatKeepsScore(tokens: seq<string>)
    ensures Sentiment(tokens + tokens) == Sentiment(tokens)
  {
    HitsAppend(tokens, tokens, PositiveWords);
    HitsAppend(tokens, tokens, NegativeWords);
    ScoreScaled(Hits(tokens, PositiveWords), Hits(tokens, NegativeWords));
  }

  lemma ScaledRatio(a: real, b: real)
    requires b > 0.0
    ensures (2.0 * a) / (2.0 * b) == a / b
  {
  }

  // ---------------------------------------------------------------------
  // Token filter
  // ---------------------------------------------------------------------

  /** A letter: the ASCII letters and the letters of the Latin-1 supplement. */
  predicate IsLetter(c: char)
  {
    ('a' <= c <= 'z') || ('A' <= c <= 'Z') || c == 'ª' || c == 'µ' || c == 'º'
    || ('À' <= c <= 'ÿ' && c != '×' && c != '÷')
  }

  /** `str.isalpha()`: non-empty and made of letters. */
  predicate IsAlpha(w: string)
  {
    |w| > 0 && forall i :: 0 <= i < |w| ==> IsLetter(w[i])
  }

  /** The filter's test for one token. */
  predicate Kept(w: string, stopWords: set<string>)
  {
    IsAlpha(w) && w !in stopWords
  }

  /** The tokens that are alphabetic and not stopwords, in their order. */
  function FilterTokens(tokens: seq<string>, stopWords: set<string>): (r: seq<string>)
    ensures IsSubseq(r, tokens)
    ensures forall i :: 0 <= i < |r| ==> Kept(r[i], stopWords)
    ensures forall i :: 0 <= i < |tokens| && Kept(tokens[i], stopWords) ==> tokens[i] in r
    ensures |r| <= |tokens|
  {
    if tokens == [] then []
    else
      var rest := FilterTokens(tokens[1..], stopWords);
      assert forall i :: 1 <= i < |tokens| ==> tokens[i] == tokens[1..][i - 1];
      if Kept(tokens[0], stopWords) then
        SubseqCons(tokens[0], rest, tokens[1..]);
        assert [tokens[0]] + tokens[1..] == tokens;
        [tokens[0]] + rest
      else
        SubseqOfSuffix(rest, tokens, 1);
        rest
  }

  /** The filter works token by token: filtering a concatenation concatenates the results. */
  lemma {:induction false} FilterAppend(a: seq<string>, b: seq<string>, stopWords: set<string>)
    ensures FilterTokens(a + b, stopWords) == FilterTokens(a, stopWords) + FilterTokens(b, stopWords)
    decreases |a|
  {
    if a != [] {
      assert (a + b)[1..] == a[1..] + b;
      FilterAppend(a[1..], b, stopWords);
    } else {
      assert a + b == b;
    }
  }

  /** Filtering the filtered tokens changes nothing. */
  lemma {:induction false} FilterIdempotent(tokens: seq<string>, stopWords: set<string>)
    ensures FilterTokens(FilterTokens(tokens, stopWords), stopWords) == FilterTokens(tokens, stopWords)
    decreases |tokens|
  {
    if tokens != [] {
      FilterIdempotent(tokens[1..], stopWords);
    }
  }

  // ---------------------------------------------------------------------
  // Sentence pieces and words
  // ---------------------------------------------------------------------

  /** The characters the sentence split breaks on. */
  predicate IsStop(c: char)
  {
    c == '.' || c == '!' || c == '?'
  }

  /** The number of maximal runs of characters satisfying `p`; `inRun` says whether a run is open before `s`. */
  function RunsAfter(s: string, p: char -> bool, inRun: bool): nat
    decreases |s|
  {
    if s == [] then 0
    else (if p(s[0]) && !inRun then 1 else 0) + RunsAfter(s[1..], p, p(s[0]))
  }

  function Runs(s: string, p: char -> bool): nat
  {
    RunsAfter(s, p, false)
  }

  /** Runs add up over a concatenation, the second part seeing whether the first ended in a run. */
  lemma {:induction false} RunsAfterAppend(a: string, b: string, p: char -> bool, inRun: bool)
    ensures RunsAfter(a + b, p, inRun) ==
      RunsAfter(a, p, inRun) + RunsAfter(b, p, if a == [] then inRun else p(a[|a| - 1]))
    decreases |a|
  {
    if a != [] {
      assert (a + b)[1..] == a[1..] + b;
      RunsAfterAppend(a[1..], b, p, p(a[0]));
      if |a| > 1 {
        assert a[1..][|a[1..]| - 1] == a[|a| - 1];
      }
    } else {
      assert a + b == b;
    }
  }

  /** Text with no matching character holds no run. */
  lemma {:induction false} RunsAfterNone(s: string, p: char -> bool, inRun: bool)
    requires forall k :: 0 <= k < |s| ==> !p(s[k])
    ensures RunsAfter(s, p, inRun) == 0
    decreases |s|
  {
    if s != [] {
      RunsAfterNone(s[1..], p, false);
    }
  }

  /** Text made only of matching characters, after an open run, opens no new run. */
  lemma {:induction false} RunsAfterAll(s: string, p: char -> bool)
    requires forall k :: 0 <= k < |s| ==> p(s[k])
    ensures RunsAfter(s, p, true) == 0
    decreases |s|
  {
    if s != [] {
      RunsAfterAll(s[1..], p);
    }
  }

  /** The position of the first stop character, or the length when there is none. */
  function FirstStop(s: string): (i: nat)
    ensures i <= |s| && (i < |s| ==> IsStop(s[i]))
    ensures forall k :: 0 <= k < i ==> !IsStop(s[k])
    decreases |s|
  {
    if s == [] || IsStop(s[0]) then 0 else 1 + FirstStop(s[1..])
  }

  /** The end of the run of stop characters starting at `i`. */
  function RunEnd(s: string, i: nat): (j: nat)
    requires i <= |s|
    ensures i <= j <= |s| && (j < |s| ==> !IsStop(s[j]))
    ensures forall k :: i <= k < j ==> IsStop(s[k])
    decreases |s| - i
  {
    if i == |s| || !IsStop(s[i]) then i else RunEnd(s, i + 1)
  }

  /**
   * `re.split('[.!?]+', s)`: the pieces between maximal runs of stop
   * characters, with an empty piece before a leading run and after a
   * trailing one.
   */
  function Pieces(s: string): (r: seq<string>)
    ensures |r| >= 1
    ensures forall k :: 0 <= k < |r| ==> forall m :: 0 <= m < |r[k]| ==> !IsStop(r[k][m])
    decreases |s|
  {
    var i := FirstStop(s);
    if i == |s| then [s]
    else
      var rest := Pieces(s[RunEnd(s, i)..]);
      [s[..i]] + rest
  }

  /** A prefix free of stop characters holds no run and leaves none open. */
  lemma RunsAfterClearPrefix(s: string, i: nat)
    requires i <= |s| && forall k :: 0 <= k < i ==> !IsStop(s[k])
    ensures Runs(s, IsStop) == Runs(s[i..], IsStop)
  {
    assert s == s[..i] + s[i..];
    RunsAfterNone(s[..i], IsStop, false);
    RunsAfterAppend(s[..i], s[i..], IsStop, false);
    if i > 0 {
      assert !IsStop(s[..i][i - 1]);
    }
  }

  /** A run of stop characters counts once, whatever follows it. */
  lemma RunsAfterRun(t: string, j: nat)
    requires 0 < j <= |t| && (forall k :: 0 <= k < j ==> IsStop(t[k])) && (j < |t| ==> !IsStop(t[j]))
    ensures Runs(t, IsStop) == 1 + Runs(t[j..], IsStop)
  {
    assert t[1..] == t[1..j] + t[j..];
    RunsAfterAppend(t[1..j], t[j..], IsStop, true);
    RunsAfterAll(t[1..j], IsStop);
    if j > 1 {
      assert t[1..j][|t[1..j]| - 1] == t[j - 1];
    }
    if j < |t| {
      assert t[j..][1..] == t[j + 1..];
    }
  }

  /** The number of pieces is one more than the number of runs of stop characters. */
  lemma {:induction false} PiecesCount(s: string)
    ensures |Pieces(s)| == 1 + Runs(s, IsStop)
    decreases |s|
  {
    var i := FirstStop(s);
    if i == |s| {
      RunsAfterNone(s, IsStop, false);
    } else {
      var j := RunEnd(s, i);
      PiecesCount(s[j..]);
      RunsAfterClearPrefix(s, i);
      RunsAfterRun(s[i..], j - i);
      assert s[i..][j - i..] == s[j..];
    }
  }

  /** A stop character at the end leaves an empty last piece. */
  lemma {:induction false} TrailingStopEmptyPiece(s: string)
    requires s != [] && IsStop(s[|s| - 1])
    ensures Pieces(s)[|Pieces(s)| - 1] == ""
    decreases |s|
  {
    var i := FirstStop(s);
    var j := RunEnd(s, i);
    if j < |s| {
      assert s[j..][|s[j..]| - 1] == s[|s| - 1];
      TrailingStopEmptyPiece(s[j..]);
    } else {
      assert s[j..] == [];
    }
  }

  /** `len(x.split())`: the number of maximal runs of non-space characters. */
  function WordCount(s: string): nat
  {
    Runs(s, c => !IsSpace(c))
  }

  /** Words per sentence piece of one utterance; the piece count is never below 1. */
  function WordsPerSentence(s: string): (r: real)
    ensures r >= 0.0
    ensures r <= WordCount(s) as real
  {
    var pieces := |Pieces(s)|;
    var r := WordCount(s) as real / (if pieces > 1 then pieces else 1) as real;
    assert r * (if pieces > 1 then pieces else 1) as real == WordCount(s) as real;
    r
  }

  // ---------------------------------------------------------------------
  // Lexical diversity
  // ---------------------------------------------------------------------

  /** The distinct lower-cased words. */
  function UniqueWords(words: seq<string>, lower: string -> string): set<string>
  {
    set i | 0 <= i < |words| :: lower(words[i])
  }

  /** There are never more distinct words than words. */
  lemma {:induction false} UniqueWordsBound(words: seq<string>, lower: string -> string)
    ensures |UniqueWords(words, lower)| <= |words|
    decreases |words|
  {
    if words != [] {
      var init := words[..|words| - 1];
      UniqueWordsBound(init, lower);
      assert UniqueWords(words, lower) == UniqueWords(init, lower) + {lower(words[|words| - 1])} by {
        forall x | x in UniqueWords(words, lower) ensures x in UniqueWords(init, lower) + {lower(words[|words| - 1])} {
          var i :| 0 <= i < |words| && lower(words[i]) == x;
          if i < |init| {
            assert init[i] == words[i];
          }
        }
        forall x | x in UniqueWords(init, lower) ensures x in UniqueWords(words, lower) {
          var i :| 0 <= i < |init| && lower(init[i]) == x;
          assert words[i] == init[i];
        }
      }
    }
  }

  /** Distinct words over all words, 0 without words; always within [0, 1]. */
  function LexicalDiversity(words: seq<string>, lower: string -> string): (r: real)
    ensures 0.0 <= r <= 1.0
    ensures words == [] <==> r == 0.0
  {
    if words == [] then 0.0
    else
      var unique := |UniqueWords(words, lower)|;
      UniqueWordsBound(words, lower);
      assert lower(words[0]) in UniqueWords(words, lower);
      var r := unique as real / |words| as real;
      assert r * |words| as real == unique as real;
      r
  }
}
