/**
 The keyword sentiment classifier (`analyze_sentiment`, main.py:108-122).

 The source lower-cases the review, deletes every character that is
 neither a word character nor whitespace, and for each keyword counts the
 matches of `\bkw\b` with `re.findall`. `FindAllCount` models that scan
 as the regex engine performs it: left to right, leftmost match first,
 resuming after each match. The contract of `AnalyzeSentiment` is stated
 instead over the word tokens of the normalised text (its maximal runs of
 word characters): a keyword hit is a token equal to the keyword. The
 lemma `FindAllCountsTokens` is what makes the two readings agree.
 */
module Sentiment {
  import opened Chars

  const PositiveWords: seq<string> := ["delicious", "good", "wonderful", "happy", "best", "tasty", "love"]

  const NegativeWords: seq<string> := ["bad", "worst", "bitter", "salty", "regret", "slow", "cold", "disappointing"]

  /** The (label, colour) pairs the classifier returns. */
  const PositiveVerdict: (string, string) := ("Positive 😊", "#2E7D32")

  const NegativeVerdict: (string, string) := ("Negative 😞", "#D32F2F")

  const NeutralVerdict: (string, string) := ("Neutral 😐", "#FFA000")

  /** A non-empty run of word characters. */
  predicate IsWord(w: string)
  {
    |w| > 0 && forall i | 0 <= i < |w| :: IsWordChar(w[i])
  }

  /** No word occurs twice. */
  predicate Distinct(words: seq<string>)
  {
    forall i, j | 0 <= i < j < |words| :: words[i] != words[j]
  }

  /** A usable keyword list: distinct words made of word characters only. */
  predicate IsKeywordList(words: seq<string>)
  {
    Distinct(words) && forall i | 0 <= i < |words| :: IsWord(words[i])
  }

  /** `re.sub(r"[^\w\s]", "", s)`: keeps exactly the word and whitespace
      characters, in order. */
  function Clean(s: string): (r: string)
    ensures |r| <= |s|
    ensures forall i | 0 <= i < |r| :: IsWordChar(r[i]) || IsSpace(r[i])
    ensures forall i | 0 <= i < |r| :: r[i] in s
    ensures (forall i | 0 <= i < |s| :: IsWordChar(s[i]) || IsSpace(s[i])) ==> r == s
  {
    if s == [] then []
    else if IsWordChar(s[0]) || IsSpace(s[0]) then [s[0]] + Clean(s[1..])
    else Clean(s[1..])
  }

  /** On one character the deletion keeps it exactly when it is a word or
      whitespace character. Together with `CleanAppend` this fixes `Clean`
      on every string: it keeps those characters in order and drops the
      rest. */
  lemma CleanChar(c: char)
    ensures Clean([c]) == (if IsWordChar(c) || IsSpace(c) then [c] else [])
  {
    assert [c][1..] == [];
  }

  /** Cleaning works character by character: it commutes with
      concatenation. */
  lemma {:induction false} CleanAppend(a: string, b: string)
    ensures Clean(a + b) == Clean(a) + Clean(b)
  {
    if a == [] {
      assert a + b == b;
    } else {
      assert (a + b)[0] == a[0];
      assert (a + b)[1..] == a[1..] + b;
      CleanAppend(a[1..], b);
    }
  }

  /** The text the keyword patterns are run on: lower-cased, with only
      word and whitespace characters left. */
  function Normalize(text: string): (r: string)
    ensures |r| <= |text|
    ensures forall i | 0 <= i < |r| :: (IsWordChar(r[i]) || IsSpace(r[i])) && !IsUpper(r[i])
    ensures (forall i | 0 <= i < |text| :: IsWordChar(text[i]) || IsSpace(text[i])) ==> r == Lower(text)
  {
    Clean(Lower(text))
  }

  /** Length of the run of word characters that starts `s`. */
  function RunLength(s: string): (n: nat)
    ensures n <= |s|
    ensures forall i | 0 <= i < n :: IsWordChar(s[i])
    ensures n == |s| || !IsWordChar(s[n])
  {
    if s == [] || !IsWordChar(s[0]) then 0 else 1 + RunLength(s[1..])
  }

  /** The maximal runs of word characters of `s`, in order. */
  function Tokens(s: string): (r: seq<string>)
    ensures forall i | 0 <= i < |r| :: IsWord(r[i])
    ensures r == [] <==> forall i | 0 <= i < |s| :: !IsWordChar(s[i])
    ensures s != [] && IsWordChar(s[0]) ==> r != [] && r[0] == s[..RunLength(s)]
    decreases |s|
  {
    if s == [] then []
    else if !IsWordChar(s[0]) then
      assert forall i | 1 <= i < |s| :: s[i] == s[1..][i - 1];
      Tokens(s[1..])
    else
      var n := RunLength(s);
      [s[..n]] + Tokens(s[n..])
  }

  /** How many tokens equal `w`. */
  function Occurrences(tokens: seq<string>, w: string): nat
  {
    if tokens == [] then 0
    else (if tokens[0] == w then 1 else 0) + Occurrences(tokens[1..], w)
  }

  /** How many tokens belong to `words`. */
  function CountIn(tokens: seq<string>, words: seq<string>): nat
  {
    if tokens == [] then 0
    else (if tokens[0] in words then 1 else 0) + CountIn(tokens[1..], words)
  }

  /** `kw` then a word boundary start `s`. */
  predicate MatchesHere(s: string, kw: string)
  {
    |kw| <= |s| && s[..|kw|] == kw && (|kw| == |s| || !IsWordChar(s[|kw|]))
  }

  /** `len(re.findall(rf"\b{kw}\b", s))`, where `prevWord` says whether the
      character before `s` was a word character. Since `kw` starts with a
      word character, the leading `\b` holds exactly when it was not. */
  function FindAllCount(prevWord: bool, s: string, kw: string): (r: nat)
    requires IsWord(kw)
    ensures r * |kw| <= |s|
    ensures (forall i | 0 <= i < |s| :: !IsWordChar(s[i])) ==> r == 0
    decreases |s|
  {
    if s == [] then 0
    else if !prevWord && MatchesHere(s, kw) then 1 + FindAllCount(true, s[|kw|..], kw)
    else FindAllCount(IsWordChar(s[0]), s[1..], kw)
  }

  /** `sum(len(re.findall(rf"\b{w}\b", text)) for w in words)`. Over a
      list of distinct keywords it counts the tokens of `text` that are
      keywords. */
  function KeywordHits(text: string, words: seq<string>): (r: nat)
    requires forall i | 0 <= i < |words| :: IsWord(words[i])
    ensures IsKeywordList(words) ==> r == CountIn(Tokens(text), words)
  {
    if words == [] then
      CountInNone(Tokens(text), words);
      0
    else
      KeywordListStep(text, words);
      FindAllCount(false, text, words[0]) + KeywordHits(text, words[1..])
  }

  /** Peeling the first keyword off a keyword list: the rest is a keyword
      list, and the tokens in the whole list are the matches of the first
      keyword plus the tokens in the rest. */
  lemma KeywordListStep(text: string, words: seq<string>)
    requires words != [] && forall i | 0 <= i < |words| :: IsWord(words[i])
    ensures IsKeywordList(words) ==> IsKeywordList(words[1..])
    ensures IsKeywordList(words) ==>
      CountIn(Tokens(text), words) == FindAllCount(false, text, words[0]) + CountIn(Tokens(text), words[1..])
  {
    if IsKeywordList(words) {
      assert words[0] !in words[1..] by {
        forall i | 0 <= i < |words| - 1 ensures words[1..][i] != words[0] {
          assert words[1..][i] == words[i + 1];
        }
      }
      assert IsKeywordList(words[1..]) by {
        forall i, j | 0 <= i < j < |words| - 1 ensures words[1..][i] != words[1..][j] {
          assert words[i + 1] != words[j + 1];
        }
      }
      FindAllCountsTokens(text, words[0]);
      CountInSplit(Tokens(text), words);
    }
  }

  /** Inside a run of word characters no match can start, so the scan
      resumes at the end of the run as if just after a non-word
      character. */
  lemma {:induction false} SkipRun(s: string, kw: string)
    requires IsWord(kw)
    ensures FindAllCount(true, s, kw) == FindAllCount(false, s[RunLength(s)..], kw)
    decreases |s|
  {
    if s != [] && IsWordChar(s[0]) {
      SkipRun(s[1..], kw);
      assert s[1..][RunLength(s[1..])..] == s[RunLength(s)..];
    }
  }

  /** `re.findall(rf"\b{kw}\b", s)` finds exactly the tokens of `s` equal
      to `kw`. */
  lemma {:induction false} FindAllCountsTokens(s: string, kw: string)
    requires IsWord(kw)
    ensures FindAllCount(false, s, kw) == Occurrences(Tokens(s), kw)
    decreases |s|
  {
    if s == [] {
    } else if !IsWordChar(s[0]) {
      assert !MatchesHere(s, kw) by {
        assert IsWordChar(kw[0]);
      }
      FindAllCountsTokens(s[1..], kw);
    } else {
      var n := RunLength(s);
      var rest := s[n..];
      assert Tokens(s) == [s[..n]] + Tokens(rest);
      assert Occurrences(Tokens(s), kw) == (if s[..n] == kw then 1 else 0) + Occurrences(Tokens(rest), kw);
      FindAllCountsTokens(rest, kw);
      // the scan resumes at the end of the run either way
      assert RunLength(rest) == 0;
      if MatchesHere(s, kw) {
        TokenMatch(s, kw);
        SkipRun(rest, kw);
      } else {
        assert s[..n] != kw;
        SkipRun(s[1..], kw);
        assert s[1..][RunLength(s[1..])..] == rest;
      }
    }
  }

  /** A boundary-delimited occurrence of `kw` at the start of a word is the
      whole first token. */
  lemma TokenMatch(s: string, kw: string)
    requires IsWord(kw) && MatchesHere(s, kw)
    ensures RunLength(s) == |kw| && s[..RunLength(s)] == kw
  {
    var n := RunLength(s);
    assert forall i | 0 <= i < |kw| :: IsWordChar(s[i]) by {
      forall i | 0 <= i < |kw| ensures IsWordChar(s[i]) {
        assert s[..|kw|][i] == kw[i];
      }
    }
    RunLengthExact(s, |kw|);
  }

  /** A run of `k` word characters followed by a non-word character or
      the end has length `k`. */
  lemma {:induction false} RunLengthExact(s: string, k: nat)
    requires k <= |s| && forall i | 0 <= i < k :: IsWordChar(s[i])
    requires k == |s| || !IsWordChar(s[k])
    ensures RunLength(s) == k
  {
    if k > 0 {
      RunLengthExact(s[1..], k - 1);
    }
  }

  lemma {:induction false} CountInSplit(tokens: seq<string>, words: seq<string>)
    requires words != [] && words[0] !in words[1..]
    ensures CountIn(tokens, words) == Occurrences(tokens, words[0]) + CountIn(tokens, words[1..])
  {
    if tokens != [] {
      CountInSplit(tokens[1..], words);
    }
  }

  lemma {:induction false} CountInNone(tokens: seq<string>, words: seq<string>)
    requires words == []
    ensures CountIn(tokens, words) == 0
  {
    if tokens != [] {
      CountInNone(tokens[1..], words);
    }
  }

  /** Both fixed lists are keyword lists: distinct words. */
  lemma KeywordListsWellFormed()
    ensures IsKeywordList(PositiveWords) && IsKeywordList(NegativeWords)
  {
    assert Distinct(PositiveWords);
    assert forall i | 0 <= i < |PositiveWords| :: IsWord(PositiveWords[i]);
    assert Distinct(NegativeWords);
    assert forall i | 0 <= i < |NegativeWords| :: IsWord(NegativeWords[i]);
  }

  /** Only `a`..`z`. */
  predicate IsLowerWord(w: string)
  {
    forall j | 0 <= j < |w| :: IsLowerLetter(w[j])
  }

  /** Every keyword is written in lower-case letters, so lower-casing
      leaves it as it is and a keyword can occur in normalised text. */
  lemma KeywordsLowerCase()
    ensures forall i | 0 <= i < |PositiveWords| :: IsLowerWord(PositiveWords[i]) && Lower(PositiveWords[i]) == PositiveWords[i]
    ensures forall i | 0 <= i < |NegativeWords| :: IsLowerWord(NegativeWords[i]) && Lower(NegativeWords[i]) == NegativeWords[i]
  {
    forall i | 0 <= i < |PositiveWords| ensures IsLowerWord(PositiveWords[i]) && Lower(PositiveWords[i]) == PositiveWords[i] {
      assert IsLowerWord(PositiveWords[i]);
      LowerKeepsLowercase(PositiveWords[i]);
    }
    forall i | 0 <= i < |NegativeWords| ensures IsLowerWord(NegativeWords[i]) && Lower(NegativeWords[i]) == NegativeWords[i] {
      assert IsLowerWord(NegativeWords[i]);
      LowerKeepsLowercase(NegativeWords[i]);
    }
  }

  /** Number of positive-keyword tokens in the normalised review. */
  function PositiveCount(text: string): nat
  {
    CountIn(Tokens(Normalize(text)), PositiveWords)
  }

  /** Number of negative-keyword tokens in the normalised review. */
  function NegativeCount(text: string): nat
  {
    CountIn(Tokens(Normalize(text)), NegativeWords)
  }

  /** The verdict on given keyword counts: positive when the positive
      keywords outnumber the negative ones, negative in the reverse case,
      neutral on a tie (0/0 included). */
  function Verdict(pos: nat, neg: nat): (r: (string, string))
    ensures r == PositiveVerdict <==> pos > neg
    ensures r == NegativeVerdict <==> neg > pos
    ensures r == NeutralVerdict <==> pos == neg
  {
    if pos > neg then PositiveVerdict
    else if neg > pos then NegativeVerdict
    else NeutralVerdict
  }

  /** `analyze_sentiment` step by step as the source computes it: per
      keyword the number of `\bkw\b` matches in the normalised text, summed
      over each list. */
  function FindAllSentiment(text: string): (r: (string, string))
    ensures r == AnalyzeSentiment(text)
  {
    KeywordListsWellFormed();
    var t := Normalize(text);
    Verdict(KeywordHits(t, PositiveWords), KeywordHits(t, NegativeWords))
  }

  /** `analyze_sentiment` over word tokens: the verdict on the numbers of
      positive and negative keyword tokens of the normalised review. */
  function AnalyzeSentiment(text: string): (r: (string, string))
    ensures r == PositiveVerdict <==> PositiveCount(text) > NegativeCount(text)
    ensures r == NegativeVerdict <==> NegativeCount(text) > PositiveCount(text)
    ensures r == NeutralVerdict <==> PositiveCount(text) == NegativeCount(text)
  {
    Verdict(PositiveCount(text), NegativeCount(text))
  }

  /** Texts that agree up to letter case get the same verdict. */
  lemma AnalyzeSentimentIgnoresCase(a: string, b: string)
    requires Lower(a) == Lower(b)
    ensures AnalyzeSentiment(a) == AnalyzeSentiment(b)
  {
  }

  /** The words of `ws` separated by single spaces. */
  function Unwords(ws: seq<string>): string
  {
    if ws == [] then ""
    else if |ws| == 1 then ws[0]
    else ws[0] + " " + Unwords(ws[1..])
  }

  /** Tokenising space-separated words gives the words back. */
  lemma {:induction false} TokensUnwords(ws: seq<string>)
    requires forall i | 0 <= i < |ws| :: IsWord(ws[i])
    ensures Tokens(Unwords(ws)) == ws
  {
    if ws != [] {
      var w := ws[0];
      var s := Unwords(ws);
      if |ws| == 1 {
        RunLengthExact(s, |w|);
        assert s[..|w|] == w && s[|w|..] == [];
      } else {
        var rest := Unwords(ws[1..]);
        assert s == w + (" " + rest);
        RunLengthExact(s, |w|);
        assert s[..|w|] == w && s[|w|..] == " " + rest;
        assert (" " + rest)[1..] == rest;
        assert Tokens(" " + rest) == Tokens(rest);
        TokensUnwords(ws[1..]);
      }
    }
  }

  /** Each word of `ws` lower-cased. */
  function LowerWords(ws: seq<string>): (r: seq<string>)
    ensures |r| == |ws| && forall i | 0 <= i < |ws| :: r[i] == Lower(ws[i])
  {
    if ws == [] then [] else [Lower(ws[0])] + LowerWords(ws[1..])
  }

  lemma LowerAppend(a: string, b: string)
    ensures Lower(a + b) == Lower(a) + Lower(b)
  {
    assert forall i | 0 <= i < |a + b| :: Lower(a + b)[i] == (Lower(a) + Lower(b))[i];
  }

  /** Lower-casing keeps a word a word, and cleaning keeps it whole. */
  lemma LowerWordIsClean(w: string)
    requires IsWord(w)
    ensures IsWord(Lower(w)) && Clean(Lower(w)) == Lower(w)
  {
    var l := Lower(w);
    forall i | 0 <= i < |l| ensures IsWordChar(l[i]) {
      assert IsWordChar(w[i]);
    }
  }

  /** Normalising a word, a space and more text normalises each part. */
  lemma NormalizeCons(w: string, rest: string)
    requires IsWord(w)
    ensures Normalize(w + " " + rest) == Lower(w) + " " + Normalize(rest)
  {
    LowerWordIsClean(w);
    LowerAppend(w + " ", rest);
    LowerAppend(w, " ");
    assert Lower(" ") == " ";
    CleanAppend(Lower(w) + " ", Lower(rest));
    CleanAppend(Lower(w), " ");
    assert Clean(" ") == " ";
  }

  /** Normalising a sentence of words lower-cases each word and keeps the
      single spaces between them. */
  lemma {:induction false} NormalizeUnwords(ws: seq<string>)
    requires forall i | 0 <= i < |ws| :: IsWord(ws[i])
    ensures Normalize(Unwords(ws)) == Unwords(LowerWords(ws))
  {
    if |ws| == 1 {
      LowerWordIsClean(ws[0]);
    } else if |ws| > 1 {
      NormalizeCons(ws[0], Unwords(ws[1..]));
      NormalizeUnwords(ws[1..]);
      assert LowerWords(ws)[1..] == LowerWords(ws[1..]);
    }
  }

  /** The tokens of a sentence of words are its lower-cased words. */
  lemma SentenceTokens(ws: seq<string>)
    requires forall i | 0 <= i < |ws| :: IsWord(ws[i])
    ensures Tokens(Normalize(Unwords(ws))) == LowerWords(ws)
  {
    NormalizeUnwords(ws);
    forall i | 0 <= i < |ws| ensures IsWord(LowerWords(ws)[i]) {
      LowerWordIsClean(ws[i]);
    }
    TokensUnwords(LowerWords(ws));
  }

  /** A keyword followed by more word characters is a different token, so
      the keyword pattern does not match it: "loved" is no hit for "love". */
  lemma LongerWordIsNoHit(kw: string, more: string)
    requires IsWord(kw) && IsWord(more)
    ensures FindAllCount(false, kw + more, kw) == 0
  {
    var w := kw + more;
    assert IsWord(w) by {
      forall i | 0 <= i < |w| ensures IsWordChar(w[i]) {
        if i >= |kw| {
          assert w[i] == more[i - |kw|];
        }
      }
    }
    TokensUnwords([w]);
    FindAllCountsTokens(w, kw);
  }

  /** A punctuation mark between two words is deleted, which glues them
      into a single token: "good.bad" is the one token "goodbad". */
  lemma PunctuationJoinsWords(a: string, p: char, b: string)
    requires IsWord(a) && IsWord(b) && !IsWordChar(p) && !IsSpace(p)
    ensures Tokens(Normalize(a + [p] + b)) == [Lower(a) + Lower(b)]
  {
    NormalizeDropsMark(a, p, b);
    var w := Lower(a) + Lower(b);
    LowerWordIsClean(a);
    LowerWordIsClean(b);
    assert IsWord(w) by {
      forall i | 0 <= i < |w| ensures IsWordChar(w[i]) {
        if i >= |Lower(a)| {
          assert w[i] == Lower(b)[i - |Lower(a)|];
        }
      }
    }
    TokensUnwords([w]);
  }

  lemma NormalizeDropsMark(a: string, p: char, b: string)
    requires IsWord(a) && IsWord(b) && !IsWordChar(p) && !IsSpace(p)
    ensures Normalize(a + [p] + b) == Lower(a) + Lower(b)
  {
    LowerAppend(a + [p], b);
    LowerAppend(a, [p]);
    assert Lower([p]) == [p];
    LowerWordIsClean(a);
    LowerWordIsClean(b);
    CleanAppend(Lower(a) + [p], Lower(b));
    CleanAppend(Lower(a), [p]);
    assert Clean([p]) == [];
    assert Lower(a) + [] == Lower(a);
  }

  /** The keyword counts of a sentence of words are taken over its
      lower-cased words. */
  lemma SentenceCounts(ws: seq<string>)
    requires forall i | 0 <= i < |ws| :: IsWord(ws[i])
    ensures PositiveCount(Unwords(ws)) == CountIn(LowerWords(ws), PositiveWords)
    ensures NegativeCount(Unwords(ws)) == CountIn(LowerWords(ws), NegativeWords)
  {
    SentenceTokens(ws);
  }

  lemma LowerKeepsLowercase(w: string)
    requires forall i | 0 <= i < |w| :: !IsUpper(w[i])
    ensures Lower(w) == w
  {
  }

  // Sample reviews. Each verdict is reached in three steps: the
  // lower-cased words, their keyword counts, and the counts of the text.

  lemma ExamplesLowered()
    ensures LowerWords(["Tasty", "and", "good"]) == ["tasty", "and", "good"]
    ensures LowerWords(["worst", "cold", "bitter"]) == ["worst", "cold", "bitter"]
    ensures LowerWords(["I", "loved", "it"]) == ["i", "loved", "it"]
  {
    assert Lower("Tasty") == "tasty";
    assert Lower("I") == "i";
    LowerKeepsLowercase("and");
    LowerKeepsLowercase("good");
    LowerKeepsLowercase("worst");
    LowerKeepsLowercase("cold");
    LowerKeepsLowercase("bitter");
    LowerKeepsLowercase("loved");
    LowerKeepsLowercase("it");
  }

  lemma PositiveExampleKeywords()
    ensures CountIn(["tasty", "and", "good"], PositiveWords) == 2
    ensures CountIn(["tasty", "and", "good"], NegativeWords) == 0
  {
  }

  /** "Tasty and good": two positive keywords, no negative one. */
  lemma PositiveExampleCounts()
    ensures PositiveCount(Unwords(["Tasty", "and", "good"])) == 2
    ensures NegativeCount(Unwords(["Tasty", "and", "good"])) == 0
  {
    SentenceCounts(["Tasty", "and", "good"]);
    ExamplesLowered();
    PositiveExampleKeywords();
  }

  lemma NegativeExampleKeywords()
    ensures CountIn(["worst", "cold", "bitter"], PositiveWords) == 0
    ensures CountIn(["worst", "cold", "bitter"], NegativeWords) == 3
  {
  }

  /** "worst cold bitter": three negative keywords, no positive one. */
  lemma NegativeExampleCounts()
    ensures PositiveCount(Unwords(["worst", "cold", "bitter"])) == 0
    ensures NegativeCount(Unwords(["worst", "cold", "bitter"])) == 3
  {
    SentenceCounts(["worst", "cold", "bitter"]);
    ExamplesLowered();
    NegativeExampleKeywords();
  }

  lemma WholeWordExampleKeywords()
    ensures CountIn(["i", "loved", "it"], PositiveWords) == 0
    ensures CountIn(["i", "loved", "it"], NegativeWords) == 0
  {
  }

  /** "I loved it": "loved" is not the keyword "love", so nothing counts. */
  lemma WholeWordExampleCounts()
    ensures PositiveCount(Unwords(["I", "loved", "it"])) == 0
    ensures NegativeCount(Unwords(["I", "loved", "it"])) == 0
  {
    SentenceCounts(["I", "loved", "it"]);
    ExamplesLowered();
    WholeWordExampleKeywords();
  }

  /** The verdicts on the sample reviews. */
  lemma AnalyzeSentimentExamples()
    ensures AnalyzeSentiment(Unwords(["Tasty", "and", "good"])) == PositiveVerdict
    ensures AnalyzeSentiment(Unwords(["worst", "cold", "bitter"])) == NegativeVerdict
    ensures AnalyzeSentiment(Unwords(["I", "loved", "it"])) == NeutralVerdict
  {
    PositiveExampleCounts();
    NegativeExampleCounts();
    WholeWordExampleCounts();
  }

  /** "good.bad" normalises to the single token "goodbad". */
  lemma GluedExampleTokens()
    ensures Tokens(Normalize("good.bad")) == ["goodbad"]
  {
    GluedExampleNormalized();
    GluedWordTokens();
  }

  lemma GluedWordTokens()
    ensures Tokens("goodbad") == ["goodbad"]
  {
    TokensUnwords(["goodbad"]);
  }

  lemma GluedExampleNormalized()
    ensures Normalize("good.bad") == "goodbad"
  {
    GluedExampleSplit();
    NormalizeDropsMark("good", '.', "bad");
    LowerKeepsLowercase("good");
    LowerKeepsLowercase("bad");
  }

  /** The literal "good.bad" is its two words around the full stop. */
  lemma GluedExampleSplit()
    ensures "good.bad" == "good" + ['.'] + "bad"
    ensures "good" + "bad" == "goodbad"
  {
  }

  lemma GluedExampleKeywords()
    ensures CountIn(["goodbad"], PositiveWords) == 0
    ensures CountIn(["goodbad"], NegativeWords) == 0
  {
  }

  /** "good.bad" is neutral although it holds one keyword of each list
      once the full stop is ignored. */
  lemma AnalyzeSentimentDeletesPunctuation()
    ensures AnalyzeSentiment("good.bad") == NeutralVerdict
  {
    GluedExampleTokens();
    GluedExampleKeywords();
    assert PositiveCount("good.bad") == 0;
    assert NegativeCount("good.bad") == 0;
  }
}
