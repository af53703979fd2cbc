/**
 * Keyword extraction and matching (`KeywordExtractor`): frequency-ranked words and n-grams of a
 * text, their union with the technical terms, the split of job-description keywords into matched
 * and missing by embedding similarity, and the re-ranking of keywords by how often they occur.
 *
 * The sentence-embedding model is a parameter: `sim(a, b)` is the cosine similarity of the
 * embeddings of the strings `a` and `b`.
 */
module KeywordExtraction {
  import opened Text
  import opened Seqs
  import opened Ranking
  import TextPreprocessing

  predicate IsLowerWord(w: string) {
    forall k :: 0 <= k < |w| ==> IsLowerLetter(w[k])
  }

  /** Not a match of `\b[a-z]{3,}\b`. */
  predicate NotToken(w: string) {
    !(|w| >= 3 && IsLowerWord(w))
  }

  /** `re.findall(r'\b[a-z]{3,}\b', text.lower())`.  Both ends must be word boundaries, so a match
      is a whole run of `\w` characters; it is found exactly when that run is three or more
      lower-case letters (a run holding a digit or `_` yields nothing). */
  function Tokens(text: string): seq<string> {
    FilterOut(WordRuns(Lower(text)), NotToken)
  }

  /** `f"{a} {b}"` */
  function Joined(a: string, b: string): (r: string)
    ensures |r| == |a| + 1 + |b|
  {
    a + " " + b
  }

  lemma JoinedLowercase(a: string, b: string)
    requires IsLowercase(a) && IsLowercase(b)
    ensures IsLowercase(Joined(a, b))
  {
    var r := Joined(a, b);
    forall k | 0 <= k < |r| ensures !IsUpper(r[k]) {
      if k < |a| {
        assert r[k] == a[k];
      } else if k > |a| {
        assert r[k] == b[k - |a| - 1];
      }
    }
  }

  /** Adjacent pairs `f"{words[i]} {words[i+1]}"`. */
  function Bigrams(words: seq<string>): (r: seq<string>)
    ensures |r| == if |words| < 2 then 0 else |words| - 1
  {
    if |words| < 2 then []
    else seq(|words| - 1, i requires 0 <= i < |words| - 1 => Joined(words[i], words[i + 1]))
  }

  /** Adjacent triples `f"{words[i]} {words[i+1]} {words[i+2]}"`. */
  function Trigrams(words: seq<string>): (r: seq<string>)
    ensures |r| == if |words| < 3 then 0 else |words| - 2
  {
    if |words| < 3 then []
    else
      seq(|words| - 2, i requires 0 <= i < |words| - 2 => Joined(Joined(words[i], words[i + 1]), words[i + 2]))
  }

  lemma BigramAt(words: seq<string>, i: nat)
    requires i < |Bigrams(words)|
    ensures i + 1 < |words| && Bigrams(words)[i] == Joined(words[i], words[i + 1])
  {
  }

  lemma TrigramAt(words: seq<string>, i: nat)
    requires i < |Trigrams(words)|
    ensures i + 2 < |words| && Trigrams(words)[i] == Joined(Joined(words[i], words[i + 1]), words[i + 2])
  {
  }

  /** `words + two_grams + three_grams` */
  function NGrams(words: seq<string>): seq<string> {
    words + Bigrams(words) + Trigrams(words)
  }

  /** `t` is the word at `i`, or it joined to the next one or two by single spaces. */
  predicate NGramAt(t: string, words: seq<string>, i: nat)
    requires i < |words|
  {
    t == words[i]
    || (i + 1 < |words| && t == Joined(words[i], words[i + 1]))
    || (i + 2 < |words| && t == Joined(Joined(words[i], words[i + 1]), words[i + 2]))
  }

  predicate IsNGram(t: string, words: seq<string>) {
    exists i :: 0 <= i < |words| && NGramAt(t, words, i)
  }

  /** The combined list holds exactly the one-, two- and three-word n-grams. */
  lemma NGramsMembers(words: seq<string>)
    ensures forall t :: t in NGrams(words) <==> IsNGram(t, words)
  {
    var b := Bigrams(words);
    var c := Trigrams(words);
    assert NGrams(words) == words + b + c;
    forall t | t in NGrams(words) ensures IsNGram(t, words) {
      if t in words {
        var i :| 0 <= i < |words| && words[i] == t;
        assert NGramAt(t, words, i);
      } else if t in b {
        var i :| 0 <= i < |b| && b[i] == t;
        BigramAt(words, i);
        assert NGramAt(t, words, i);
      } else {
        var i :| 0 <= i < |c| && c[i] == t;
        TrigramAt(words, i);
        assert NGramAt(t, words, i);
      }
    }
    forall t | IsNGram(t, words) ensures t in NGrams(words) {
      var i :| 0 <= i < |words| && NGramAt(t, words, i);
      if t == words[i] {
        assert t in words;
      } else if i + 1 < |words| && t == Joined(words[i], words[i + 1]) {
        BigramAt(words, i);
        assert t in b;
      } else {
        TrigramAt(words, i);
        assert t in c;
      }
    }
  }

  /** Joining lower-case words of three or more characters gives lower-case terms of three or more
      characters. */
  lemma NGramsShape(words: seq<string>)
    requires forall w :: w in words ==> |w| >= 3 && IsLowercase(w)
    ensures forall t :: t in NGrams(words) ==> |t| >= 3 && IsLowercase(t)
  {
    var b := Bigrams(words);
    var c := Trigrams(words);
    assert NGrams(words) == words + b + c;
    forall i | 0 <= i < |b| ensures |b[i]| >= 3 && IsLowercase(b[i]) {
      BigramAt(words, i);
      assert words[i] in words && words[i + 1] in words;
      JoinedLowercase(words[i], words[i + 1]);
    }
    forall i | 0 <= i < |c| ensures |c[i]| >= 3 && IsLowercase(c[i]) {
      TrigramAt(words, i);
      assert words[i] in words && words[i + 1] in words && words[i + 2] in words;
      JoinedLowercase(words[i], words[i + 1]);
      JoinedLowercase(Joined(words[i], words[i + 1]), words[i + 2]);
    }
  }

  predicate TooShortTerm(t: string) {
    |t| <= 2
  }

  /** The terms counted: n-grams without a stop word, then `len(term) > 2`. */
  function FilteredTerms(text: string): seq<string> {
    FilterOut(TextPreprocessing.FilterStopWords(NGrams(Tokens(text))), TooShortTerm)
  }

  /** The count a `Counter` built from `terms` gives each term. */
  function Frequency(terms: seq<string>): string -> real {
    t => multiset(terms)[t] as real
  }

  /** `Counter(terms).items()`: each distinct term with its count, in order of first occurrence. */
  function TermCounts(terms: seq<string>): seq<Scored<string>> {
    ScoreBy(Distinct(terms), Frequency(terms))
  }

  /** `[term for term, _ in Counter(terms).most_common(n)]`: `most_common` ranks by count, ties in
      first-occurrence order. */
  function MostCommon(terms: seq<string>, n: nat): seq<string> {
    Keys(Top(TermCounts(terms), n))
  }

  /** `extract_dynamic_keywords` */
  function DynamicKeywords(text: string, topN: nat): seq<string> {
    MostCommon(FilteredTerms(text), topN)
  }

  /** A token is a whole `\w` run of the lower-cased text made of three or more letters `a`-`z`. */
  lemma TokensSpec(text: string)
    ensures forall w :: w in Tokens(text) <==>
      w in WordRuns(Lower(text)) && |w| >= 3 && IsLowerWord(w)
  {
    FilterOutMembers(WordRuns(Lower(text)), NotToken);
  }

  lemma TokensShape(text: string)
    ensures forall w :: w in Tokens(text) ==> |w| >= 3 && IsLowercase(w)
  {
    TokensSpec(text);
  }

  /** Filtering the n-grams of lower-case words of three or more characters by any condition
      leaves lower-case terms of three or more characters: a further `len(term) > 2` filter removes
      nothing. */
  lemma FilteredNGrams(words: seq<string>, drop: string -> bool)
    requires forall w :: w in words ==> |w| >= 3 && IsLowercase(w)
    ensures FilterOut(FilterOut(NGrams(words), drop), TooShortTerm) == FilterOut(NGrams(words), drop)
    ensures forall t :: t in FilterOut(NGrams(words), drop) <==> IsNGram(t, words) && !drop(t)
    ensures forall t :: t in FilterOut(NGrams(words), drop) ==> |t| >= 3 && IsLowercase(t)
  {
    var all := NGrams(words);
    var kept := FilterOut(all, drop);
    NGramsShape(words);
    NGramsMembers(words);
    FilterOutMembers(all, drop);
    assert forall i :: 0 <= i < |kept| ==> kept[i] in all;
    FilterOutKeepsAll(kept, TooShortTerm);
  }

  lemma FilteredTermsShape(text: string)
    ensures forall t :: t in FilteredTerms(text) ==> |t| >= 3 && IsLowercase(t)
  {
    TokensShape(text);
    FilteredNGrams(Tokens(text), TextPreprocessing.HasStopWord);
  }

  /** The `len(term) > 2` filter removes nothing; a term is counted exactly when it is an n-gram of
      the tokens without a stop word, and it is lower-case and at least three characters long. */
  lemma FilteredTermsSpec(text: string)
    ensures FilteredTerms(text) == TextPreprocessing.FilterStopWords(NGrams(Tokens(text)))
    ensures forall t :: t in FilteredTerms(text) <==>
      IsNGram(t, Tokens(text)) && !TextPreprocessing.HasStopWord(t)
    ensures forall t :: t in FilteredTerms(text) ==> |t| >= 3 && IsLowercase(t)
  {
    TokensShape(text);
    FilteredNGrams(Tokens(text), TextPreprocessing.HasStopWord);
  }

  /** `most_common(n)` gives `min(n, number of distinct terms)` different terms, each one of
      `terms`. */
  lemma MostCommonDistinct(terms: seq<string>, n: nat)
    ensures var r := MostCommon(terms, n);
      && |r| == (if n < |Distinct(terms)| then n else |Distinct(terms)|)
      && NoDuplicates(r)
      && (forall t :: t in r ==> t in terms)
  {
    var ds := Distinct(terms);
    var r := MostCommon(terms, n);
    TopOfScoreBy(ds, Frequency(terms), n);
    SubMultisetNoDuplicates(r, ds);
    forall t | t in r ensures t in terms {
      assert t in multiset(r);
    }
  }

  /** The terms `most_common(n)` gives are by non-increasing count, and a term left out occurs at
      most as often as every term given. */
  lemma MostCommonRanked(terms: seq<string>, n: nat)
    ensures var r := MostCommon(terms, n);
      && (forall i, j :: 0 <= i < j < |r| ==> multiset(terms)[r[i]] >= multiset(terms)[r[j]])
      && (forall t, u :: t in terms && t !in r && u in r ==> multiset(terms)[t] <= multiset(terms)[u])
  {
    var r := MostCommon(terms, n);
    var f := Frequency(terms);
    TopOfScoreBy(Distinct(terms), f, n);
    forall i, j | 0 <= i < j < |r| ensures multiset(terms)[r[i]] >= multiset(terms)[r[j]] {
      assert f(r[i]) >= f(r[j]);
    }
    forall t, u | t in terms && t !in r && u in r ensures multiset(terms)[t] <= multiset(terms)[u] {
      assert t in Distinct(terms);
      assert f(t) <= f(u);
    }
  }

  /** What `most_common(n)` promises: the distinct terms by non-increasing count, a term left out
      occurring at most as often as every term given, and among terms with the same count those
      given are the first ones in order of first occurrence. */
  lemma MostCommonSpec(terms: seq<string>, n: nat)
    ensures var r := MostCommon(terms, n);
      && |r| == (if n < |Distinct(terms)| then n else |Distinct(terms)|)
      && NoDuplicates(r)
      && (forall t :: t in r ==> t in terms)
      && (forall i, j :: 0 <= i < j < |r| ==> multiset(terms)[r[i]] >= multiset(terms)[r[j]])
      && (forall t, u :: t in terms && t !in r && u in r ==> multiset(terms)[t] <= multiset(terms)[u])
      && (forall c :: WithKey(Top(TermCounts(terms), n), c) <= WithKey(TermCounts(terms), c))
  {
    MostCommonDistinct(terms, n);
    MostCommonRanked(terms, n);
    TopSpec(TermCounts(terms), n);
  }

  /** `extract_all_terms`: the set of dynamic keywords together with the technical terms. */
  function AllTerms(text: string, topN: nat): set<string> {
    (set t | t in DynamicKeywords(text, topN)) + TextPreprocessing.TechnicalTerms(text)
  }

  /** Every term `extract_all_terms` gives is lower-case and longer than two characters. */
  lemma AllTermsShape(text: string, topN: nat)
    ensures forall t :: t in AllTerms(text, topN) ==> IsLowercase(t) && |t| > 2
  {
    TextPreprocessing.TechnicalTermsShape(text);
    MostCommonDistinct(FilteredTerms(text), topN);
    FilteredTermsShape(text);
  }

  /** `np.max(similarities) >= threshold`: some résumé keyword is similar enough to `kw`. */
  predicate IsMatched(kw: string, resume: seq<string>, threshold: real, sim: (string, string) -> real) {
    exists r :: r in resume && sim(kw, r) >= threshold
  }

  function Unmatched(resume: seq<string>, threshold: real, sim: (string, string) -> real): string -> bool {
    kw => !IsMatched(kw, resume, threshold, sim)
  }

  function Matched(resume: seq<string>, threshold: real, sim: (string, string) -> real): string -> bool {
    kw => IsMatched(kw, resume, threshold, sim)
  }

  /** What `semantic_keyword_matching` returns: `([], jd)` when either list is empty, otherwise the
      job-description keywords split, in order, into those matched and those missing. */
  function MatchKeywords(resume: seq<string>, jd: seq<string>, threshold: real,
                         sim: (string, string) -> real): (seq<string>, seq<string>)
  {
    if resume == [] || jd == [] then ([], jd)
    else (FilterOut(jd, Unmatched(resume, threshold, sim)), FilterOut(jd, Matched(resume, threshold, sim)))
  }

  /** `np.max(cosine_similarity([jd_embeddings[i]], resume_embeddings)[0])`. */
  method MaxSimilarity(kw: string, resume: seq<string>, sim: (string, string) -> real) returns (m: real)
    requires resume != []
    ensures exists r :: r in resume && sim(kw, r) == m
    ensures forall r :: r in resume ==> sim(kw, r) <= m
  {
    m := sim(kw, resume[0]);
    for i := 1 to |resume|
      invariant exists r :: r in resume[..i] && sim(kw, r) == m
      invariant forall r :: r in resume[..i] ==> sim(kw, r) <= m
    {
      assert resume[..i + 1] == resume[..i] + [resume[i]];
      var s := sim(kw, resume[i]);
      if s > m {
        m := s;
      }
    }
    assert resume[..|resume|] == resume;
  }

  /** `semantic_keyword_matching` */
  method SemanticKeywordMatching(resume: seq<string>, jd: seq<string>, threshold: real,
                                 sim: (string, string) -> real)
    returns (matched: seq<string>, missing: seq<string>)
    ensures (matched, missing) == MatchKeywords(resume, jd, threshold, sim)
  {
    if resume == [] || jd == [] {
      return [], jd;
    }
    matched, missing := [], [];
    for i := 0 to |jd|
      invariant matched == FilterOut(jd[..i], Unmatched(resume, threshold, sim))
      invariant missing == FilterOut(jd[..i], Matched(resume, threshold, sim))
    {
      assert jd[..i + 1][..i] == jd[..i];
      var best := MaxSimilarity(jd[i], resume, sim);
      if best >= threshold {
        matched := matched + [jd[i]];
      } else {
        missing := missing + [jd[i]];
      }
    }
    assert jd[..|jd|] == jd;
  }

  /** The early return for an empty list agrees with the loop: the two lists always split the
      job-description keywords in order, and a keyword is matched exactly when some résumé keyword
      is at least `threshold` similar to it. */
  lemma MatchKeywordsSpec(resume: seq<string>, jd: seq<string>, threshold: real,
                          sim: (string, string) -> real)
    ensures var (m, x) := MatchKeywords(resume, jd, threshold, sim);
      && IsSubsequence(m, jd) && IsSubsequence(x, jd)
      && multiset(m) + multiset(x) == multiset(jd)
      && |m| + |x| == |jd|
      && (forall kw :: kw in m <==> kw in jd && IsMatched(kw, resume, threshold, sim))
      && (forall kw :: kw in x <==> kw in jd && !IsMatched(kw, resume, threshold, sim))
  {
    if resume == [] || jd == [] {
      SubsequenceRefl(jd);
    } else {
      FilterSplit(jd, Unmatched(resume, threshold, sim), Matched(resume, threshold, sim));
    }
  }

  /** The count `text.lower().count(kw.lower())` that `prioritize_keywords` ranks `kw` by. */
  function Occurrence(text: string, kw: string): real {
    CountOccurrences(Lower(text), Lower(kw)) as real
  }

  /** `Occurrence` in `text`, as the key of the sort. */
  function Occurrences(text: string): string -> real {
    kw => Occurrence(text, kw)
  }

  /** `prioritize_keywords`: the keywords by descending occurrence count in `text` (a stable sort),
      the first `top_n` of them. */
  function Prioritized(keywords: seq<string>, text: string, topN: nat): seq<string> {
    Keys(Top(ScoreBy(keywords, Occurrences(text)), topN))
  }

  method PrioritizeKeywords(keywords: seq<string>, text: string, topN: nat) returns (r: seq<string>)
    ensures r == Prioritized(keywords, text, topN)
  {
    var freq: seq<Scored<string>> := [];
    var textLower := Lower(text);
    for i := 0 to |keywords|
      invariant freq == ScoreBy(keywords[..i], Occurrences(text))
    {
      var count := CountOccurrences(textLower, Lower(keywords[i]));
      ScoreByNext(keywords, Occurrences(text), i);
      freq := freq + [(keywords[i], count as real)];
    }
    assert keywords[..|keywords|] == keywords;
    r := Keys(Top(freq, topN));
  }

  /** `prioritize_keywords` keeps `min(top_n, |keywords|)` of the keywords, none more often than
      given, by non-increasing count; a keyword left out occurs at most as often as each one kept,
      and among equal counts the ones kept come first in the input order. */
  lemma PrioritizedSpec(keywords: seq<string>, text: string, topN: nat)
    ensures var r := Prioritized(keywords, text, topN);
      var count := Occurrences(text);
      && |r| == (if topN < |keywords| then topN else |keywords|)
      && multiset(r) <= multiset(keywords)
      && (forall i, j :: 0 <= i < j < |r| ==> count(r[i]) >= count(r[j]))
      && (forall kw, u :: kw in keywords && kw !in r && u in r ==> count(kw) <= count(u))
      && (forall c :: WithKey(Top(ScoreBy(keywords, count), topN), c) <= WithKey(ScoreBy(keywords, count), c))
  {
    TopOfScoreBy(keywords, Occurrences(text), topN);
    TopSpec(ScoreBy(keywords, Occurrences(text)), topN);
  }
}
