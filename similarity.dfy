/**
 * `SimilarityCalculator`: the guarded text similarity, the "relevant highlights" (résumé sentences
 * ranked by a boosted similarity to the JD) and the Jaccard overlap of word trigrams.
 *
 * The sentence-embedding model and cosine similarity are a parameter
 * `cosine: (string, string) -> real`.
 */
module Similarity {
  import opened Text
  import opened Seqs
  import opened Ranking

  /** `calculate_semantic_similarity`: 0 for an empty text, without consulting the model. */
  function SemanticSimilarity(text1: string, text2: string, cosine: (string, string) -> real): (r: real)
    ensures text1 == [] || text2 == [] ==> r == 0.0
    ensures text1 != [] && text2 != [] ==> r == cosine(text1, text2)
  {
    if text1 == [] || text2 == [] then 0.0 else cosine(text1, text2)
  }

  // ---------------------------------------------------------------------------------------------
  // Sentences
  // ---------------------------------------------------------------------------------------------

  /** The class `[.!?]`. */
  predicate IsTerminator(c: char) {
    c == '.' || c == '!' || c == '?'
  }

  predicate NotTerminator(c: char) {
    !IsTerminator(c)
  }

  predicate NoTerminator(p: string) {
    forall k :: 0 <= k < |p| ==> !IsTerminator(p[k])
  }

  /** `re.split(r'[.!?]+', s)`: the text between maximal runs of terminators, with an empty piece
      before a leading run and after a trailing one. */
  function Pieces(s: string): (r: seq<string>)
    ensures |r| >= 1
    ensures forall i :: 0 <= i < |r| ==> NoTerminator(r[i])
    decreases |s|
  {
    var e := RunEnd(s, 0, NotTerminator);
    if e == |s| then [s]
    else
      var f := RunEnd(s, e, IsTerminator);
      assert f > e;
      [s[..e]] + Pieces(s[f..])
  }

  /** A piece is kept, stripped, when more than 20 characters remain after stripping. */
  function KeepSentences(pieces: seq<string>): seq<string>
    decreases |pieces|
  {
    if pieces == [] then []
    else
      var last := Strip(pieces[|pieces| - 1]);
      KeepSentences(pieces[..|pieces| - 1]) + (if |last| > 20 then [last] else [])
  }

  /** `sentences` in `extract_relevant_highlights`. */
  function Sentences(resume: string): seq<string> {
    KeepSentences(Pieces(resume))
  }

  lemma StripNoTerminator(p: string)
    requires NoTerminator(p)
    ensures NoTerminator(Strip(p))
  {
    var s := Strip(p);
    forall k | 0 <= k < |s| ensures !IsTerminator(s[k]) {
      assert s[k] in s;
      var j :| 0 <= j < |p| && p[j] == s[k];
    }
  }

  lemma {:induction false} KeepSentencesSpec(pieces: seq<string>)
    requires forall i :: 0 <= i < |pieces| ==> NoTerminator(pieces[i])
    ensures forall s :: s in KeepSentences(pieces) ==>
      |s| > 20 && Stripped(s) && NoTerminator(s) && exists i :: 0 <= i < |pieces| && s == Strip(pieces[i])
    decreases |pieces|
  {
    if pieces != [] {
      var init := pieces[..|pieces| - 1];
      KeepSentencesSpec(init);
      StripNoTerminator(pieces[|pieces| - 1]);
      forall s | s in KeepSentences(init) ensures exists i :: 0 <= i < |pieces| && s == Strip(pieces[i]) {
        var i :| 0 <= i < |init| && s == Strip(init[i]);
        assert pieces[i] == init[i];
      }
    }
  }

  /** Every sentence is a stripped piece of the résumé split on runs of `. ! ?`, longer than 20
      characters, and holds none of `. ! ?`. */
  lemma SentencesSpec(resume: string)
    ensures forall s :: s in Sentences(resume) ==>
      |s| > 20 && Stripped(s) && NoTerminator(s)
      && exists p :: p in Pieces(resume) && s == Strip(p)
  {
    var pieces := Pieces(resume);
    KeepSentencesSpec(pieces);
    forall s | s in Sentences(resume) ensures exists p :: p in pieces && s == Strip(p) {
      var i :| 0 <= i < |pieces| && s == Strip(pieces[i]);
      assert pieces[i] in pieces;
    }
  }

  // ---------------------------------------------------------------------------------------------
  // Boosting and ranking
  // ---------------------------------------------------------------------------------------------

  const DigitBoost: real := 1.15
  const VerbBoost: real := 1.1

  /** The alternatives of the action-verb pattern. */
  function ActionVerbs(): seq<string> {
    ["developed", "created", "designed", "implemented", "managed", "led", "built", "achieved",
     "improved", "increased", "reduced"]
  }

  /** `\bverb\b` matches at `i`. */
  predicate WordAt(s: string, i: nat, w: string) {
    i + |w| <= |s| && s[i..i + |w|] == w
    && (i == 0 || !IsWordChar(s[i - 1]))
    && (i + |w| == |s| || !IsWordChar(s[i + |w|]))
  }

  /** `re.search(action_verbs, low)`: some verb occurs as a whole word. */
  predicate HasActionVerb(low: string) {
    exists k, i :: 0 <= k < |ActionVerbs()| && 0 <= i <= |low| && WordAt(low, i, ActionVerbs()[k])
  }

  /** The factor a sentence's similarity is multiplied by. */
  function BoostFactor(sentence: string): real {
    (if HasDigit(sentence) then DigitBoost else 1.0) * (if HasActionVerb(Lower(sentence)) then VerbBoost else 1.0)
  }

  /** The boosted similarity of a sentence to the JD. */
  function BoostedScore(sentence: string, jd: string, cosine: (string, string) -> real): real {
    cosine(sentence, jd) * BoostFactor(sentence)
  }

  /** `BoostedScore` against `jd`, as the key of the sort. */
  function Boosted(jd: string, cosine: (string, string) -> real): string -> real {
    sentence => BoostedScore(sentence, jd, cosine)
  }

  /** `extract_relevant_highlights` */
  function Highlights(resume: string, jd: string, topN: nat, cosine: (string, string) -> real): seq<string> {
    Keys(Top(ScoreBy(Sentences(resume), Boosted(jd, cosine)), topN))
  }

  /** The similarity of one sentence, multiplied in place by each boost that applies. */
  method BoostedSimilarity(sentence: string, jd: string, cosine: (string, string) -> real) returns (similarity: real)
    ensures similarity == Boosted(jd, cosine)(sentence)
  {
    similarity := cosine(sentence, jd);
    if HasDigit(sentence) {
      similarity := similarity * DigitBoost;
    }
    if HasActionVerb(Lower(sentence)) {
      similarity := similarity * VerbBoost;
    }
    assert similarity == Boosted(jd, cosine)(sentence) by {
      var c, d, v := cosine(sentence, jd), HasDigit(sentence), HasActionVerb(Lower(sentence));
      assert similarity == if d && v then (c * DigitBoost) * VerbBoost else if d then c * DigitBoost
                           else if v then c * VerbBoost else c;
      assert (c * DigitBoost) * VerbBoost == c * (DigitBoost * VerbBoost);
    }
  }

  method ExtractRelevantHighlights(resume: string, jd: string, topN: nat, cosine: (string, string) -> real)
    returns (highlights: seq<string>)
    ensures highlights == Highlights(resume, jd, topN, cosine)
  {
    var sentences := Sentences(resume);
    if sentences == [] {
      return [];
    }
    var sentenceScores: seq<Scored<string>> := [];
    for i := 0 to |sentences|
      invariant sentenceScores == ScoreBy(sentences[..i], Boosted(jd, cosine))
    {
      var sentence := sentences[i];
      var similarity := BoostedSimilarity(sentence, jd, cosine);
      ScoreByNext(sentences, Boosted(jd, cosine), i);
      sentenceScores := sentenceScores + [(sentence, similarity)];
    }
    assert sentences[..|sentences|] == sentences;
    highlights := Keys(Top(sentenceScores, topN));
  }

  /** The boost is 1, 1.15, 1.1 or 1.15·1.1, decided only by a digit in the sentence and an action
      verb in its lower-cased form; it never lowers a non-negative similarity. */
  lemma BoostFactorSpec(sentence: string)
    ensures BoostFactor(sentence) == 1.0 <==> !HasDigit(sentence) && !HasActionVerb(Lower(sentence))
    ensures BoostFactor(sentence) == 1.15 <==> HasDigit(sentence) && !HasActionVerb(Lower(sentence))
    ensures BoostFactor(sentence) == 1.1 <==> !HasDigit(sentence) && HasActionVerb(Lower(sentence))
    ensures BoostFactor(sentence) == 1.265 <==> HasDigit(sentence) && HasActionVerb(Lower(sentence))
    ensures BoostFactor(sentence) >= 1.0
  {
  }

  /** The highlights are `min(top_n, |sentences|)` of the sentences (none when no piece survives),
      each a stripped, terminator-free piece of the résumé longer than 20 characters, in
      non-increasing boosted score; nothing left out scores more than something kept, and among
      equal scores the earlier sentences come first. */
  lemma HighlightsSpec(resume: string, jd: string, topN: nat, cosine: (string, string) -> real)
    ensures var h := Highlights(resume, jd, topN, cosine);
      var score := Boosted(jd, cosine);
      && |h| == (if topN < |Sentences(resume)| then topN else |Sentences(resume)|)
      && (Sentences(resume) == [] ==> h == [])
      && multiset(h) <= multiset(Sentences(resume))
      && (forall s :: s in h ==> |s| > 20 && Stripped(s) && NoTerminator(s))
      && (forall i, j :: 0 <= i < j < |h| ==> score(h[i]) >= score(h[j]))
      && (forall x, u :: x in Sentences(resume) && x !in h && u in h ==> score(x) <= score(u))
      && (forall c :: WithKey(Top(ScoreBy(Sentences(resume), score), topN), c) <= WithKey(ScoreBy(Sentences(resume), score), c))
  {
    var sentences := Sentences(resume);
    var score := Boosted(jd, cosine);
    var h := Highlights(resume, jd, topN, cosine);
    TopOfScoreBy(sentences, score, topN);
    TopSpec(ScoreBy(sentences, score), topN);
    SentencesSpec(resume);
    forall s | s in h ensures s in sentences {
      assert s in multiset(h);
    }
  }

  // ---------------------------------------------------------------------------------------------
  // calculate_phrase_overlap
  // ---------------------------------------------------------------------------------------------

  /** `|a ∩ b| / |a ∪ b|`, 0 when either set is empty. */
  function Jaccard(a: set<string>, b: set<string>): real {
    if a == {} || b == {} then 0.0
    else (|a * b| as real) / (|a + b| as real)
  }

  lemma {:induction false} SubsetSize(x: set<string>, y: set<string>)
    requires x <= y
    ensures |x| <= |y|
    decreases |y|
  {
    if y != {} {
      var z :| z in y;
      SubsetSize(x - {z}, y - {z});
    }
  }

  lemma SubsetSameSize(x: set<string>, y: set<string>)
    requires x <= y && |x| == |y|
    ensures x == y
  {
    if x != y {
      var z :| z in y && z !in x;
      SubsetSize(x, y - {z});
    }
  }

  /** The Jaccard index lies in [0, 1], is 0 when either set is empty, does not depend on the
      order of the sets, and is 1 exactly when two non-empty sets are equal. */
  lemma JaccardSpec(a: set<string>, b: set<string>)
    ensures 0.0 <= Jaccard(a, b) <= 1.0
    ensures a == {} || b == {} ==> Jaccard(a, b) == 0.0
    ensures Jaccard(a, b) == Jaccard(b, a)
    ensures a != {} && b != {} ==> (Jaccard(a, b) == 1.0 <==> a == b)
  {
    assert a * b == b * a && a + b == b + a;
    if a != {} && b != {} {
      var i, u := |a * b|, |a + b|;
      assert a <= a + b;
      var z :| z in a;
      assert z in a + b;
      assert u > 0;
      SubsetSize(a * b, a + b);
      if Jaccard(a, b) == 1.0 {
        assert i as real == u as real;
        SubsetSameSize(a * b, a + b);
        assert a <= a * b;
        assert b <= a * b;
      }
      if a == b {
        assert a * b == a + b;
      }
    }
  }

  /** `set(re.findall(r'\b\w+\s+\w+\s+\w+\b', text.lower())[:n])` */
  function TrigramSet(text: string, n: nat): set<string> {
    set p | p in Take(PhraseTrigrams(Lower(text)), n)
  }

  /** `calculate_phrase_overlap` */
  function PhraseOverlap(text1: string, text2: string, n: nat): real {
    Jaccard(TrigramSet(text1, n), TrigramSet(text2, n))
  }

  /** The phrase overlap lies in [0, 1], is 0 when either text yields no trigram, and is symmetric
      in the two texts. */
  lemma PhraseOverlapSpec(text1: string, text2: string, n: nat)
    ensures 0.0 <= PhraseOverlap(text1, text2, n) <= 1.0
    ensures TrigramSet(text1, n) == {} || TrigramSet(text2, n) == {} ==> PhraseOverlap(text1, text2, n) == 0.0
    ensures PhraseOverlap(text1, text2, n) == PhraseOverlap(text2, text1, n)
  {
    JaccardSpec(TrigramSet(text1, n), TrigramSet(text2, n));
  }
}
