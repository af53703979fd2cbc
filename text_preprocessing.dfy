/**
 * `TextPreprocessor`: the stop-word list, `clean_text`, `filter_stop_words`, the noun-phrase
 * patterns of `extract_noun_phrases` and the term collection of `extract_technical_terms`.
 */
module TextPreprocessing {
  import opened Text
  import opened Seqs

  const StopWords: set<string> := {
    "the", "a", "an", "and", "or", "but", "in", "on", "at", "to", "for",
    "of", "with", "by", "from", "as", "is", "was", "are", "were", "been",
    "be", "have", "has", "had", "do", "does", "did", "will", "would",
    "could", "should", "may", "might", "must", "can", "this", "that",
    "these", "those", "i", "you", "he", "she", "it", "we", "they",
    "who", "which", "what", "where", "when", "why", "how", "all", "each",
    "every", "both", "few", "more", "most", "other", "some", "such",
    "than", "too", "very", "own", "same", "so", "about", "after",
    "also", "any", "because", "before", "between", "into", "through",
    "during", "only", "our", "their", "its", "his", "her", "your",
    "my", "me", "him", "them", "us", "up", "out", "if", "then"
  }

  // ---------------------------------------------------------------------------------------------
  // clean_text
  // ---------------------------------------------------------------------------------------------

  /** The punctuation `clean_text` keeps. */
  predicate IsKeptPunctuation(c: char) {
    c == '-' || c == '+' || c == '#' || c == '.' || c == ',' || c == '(' || c == ')' || c == '/'
  }

  /** What the character class `[\w\s\-\+\#\.\,\(\)/]` accepts. */
  predicate Allowed(c: char) {
    IsWordChar(c) || IsSpace(c) || IsKeptPunctuation(c)
  }

  /** A character that can appear in cleaned text. */
  predicate IsCleanChar(c: char) {
    IsWordChar(c) || c == ' ' || IsKeptPunctuation(c)
  }

  /** A visible character that survives cleaning. */
  predicate Visible(c: char) {
    !IsSpace(c) && Allowed(c)
  }

  /** `re.sub(r'\s+', ' ', s)`: every maximal whitespace run becomes one space. */
  function CollapseSpaces(s: string): (r: string)
    ensures |r| <= |s|
    ensures OnlyPlainSpaces(r)
    decreases |s|
  {
    if s == [] then []
    else if IsSpace(s[0]) then
      var e := RunEnd(s, 0, IsSpace);
      [' '] + CollapseSpaces(s[e..])
    else [s[0]] + CollapseSpaces(s[1..])
  }

  /** `re.sub(r'[^\w\s\-\+\#\.\,\(\)/]', ' ', s)`: every character outside the class becomes a space. */
  function ReplaceDisallowed(s: string): (r: string)
    ensures |r| == |s|
    ensures forall i :: 0 <= i < |s| ==> r[i] == if Allowed(s[i]) then s[i] else ' '
  {
    seq(|s|, i requires 0 <= i < |s| => if Allowed(s[i]) then s[i] else ' ')
  }

  /** Every character is a word character, a plain space or kept punctuation. */
  predicate IsCleanText(s: string) {
    forall i :: 0 <= i < |s| ==> IsCleanChar(s[i])
  }

  /** The only whitespace character is the plain space. */
  predicate OnlyPlainSpaces(s: string) {
    forall i :: 0 <= i < |s| && IsSpace(s[i]) ==> s[i] == ' '
  }

  lemma ReplaceGivesClean(c: string)
    requires OnlyPlainSpaces(c)
    ensures IsCleanText(ReplaceDisallowed(c))
  {
    var d := ReplaceDisallowed(c);
    forall i | 0 <= i < |d| ensures IsCleanChar(d[i]) {
      if Allowed(c[i]) && IsSpace(c[i]) {
        assert c[i] == ' ';
      }
    }
  }

  lemma StripKeepsClean(d: string)
    requires IsCleanText(d)
    ensures IsCleanText(Strip(d))
  {
    var r := Strip(d);
    forall i | 0 <= i < |r| ensures IsCleanChar(r[i]) {
      assert r[i] in d;
    }
  }

  /** `clean_text`: whitespace runs collapsed first, disallowed characters blanked second, then
      stripped.  The result has no whitespace at either end, only word characters, plain spaces and
      the kept punctuation, and is never longer. */
  function CleanText(s: string): (r: string)
    ensures |r| <= |s|
    ensures Stripped(r)
    ensures IsCleanText(r)
  {
    var c := CollapseSpaces(s);
    var d := ReplaceDisallowed(c);
    ReplaceGivesClean(c);
    StripKeepsClean(d);
    Strip(d)
  }

  lemma CleanTextExcludes(r: string)
    requires IsCleanText(r)
    ensures '\n' !in r && '\t' !in r && '\r' !in r && '\U{2013}' !in r && '\U{2014}' !in r
  {
    forall c | c in r ensures c != '\n' && c != '\t' && c != '\r' && c != '\U{2013}' && c != '\U{2014}' {
      var i :| 0 <= i < |r| && r[i] == c;
      assert IsCleanChar(c);
    }
  }

  /** Cleaned text is a single line: no newline, tab or carriage return survives, and neither do
      the en and em dashes. */
  lemma CleanTextSingleLine(s: string)
    ensures '\n' !in CleanText(s) && '\t' !in CleanText(s) && '\r' !in CleanText(s)
    ensures '\U{2013}' !in CleanText(s) && '\U{2014}' !in CleanText(s)
  {
    CleanTextExcludes(CleanText(s));
  }

  lemma {:induction false} CollapseKeepsVisible(s: string, p: char -> bool)
    requires forall c :: IsSpace(c) ==> !p(c)
    ensures Filter(CollapseSpaces(s), p) == Filter(s, p)
    decreases |s|
  {
    if s != [] {
      if IsSpace(s[0]) {
        var e := RunEnd(s, 0, IsSpace);
        assert s == s[..e] + s[e..];
        FilterConcat(s[..e], s[e..], p);
        FilterNone(s[..e], p);
        CollapseKeepsVisible(s[e..], p);
        FilterConcat([' '], CollapseSpaces(s[e..]), p);
      } else {
        CollapseKeepsVisible(s[1..], p);
        FilterConcat([s[0]], CollapseSpaces(s[1..]), p);
      }
    }
  }

  lemma {:induction false} ReplaceKeepsVisible(s: string)
    ensures Filter(ReplaceDisallowed(s), NotSpace) == Filter(s, Visible)
    decreases |s|
  {
    if s != [] {
      assert ReplaceDisallowed(s)[1..] == ReplaceDisallowed(s[1..]);
      ReplaceKeepsVisible(s[1..]);
    }
  }

  lemma StripLeftKeepsVisible(s: string)
    ensures Filter(StripLeft(s), NotSpace) == Filter(s, NotSpace)
  {
    var l := StripLeft(s);
    var cut := s[..|s| - |l|];
    assert s == cut + l;
    FilterConcat(cut, l, NotSpace);
    assert forall k :: 0 <= k < |cut| ==> !NotSpace(cut[k]);
    FilterNone(cut, NotSpace);
  }

  lemma StripRightKeepsVisible(s: string)
    ensures Filter(StripRight(s), NotSpace) == Filter(s, NotSpace)
  {
    var r := StripRight(s);
    var cut := s[|r|..];
    assert s == r + cut;
    FilterConcat(r, cut, NotSpace);
    assert forall k :: 0 <= k < |cut| ==> !NotSpace(cut[k]);
    FilterNone(cut, NotSpace);
  }

  lemma StripKeepsVisible(s: string)
    ensures Filter(Strip(s), NotSpace) == Filter(s, NotSpace)
  {
    StripLeftKeepsVisible(s);
    StripRightKeepsVisible(StripLeft(s));
  }

  /** Cleaning loses no visible character the class allows and adds none: read without its
      whitespace, the output is the input's allowed visible characters in order. */
  lemma CleanTextKeepsContent(s: string)
    ensures Filter(CleanText(s), NotSpace) == Filter(s, Visible)
  {
    var c := CollapseSpaces(s);
    var d := ReplaceDisallowed(c);
    StripKeepsVisible(d);
    ReplaceKeepsVisible(c);
    CollapseKeepsVisible(s, Visible);
  }

  lemma CleanTextBlanksPunctuation()
    ensures CleanText("a!!b") == "a  b"
  {
    var s := "a!!b";
    assert s[1..] == "!!b" && s[1..][1..] == "!b" && s[1..][1..][1..] == "b";
    assert CollapseSpaces("b") == "b";
    assert CollapseSpaces("!b") == "!b";
    assert CollapseSpaces("!!b") == "!!b";
    assert CollapseSpaces(s) == s;
    var d := ReplaceDisallowed(s);
    assert !Allowed(s[1]) && !Allowed(s[2]);
    assert d[0] == 'a' && d[1] == ' ' && d[2] == ' ' && d[3] == 'b';
    assert d == "a  b";
    StripUnchanged("a  b");
  }

  lemma CleanTextCollapsesSpaces()
    ensures CleanText("a  b") == "a b"
  {
    var s := "a  b";
    assert s[1..] == "  b";
    assert RunEnd("  b", 0, IsSpace) == 2;
    assert "  b"[2..] == "b";
    assert CollapseSpaces("b") == "b";
    assert CollapseSpaces("  b") == " b";
    assert CollapseSpaces(s) == "a b";
    var d := ReplaceDisallowed("a b");
    assert d[0] == 'a' && d[1] == ' ' && d[2] == 'b';
    assert d == "a b";
    StripUnchanged("a b");
  }

  /** Substitution order matters: punctuation blanked after the whitespace pass leaves space runs
      that a second pass would collapse, so cleaning is not idempotent. */
  lemma CleanTextNotIdempotent()
    ensures CleanText("a!!b") == "a  b"
    ensures CleanText(CleanText("a!!b")) == "a b"
  {
    CleanTextBlanksPunctuation();
    CleanTextCollapsesSpaces();
  }

  // ---------------------------------------------------------------------------------------------
  // filter_stop_words
  // ---------------------------------------------------------------------------------------------

  /** Some whitespace-separated word of the lower-cased term is a stop word. */
  predicate HasStopWord(term: string) {
    exists w :: w in Words(Lower(term)) && w in StopWords
  }

  /** `filter_stop_words`: the terms none of whose lower-cased words is a stop word. */
  function FilterStopWords(terms: seq<string>): seq<string> {
    FilterOut(terms, HasStopWord)
  }

  /** The result keeps the input's order and, with their multiplicity, exactly the terms without a
      stop word. */
  lemma FilterStopWordsSpec(terms: seq<string>)
    ensures IsSubsequence(FilterStopWords(terms), terms)
    ensures forall t :: multiset(FilterStopWords(terms))[t] == if HasStopWord(t) then 0 else multiset(terms)[t]
  {
    FilterOutSpec(terms, HasStopWord);
  }

  /** Everything left in has no stop word, so a second pass removes nothing. */
  lemma FilterStopWordsIdempotent(terms: seq<string>)
    ensures FilterStopWords(FilterStopWords(terms)) == FilterStopWords(terms)
  {
    FilterOutIdempotent(terms, HasStopWord);
  }

  // ---------------------------------------------------------------------------------------------
  // extract_noun_phrases
  // ---------------------------------------------------------------------------------------------

  /** `e` is a place where `\b` holds after a word character. */
  predicate WordEndsAt(s: string, e: nat) {
    e == |s| || (e < |s| && !IsWordChar(s[e]))
  }

  /** A capitalised word `[A-Z][a-z]+` starts at `k` and its letters end at a word boundary. */
  predicate CapWordAt(s: string, k: nat) {
    k + 1 < |s| && IsUpper(s[k]) && IsLowerLetter(s[k + 1]) && WordEndsAt(s, RunEnd(s, k + 1, IsLowerLetter))
  }

  /** Extends a capitalised phrase ending at `e` by every further `\s+[A-Z][a-z]+` whose word ends at
      a word boundary.  A repetition whose letters are followed by another word character can never
      be followed by `\b`, so the greedy group gives it back and the phrase ends before it. */
  function CapChainEnd(s: string, e: nat): (r: nat)
    requires 0 < e <= |s|
    ensures e <= r <= |s|
    ensures r == e || (r >= e + 3 && IsLowerLetter(s[r - 1]))
    decreases |s| - e
  {
    var k := RunEnd(s, e, IsSpace);
    if e < k && CapWordAt(s, k) then
      var e2 := RunEnd(s, k + 1, IsLowerLetter);
      var r := CapChainEnd(s, e2);
      r
    else e
  }

  /** At least two capitalised words: starts with a capital, ends with a lower-case letter. */
  predicate IsCapPhrase(p: string) {
    |p| >= 5 && IsUpper(p[0]) && IsLowerLetter(p[|p| - 1])
  }

  /** `re.findall(r'\b[A-Z][a-z]+(?:\s+[A-Z][a-z]+)+\b', s)` from position `i`. */
  function CapitalizedFrom(s: string, i: nat): (r: seq<string>)
    requires i <= |s|
    ensures forall p :: p in r ==> IsCapPhrase(p)
    decreases |s| - i
  {
    if i == |s| then []
    else if AtWordStart(s, i) && CapWordAt(s, i) then
      var e := RunEnd(s, i + 1, IsLowerLetter);
      var c := CapChainEnd(s, e);
      if c > e then
        var p := s[i..c];
        assert p[0] == s[i] && p[|p| - 1] == s[c - 1];
        [p] + CapitalizedFrom(s, c)
      else CapitalizedFrom(s, i + 1)
    else CapitalizedFrom(s, i + 1)
  }

  function Capitalized(s: string): seq<string> {
    CapitalizedFrom(s, 0)
  }

  predicate AllUpper(w: string) {
    forall k :: 0 <= k < |w| ==> IsUpper(w[k])
  }

  /** The word runs that are two or more capital letters. */
  function UpperRuns(ws: seq<string>): (r: seq<string>)
    ensures forall a :: a in r ==> |a| >= 2 && AllUpper(a)
    decreases |ws|
  {
    if ws == [] then []
    else (if |ws[0]| >= 2 && AllUpper(ws[0]) then [ws[0]] else []) + UpperRuns(ws[1..])
  }

  /** `re.findall(r'\b[A-Z]{2,}\b', s)`: `[A-Z]{2,}` between two word boundaries must be a whole
      word run, so this is every word run made only of two or more capitals. */
  function Acronyms(s: string): (r: seq<string>)
    ensures forall a :: a in r ==> |a| >= 2 && AllUpper(a)
  {
    UpperRuns(WordRuns(s))
  }

  /** Extends a hyphenated term ending at `e` by every further `-\w+`. */
  function HyphenChainEnd(s: string, e: nat): (r: nat)
    requires 0 < e <= |s|
    ensures e <= r <= |s|
    ensures r == e || (r >= e + 2 && IsWordChar(s[r - 1]))
    decreases |s| - e
  {
    if e + 1 < |s| && s[e] == '-' && IsWordChar(s[e + 1]) then
      HyphenChainEnd(s, RunEnd(s, e + 1, IsWordChar))
    else e
  }

  /** `re.findall(r'\b\w+(?:-\w+)+\b', s)` from position `i`: a word run followed by at least one
      `-` and word run. */
  function HyphenatedFrom(s: string, i: nat): (r: seq<string>)
    requires i <= |s|
    ensures forall p :: p in r ==> |p| >= 3 && IsWordChar(p[0]) && IsWordChar(p[|p| - 1])
    decreases |s| - i
  {
    if i == |s| then []
    else if AtWordStart(s, i) then
      var e := RunEnd(s, i, IsWordChar);
      var c := HyphenChainEnd(s, e);
      if c > e then [s[i..c]] + HyphenatedFrom(s, c) else HyphenatedFrom(s, i + 1)
    else HyphenatedFrom(s, i + 1)
  }

  function Hyphenated(s: string): seq<string> {
    HyphenatedFrom(s, 0)
  }

  /** `[phrase.strip() for phrase in phrases if len(phrase.strip()) > 2]` */
  function KeepPhrases(phrases: seq<string>): (r: seq<string>)
    ensures forall p :: p in r ==> |p| > 2 && Stripped(p)
    decreases |phrases|
  {
    if phrases == [] then []
    else
      var p := Strip(phrases[|phrases| - 1]);
      KeepPhrases(phrases[..|phrases| - 1]) + (if |p| > 2 then [p] else [])
  }

  /** The three patterns' matches, in the order `extract_noun_phrases` extends its list with them. */
  function RawPhrases(s: string): seq<string> {
    Capitalized(s) + Acronyms(s) + Hyphenated(s)
  }

  /** `extract_noun_phrases` without the two case-insensitive skill-phrase patterns. */
  function NounPhrases(s: string): seq<string> {
    KeepPhrases(RawPhrases(s))
  }

  /** `extract_noun_phrases`: the phrase list is extended pattern by pattern, then stripped and
      filtered. */
  method ExtractNounPhrases(text: string) returns (result: seq<string>)
    ensures result == NounPhrases(text)
  {
    var phrases := Capitalized(text);
    phrases := phrases + Acronyms(text);
    phrases := phrases + Hyphenated(text);
    result := KeepPhrases(phrases);
  }

  predicate TooShort(p: string) {
    |p| <= 2
  }

  /** On phrases that are already stripped, the comprehension only drops the short ones. */
  lemma {:induction false} KeepPhrasesOfStripped(phrases: seq<string>)
    requires forall p :: p in phrases ==> Stripped(p)
    ensures KeepPhrases(phrases) == FilterOut(phrases, TooShort)
    decreases |phrases|
  {
    if phrases != [] {
      var init := phrases[..|phrases| - 1];
      var last := phrases[|phrases| - 1];
      assert last in phrases;
      assert forall p :: p in init ==> p in phrases;
      KeepPhrasesOfStripped(init);
      StripUnchanged(last);
    }
  }

  /** None of the three patterns can match whitespace at either end. */
  lemma RawPhrasesStripped(s: string)
    ensures forall p :: p in RawPhrases(s) ==> Stripped(p)
  {
    var c, a, h := Capitalized(s), Acronyms(s), Hyphenated(s);
    assert RawPhrases(s) == c + a + h;
    forall p | p in c + a + h ensures Stripped(p) {
      if p in c {
        assert IsCapPhrase(p);
      } else if p in a {
        assert IsUpper(p[0]) && IsUpper(p[|p| - 1]);
      } else {
        assert IsWordChar(p[0]) && IsWordChar(p[|p| - 1]);
      }
    }
  }

  /** On stripped phrases, the comprehension keeps, in order, exactly those longer than two
      characters. */
  lemma KeepPhrasesSpec(raw: seq<string>)
    requires forall p :: p in raw ==> Stripped(p)
    ensures IsSubsequence(KeepPhrases(raw), raw)
    ensures forall p :: p in KeepPhrases(raw) <==> p in raw && |p| > 2
  {
    KeepPhrasesOfStripped(raw);
    FilterOutSpec(raw, TooShort);
    FilterOutMembers(raw, TooShort);
  }

  /** Since no match has whitespace at its ends, the strip step changes nothing and the phrases
      kept are exactly the matches longer than two characters, in order.  In particular a
      two-letter acronym is found but never returned. */
  lemma NounPhrasesSpec(s: string)
    ensures IsSubsequence(NounPhrases(s), RawPhrases(s))
    ensures forall p :: p in NounPhrases(s) <==> p in RawPhrases(s) && |p| > 2
    ensures forall a :: a in Acronyms(s) && |a| == 2 ==> a !in NounPhrases(s)
  {
    RawPhrasesStripped(s);
    KeepPhrasesSpec(RawPhrases(s));
  }

  // ---------------------------------------------------------------------------------------------
  // extract_technical_terms
  // ---------------------------------------------------------------------------------------------

  /** The bullet characters of `[â€¢\-\*]`: the three characters of a UTF-8 bullet read as
      Windows-1252, the hyphen and the asterisk (the bullet `U+2022` itself is not among them). */
  predicate IsBullet(c: char) {
    c == '\U{00E2}' || c == '\U{20AC}' || c == '\U{00A2}' || c == '-' || c == '*'
  }

  /** The largest `k` in `[lo, hi)` with `s[k]` not a newline, or `lo - 1` when there is none. */
  function LastNonNewline(s: string, lo: nat, hi: nat): (r: int)
    requires lo <= hi <= |s|
    ensures lo - 1 <= r < hi
    ensures r >= lo ==> s[r] != '\n'
    ensures forall k :: r < k < hi && lo <= k ==> s[k] == '\n'
    decreases hi
  {
    if hi == lo then lo - 1
    else if s[hi - 1] != '\n' then hi - 1
    else LastNonNewline(s, lo, hi - 1)
  }

  /** `re.findall(r'[â€¢\-\*]\s*(.+)', s)` from position `i`.  `\s*` takes the whitespace after the
      bullet (newlines included) and `.+` the rest of that line; when the whitespace runs to the end
      of the text, `\s*` gives back characters until `.` can match one that is not a newline. */
  function BulletLinesFrom(s: string, i: nat): (r: seq<string>)
    requires i <= |s|
    ensures forall l :: l in r ==> |l| > 0 && '\n' !in l
    decreases |s| - i
  {
    if i == |s| then []
    else if !IsBullet(s[i]) then BulletLinesFrom(s, i + 1)
    else
      var k := RunEnd(s, i + 1, IsSpace);
      if k < |s| then
        var e := RunEnd(s, k, NotNewline);
        assert forall c :: c in s[k..e] ==> c != '\n';
        [s[k..e]] + BulletLinesFrom(s, e)
      else
        var b := LastNonNewline(s, i + 1, k);
        if b >= i + 1 then [s[b..b + 1]] + BulletLinesFrom(s, b + 1)
        else BulletLinesFrom(s, i + 1)
  }

  function BulletLines(s: string): seq<string> {
    BulletLinesFrom(s, 0)
  }

  /** `[\w\-\.]` */
  predicate IsTermChar(c: char) {
    IsWordChar(c) || c == '-' || c == '.'
  }

  /** The largest `e` in `[lo, hi]` with a word character at `e - 1`, or 0 when there is none. */
  function LastWordEnd(s: string, lo: nat, hi: nat): (r: nat)
    requires 1 <= lo && hi <= |s|
    ensures r == 0 || (lo <= r <= hi && IsWordChar(s[r - 1]))
    ensures forall k :: r <= k < hi && lo <= k + 1 ==> !IsWordChar(s[k])
    decreases hi
  {
    if hi < lo then 0
    else if IsWordChar(s[hi - 1]) then hi
    else LastWordEnd(s, lo, hi - 1)
  }

  /** `re.findall(r'\b[A-Za-z][\w\-\.]+\b', s)` from position `i`.  After the letter, `[\w\-\.]+`
      takes the whole run and gives characters back until `\b` holds, which (the run being maximal)
      is just after its last word character. */
  function BulletWordsFrom(s: string, i: nat): (r: seq<string>)
    requires i <= |s|
    ensures forall w :: w in r ==> |w| >= 2 && IsLetter(w[0]) && IsWordChar(w[|w| - 1])
    decreases |s| - i
  {
    if i == |s| then []
    else if IsLetter(s[i]) && (i == 0 || !IsWordChar(s[i - 1])) then
      var j := RunEnd(s, i + 1, IsTermChar);
      var e := LastWordEnd(s, i + 2, j);
      if e >= i + 2 then [s[i..e]] + BulletWordsFrom(s, e) else BulletWordsFrom(s, i + 1)
    else BulletWordsFrom(s, i + 1)
  }

  function BulletWords(line: string): seq<string> {
    BulletWordsFrom(line, 0)
  }

  /** `{p.lower() for p in phrases}` */
  function LowerSet(phrases: seq<string>): set<string>
    decreases |phrases|
  {
    if phrases == [] then {}
    else LowerSet(phrases[..|phrases| - 1]) + {Lower(phrases[|phrases| - 1])}
  }

  /** `{w.lower() for w in words if len(w) > 3}` */
  function LongWordsLower(words: seq<string>): set<string>
    decreases |words|
  {
    if words == [] then {}
    else
      var last := words[|words| - 1];
      LongWordsLower(words[..|words| - 1]) + (if |last| > 3 then {Lower(last)} else {})
  }

  /** The lower-cased words longer than three characters over all bullet lines. */
  function BulletTerms(lines: seq<string>): set<string>
    decreases |lines|
  {
    if lines == [] then {}
    else BulletTerms(lines[..|lines| - 1]) + LongWordsLower(BulletWords(lines[|lines| - 1]))
  }

  lemma {:induction false} LowerSetMembers(phrases: seq<string>)
    ensures forall t :: t in LowerSet(phrases) <==> exists p :: p in phrases && Lower(p) == t
    decreases |phrases|
  {
    if phrases != [] {
      var init := phrases[..|phrases| - 1];
      assert phrases == init + [phrases[|phrases| - 1]];
      LowerSetMembers(init);
    }
  }

  lemma {:induction false} LongWordsLowerMembers(words: seq<string>)
    ensures forall t :: t in LongWordsLower(words) <==> exists w :: w in words && |w| > 3 && Lower(w) == t
    decreases |words|
  {
    if words != [] {
      var init := words[..|words| - 1];
      assert words == init + [words[|words| - 1]];
      LongWordsLowerMembers(init);
    }
  }

  lemma {:induction false} BulletTermsMembers(lines: seq<string>)
    ensures forall t :: t in BulletTerms(lines) <==> exists l :: l in lines && t in LongWordsLower(BulletWords(l))
    decreases |lines|
  {
    if lines != [] {
      var init := lines[..|lines| - 1];
      assert lines == init + [lines[|lines| - 1]];
      BulletTermsMembers(init);
    }
  }

  /** `extract_technical_terms` without the case-insensitive skill-indicator patterns. */
  function TechnicalTerms(text: string): set<string> {
    LowerSet(NounPhrases(text)) + BulletTerms(BulletLines(text))
  }

  lemma BulletTermsStep(lines: seq<string>, j: nat, before: set<string>, terms: set<string>)
    requires j < |lines| && terms == before + BulletTerms(lines[..j])
    ensures terms + LongWordsLower(BulletWords(lines[j])) == before + BulletTerms(lines[..j + 1])
  {
    assert lines[..j + 1][..j] == lines[..j];
  }

  /** `extract_technical_terms`: the term set is updated with the lower-cased noun phrases and then
      line by line with the long words of each bullet line. */
  method ExtractTechnicalTerms(text: string) returns (terms: set<string>)
    ensures terms == TechnicalTerms(text)
  {
    var phrases := ExtractNounPhrases(text);
    var fromPhrases := LowerSet(phrases);
    terms := fromPhrases;
    var lines := BulletLines(text);
    var j := 0;
    while j < |lines|
      invariant 0 <= j <= |lines|
      invariant terms == fromPhrases + BulletTerms(lines[..j])
    {
      BulletTermsStep(lines, j, fromPhrases, terms);
      terms := terms + LongWordsLower(BulletWords(lines[j]));
      j := j + 1;
    }
    assert lines[..j] == lines;
  }

  /** Every technical term is lower-case and longer than two characters; those from bullet lines
      are longer than three and start with a letter. */
  lemma TechnicalTermsShape(text: string)
    ensures forall t :: t in TechnicalTerms(text) ==> IsLowercase(t) && |t| > 2
    ensures forall l, w :: l in BulletLines(text) && w in BulletWords(l) && |w| > 3 ==>
      Lower(w) in TechnicalTerms(text) && IsLetter(Lower(w)[0])
  {
    LowerSetMembers(NounPhrases(text));
    BulletTermsMembers(BulletLines(text));
    forall t | t in TechnicalTerms(text) ensures IsLowercase(t) && |t| > 2 {
      if t in LowerSet(NounPhrases(text)) {
        var p :| p in NounPhrases(text) && Lower(p) == t;
        LowerIsLowercase(p);
      } else {
        var l :| l in BulletLines(text) && t in LongWordsLower(BulletWords(l));
        LongWordsLowerMembers(BulletWords(l));
        var w :| w in BulletWords(l) && |w| > 3 && Lower(w) == t;
        LowerIsLowercase(w);
      }
    }
    forall l, w | l in BulletLines(text) && w in BulletWords(l) && |w| > 3
      ensures Lower(w) in TechnicalTerms(text)
    {
      LongWordsLowerMembers(BulletWords(l));
    }
  }
}
