/**
 * `SectionMatcher`: a match level for each key résumé section, from the similarity of its text to
 * the JD, and a soft-skill level from the share of the JD's soft skills the sectioned résumé text
 * mentions.
 *
 * The guarded similarity is `Similarity.SemanticSimilarity` with this class's own embedding model
 * given as the parameter `cosine`.
 */
module SectionMatcher {
  import opened Text
  import opened Seqs
  import opened AtsScore
  import Similarity

  datatype MatchLevel = StronglyMatched | PartiallyMatched | NotMatched | NotRequired

  /** The order of the levels, Not Matched lowest. */
  function Rank(l: MatchLevel): nat {
    match l
    case NotMatched => 0
    case NotRequired => 0
    case PartiallyMatched => 1
    case StronglyMatched => 2
  }

  // ---------------------------------------------------------------------------------------------
  // analyze_soft_skills
  // ---------------------------------------------------------------------------------------------

  /** `soft_skills_keywords` */
  function SoftSkillVocabulary(): seq<string> {
    ["leadership", "teamwork", "communication", "problem-solving", "collaboration", "management",
     "organized", "creative", "analytical", "detail-oriented", "motivated", "reliable", "adaptable",
     "innovative", "strategic", "efficient"]
  }

  /** `skill in text` fails. */
  function Missing(text: string, skill: string): bool {
    !Contains(text, skill)
  }

  /** `Missing` from `text`, as the filter's test. */
  function Absent(text: string): string -> bool {
    skill => Missing(text, skill)
  }

  /** `required_soft_skills`: the vocabulary terms found in the lower-cased JD, in vocabulary
      order. */
  function RequiredSkills(vocab: seq<string>, jdLower: string): seq<string> {
    FilterOut(vocab, Absent(jdLower))
  }

  /** `found_soft_skills`: the required ones also found in the résumé text. */
  function FoundSkills(required: seq<string>, resumeLower: string): seq<string> {
    FilterOut(required, Absent(resumeLower))
  }

  /** The level for a vocabulary, the lower-cased résumé text and the lower-cased JD. */
  function SoftSkillLevel(vocab: seq<string>, resumeLower: string, jdLower: string): MatchLevel {
    var required := RequiredSkills(vocab, jdLower);
    if required == [] then NotRequired
    else
      var ratio := |FoundSkills(required, resumeLower)| as real / |required| as real;
      if ratio >= 0.5 then StronglyMatched
      else if ratio >= 0.25 then PartiallyMatched
      else NotMatched
  }

  /** The section texts in the dictionary's key order. */
  function SectionTexts(m: map<SectionName, string>, secs: seq<SectionName>): seq<string>
    decreases |secs|
  {
    if secs == [] then []
    else
      var s := secs[|secs| - 1];
      SectionTexts(m, secs[..|secs| - 1]) + (if s in m then [m[s]] else [])
  }

  /** `' '.join(resume_sections.values())` */
  function JoinedSections(m: map<SectionName, string>): string {
    Join(" ", SectionTexts(m, SectionOrder))
  }

  /** `analyze_soft_skills(resume_sections, jd_text)` */
  function AnalyzeSoftSkills(sections: map<SectionName, string>, jd: string): MatchLevel {
    SoftSkillLevel(SoftSkillVocabulary(), Lower(JoinedSections(sections)), Lower(jd))
  }

  /** `x / y >= c` for a positive `y` compares `x` with `c * y`. */
  lemma RatioAtLeast(x: real, y: real, c: real)
    requires y > 0.0
    ensures (x / y >= c) <==> x >= c * y
  {
    var q := x / y;
    assert q * y == x;
    if q >= c {
      assert q * y >= c * y;
    } else {
      assert q * y < c * y;
    }
  }

  lemma QuarterBands(f: nat, n: nat)
    requires 0 < n
    ensures (f as real / n as real >= 0.5) <==> 2 * f >= n
    ensures (f as real / n as real >= 0.25) <==> 4 * f >= n
  {
    RatioAtLeast(f as real, n as real, 0.5);
    RatioAtLeast(f as real, n as real, 0.25);
  }

  /** "Not Required" exactly when no vocabulary term occurs in the JD; the found skills are
      required ones that occur in the résumé text, so the ratio lies in [0, 1]; at least half found
      is Strongly, at least a quarter Partially, fewer Not Matched. */
  lemma SoftSkillLevelSpec(vocab: seq<string>, resumeLower: string, jdLower: string)
    ensures var required := RequiredSkills(vocab, jdLower);
      var found := FoundSkills(required, resumeLower);
      var level := SoftSkillLevel(vocab, resumeLower, jdLower);
      && (level == NotRequired <==> forall k :: 0 <= k < |vocab| ==> !Contains(jdLower, vocab[k]))
      && (forall w :: w in required <==> w in vocab && Contains(jdLower, w))
      && (forall w :: w in found <==> w in required && Contains(resumeLower, w))
      && |found| <= |required|
      && (level == StronglyMatched <==> required != [] && 2 * |found| >= |required|)
      && (level == PartiallyMatched <==> required != [] && 2 * |found| < |required| <= 4 * |found|)
      && (level == NotMatched <==> required != [] && 4 * |found| < |required|)
  {
    var required := RequiredSkills(vocab, jdLower);
    SkillMembers(vocab, resumeLower, jdLower);
    SoftSkillBands(vocab, resumeLower, jdLower);
    if required == [] {
      forall k | 0 <= k < |vocab| ensures !Contains(jdLower, vocab[k]) {
        assert vocab[k] in vocab;
      }
    } else {
      assert required[0] in required;
    }
  }

  /** The required skills are the vocabulary terms in the JD, the found ones the required terms in
      the résumé text. */
  lemma SkillMembers(vocab: seq<string>, resumeLower: string, jdLower: string)
    ensures var required := RequiredSkills(vocab, jdLower);
      var found := FoundSkills(required, resumeLower);
      && (forall w :: w in required <==> w in vocab && Contains(jdLower, w))
      && (forall w :: w in found <==> w in required && Contains(resumeLower, w))
      && |found| <= |required|
  {
    var required := RequiredSkills(vocab, jdLower);
    FilterOutMembers(vocab, Absent(jdLower));
    FilterOutMembers(required, Absent(resumeLower));
    FilterOutLength(required, Absent(resumeLower));
  }

  /** The level by the share of required skills found. */
  lemma SoftSkillBands(vocab: seq<string>, resumeLower: string, jdLower: string)
    ensures var required := RequiredSkills(vocab, jdLower);
      var found := FoundSkills(required, resumeLower);
      var level := SoftSkillLevel(vocab, resumeLower, jdLower);
      && (level == NotRequired <==> required == [])
      && (level == StronglyMatched <==> required != [] && 2 * |found| >= |required|)
      && (level == PartiallyMatched <==> required != [] && 2 * |found| < |required| <= 4 * |found|)
      && (level == NotMatched <==> required != [] && 4 * |found| < |required|)
  {
    var required := RequiredSkills(vocab, jdLower);
    if required != [] {
      QuarterBands(|FoundSkills(required, resumeLower)|, |required|);
    }
  }

  /** Every soft-skill term is longer than the five spaces joining six empty sections. */
  lemma VocabularyLengths()
    ensures forall k :: 0 <= k < |SoftSkillVocabulary()| ==> |SoftSkillVocabulary()[k]| > 5
  {
  }

  /** Soft skills are looked for only in the text assigned to sections: with every section empty
      none is found, whatever the résumé says elsewhere. */
  lemma SoftSkillsNeedSections(jd: string)
    ensures AnalyzeSoftSkills(EmptySections(), jd) == NotRequired
         || AnalyzeSoftSkills(EmptySections(), jd) == NotMatched
  {
    var vocab := SoftSkillVocabulary();
    EmptySectionsSpec();
    var texts := SectionTexts(EmptySections(), SectionOrder);
    SectionTextsEmpty(EmptySections(), SectionOrder);
    JoinEmptyPieces(texts);
    var low := Lower(JoinedSections(EmptySections()));
    assert |low| == 5;
    var required := RequiredSkills(vocab, Lower(jd));
    FilterOutMembers(vocab, Absent(Lower(jd)));
    SoftSkillLevelSpec(vocab, low, Lower(jd));
    VocabularyLengths();
    ShortTextFindsNothing(required, low);
    assert AnalyzeSoftSkills(EmptySections(), jd) == SoftSkillLevel(vocab, low, Lower(jd));
  }

  /** No term longer than the text occurs in it. */
  lemma ShortTextFindsNothing(required: seq<string>, text: string)
    requires forall w :: w in required ==> |w| > |text|
    ensures FoundSkills(required, text) == []
  {
    forall i | 0 <= i < |required| ensures Absent(text)(required[i]) {
      assert required[i] in required;
    }
    FilterOutDropsAll(required, Absent(text));
  }

  /** With every section present and empty, the values are as many empty strings. */
  lemma {:induction false} SectionTextsEmpty(m: map<SectionName, string>, secs: seq<SectionName>)
    requires forall s: SectionName :: s in m && m[s] == ""
    ensures |SectionTexts(m, secs)| == |secs|
    ensures forall i :: 0 <= i < |SectionTexts(m, secs)| ==> SectionTexts(m, secs)[i] == ""
    decreases |secs|
  {
    if secs != [] {
      SectionTextsEmpty(m, secs[..|secs| - 1]);
    }
  }

  /** `' '.join` of `n` empty strings is `n - 1` spaces. */
  lemma {:induction false} JoinEmptyPieces(parts: seq<string>)
    requires |parts| > 0
    requires forall i :: 0 <= i < |parts| ==> parts[i] == ""
    ensures |Join(" ", parts)| == |parts| - 1
    decreases |parts|
  {
    if |parts| > 1 {
      JoinEmptyPieces(parts[1..]);
    }
  }

  // ---------------------------------------------------------------------------------------------
  // analyze_section_match
  // ---------------------------------------------------------------------------------------------

  /** `key_sections` */
  const KeySections: seq<SectionName> := [Education, Certifications, Skills, Experience]

  /** The cut points for a section's similarity (strict). */
  function SimilarityLevel(similarity: real): MatchLevel {
    if similarity > 0.5 then StronglyMatched
    else if similarity > 0.25 then PartiallyMatched
    else NotMatched
  }

  /** The level of one section's text. */
  function SectionLevel(text: string, jd: string, cosine: (string, string) -> real): MatchLevel {
    if text == [] || |text| < 10 then NotMatched
    else SimilarityLevel(Similarity.SemanticSimilarity(text, jd, cosine))
  }

  /** `resume_sections.get(section_name, '')` */
  function SectionText(m: map<SectionName, string>, s: SectionName): string {
    if s in m then m[s] else ""
  }

  /** The result of `analyze_section_match`: the four key sections and `soft_skills`. */
  datatype SectionAnalysis = SectionAnalysis(sections: map<SectionName, MatchLevel>, softSkills: MatchLevel)

  /** The levels of the sections `secs`, the map the loop over `key_sections` fills. */
  function LevelsOf(m: map<SectionName, string>, jd: string, cosine: (string, string) -> real,
                    secs: seq<SectionName>): map<SectionName, MatchLevel>
    decreases |secs|
  {
    if secs == [] then map[]
    else
      var s := secs[|secs| - 1];
      LevelsOf(m, jd, cosine, secs[..|secs| - 1])[s := SectionLevel(SectionText(m, s), jd, cosine)]
  }

  /** Each listed section gets the level of its own text, and no other section is reported. */
  lemma {:induction false} LevelsOfSpec(m: map<SectionName, string>, jd: string, cosine: (string, string) -> real,
                                         secs: seq<SectionName>)
    ensures forall s :: s in LevelsOf(m, jd, cosine, secs) <==> s in secs
    ensures forall s :: s in secs ==> LevelsOf(m, jd, cosine, secs)[s] == SectionLevel(SectionText(m, s), jd, cosine)
    decreases |secs|
  {
    if secs != [] {
      var init := secs[..|secs| - 1];
      LevelsOfSpec(m, jd, cosine, init);
      assert secs == init + [secs[|secs| - 1]];
    }
  }

  /** The levels of one more section are one more update. */
  lemma LevelsOfNext(m: map<SectionName, string>, jd: string, cosine: (string, string) -> real,
                     secs: seq<SectionName>, i: nat)
    requires i < |secs|
    ensures LevelsOf(m, jd, cosine, secs[..i + 1])
         == LevelsOf(m, jd, cosine, secs[..i])[secs[i] := SectionLevel(SectionText(m, secs[i]), jd, cosine)]
  {
    assert secs[..i + 1][..i] == secs[..i];
  }

  /** `analyze_section_match(resume_text, jd_text)` */
  function SectionAnalysisOf(resume: string, jd: string, cosine: (string, string) -> real): SectionAnalysis {
    var m := Sections(resume);
    SectionAnalysis(LevelsOf(m, jd, cosine, KeySections), AnalyzeSoftSkills(m, jd))
  }

  /** The level of one key section, with the similarity test only for a text of 10 or more
      characters. */
  method SectionMatchLevel(text: string, jd: string, cosine: (string, string) -> real) returns (level: MatchLevel)
    ensures level == SectionLevel(text, jd, cosine)
  {
    if text == [] || |text| < 10 {
      return NotMatched;
    }
    var similarity := Similarity.SemanticSimilarity(text, jd, cosine);
    if similarity > 0.5 {
      level := StronglyMatched;
    } else if similarity > 0.25 {
      level := PartiallyMatched;
    } else {
      level := NotMatched;
    }
  }

  /** The loop over `key_sections`: each key section's level, under its name. */
  method KeySectionLevels(resumeSections: map<SectionName, string>, jd: string, cosine: (string, string) -> real)
    returns (levels: map<SectionName, MatchLevel>)
    ensures levels == LevelsOf(resumeSections, jd, cosine, KeySections)
  {
    levels := map[];
    for i := 0 to |KeySections|
      invariant levels == LevelsOf(resumeSections, jd, cosine, KeySections[..i])
    {
      LevelsOfNext(resumeSections, jd, cosine, KeySections, i);
      var name := KeySections[i];
      var sectionText := SectionText(resumeSections, name);
      var level := SectionMatchLevel(sectionText, jd, cosine);
      levels := levels[name := level];
    }
    assert KeySections[..|KeySections|] == KeySections;
  }

  method AnalyzeSectionMatch(resume: string, jd: string, cosine: (string, string) -> real)
    returns (analysis: SectionAnalysis)
    ensures analysis == SectionAnalysisOf(resume, jd, cosine)
  {
    var resumeSections := IdentifySections(resume);
    var levels := KeySectionLevels(resumeSections, jd, cosine);
    analysis := SectionAnalysis(levels, AnalyzeSoftSkills(resumeSections, jd));
  }

  /** `analyze_section_match` reports exactly education, certifications, skills and experience,
      besides `soft_skills`. */
  lemma SectionAnalysisKeys(resume: string, jd: string, cosine: (string, string) -> real)
    ensures SectionAnalysisOf(resume, jd, cosine).sections.Keys == {Education, Certifications, Skills, Experience}
    ensures forall s :: s in SectionAnalysisOf(resume, jd, cosine).sections ==>
      SectionAnalysisOf(resume, jd, cosine).sections[s] == SectionLevel(SectionText(Sections(resume), s), jd, cosine)
  {
    KeyLevels(Sections(resume), jd, cosine);
  }

  /** The levels of the key sections of any section map. */
  lemma KeyLevels(m: map<SectionName, string>, jd: string, cosine: (string, string) -> real)
    ensures LevelsOf(m, jd, cosine, KeySections).Keys == {Education, Certifications, Skills, Experience}
    ensures forall s :: s in LevelsOf(m, jd, cosine, KeySections) ==>
      LevelsOf(m, jd, cosine, KeySections)[s] == SectionLevel(SectionText(m, s), jd, cosine)
  {
    LevelsOfSpec(m, jd, cosine, KeySections);
  }

  /** A résumé in which no section header is recognised has every key section Not Matched and no
      soft skill found. */
  lemma NoSectionsNothingMatched(resume: string, jd: string, cosine: (string, string) -> real)
    requires Sections(resume) == EmptySections()
    ensures forall s :: s in SectionAnalysisOf(resume, jd, cosine).sections ==>
      SectionAnalysisOf(resume, jd, cosine).sections[s] == NotMatched
    ensures SectionAnalysisOf(resume, jd, cosine).softSkills in {NotRequired, NotMatched}
  {
    SectionAnalysisKeys(resume, jd, cosine);
    EmptySectionsSpec();
    SoftSkillsNeedSections(jd);
  }

  /** A section text shorter than 10 characters is Not Matched whatever the model says. */
  lemma ShortSectionNotMatched(text: string, jd: string, cosine1: (string, string) -> real,
                               cosine2: (string, string) -> real)
    requires |text| < 10
    ensures SectionLevel(text, jd, cosine1) == NotMatched
    ensures SectionLevel(text, jd, cosine1) == SectionLevel(text, jd, cosine2)
  {
  }

  /** The section level never goes down as the similarity goes up; its cut points are strict:
      exactly 0.5 is only Partially, exactly 0.25 is Not Matched. */
  lemma SimilarityLevelMonotone(s1: real, s2: real)
    requires s1 <= s2
    ensures Rank(SimilarityLevel(s1)) <= Rank(SimilarityLevel(s2))
    ensures SimilarityLevel(s2) == StronglyMatched <==> s2 > 0.5
    ensures SimilarityLevel(s2) == NotMatched <==> s2 <= 0.25
    ensures SimilarityLevel(0.5) == PartiallyMatched && SimilarityLevel(0.25) == NotMatched
  {
  }
}
