/**
 * `MatcherService.analyze`: the whole comparison of one résumé with one job description, as a
 * function of the two raw texts and of what the pipeline cannot see (the embedding model, the
 * e-mail and phone detectors and the order in which a Python set is listed).
 */
module MatcherService {
  import opened Text
  import opened Seqs
  import TextPreprocessing
  import opened KeywordExtraction
  import ExperienceParser
  import Similarity
  import AtsScore
  import SectionMatcher

  // ---------------------------------------------------------------------------------------------
  // Configuration
  // ---------------------------------------------------------------------------------------------

  const TopKeywords: nat := 100
  const SimilarityThreshold: real := 0.65
  const TopHighlights: nat := 5
  /** `top_n` for the displayed matched and missing keywords. */
  const TopDisplayed: nat := 7
  /** `top_n` for the résumé's own keywords. */
  const TopResumeKeywords: nat := 20

  const SkillsWeight: real := 0.45
  const SemanticWeight: real := 0.25
  const AtsWeight: real := 0.20
  const ExperienceWeight: real := 0.10

  // ---------------------------------------------------------------------------------------------
  // The outside world
  // ---------------------------------------------------------------------------------------------

  /** The sentence-embedding cosine similarity shared by every component, the contact detectors,
      and `list(s)` for a set of strings. */
  datatype Oracles = Oracles(
    cosine: (string, string) -> real,
    hasEmail: string -> bool,
    hasPhone: string -> bool,
    listing: set<string> -> seq<string>)

  /** What the keyword lists rely on: `list(s)` gives each element of `s` exactly once. */
  ghost predicate ListingFaithful(o: Oracles) {
    && (forall s :: NoDuplicates(o.listing(s)))
    && (forall s, x :: x in o.listing(s) <==> x in s)
  }

  // ---------------------------------------------------------------------------------------------
  // The report
  // ---------------------------------------------------------------------------------------------

  datatype KeywordLists = KeywordLists(matched: seq<string>, missing: seq<string>)

  datatype ExperienceInfo = ExperienceInfo(requiredYears: int, candidateYears: int)

  datatype AtsResult = AtsResult(scorePercent: real, rating: AtsScore.Label)

  /** The nine top-level fields of the result dictionary. */
  datatype Report = Report(
    skillMatchScorePercent: real,
    experienceMatchScorePercent: real,
    keywords: KeywordLists,
    experience: ExperienceInfo,
    relevantExperienceHighlights: seq<string>,
    ats: AtsResult,
    topResumeKeywords: seq<string>,
    sectionMatchAnalysis: SectionMatcher.SectionAnalysis,
    overallMatchPercent: real)

  // ---------------------------------------------------------------------------------------------
  // Scores
  // ---------------------------------------------------------------------------------------------

  /** `skill_match_score`: the matched share of the JD terms and the semantic similarity, equally
      weighted, as a percentage; nothing without JD terms. */
  function SkillScore(matched: seq<string>, jdTerms: seq<string>, semantic: real): real {
    if |jdTerms| > 0 then (|matched| as real / |jdTerms| as real * 0.5 + semantic * 0.5) * 100.0
    else 0.0
  }

  /** With the similarity in [0, 1] and no more matched terms than JD terms the skill score is a
      percentage: 100 exactly when every JD term is matched and the similarity is 1. */
  lemma SkillScoreSpec(matched: seq<string>, jdTerms: seq<string>, semantic: real)
    requires 0.0 <= semantic <= 1.0
    requires |matched| <= |jdTerms|
    ensures jdTerms == [] ==> SkillScore(matched, jdTerms, semantic) == 0.0
    ensures 0.0 <= SkillScore(matched, jdTerms, semantic) <= 100.0
    ensures SkillScore(matched, jdTerms, semantic) == 100.0 <==> jdTerms != [] && |matched| == |jdTerms| && semantic == 1.0
  {
    if jdTerms != [] {
      AtsScore.ShareOf(|matched|, |jdTerms|, 50.0);
      assert SkillScore(matched, jdTerms, semantic) == (|matched| as real / |jdTerms| as real) * 50.0 + semantic * 50.0;
    }
  }

  /** `overall_match` */
  function Overall(skill: real, semantic: real, ats: real, experience: real): real {
    skill * SkillsWeight + semantic * 100.0 * SemanticWeight + ats * AtsWeight + experience * ExperienceWeight
  }

  /** The weights sum to 1, so the overall match is a weighted mean of the four percentages: it
      lies between their least and greatest, and never goes down when one of them goes up. */
  lemma OverallSpec(skill: real, semantic: real, ats: real, experience: real)
    ensures SkillsWeight + SemanticWeight + AtsWeight + ExperienceWeight == 1.0
    ensures var lo := Min4(skill, semantic * 100.0, ats, experience);
      var hi := Max4(skill, semantic * 100.0, ats, experience);
      lo <= Overall(skill, semantic, ats, experience) <= hi
    ensures 0.0 <= skill <= 100.0 && 0.0 <= semantic <= 1.0 && 0.0 <= ats <= 100.0 && 0.0 <= experience <= 100.0
      ==> 0.0 <= Overall(skill, semantic, ats, experience) <= 100.0
  {
  }

  lemma OverallMonotone(skill1: real, semantic1: real, ats1: real, experience1: real,
                        skill2: real, semantic2: real, ats2: real, experience2: real)
    requires skill1 <= skill2 && semantic1 <= semantic2 && ats1 <= ats2 && experience1 <= experience2
    ensures Overall(skill1, semantic1, ats1, experience1) <= Overall(skill2, semantic2, ats2, experience2)
  {
  }

  function Min4(a: real, b: real, c: real, d: real): (m: real)
    ensures m <= a && m <= b && m <= c && m <= d
    ensures m == a || m == b || m == c || m == d
  {
    var ab := if a <= b then a else b;
    var cd := if c <= d then c else d;
    if ab <= cd then ab else cd
  }

  function Max4(a: real, b: real, c: real, d: real): (m: real)
    ensures m >= a && m >= b && m >= c && m >= d
    ensures m == a || m == b || m == c || m == d
  {
    var ab := if a >= b then a else b;
    var cd := if c >= d then c else d;
    if ab >= cd then ab else cd
  }

  // ---------------------------------------------------------------------------------------------
  // analyze
  // ---------------------------------------------------------------------------------------------

  /** `analyze(resume_text, jd_text)`: both texts are cleaned first, and every later step sees
      only the cleaned texts. */
  function Analyze(resumeRaw: string, jdRaw: string, o: Oracles): (r: Report)
    ensures ReportOk(r, AllTerms(TextPreprocessing.CleanText(resumeRaw), TopKeywords),
                     AllTerms(TextPreprocessing.CleanText(jdRaw), TopKeywords), o)
  {
    var resume := TextPreprocessing.CleanText(resumeRaw);
    var jd := TextPreprocessing.CleanText(jdRaw);
    Assemble(resume, jd, AllTerms(resume, TopKeywords), AllTerms(jd, TopKeywords), o)
  }

  /** Steps 3 to 13 of `analyze`, on the cleaned texts and their `extract_all_terms` sets. */
  function Assemble(resume: string, jd: string, resumeSet: set<string>, jdSet: set<string>, o: Oracles): (r: Report)
    ensures ReportOk(r, resumeSet, jdSet, o)
  {
    var ats := AtsOf(resume, jd, resumeSet, jdSet, o);
    Report(SkillOf(resume, jd, resumeSet, jdSet, o), ExperienceOf(resume, jd),
           KeywordsOf(resume, jd, resumeSet, jdSet, o),
           ExperienceInfo(YearsOf(jd), YearsOf(resume)),
           HighlightsOf(resume, jd, o),
           AtsResult(ats, AtsScore.LabelOf(ats)),
           ResumeKeywordsOf(resume),
           SectionMatcher.SectionAnalysisOf(resume, jd, o.cosine),
           OverallOf(resume, jd, resumeSet, jdSet, o))
  }

  /** What `analyze` promises of its report, given the listed term sets: with similarities in
      [0, 1] the scores are percentages; the sizes are bounded whatever the model and the listing
      return; and with a faithful listing the keyword lists are as `KeywordListsOk` says. */
  ghost predicate ReportOk(r: Report, resumeSet: set<string>, jdSet: set<string>, o: Oracles) {
    && (CosineInRange(o) ==> ScoresInRange(r))
    && SizesBounded(r)
    && (ListingFaithful(o) ==> KeywordListsOk(r.keywords, resumeSet, jdSet, o))
  }

  /** Every score is a percentage, and the label is the one the ATS score earns. */
  predicate ScoresInRange(r: Report) {
    && 0.0 <= r.skillMatchScorePercent <= 100.0
    && 0.0 <= r.experienceMatchScorePercent <= 100.0
    && 0.0 <= r.ats.scorePercent <= 100.0
    && 0.0 <= r.overallMatchPercent <= 100.0
    && r.ats.rating == AtsScore.LabelOf(r.ats.scorePercent)
  }

  /** Year counts are not negative; at most five highlights, at most twenty distinct résumé
      keywords, and at most seven matched and seven missing keywords. */
  predicate SizesBounded(r: Report) {
    && r.experience.requiredYears >= 0 && r.experience.candidateYears >= 0
    && |r.relevantExperienceHighlights| <= TopHighlights
    && |r.topResumeKeywords| <= TopResumeKeywords && NoDuplicates(r.topResumeKeywords)
    && |r.keywords.matched| <= TopDisplayed && |r.keywords.missing| <= TopDisplayed
  }

  /** The similarities the model returns lie in [0, 1]. */
  ghost predicate CosineInRange(o: Oracles) {
    forall a, b :: 0.0 <= o.cosine(a, b) <= 1.0
  }

  /** `semantic_keyword_matching(list(resume_terms), list(jd_terms), threshold=0.65)`: the listed
      JD terms split into the matched and the missing ones. */
  function KeywordMatch(resumeSet: set<string>, jdSet: set<string>, o: Oracles): (r: (seq<string>, seq<string>))
    ensures |r.0| + |r.1| == |o.listing(jdSet)|
    ensures multiset(r.0) + multiset(r.1) == multiset(o.listing(jdSet))
  {
    MatchKeywordsSpec(o.listing(resumeSet), o.listing(jdSet), SimilarityThreshold, o.cosine);
    MatchKeywords(o.listing(resumeSet), o.listing(jdSet), SimilarityThreshold, o.cosine)
  }

  /** `calculate_semantic_similarity(resume, jd)` */
  function SemanticOf(resume: string, jd: string, o: Oracles): (r: real)
    ensures CosineInRange(o) ==> 0.0 <= r <= 1.0
  {
    Similarity.SemanticSimilarity(resume, jd, o.cosine)
  }

  /** `skill_match_score` of the matched terms */
  function SkillOf(resume: string, jd: string, resumeSet: set<string>, jdSet: set<string>, o: Oracles): (r: real)
    ensures CosineInRange(o) ==> 0.0 <= r <= 100.0
  {
    var matched := KeywordMatch(resumeSet, jdSet, o).0;
    var semantic := SemanticOf(resume, jd, o);
    SkillScoreBounded(matched, o.listing(jdSet), semantic);
    SkillScore(matched, o.listing(jdSet), semantic)
  }

  /** `extract_experience_years` of a cleaned text: never negative. */
  function YearsOf(text: string): (y: int)
    ensures y >= 0
  {
    ExperienceParser.ExperienceYearsSpec(text);
    ExperienceParser.ExperienceYears(text)
  }

  /** `calculate_experience_match(jd_years, resume_years)` */
  function ExperienceOf(resume: string, jd: string): (r: real)
    ensures 0.0 <= r <= 100.0
  {
    ExperienceParser.ExperienceMatchBounds(YearsOf(jd), YearsOf(resume));
    ExperienceParser.ExperienceMatch(YearsOf(jd), YearsOf(resume))
  }

  /** `calculate_ats_score` */
  function AtsOf(resume: string, jd: string, resumeSet: set<string>, jdSet: set<string>, o: Oracles): (r: real)
    ensures CosineInRange(o) ==> 0.0 <= r <= 100.0
  {
    var matched := KeywordMatch(resumeSet, jdSet, o).0;
    var semantic := SemanticOf(resume, jd, o);
    AtsBounded(resume, jd, matched, o.listing(jdSet), semantic, o);
    AtsScore.AtsScore(resume, jd, matched, o.listing(jdSet), semantic, o.hasEmail, o.hasPhone)
  }

  /** `overall_match` of the four scores */
  function OverallOf(resume: string, jd: string, resumeSet: set<string>, jdSet: set<string>, o: Oracles): (r: real)
    ensures CosineInRange(o) ==> 0.0 <= r <= 100.0
  {
    var skill := SkillOf(resume, jd, resumeSet, jdSet, o);
    var semantic := SemanticOf(resume, jd, o);
    var ats := AtsOf(resume, jd, resumeSet, jdSet, o);
    var experience := ExperienceOf(resume, jd);
    OverallSpec(skill, semantic, ats, experience);
    Overall(skill, semantic, ats, experience)
  }

  /** `extract_relevant_highlights(resume, jd, top_n=5)`: at most five sentences. */
  function HighlightsOf(resume: string, jd: string, o: Oracles): (r: seq<string>)
    ensures |r| <= TopHighlights
  {
    Similarity.HighlightsSpec(resume, jd, TopHighlights, o.cosine);
    Similarity.Highlights(resume, jd, TopHighlights, o.cosine)
  }

  /** `extract_dynamic_keywords(resume, top_n=20)`: at most twenty distinct terms. */
  function ResumeKeywordsOf(resume: string): (r: seq<string>)
    ensures |r| <= TopResumeKeywords && NoDuplicates(r)
  {
    MostCommonDistinct(FilteredTerms(resume), TopResumeKeywords);
    DynamicKeywords(resume, TopResumeKeywords)
  }

  /** The displayed keyword lists, each prioritised by its count in the JD and cut to seven. */
  function KeywordsOf(resume: string, jd: string, resumeSet: set<string>, jdSet: set<string>, o: Oracles): (r: KeywordLists)
    ensures |r.matched| <= TopDisplayed && |r.missing| <= TopDisplayed
    ensures ListingFaithful(o) ==> KeywordListsOk(r, resumeSet, jdSet, o)
  {
    var matching := KeywordMatch(resumeSet, jdSet, o);
    var r := KeywordLists(Prioritized(matching.0, jd, TopDisplayed), Prioritized(matching.1, jd, TopDisplayed));
    PrioritizedSpec(matching.0, jd, TopDisplayed);
    PrioritizedSpec(matching.1, jd, TopDisplayed);
    DisplayedLists(matching, r, resumeSet, jdSet, jd, o);
    r
  }

  /** What the displayed keyword lists promise beyond their length: each without repeats, the
      matched ones JD terms that some résumé term is at least 0.65 similar to, the missing ones
      JD terms that none is, and so no keyword in both. */
  ghost predicate KeywordListsOk(r: KeywordLists, resumeSet: set<string>, jdSet: set<string>, o: Oracles) {
    && NoDuplicates(r.matched) && NoDuplicates(r.missing)
    && (forall k :: k in r.matched ==>
          k in jdSet && IsMatched(k, o.listing(resumeSet), SimilarityThreshold, o.cosine))
    && (forall k :: k in r.missing ==>
          k in jdSet && !IsMatched(k, o.listing(resumeSet), SimilarityThreshold, o.cosine))
    && (forall k :: !(k in r.matched && k in r.missing))
  }

  lemma DisplayedLists(matching: (seq<string>, seq<string>), r: KeywordLists,
                       resumeSet: set<string>, jdSet: set<string>, jd: string, o: Oracles)
    requires matching == MatchKeywords(o.listing(resumeSet), o.listing(jdSet), SimilarityThreshold, o.cosine)
    requires r == KeywordLists(Prioritized(matching.0, jd, TopDisplayed), Prioritized(matching.1, jd, TopDisplayed))
    ensures ListingFaithful(o) ==> KeywordListsOk(r, resumeSet, jdSet, o)
  {
    if ListingFaithful(o) {
      KeywordMatchSpec(resumeSet, jdSet, o);
      DisplayedSpec(matching.0, o.listing(jdSet), jd);
      DisplayedSpec(matching.1, o.listing(jdSet), jd);
    }
  }

  lemma SkillScoreBounded(matched: seq<string>, jdTerms: seq<string>, semantic: real)
    ensures 0.0 <= semantic <= 1.0 && |matched| <= |jdTerms| ==> 0.0 <= SkillScore(matched, jdTerms, semantic) <= 100.0
  {
    if 0.0 <= semantic <= 1.0 && |matched| <= |jdTerms| {
      SkillScoreSpec(matched, jdTerms, semantic);
    }
  }

  lemma AtsBounded(resume: string, jd: string, matched: seq<string>, jdTerms: seq<string>, semantic: real, o: Oracles)
    ensures 0.0 <= semantic <= 1.0 && |matched| <= |jdTerms| ==>
      0.0 <= AtsScore.AtsScore(resume, jd, matched, jdTerms, semantic, o.hasEmail, o.hasPhone) <= 100.0
  {
    if 0.0 <= semantic <= 1.0 && |matched| <= |jdTerms| {
      AtsScore.AtsScoreBounds(resume, jd, matched, jdTerms, semantic, o.hasEmail, o.hasPhone);
    }
  }

  /** The matched JD terms are those some résumé term is at least 0.65 similar to, the missing ones
      the rest; neither repeats a term, and there are no more matched terms than JD terms. */
  lemma KeywordMatchSpec(resumeSet: set<string>, jdSet: set<string>, o: Oracles)
    requires ListingFaithful(o)
    ensures var (matched, missing) := MatchKeywords(o.listing(resumeSet), o.listing(jdSet), SimilarityThreshold, o.cosine);
      && multiset(matched) <= multiset(o.listing(jdSet)) && multiset(missing) <= multiset(o.listing(jdSet))
      && (forall k :: k in matched <==> k in jdSet && IsMatched(k, o.listing(resumeSet), SimilarityThreshold, o.cosine))
      && (forall k :: k in missing <==> k in jdSet && !IsMatched(k, o.listing(resumeSet), SimilarityThreshold, o.cosine))
      && NoDuplicates(o.listing(jdSet))
  {
    MatchKeywordsSpec(o.listing(resumeSet), o.listing(jdSet), SimilarityThreshold, o.cosine);
  }

  /** A prioritised sub-list of the listed JD terms keeps at most seven of them, without
      repeats. */
  lemma DisplayedSpec(keywords: seq<string>, jdTerms: seq<string>, jd: string)
    requires NoDuplicates(jdTerms)
    requires multiset(keywords) <= multiset(jdTerms)
    ensures var r := Prioritized(keywords, jd, TopDisplayed);
      |r| <= TopDisplayed && NoDuplicates(r) && forall k :: k in r ==> k in keywords
  {
    var r := Prioritized(keywords, jd, TopDisplayed);
    PrioritizedSpec(keywords, jd, TopDisplayed);
    SubMultisetNoDuplicates(r, jdTerms);
    forall k | k in r ensures k in keywords {
      assert k in multiset(r);
    }
  }

  // ---------------------------------------------------------------------------------------------
  // The cleaned résumé is one line
  // ---------------------------------------------------------------------------------------------

  /** `clean_text` removes every newline before the scorers see the résumé, so the formatting score
      never earns its line-count points. */
  lemma CleanedFormatting(resumeRaw: string)
    ensures var resume := TextPreprocessing.CleanText(resumeRaw);
      AtsScore.FormattingScore(resume) == (if |resume| > 500 then 5.0 else 0.0)
  {
    TextPreprocessing.CleanTextSingleLine(resumeRaw);
  }

  /** A cleaned résumé of 50 characters or more is one over-long line that opens no section, so
      its section score is 0. */
  lemma CleanedLongResumeHasNoSections(resumeRaw: string)
    ensures var resume := TextPreprocessing.CleanText(resumeRaw);
      |resume| >= AtsScore.MaxHeaderLength ==>
        AtsScore.Sections(resume) == AtsScore.EmptySections() && AtsScore.SectionScore(resume) == 0.0
  {
    var resume := TextPreprocessing.CleanText(resumeRaw);
    if |resume| >= AtsScore.MaxHeaderLength {
      TextPreprocessing.CleanTextSingleLine(resumeRaw);
      LongLineHasNoSections(resume);
      NoSectionsScoreZero(resume);
    }
  }

  /** One stripped line of 50 characters or more is too long to be a header. */
  lemma LongLineHasNoSections(text: string)
    requires '\n' !in text && Stripped(text) && |text| >= AtsScore.MaxHeaderLength
    ensures AtsScore.Sections(text) == AtsScore.EmptySections()
  {
    LowerKeepsStripped(text);
    StripUnchanged(Lower(text));
    AtsScore.SingleLongLineNoSections(text);
  }

  /** Without sections the section score is 0. */
  lemma NoSectionsScoreZero(text: string)
    requires AtsScore.Sections(text) == AtsScore.EmptySections()
    ensures AtsScore.SectionScore(text) == 0.0
  {
    var m := AtsScore.Sections(text);
    AtsScore.EmptySectionsSpec();
    EmptyNotFilled(m, AtsScore.RequiredSections);
    AtsScore.SectionScoreSpec(text);
  }

  /** In the section analysis of a cleaned résumé of 50 characters or more every key section is
      Not Matched and no soft skill is found. */
  lemma CleanedLongResumeMatchesNoSection(resumeRaw: string, jd: string, o: Oracles)
    ensures var resume := TextPreprocessing.CleanText(resumeRaw);
      var analysis := SectionMatcher.SectionAnalysisOf(resume, jd, o.cosine);
      |resume| >= AtsScore.MaxHeaderLength ==>
        && (forall s :: s in analysis.sections ==> analysis.sections[s] == SectionMatcher.NotMatched)
        && analysis.softSkills in {SectionMatcher.NotRequired, SectionMatcher.NotMatched}
  {
    var resume := TextPreprocessing.CleanText(resumeRaw);
    if |resume| >= AtsScore.MaxHeaderLength {
      CleanedLongResumeHasNoSections(resumeRaw);
      SectionMatcher.NoSectionsNothingMatched(resume, jd, o.cosine);
    }
  }

  /** Lower-casing keeps whitespace where it was, so a stripped text stays stripped. */
  lemma LowerKeepsStripped(s: string)
    requires Stripped(s)
    ensures Stripped(Lower(s))
  {
  }

  /** Empty sections count as unfilled. */
  lemma {:induction false} EmptyNotFilled(m: map<AtsScore.SectionName, string>, secs: seq<AtsScore.SectionName>)
    requires forall s: AtsScore.SectionName :: s in m && m[s] == ""
    ensures AtsScore.CountFilled(m, secs) == 0
    decreases |secs|
  {
    if secs != [] {
      EmptyNotFilled(m, secs[..|secs| - 1]);
    }
  }
}
