/**
 * The ATS compatibility score (`ATSScoreCalculator`): a line-by-line scanner that sorts résumé lines
 * into six sections under a "current section" variable, five bounded sub-scores and their sum, and
 * the label step function.
 *
 * The e-mail and phone-number regular expressions are parameters (`hasEmail`, `hasPhone`).
 */
module AtsScore {
  import opened Text
  import opened Wrappers

  /** `WEIGHTS` */
  const KeywordWeight: real := 25.0
  const SemanticWeight: real := 35.0
  const SectionWeight: real := 15.0
  const ContactWeight: real := 10.0
  const FormattingWeight: real := 10.0
  const ContextualWeight: real := 5.0

  /** `THRESHOLDS` */
  const ExcellentThreshold: real := 70.0
  const GoodThreshold: real := 55.0
  const FairThreshold: real := 35.0

  /** A line whose lower-cased, stripped form is this long or longer is never a header. */
  const MaxHeaderLength: nat := 50

  /** How many JD phrases the contextual score looks at. */
  const MaxContextPhrases: nat := 15

  datatype SectionName = Education | Experience | Skills | Projects | Certifications | Summary

  /** The key order of `sections` and `section_patterns`: headers are tried in this order. */
  const SectionOrder: seq<SectionName> := [Education, Experience, Skills, Projects, Certifications, Summary]

  /** The alternatives of each section's pattern.  `re.search` of an alternation of literals finds a
      match exactly when one of them occurs; an optional final `s` (`certifications?`) adds nothing
      to the word without it. */
  function Keywords(sec: SectionName): seq<string> {
    match sec
    case Education => ["education", "academic", "qualification", "degree", "university", "college"]
    case Experience => ["experience", "employment", "work", "career", "history", "professional"]
    case Skills => ["skills", "competencies", "expertise", "proficiencies", "technical", "capabilities"]
    case Projects => ["projects", "portfolio", "work samples", "achievements"]
    case Certifications => ["certification", "certificate", "license", "credentials"]
    case Summary => ["summary", "profile", "objective", "about", "overview"]
  }

  /** `re.search(pattern, line_lower)` */
  predicate HeaderMatch(low: string, sec: SectionName) {
    exists k :: 0 <= k < |Keywords(sec)| && Contains(low, Keywords(sec)[k])
  }

  /** The first of `secs` whose pattern is found in the header candidate `low`, provided `low` is
      shorter than 50 characters. */
  function FirstHeader(low: string, secs: seq<SectionName>): Option<SectionName>
    decreases |secs|
  {
    if secs == [] then None
    else if HeaderMatch(low, secs[0]) && |low| < MaxHeaderLength then Some(secs[0])
    else FirstHeader(low, secs[1..])
  }

  /** The section a line opens, if it is a header. */
  function HeaderOf(line: string): Option<SectionName> {
    FirstHeader(Strip(Lower(line)), SectionOrder)
  }

  /** The inner loop of `identify_sections`: the sections are tried in order and the first hit
      wins. */
  method FindHeader(low: string) returns (hit: Option<SectionName>)
    ensures hit == FirstHeader(low, SectionOrder)
  {
    var k := 0;
    while k < |SectionOrder|
      invariant 0 <= k <= |SectionOrder|
      invariant FirstHeader(low, SectionOrder[k..]) == FirstHeader(low, SectionOrder)
    {
      if HeaderMatch(low, SectionOrder[k]) && |low| < MaxHeaderLength {
        return Some(SectionOrder[k]);
      }
      assert SectionOrder[k..][1..] == SectionOrder[k + 1..];
      k := k + 1;
    }
    return None;
  }


  /** The `sections` dictionary at the start: every key, every value empty. */
  function EmptySections(): map<SectionName, string> {
    map[Education := "", Experience := "", Skills := "", Projects := "", Certifications := "", Summary := ""]
  }

  /** The loop state of `identify_sections`. */
  datatype ScanState = ScanState(current: Option<SectionName>, sections: map<SectionName, string>)

  const Start: ScanState := ScanState(None, EmptySections())

  /** `line.strip()` is not empty: some character is not whitespace (see `HasTextIsStrip`). */
  predicate HasText(line: string) {
    exists k :: 0 <= k < |line| && !IsSpace(line[k])
  }

  lemma HasTextIsStrip(line: string)
    ensures HasText(line) <==> Strip(line) != ""
  {
  }

  /** One line, whose header (if it is one) is `header`: a header changes the current section, then a
      non-blank line is appended, with `'\n'`, to the current section. */
  function Step(st: ScanState, line: string, header: Option<SectionName>): ScanState {
    var cur := if header.Some? then header else st.current;
    if cur.Some? && HasText(line) && cur.value in st.sections then
      ScanState(cur, st.sections[cur.value := st.sections[cur.value] + line + "\n"])
    else ScanState(cur, st.sections)
  }

  /** The scan over `lines`, each line's header given by `header` (`HeaderOf` in the program). */
  function Scan(lines: seq<string>, header: string -> Option<SectionName>): ScanState
    decreases |lines|
  {
    if lines == [] then Start
    else Step(Scan(lines[..|lines| - 1], header), lines[|lines| - 1], header(lines[|lines| - 1]))
  }

  /** `line_lower = line.lower().strip()`, then the inner loop over the sections. */
  method LineHeader(line: string) returns (hit: Option<SectionName>)
    ensures hit == HeaderOf(line)
  {
    var lineLower := Strip(Lower(line));
    hit := FindHeader(lineLower);
  }

  /** The rest of the line loop: move the current section to the header found, if any, then append a
      non-blank line to the current section. */
  method AddLine(current0: Option<SectionName>, sections0: map<SectionName, string>, line: string,
                 hit: Option<SectionName>)
    returns (current: Option<SectionName>, sections: map<SectionName, string>)
    ensures ScanState(current, sections) == Step(ScanState(current0, sections0), line, hit)
  {
    current, sections := current0, sections0;
    if hit.Some? {
      current := hit;
    }
    if current.Some? && HasText(line) && current.value in sections {
      sections := sections[current.value := sections[current.value] + line + "\n"];
    }
  }

  /** `identify_sections(text)` */
  function Sections(text: string): map<SectionName, string> {
    Scan(Split(text, '\n'), HeaderOf).sections
  }

  method IdentifySections(text: string) returns (sections: map<SectionName, string>)
    ensures sections == Sections(text)
  {
    var lines := Split(text, '\n');
    var current: Option<SectionName> := None;
    sections := EmptySections();
    for i := 0 to |lines|
      invariant ScanState(current, sections) == Scan(lines[..i], HeaderOf)
    {
      ScanNext(lines, i, HeaderOf);
      var line := lines[i];
      var hit := LineHeader(line);
      current, sections := AddLine(current, sections, line, hit);
    }
    assert lines[..|lines|] == lines;
  }

  /** The scan of one more line is one more step. */
  lemma ScanNext(lines: seq<string>, i: nat, header: string -> Option<SectionName>)
    requires i < |lines|
    ensures Scan(lines[..i + 1], header) == Step(Scan(lines[..i], header), lines[i], header(lines[i]))
  {
    assert lines[..i + 1][..i] == lines[..i];
  }

  // ---------------------------------------------------------------------------------------------
  // Properties of identify_sections
  // ---------------------------------------------------------------------------------------------

  /** The first hit: a section is chosen exactly when the candidate is short enough and some pattern
      is found, and it is the first such section in the order tried. */
  lemma {:induction false} FirstHeaderSpec(low: string, secs: seq<SectionName>)
    ensures FirstHeader(low, secs).Some? <==>
      |low| < MaxHeaderLength && exists j :: 0 <= j < |secs| && HeaderMatch(low, secs[j])
    ensures FirstHeader(low, secs).Some? ==>
      exists i :: (0 <= i < |secs| && secs[i] == FirstHeader(low, secs).value
                   && HeaderMatch(low, secs[i]) && forall j :: 0 <= j < i ==> !HeaderMatch(low, secs[j]))
    decreases |secs|
  {
    if secs != [] {
      FirstHeaderSpec(low, secs[1..]);
      if !(HeaderMatch(low, secs[0]) && |low| < MaxHeaderLength) {
        if FirstHeader(low, secs).Some? {
          var i :| 0 <= i < |secs[1..]| && secs[1..][i] == FirstHeader(low, secs).value
            && HeaderMatch(low, secs[1..][i]) && forall j :: 0 <= j < i ==> !HeaderMatch(low, secs[1..][j]);
          assert secs[i + 1] == secs[1..][i];
          forall j | 0 <= j < i + 1 ensures !HeaderMatch(low, secs[j]) {
            if j > 0 {
              assert secs[j] == secs[1..][j - 1];
            }
          }
        }
        if |low| < MaxHeaderLength && exists j :: 0 <= j < |secs| && HeaderMatch(low, secs[j]) {
          var j :| 0 <= j < |secs| && HeaderMatch(low, secs[j]);
          assert j > 0;
          assert secs[1..][j - 1] == secs[j];
        }
      }
    }
  }

  /** Every section is empty or ends in a newline. */
  predicate WellFormed(m: map<SectionName, string>) {
    (forall s: SectionName :: s in m)
    && forall s :: s in m ==> m[s] == "" || m[s][|m[s]| - 1] == '\n'
  }

  lemma StepWellFormed(st: ScanState, line: string, header: Option<SectionName>)
    requires WellFormed(st.sections)
    ensures WellFormed(Step(st, line, header).sections)
  {
    var cur := if header.Some? then header else st.current;
    if cur.Some? && HasText(line) && cur.value in st.sections {
      var v := st.sections[cur.value] + line + "\n";
      assert v[|v| - 1] == '\n';
      var m := st.sections[cur.value := v];
      forall s | s in m ensures m[s] == "" || m[s][|m[s]| - 1] == '\n' {
        if s != cur.value {
          assert m[s] == st.sections[s];
        }
      }
    }
  }

  /** The initial dictionary has every key and only empty values. */
  lemma EmptySectionsSpec()
    ensures forall s: SectionName :: s in EmptySections() && EmptySections()[s] == ""
    ensures WellFormed(EmptySections())
  {
    forall s: SectionName ensures s in EmptySections() && EmptySections()[s] == "" {
      match s
      case Education =>
      case Experience =>
      case Skills =>
      case Projects =>
      case Certifications =>
      case Summary =>
    }
  }

  lemma {:induction false} ScanWellFormed(lines: seq<string>, header: string -> Option<SectionName>)
    ensures WellFormed(Scan(lines, header).sections)
    decreases |lines|
  {
    if lines == [] {
      EmptySectionsSpec();
    } else {
      var init := lines[..|lines| - 1];
      ScanWellFormed(init, header);
      StepWellFormed(Scan(init, header), lines[|lines| - 1], header(lines[|lines| - 1]));
    }
  }

  /** `identify_sections` always returns the six keys, and each value is empty or ends in a
      newline. */
  lemma SectionsWellFormed(text: string)
    ensures forall s: SectionName :: s in Sections(text)
    ensures forall s :: s in Sections(text) ==> Sections(text)[s] == "" || Sections(text)[s][|Sections(text)[s]| - 1] == '\n'
  {
    ScanWellFormed(Split(text, '\n'), HeaderOf);
  }

  /** Lines before the first header land in no section: without a header line nothing is
      collected. */
  lemma {:induction false} NoHeaderNoContent(lines: seq<string>, header: string -> Option<SectionName>)
    requires forall i :: 0 <= i < |lines| ==> header(lines[i]).None?
    ensures Scan(lines, header) == Start
    decreases |lines|
  {
    if lines != [] {
      NoHeaderNoContent(lines[..|lines| - 1], header);
    }
  }

  /** A header line makes its section current and, unless blank, is the next text of that
      section; any other non-blank line is appended to the current section, if there is one.
      Nothing else changes. */
  lemma StepSpec(st: ScanState, line: string, header: Option<SectionName>)
    requires WellFormed(st.sections)
    ensures var next := Step(st, line, header);
      && next.current == (if header.Some? then header else st.current)
      && (forall s :: s in next.sections)
      && (forall s :: Some(s) != next.current ==> next.sections[s] == st.sections[s])
      && (next.current.Some? ==>
           (next.sections[next.current.value] ==
            st.sections[next.current.value] + (if HasText(line) then line + "\n" else "")))
  {
  }

  /** The total length of the six values. */
  function SectionsSize(m: map<SectionName, string>): nat {
    (if Education in m then |m[Education]| else 0) + (if Experience in m then |m[Experience]| else 0)
    + (if Skills in m then |m[Skills]| else 0) + (if Projects in m then |m[Projects]| else 0)
    + (if Certifications in m then |m[Certifications]| else 0) + (if Summary in m then |m[Summary]| else 0)
  }

  /** Each line with its newline. */
  function LinesSize(lines: seq<string>): nat
    decreases |lines|
  {
    if lines == [] then 0 else LinesSize(lines[..|lines| - 1]) + |lines[|lines| - 1]| + 1
  }

  lemma {:induction false} LinesSizeFront(lines: seq<string>)
    requires lines != []
    ensures LinesSize(lines) == |lines[0]| + 1 + LinesSize(lines[1..])
    decreases |lines|
  {
    if |lines| > 1 {
      var init := lines[..|lines| - 1];
      LinesSizeFront(init);
      assert init[1..] == lines[1..][..|lines[1..]| - 1];
    } else {
      assert lines[..0] == [];
    }
  }

  /** Splitting on a separator keeps every character but the separators. */
  lemma {:induction false} SplitSize(s: string, sep: char)
    ensures LinesSize(Split(s, sep)) == |s| + 1
    decreases |s|
  {
    if |s| == 0 {
      assert LinesSize([""]) == LinesSize([]) + 1 by { assert [""][..0] == []; }
    } else {
      var rest := Split(s[1..], sep);
      SplitSize(s[1..], sep);
      if s[0] == sep {
        LinesSizeFront([""] + rest);
        assert ([""] + rest)[1..] == rest;
      } else {
        var r := [[s[0]] + rest[0]] + rest[1..];
        LinesSizeFront(r);
        LinesSizeFront(rest);
        assert r[1..] == rest[1..];
      }
    }
  }

  lemma SizeUpdate(m: map<SectionName, string>, s: SectionName, v: string)
    requires s in m
    ensures SectionsSize(m[s := v]) + |m[s]| == SectionsSize(m) + |v|
  {
  }

  /** One step adds at most the line and its newline. */
  lemma StepSize(st: ScanState, line: string, header: Option<SectionName>)
    ensures SectionsSize(Step(st, line, header).sections) <= SectionsSize(st.sections) + |line| + 1
  {
    var cur := if header.Some? then header else st.current;
    if cur.Some? && HasText(line) && cur.value in st.sections {
      SizeUpdate(st.sections, cur.value, st.sections[cur.value] + line + "\n");
    }
  }

  /** Every line is appended at most once: the sections together never hold more than the lines
      with their newlines. */
  lemma {:induction false} ScanSize(lines: seq<string>, header: string -> Option<SectionName>)
    ensures SectionsSize(Scan(lines, header).sections) <= LinesSize(lines)
    decreases |lines|
  {
    if lines != [] {
      var init := lines[..|lines| - 1];
      ScanSize(init, header);
      StepSize(Scan(init, header), lines[|lines| - 1], header(lines[|lines| - 1]));
    }
  }

  /** The six sections together are at most one character longer than the résumé. */
  lemma SectionsSizeBound(text: string)
    ensures SectionsSize(Sections(text)) <= |text| + 1
  {
    ScanSize(Split(text, '\n'), HeaderOf);
    SplitSize(text, '\n');
  }

  /** A text without newlines is one line; when its lower-cased, stripped form has 50 or more
      characters that line is no header, so every section stays empty. */
  lemma SingleLongLineNoSections(text: string)
    requires '\n' !in text && |Strip(Lower(text))| >= MaxHeaderLength
    ensures Sections(text) == EmptySections()
  {
    LongLineNoHeader(text);
    NoHeaderNoContent([text], HeaderOf);
  }

  /** A line whose lower-cased, stripped form has 50 or more characters is no header. */
  lemma LongLineNoHeader(line: string)
    requires |Strip(Lower(line))| >= MaxHeaderLength
    ensures HeaderOf(line) == None
  {
    FirstHeaderSpec(Strip(Lower(line)), SectionOrder);
  }

  // ---------------------------------------------------------------------------------------------
  // Sub-scores
  // ---------------------------------------------------------------------------------------------

  /** `required_sections` */
  const RequiredSections: seq<SectionName> := [Education, Experience, Skills]

  /** `sum(1 for sec in secs if sections[sec].strip())` */
  function CountFilled(m: map<SectionName, string>, secs: seq<SectionName>): nat
    decreases |secs|
  {
    if secs == [] then 0
    else CountFilled(m, secs[..|secs| - 1])
         + (if secs[|secs| - 1] in m && HasText(m[secs[|secs| - 1]]) then 1 else 0)
  }

  /** `calculate_section_score` */
  function SectionScore(resume: string): real {
    (CountFilled(Sections(resume), RequiredSections) as real / |RequiredSections| as real) * SectionWeight
  }

  lemma {:induction false} CountFilledBound(m: map<SectionName, string>, secs: seq<SectionName>)
    ensures CountFilled(m, secs) <= |secs|
    decreases |secs|
  {
    if secs != [] {
      CountFilledBound(m, secs[..|secs| - 1]);
    }
  }

  /** The section score is 5 for each of education, experience and skills that is not blank: one
      of 0, 5, 10 and 15. */
  lemma SectionScoreSpec(resume: string)
    ensures SectionScore(resume) == 5.0 * CountFilled(Sections(resume), RequiredSections) as real
    ensures SectionScore(resume) in {0.0, 5.0, 10.0, 15.0}
  {
    FilledScore(Sections(resume));
  }

  /** The score earned by the sections of `m`: 5 for each required one that is not blank. */
  lemma FilledScore(m: map<SectionName, string>)
    ensures var n := CountFilled(m, RequiredSections);
      && (n as real / |RequiredSections| as real) * SectionWeight == 5.0 * n as real
      && 5.0 * n as real in {0.0, 5.0, 10.0, 15.0}
  {
    var n := CountFilled(m, RequiredSections);
    CountFilledBound(m, RequiredSections);
    assert n == 0 || n == 1 || n == 2 || n == 3;
  }

  /** `calculate_contact_score`, the e-mail and phone patterns given as predicates. */
  method ContactScoreOf(resume: string, hasEmail: string -> bool, hasPhone: string -> bool) returns (score: real)
    ensures score == ContactScore(resume, hasEmail, hasPhone)
  {
    score := 0.0;
    if hasEmail(resume) {
      score := score + 5.0;
    }
    if hasPhone(resume) {
      score := score + 5.0;
    }
  }

  function ContactScore(resume: string, hasEmail: string -> bool, hasPhone: string -> bool): real {
    (if hasEmail(resume) then 5.0 else 0.0) + (if hasPhone(resume) then 5.0 else 0.0)
  }

  /** `calculate_formatting_score` */
  method FormattingScoreOf(resume: string) returns (score: real)
    ensures score == FormattingScore(resume)
  {
    score := 0.0;
    if |resume| > 500 {
      score := score + 5.0;
    }
    if |Split(resume, '\n')| > 10 {
      score := score + 5.0;
    }
  }

  function FormattingScore(resume: string): real {
    (if |resume| > 500 then 5.0 else 0.0) + (if |Split(resume, '\n')| > 10 then 5.0 else 0.0)
  }

  /** Contact and formatting scores are sums of two independent 5-point checks; a text without
      newlines never gets the line-count points. */
  lemma ContactFormattingSpec(resume: string, hasEmail: string -> bool, hasPhone: string -> bool)
    ensures ContactScore(resume, hasEmail, hasPhone) in {0.0, 5.0, 10.0}
    ensures ContactScore(resume, hasEmail, hasPhone) == 10.0 <==> hasEmail(resume) && hasPhone(resume)
    ensures FormattingScore(resume) in {0.0, 5.0, 10.0}
    ensures '\n' !in resume ==> FormattingScore(resume) == (if |resume| > 500 then 5.0 else 0.0)
  {
  }

  /** How many of `phrases` occur in `text`. */
  function CountContained(phrases: seq<string>, text: string): nat
    decreases |phrases|
  {
    if phrases == [] then 0
    else CountContained(phrases[..|phrases| - 1], text) + (if Contains(text, phrases[|phrases| - 1]) then 1 else 0)
  }

  lemma {:induction false} CountContainedBound(phrases: seq<string>, text: string)
    ensures CountContained(phrases, text) <= |phrases|
    decreases |phrases|
  {
    if phrases != [] {
      CountContainedBound(phrases[..|phrases| - 1], text);
    }
  }

  /** A share of `k` out of `n` lies in [0, 1]. */
  lemma RatioBounds(k: nat, n: nat)
    requires 0 < n && k <= n
    ensures 0.0 <= k as real / n as real <= 1.0
    ensures (k as real / n as real) * n as real == k as real
  {
  }

  /** `jd_phrases`: the first 15 word trigrams of the lower-cased JD. */
  function JdPhrases(jd: string): seq<string> {
    Take(PhraseTrigrams(Lower(jd)), MaxContextPhrases)
  }

  /** `calculate_contextual_score` */
  /** Five times the share of `phrases` that occur in `text`; 0 without phrases. */
  function PhraseShare(phrases: seq<string>, text: string): real {
    if phrases == [] then 0.0
    else (CountContained(phrases, text) as real / |phrases| as real) * ContextualWeight
  }

  /** `calculate_contextual_score` */
  function ContextualScore(resume: string, jd: string): real {
    PhraseShare(JdPhrases(jd), Lower(resume))
  }

  /** `k` of `n` found, out of `w` points. */
  lemma ShareOf(k: nat, n: nat, w: real)
    requires 0 < n && k <= n && 0.0 < w
    ensures 0.0 <= (k as real / n as real) * w <= w
    ensures ((k as real / n as real) * w) * n as real == w * k as real
    ensures (k as real / n as real) * w == w <==> k == n
  {
    var q := k as real / n as real;
    RatioBounds(k, n);
    calc {
      (q * w) * n as real;
      w * (q * n as real);
      w * k as real;
    }
    if q * w == w {
      assert q == 1.0;
    }
  }

  /** The share of the phrases found, out of 5 points: 0 without phrases, 5 exactly when every
      phrase is found. */
  lemma PhraseShareSpec(phrases: seq<string>, text: string)
    ensures phrases == [] ==> PhraseShare(phrases, text) == 0.0
    ensures phrases != [] ==>
      PhraseShare(phrases, text) * |phrases| as real == 5.0 * CountContained(phrases, text) as real
    ensures phrases != [] ==> (PhraseShare(phrases, text) == ContextualWeight <==> CountContained(phrases, text) == |phrases|)
    ensures 0.0 <= PhraseShare(phrases, text) <= ContextualWeight
  {
    CountContainedBound(phrases, text);
    if phrases != [] {
      ShareOf(CountContained(phrases, text), |phrases|, ContextualWeight);
    }
  }

  /** The contextual score looks at no more than 15 JD trigrams, is 0 without them, and lies
      between 0 and 5. */
  lemma ContextualScoreSpec(resume: string, jd: string)
    ensures |JdPhrases(jd)| <= MaxContextPhrases
    ensures JdPhrases(jd) == [] ==> ContextualScore(resume, jd) == 0.0
    ensures 0.0 <= ContextualScore(resume, jd) <= ContextualWeight
  {
    var phrases, text := JdPhrases(jd), Lower(resume);
    assert ContextualScore(resume, jd) == PhraseShare(phrases, text);
    PhraseShareSpec(phrases, text);
  }

  // ---------------------------------------------------------------------------------------------
  // calculate_ats_score
  // ---------------------------------------------------------------------------------------------

  datatype Label = Excellent | Good | Fair | Poor

  /** The label of an (unrounded) score. */
  function LabelOf(score: real): Label {
    if score >= ExcellentThreshold then Excellent
    else if score >= GoodThreshold then Good
    else if score >= FairThreshold then Fair
    else Poor
  }

  /** The keyword part: the matched share of the JD keywords, nothing without JD keywords. */
  function KeywordPart(matched: seq<string>, jdKeywords: seq<string>): real {
    if jdKeywords == [] then 0.0 else (|matched| as real / |jdKeywords| as real) * KeywordWeight
  }

  /** The keyword part is the matched share of 25 points: 0 without JD keywords, 25 exactly when
      every JD keyword is matched. */
  lemma KeywordPartSpec(matched: seq<string>, jdKeywords: seq<string>)
    requires |matched| <= |jdKeywords|
    ensures 0.0 <= KeywordPart(matched, jdKeywords) <= KeywordWeight
    ensures jdKeywords == [] ==> KeywordPart(matched, jdKeywords) == 0.0
    ensures jdKeywords != [] ==> (KeywordPart(matched, jdKeywords) == KeywordWeight <==> |matched| == |jdKeywords|)
  {
    if jdKeywords != [] {
      ShareOf(|matched|, |jdKeywords|, KeywordWeight);
    }
  }

  /** `calculate_ats_score`, before `round(score, 2)`. */
  function AtsScore(resume: string, jd: string, matched: seq<string>, jdKeywords: seq<string>,
                    similarity: real, hasEmail: string -> bool, hasPhone: string -> bool): real
  {
    KeywordPart(matched, jdKeywords) + similarity * SemanticWeight + SectionScore(resume)
    + ContactScore(resume, hasEmail, hasPhone) + FormattingScore(resume) + ContextualScore(resume, jd)
  }

  method CalculateAtsScore(resume: string, jd: string, matched: seq<string>, jdKeywords: seq<string>,
                           similarity: real, hasEmail: string -> bool, hasPhone: string -> bool)
    returns (score: real, rating: Label)
    ensures score == AtsScore(resume, jd, matched, jdKeywords, similarity, hasEmail, hasPhone)
    ensures rating == LabelOf(score)
  {
    score := 0.0;
    if jdKeywords != [] {
      var keywordRatio := |matched| as real / |jdKeywords| as real;
      score := score + keywordRatio * KeywordWeight;
    }
    score := score + similarity * SemanticWeight;
    score := score + SectionScore(resume);
    var contact := ContactScoreOf(resume, hasEmail, hasPhone);
    score := score + contact;
    var formatting := FormattingScoreOf(resume);
    score := score + formatting;
    score := score + ContextualScore(resume, jd);
    if score >= ExcellentThreshold {
      rating := Excellent;
    } else if score >= GoodThreshold {
      rating := Good;
    } else if score >= FairThreshold {
      rating := Fair;
    } else {
      rating := Poor;
    }
  }

  /** With a similarity in [0, 1] and no more matched than JD keywords, the score is in [0, 100]:
      the weights add up to 100 and every part stays within its weight. */
  lemma AtsScoreBounds(resume: string, jd: string, matched: seq<string>, jdKeywords: seq<string>,
                       similarity: real, hasEmail: string -> bool, hasPhone: string -> bool)
    requires 0.0 <= similarity <= 1.0
    requires |matched| <= |jdKeywords|
    ensures 0.0 <= AtsScore(resume, jd, matched, jdKeywords, similarity, hasEmail, hasPhone) <= 100.0
  {
    var kp := KeywordPart(matched, jdKeywords);
    var sec := SectionScore(resume);
    var con := ContactScore(resume, hasEmail, hasPhone);
    var fmt := FormattingScore(resume);
    var ctx := ContextualScore(resume, jd);
    KeywordPartSpec(matched, jdKeywords);
    SectionScoreSpec(resume);
    ContactFormattingSpec(resume, hasEmail, hasPhone);
    ContextualScoreSpec(resume, jd);
    assert AtsScore(resume, jd, matched, jdKeywords, similarity, hasEmail, hasPhone)
      == kp + similarity * SemanticWeight + sec + con + fmt + ctx;
  }

  /** The rank of a label, Poor lowest. */
  function Rank(l: Label): nat {
    match l
    case Poor => 0
    case Fair => 1
    case Good => 2
    case Excellent => 3
  }

  /** The label is a step function of the score that never goes down as the score goes up. */
  lemma LabelMonotone(s1: real, s2: real)
    requires s1 <= s2
    ensures Rank(LabelOf(s1)) <= Rank(LabelOf(s2))
    ensures LabelOf(s2) == Excellent <==> s2 >= 70.0
    ensures LabelOf(s2) == Poor <==> s2 < 35.0
    ensures LabelOf(s2) == Good <==> 55.0 <= s2 < 70.0
  {
  }
}
