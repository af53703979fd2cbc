/**
 * Years of experience (`ExperienceParser`): the explicit "N years" mentions of a text, the date-range
 * fallback `YYYY - YYYY` / `YYYY - present`, and the piecewise match score of a candidate's years
 * against the years a job requires.
 *
 * Every regular expression is applied to the lower-cased text, and each is modelled by a left-to-
 * right scanner that, like `re.findall`, resumes after the end of each match.  The doc comment of
 * each scanner says why backtracking cannot change what it finds.
 */
module ExperienceParser {
  import opened Text
  import opened Wrappers

  /** `current_year` */
  const CurrentYear: int := 2025

  /** The lower bound on a start year that `_calculate_from_date_ranges` accepts. */
  const EarliestYear: int := 1980

  /** `w` occurs in `s` at position `i`. */
  predicate StartsAt(s: string, i: nat, w: string) {
    i + |w| <= |s| && s[i..i + |w|] == w
  }

  predicate LowerLetters(w: string) {
    forall j :: 0 <= j < |w| ==> IsLowerLetter(w[j])
  }

  lemma LettersAt(s: string, i: nat, w: string)
    requires StartsAt(s, i, w) && LowerLetters(w)
    ensures forall k :: i <= k < i + |w| ==> !IsDigit(s[k])
  {
    forall k | i <= k < i + |w| ensures !IsDigit(s[k]) {
      assert s[k] == s[i..i + |w|][k - i];
    }
  }

  /** `int(d)` for a string of decimal digits. */
  function DigitsValue(d: string): nat
    decreases |d|
  {
    if d == [] then 0
    else 10 * DigitsValue(d[..|d| - 1]) + (if IsDigit(d[|d| - 1]) then d[|d| - 1] as int - '0' as int else 0)
  }

  /** The words the patterns look for are lower-case letters. */
  lemma KeywordsAreLetters()
    ensures LowerLetters("year") && LowerLetters("yr") && LowerLetters("of")
    ensures LowerLetters("exp") && LowerLetters("experience")
  {
    assert "year"[0] == 'y' && "year"[1] == 'e' && "year"[2] == 'a' && "year"[3] == 'r';
    assert "yr"[0] == 'y' && "yr"[1] == 'r';
    assert "of"[0] == 'o' && "of"[1] == 'f';
    var w := "experience";
    assert w[0] == 'e' && w[1] == 'x' && w[2] == 'p' && w[3] == 'e' && w[4] == 'r';
    assert w[5] == 'i' && w[6] == 'e' && w[7] == 'n' && w[8] == 'c' && w[9] == 'e';
    assert "exp" == w[..3];
  }

  /** `(?:years?|yrs?)` at `k`: the end of the unit word, greedy on the final `s`. */
  function YearWordEnd(s: string, k: nat): (r: Option<nat>)
    requires k <= |s|
    ensures r.Some? ==> k < r.value <= |s| && forall j :: k <= j < r.value ==> !IsDigit(s[j])
  {
    KeywordsAreLetters();
    if StartsAt(s, k, "year") then
      LettersAt(s, k, "year");
      Some(if k + 4 < |s| && s[k + 4] == 's' then k + 5 else k + 4)
    else if StartsAt(s, k, "yr") then
      LettersAt(s, k, "yr");
      Some(if k + 2 < |s| && s[k + 2] == 's' then k + 3 else k + 2)
    else None
  }

  /** `\+?\s*(?:years?|yrs?)` right after a run of digits ending at `e`.  Giving back the `+` or some
      of the whitespace would leave a `+` or a space where the unit word has to start. */
  function UnitEnd(s: string, e: nat): (r: Option<nat>)
    requires e <= |s|
    ensures r.Some? ==> e < r.value <= |s| && forall j :: e <= j < r.value ==> !IsDigit(s[j])
  {
    var k := if e < |s| && s[e] == '+' then e + 1 else e;
    var k2 := RunEnd(s, k, IsSpace);
    YearWordEnd(s, k2)
  }

  /** `\s*(?:of)?\s*(?:experience|exp)` at `k`.  `experience` is tried first; giving back `of` or
      whitespace would leave an `o` or a space where `exp` has to start. */
  function ExperienceWordEnd(s: string, k: nat): (r: Option<nat>)
    requires k <= |s|
    ensures r.Some? ==> k < r.value <= |s| && forall j :: k <= j < r.value ==> !IsDigit(s[j])
  {
    KeywordsAreLetters();
    var k1 := RunEnd(s, k, IsSpace);
    var k2 := if StartsAt(s, k1, "of") then LettersAt(s, k1, "of"); k1 + 2 else k1;
    var k3 := RunEnd(s, k2, IsSpace);
    if StartsAt(s, k3, "experience") then
      LettersAt(s, k3, "experience");
      Some(k3 + 10)
    else if StartsAt(s, k3, "exp") then
      LettersAt(s, k3, "exp");
      Some(k3 + 3)
    else None
  }

  /** `i` starts a maximal run of digits. */
  predicate DigitRunStart(s: string, i: nat) {
    i < |s| && IsDigit(s[i]) && (i == 0 || !IsDigit(s[i - 1]))
  }

  /** Nothing at `p` continues a run of digits begun before it. */
  predicate AtRunBoundary(s: string, p: nat) {
    p == 0 || p >= |s| || !IsDigit(s[p - 1]) || !IsDigit(s[p])
  }

  /** `re.findall(r'(\d+)\+?\s*(?:years?|yrs?)', s)`: the digit runs followed by a unit word.  A
      shorter `\d+` would be followed by a digit, and every later start inside the same run reaches
      the same end, so a run is found whole or not at all and the search resumes at its end. */
  function YearMentionsFrom(s: string, i: nat): seq<string>
    requires i <= |s|
    decreases |s| - i
  {
    if i == |s| then []
    else if IsDigit(s[i]) then
      var e := RunEnd(s, i, IsDigit);
      match UnitEnd(s, e)
      case Some(m) => [s[i..e]] + YearMentionsFrom(s, m)
      case None => YearMentionsFrom(s, e)
    else YearMentionsFrom(s, i + 1)
  }

  /** `re.findall(r'(\d+)\+?\s*(?:years?|yrs?)\s*(?:of)?\s*(?:experience|exp)', s)` */
  function ExplicitExperienceFrom(s: string, i: nat): seq<string>
    requires i <= |s|
    decreases |s| - i
  {
    if i == |s| then []
    else if IsDigit(s[i]) then
      var e := RunEnd(s, i, IsDigit);
      match UnitEnd(s, e)
      case Some(m) =>
        (match ExperienceWordEnd(s, m)
         case Some(m2) => [s[i..e]] + ExplicitExperienceFrom(s, m2)
         case None => ExplicitExperienceFrom(s, e))
      case None => ExplicitExperienceFrom(s, e)
    else ExplicitExperienceFrom(s, i + 1)
  }

  predicate IsColonOrSpace(c: char) {
    c == ':' || IsSpace(c)
  }

  /** `re.findall(r'experience[:\s]+(\d+)\+?\s*(?:years?|yrs?)', s)`.  Giving back part of
      `[:\s]+` would leave a colon or a space where `\d+` has to start. */
  function ExperienceLabelFrom(s: string, i: nat): seq<string>
    requires i <= |s|
    decreases |s| - i
  {
    if i == |s| then []
    else if StartsAt(s, i, "experience") then
      var j := RunEnd(s, i + 10, IsColonOrSpace);
      if j > i + 10 && j < |s| && IsDigit(s[j]) then
        var e := RunEnd(s, j, IsDigit);
        match UnitEnd(s, e)
        case Some(m) => [s[j..e]] + ExperienceLabelFrom(s, m)
        case None => ExperienceLabelFrom(s, i + 1)
      else ExperienceLabelFrom(s, i + 1)
    else ExperienceLabelFrom(s, i + 1)
  }

  /** The three patterns of `extract_experience_years`, in the order they are tried. */
  datatype Pattern = ExplicitExperience | ExperienceLabel | YearMention

  const Patterns: seq<Pattern> := [ExplicitExperience, ExperienceLabel, YearMention]

  /** `re.findall(pattern, s)`: the captured digit strings. */
  function FindAll(p: Pattern, s: string): seq<string> {
    match p
    case ExplicitExperience => ExplicitExperienceFrom(s, 0)
    case ExperienceLabel => ExperienceLabelFrom(s, 0)
    case YearMention => YearMentionsFrom(s, 0)
  }

  /** `[int(m) for m in matches]` */
  function Values(ms: seq<string>): (r: seq<int>)
    ensures |r| == |ms| && forall i :: 0 <= i < |ms| ==> r[i] == DigitsValue(ms[i])
  {
    seq(|ms|, i requires 0 <= i < |ms| => DigitsValue(ms[i]) as int)
  }

  /** The `years` list after the loop over the first `ps` patterns. */
  function Captured(ps: seq<Pattern>, s: string): seq<int>
    decreases |ps|
  {
    if ps == [] then [] else Captured(ps[..|ps| - 1], s) + Values(FindAll(ps[|ps| - 1], s))
  }

  /** `max(xs)` */
  function MaxOf(xs: seq<int>): (m: int)
    requires xs != []
    ensures m in xs
    ensures forall i :: 0 <= i < |xs| ==> xs[i] <= m
    decreases |xs|
  {
    if |xs| == 1 then xs[0]
    else
      var m := MaxOf(xs[..|xs| - 1]);
      assert forall i :: 0 <= i < |xs| - 1 ==> xs[i] == xs[..|xs| - 1][i];
      if xs[|xs| - 1] > m then xs[|xs| - 1] else m
  }

  // ---------------------------------------------------------------------------------------------
  // Date ranges
  // ---------------------------------------------------------------------------------------------

  predicate IsDash(c: char) {
    c == '-' || c == '\U{2013}' || c == '\U{2014}'
  }

  /** Four digits at `i`. */
  predicate FourDigitsAt(s: string, i: nat) {
    i + 4 <= |s| && IsDigit(s[i]) && IsDigit(s[i + 1]) && IsDigit(s[i + 2]) && IsDigit(s[i + 3])
  }

  /** One match of the date-range pattern: the start year and, unless it ended in `present` or
      `current`, the end year. */
  datatype DateRange = DateRange(start: nat, end: Option<nat>)

  /** `re.findall(r'(\d{4})\s*[-–—]\s*(?:(\d{4})|present|current)', s)`.  `\d{4}` takes exactly four
      digits, so a match may start inside a longer run of digits; giving back whitespace would leave a
      space where the dash or the end has to start. */
  function DateRangesFrom(s: string, i: nat): seq<DateRange>
    requires i <= |s|
    decreases |s| - i
  {
    if i == |s| then []
    else if FourDigitsAt(s, i) then
      var k := RunEnd(s, i + 4, IsSpace);
      if k < |s| && IsDash(s[k]) then
        var k2 := RunEnd(s, k + 1, IsSpace);
        if FourDigitsAt(s, k2) then
          [DateRange(DigitsValue(s[i..i + 4]), Some(DigitsValue(s[k2..k2 + 4])))] + DateRangesFrom(s, k2 + 4)
        else if StartsAt(s, k2, "present") || StartsAt(s, k2, "current") then
          [DateRange(DigitsValue(s[i..i + 4]), None)] + DateRangesFrom(s, k2 + 7)
        else DateRangesFrom(s, i + 1)
      else DateRangesFrom(s, i + 1)
    else DateRangesFrom(s, i + 1)
  }

  function DateRanges(text: string): seq<DateRange> {
    DateRangesFrom(Lower(text), 0)
  }

  /** `int(end) if end else current_year` */
  function EndYear(r: DateRange): int {
    match r.end
    case Some(y) => y
    case None => CurrentYear
  }

  /** `1980 <= start_year <= current_year and start_year <= end_year <= current_year` */
  predicate IsValidRange(r: DateRange) {
    EarliestYear <= r.start <= CurrentYear && r.start <= EndYear(r) <= CurrentYear
  }

  /** The years a range adds to the total: its length when valid, else nothing. */
  function Duration(r: DateRange): int {
    if IsValidRange(r) then EndYear(r) - r.start else 0
  }

  /** `total_exp` after the loop over `rs`. */
  function TotalDuration(rs: seq<DateRange>): int
    decreases |rs|
  {
    if rs == [] then 0 else TotalDuration(rs[..|rs| - 1]) + Duration(rs[|rs| - 1])
  }

  /** `_calculate_from_date_ranges` */
  function DateRangeYears(text: string): int {
    var rs := DateRanges(text);
    if rs == [] then 0
    else
      var total := TotalDuration(rs);
      if total > 0 then total else 0
  }

  method CalculateFromDateRanges(text: string) returns (years: int)
    ensures years == DateRangeYears(text)
  {
    var ranges := DateRangesFrom(Lower(text), 0);
    if ranges == [] {
      return 0;
    }
    var total := 0;
    for i := 0 to |ranges|
      invariant total == TotalDuration(ranges[..i])
    {
      assert ranges[..i + 1][..i] == ranges[..i];
      var startYear := ranges[i].start;
      var endYear := if ranges[i].end.Some? then ranges[i].end.value else CurrentYear;
      if EarliestYear <= startYear <= CurrentYear && startYear <= endYear <= CurrentYear {
        total := total + (endYear - startYear);
      }
    }
    assert ranges[..|ranges|] == ranges;
    years := if total > 0 then total else 0;
  }

  // ---------------------------------------------------------------------------------------------
  // extract_experience_years
  // ---------------------------------------------------------------------------------------------

  /** `extract_experience_years` */
  function ExperienceYears(text: string): int {
    var years := Captured(Patterns, Lower(text));
    if years != [] then MaxOf(years)
    else
      var total := DateRangeYears(text);
      if total > 0 then total else 0
  }

  /** The loop of `extract_experience_years` that extends `years` pattern by pattern. */
  method CollectYears(low: string) returns (years: seq<int>)
    ensures years == Captured(Patterns, low)
  {
    years := [];
    for k := 0 to |Patterns|
      invariant years == Captured(Patterns[..k], low)
    {
      assert Patterns[..k + 1][..k] == Patterns[..k];
      years := years + Values(FindAll(Patterns[k], low));
    }
    assert Patterns[..|Patterns|] == Patterns;
  }

  method ExtractExperienceYears(text: string) returns (result: int)
    ensures result == ExperienceYears(text)
  {
    var years := CollectYears(Lower(text));
    if years != [] {
      return MaxOf(years);
    }
    var total := CalculateFromDateRanges(text);
    if total > 0 {
      return total;
    }
    return 0;
  }

  // ---------------------------------------------------------------------------------------------
  // calculate_experience_match
  // ---------------------------------------------------------------------------------------------

  /** `calculate_experience_match(required_years, candidate_years)` */
  function ExperienceMatch(required: int, candidate: int): real {
    if required == 0 then 100.0
    else if required <= 2 && candidate > 0 then 100.0
    else if candidate == 0 && required <= 2 then 60.0
    else
      var ratio := (candidate as real / required as real) * 100.0;
      if ratio < 100.0 then ratio else 100.0
  }

  /** The match score is 100 when nothing is required, and for one or two years required it is 100
      with any experience and 60 with none. */
  lemma ExperienceMatchEntryLevel(required: int, candidate: int)
    requires candidate >= 0
    ensures required == 0 ==> ExperienceMatch(required, candidate) == 100.0
    ensures 1 <= required <= 2 && candidate > 0 ==> ExperienceMatch(required, candidate) == 100.0
    ensures 1 <= required <= 2 && candidate == 0 ==> ExperienceMatch(required, candidate) == 60.0
  {
  }

  /** From three years required on, the score is the candidate's share of the requirement in
      percent, and 100 once the requirement is met. */
  lemma ExperienceMatchRatio(required: int, candidate: int)
    requires required >= 3 && candidate >= 0
    ensures candidate <= required ==>
      ExperienceMatch(required, candidate) * required as real == 100.0 * candidate as real
    ensures candidate >= required ==> ExperienceMatch(required, candidate) == 100.0
  {
    var q := candidate as real / required as real;
    assert q * required as real == candidate as real;
    if candidate <= required {
      assert q <= 1.0;
    } else {
      assert q >= 1.0;
    }
  }

  /** For non-negative years the score is a percentage. */
  lemma ExperienceMatchBounds(required: int, candidate: int)
    requires required >= 0 && candidate >= 0
    ensures 0.0 <= ExperienceMatch(required, candidate) <= 100.0
  {
    if required > 2 {
      assert candidate as real / required as real >= 0.0;
    }
  }

  /** More experience never lowers the score. */
  lemma ExperienceMatchMonotone(required: int, c1: int, c2: int)
    requires 0 <= c1 <= c2
    ensures ExperienceMatch(required, c1) <= ExperienceMatch(required, c2)
  {
    if required != 0 && !(required <= 2 && c2 > 0) {
      if required > 2 {
        assert c1 as real / required as real <= c2 as real / required as real;
      } else if required < 0 {
        assert c1 == 0 && c2 == 0;
      }
    }
  }

  // ---------------------------------------------------------------------------------------------
  // Properties of extract_experience_years
  // ---------------------------------------------------------------------------------------------

  /** Every maximal run of digits followed by a unit word at or after `p` is found by the
      unit-word scanner started at `p`. */
  lemma {:induction false} YearMentionsComplete(s: string, p: nat, i: nat)
    requires p <= i && DigitRunStart(s, i)
    requires UnitEnd(s, RunEnd(s, i, IsDigit)).Some?
    ensures s[i..RunEnd(s, i, IsDigit)] in YearMentionsFrom(s, p)
    decreases |s| - p
  {
    if p < i {
      if !IsDigit(s[p]) {
        YearMentionsComplete(s, p + 1, i);
      } else {
        var e := RunEnd(s, p, IsDigit);
        assert i - 1 >= e;
        match UnitEnd(s, e)
        case Some(m) =>
          assert i >= m;
          YearMentionsComplete(s, m, i);
        case None =>
          YearMentionsComplete(s, e, i);
      }
    }
  }

  /** What the first pattern captures, the third captures too. */
  lemma {:induction false} ExplicitAreMentions(s: string, p: nat)
    requires p <= |s| && AtRunBoundary(s, p)
    ensures forall x :: x in ExplicitExperienceFrom(s, p) ==> x in YearMentionsFrom(s, 0)
    decreases |s| - p
  {
    if p < |s| {
      if IsDigit(s[p]) {
        var e := RunEnd(s, p, IsDigit);
        var u := UnitEnd(s, e);
        if u.Some? && ExperienceWordEnd(s, u.value).Some? {
          var m2 := ExperienceWordEnd(s, u.value).value;
          assert ExplicitExperienceFrom(s, p) == [s[p..e]] + ExplicitExperienceFrom(s, m2);
          YearMentionsComplete(s, 0, p);
          ExplicitAreMentions(s, m2);
        } else {
          assert ExplicitExperienceFrom(s, p) == ExplicitExperienceFrom(s, e);
          ExplicitAreMentions(s, e);
        }
      } else {
        assert ExplicitExperienceFrom(s, p) == ExplicitExperienceFrom(s, p + 1);
        ExplicitAreMentions(s, p + 1);
      }
    }
  }

  /** What the second pattern captures, the third captures too. */
  lemma {:induction false} LabelledAreMentions(s: string, p: nat)
    requires p <= |s|
    ensures forall x :: x in ExperienceLabelFrom(s, p) ==> x in YearMentionsFrom(s, 0)
    decreases |s| - p
  {
    if p < |s| {
      if StartsAt(s, p, "experience") {
        var j := RunEnd(s, p + 10, IsColonOrSpace);
        if j > p + 10 && j < |s| && IsDigit(s[j]) {
          var e := RunEnd(s, j, IsDigit);
          match UnitEnd(s, e)
          case Some(m) =>
            assert IsColonOrSpace(s[j - 1]);
            YearMentionsComplete(s, 0, j);
            LabelledAreMentions(s, m);
          case None =>
            LabelledAreMentions(s, p + 1);
        } else {
          LabelledAreMentions(s, p + 1);
        }
      } else {
        LabelledAreMentions(s, p + 1);
      }
    }
  }

  lemma ValuesMembers(a: seq<string>, b: seq<string>)
    requires forall x :: x in a ==> x in b
    ensures forall v :: v in Values(a) ==> v in Values(b)
  {
    forall v | v in Values(a) ensures v in Values(b) {
      var i :| 0 <= i < |a| && Values(a)[i] == v;
      assert a[i] in a;
      var j :| 0 <= j < |b| && b[j] == a[i];
      assert Values(b)[j] == v;
    }
  }

  /** Elements that add nothing new leave the maximum alone. */
  lemma MaxOfCovered(a: seq<int>, b: seq<int>)
    requires b != [] && forall x :: x in a ==> x in b
    ensures MaxOf(a + b) == MaxOf(b)
  {
    var m := MaxOf(a + b);
    var n := MaxOf(b);
    assert n in a + b;
    assert m in b by {
      assert m in a || m in b;
    }
    var i :| 0 <= i < |a + b| && (a + b)[i] == n;
    var j :| 0 <= j < |b| && b[j] == m;
  }

  /** `years` holds the captures of the three patterns, in order. */
  lemma CapturedPatterns(s: string)
    ensures Captured(Patterns, s) ==
      Values(FindAll(ExplicitExperience, s)) + Values(FindAll(ExperienceLabel, s)) + Values(FindAll(YearMention, s))
  {
    var p0, p1, p2 := Patterns[..1], Patterns[..2], Patterns;
    assert p0[..0] == [] && p1[..1] == p0 && p2[..2] == p1;
    assert Captured(p0, s) == Values(FindAll(ExplicitExperience, s));
    assert Captured(p1, s) == Captured(p0, s) + Values(FindAll(ExperienceLabel, s));
    assert Captured(p2, s) == Captured(p1, s) + Values(FindAll(YearMention, s));
  }

  /** Every year count the two longer patterns capture is also captured by the third. */
  lemma MentionsCoverCaptures(low: string)
    ensures forall v :: v in Values(FindAll(ExplicitExperience, low)) + Values(FindAll(ExperienceLabel, low)) ==>
      v in Values(FindAll(YearMention, low))
    ensures FindAll(YearMention, low) == [] ==>
      FindAll(ExplicitExperience, low) == [] && FindAll(ExperienceLabel, low) == []
  {
    var v12 := Values(FindAll(ExplicitExperience, low)) + Values(FindAll(ExperienceLabel, low));
    if v12 != [] {
      assert v12[0] in v12;
    }
    ExplicitAreMentions(low, 0);
    LabelledAreMentions(low, 0);
    ValuesMembers(FindAll(ExplicitExperience, low), FindAll(YearMention, low));
    ValuesMembers(FindAll(ExperienceLabel, low), FindAll(YearMention, low));
  }

  /** `extract_experience_years` takes the maximum over the unit-word mentions alone (the matches of
      the two longer patterns are among them), consults the date ranges only when there is no such
      mention, and is never negative. */
  lemma ExperienceYearsSpec(text: string)
    ensures var low := Lower(text);
      var mentions := Values(FindAll(YearMention, low));
      && (Captured(Patterns, low) != [] <==> mentions != [])
      && (mentions != [] ==> ExperienceYears(text) == MaxOf(mentions))
      && (mentions == [] ==> ExperienceYears(text) == DateRangeYears(text))
      && ExperienceYears(text) >= 0
  {
    var low := Lower(text);
    var v12 := Values(FindAll(ExplicitExperience, low)) + Values(FindAll(ExperienceLabel, low));
    var v3 := Values(FindAll(YearMention, low));
    CapturedPatterns(low);
    MentionsCoverCaptures(low);
    assert Captured(Patterns, low) == v12 + v3;
    if v3 != [] {
      MaxOfCovered(v12, v3);
      var m := MaxOf(v3);
      var i :| 0 <= i < |v3| && v3[i] == m;
    }
  }

  /** A valid range adds between 0 and 45 years; an invalid one adds nothing. */
  lemma {:induction false} TotalDurationBounds(rs: seq<DateRange>)
    ensures 0 <= TotalDuration(rs) <= (CurrentYear - EarliestYear) * |rs|
    decreases |rs|
  {
    if rs != [] {
      TotalDurationBounds(rs[..|rs| - 1]);
    }
  }

  /** The fallback is the summed length of the valid ranges: never negative, so `max(total, 0)`
      changes nothing, at most 45 years per range found, and 0 when no range is valid. */
  lemma DateRangeYearsSpec(text: string)
    ensures DateRangeYears(text) == TotalDuration(DateRanges(text))
    ensures DateRangeYears(text) <= (CurrentYear - EarliestYear) * |DateRanges(text)|
    ensures (forall r :: r in DateRanges(text) ==> !IsValidRange(r)) ==> DateRangeYears(text) == 0
  {
    TotalDurationBounds(DateRanges(text));
    if forall r :: r in DateRanges(text) ==> !IsValidRange(r) {
      InvalidAddNothing(DateRanges(text));
    }
  }

  lemma {:induction false} InvalidAddNothing(rs: seq<DateRange>)
    requires forall r :: r in rs ==> !IsValidRange(r)
    ensures TotalDuration(rs) == 0
    decreases |rs|
  {
    if rs != [] {
      assert rs[|rs| - 1] in rs;
      assert forall r :: r in rs[..|rs| - 1] ==> r in rs;
      InvalidAddNothing(rs[..|rs| - 1]);
    }
  }
}
