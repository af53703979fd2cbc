# SkillIssue scoring pipeline in Dafny

This project models the back end of SkillIssue, which scores a résumé against a job description
(JD). One call to `MatcherService.analyze` runs these steps:

1. It cleans both texts.
2. It extracts each text's frequency keywords and technical terms.
3. It matches the JD terms against the résumé terms by embedding similarity.
4. It measures the similarity of the whole texts.
5. It parses the years of experience each text mentions.
6. It picks the résumé sentences most relevant to the job.
7. It rates each résumé section and the soft skills.
8. It computes an ATS (applicant tracking system) compatibility score with a label.
9. It ranks the keywords it displays.
10. It combines everything into one weighted overall match.

Each core source file is one Dafny module:

| module | source file |
|---|---|
| `TextPreprocessing` | `Backend/utils/text_preprocessing.py` |
| `KeywordExtraction` | `Backend/utils/keyword_extraction.py` |
| `ExperienceParser` | `Backend/utils/experience_parser.py` |
| `AtsScore` | `Backend/utils/ats_score.py` |
| `SectionMatcher` | `Backend/utils/section_matcher.py` |
| `Similarity` | `Backend/utils/similarity.py` |
| `MatcherService` | `Backend/services/matcher_service.py` |

Four helper modules hold what several of them share:

- `Wrappers` holds `Option`.
- `Text` holds ASCII character classes, lower-casing, `strip`, `split`, substring search and counting, and word-run scanners.
- `Seqs` holds subsequences, de-duplication in first-occurrence order, and order-preserving filters.
- `Ranking` holds a stable descending insertion sort on `(item, score)` pairs and the top-N taken from it.

The code mixes two styles, and the model follows each.

- **Loops in the source become methods with loops.** These are the loops that build lists, fill a dictionary or walk lines:
  - `semantic_keyword_matching` (`SemanticKeywordMatching`, with `MaxSimilarity` for its `np.max`), `prioritize_keywords` (`PrioritizeKeywords`);
  - `identify_sections` (`IdentifySections`, with `FindHeader` for its scan over the section keywords);
  - `_calculate_from_date_ranges` (`CalculateFromDateRanges`), and the scan over the patterns in `extract_experience_years` (`CollectYears`);
  - `extract_technical_terms` (`ExtractTechnicalTerms`);
  - the loop over the key sections in `analyze_section_match` (`KeySectionLevels`), and `extract_relevant_highlights` (`ExtractRelevantHighlights`).

  Each of these methods has a `while` or `for` loop with its invariants. Its `ensures` equates the result to a recursive specification function. The properties the code promises are then proved about that function.
- **Straight-line updates in the source become methods without loops.** These build a value step by step by reassigning a variable, with no loop of their own:
  - `calculate_ats_score` (`CalculateAtsScore`), the contact score (`ContactScoreOf`) and the formatting score (`FormattingScoreOf`), each adding its components to a running score;
  - the body of the loop in `identify_sections` (`LineHeader`, `AddLine`);
  - `extract_experience_years` after its pattern scan (`ExtractExperienceYears`);
  - `extract_noun_phrases` (`ExtractNounPhrases`), which extends one list pattern by pattern;
  - the per-section level and the result assembly of `analyze_section_match` (`SectionMatchLevel`, `AnalyzeSectionMatch`), and the boosted sentence similarity (`BoostedSimilarity`).

  Each of them `ensures` that its result equals the specification function, so the same proved properties apply.
- **Pure source code becomes functions.** These are the comprehensions, set algebra and branching: `clean_text`, `filter_stop_words`, `extract_dynamic_keywords`, `calculate_experience_match`, the soft-skill bands and the phrase overlap. They are modelled directly as Dafny functions.

`MatcherService.Analyze` is the whole of `analyze`, a straight-line composition of these parts. Each stage of it is a function, and each stage's contract carries that stage's bounds. The report-level predicate `ReportOk` collects the guarantees of the whole call.

What the pipeline cannot see is passed in as parameters, bundled into `MatcherService.Oracles`:

- the sentence-embedding cosine similarity, one function shared by every component;
- the e-mail and phone regexes, as predicates on the résumé;
- the order in which `list(...)` enumerates a Python `set`, as a function from the set to a sequence.

Properties that need the cosine similarity in [0, 1], or a faithful listing, take that as a hypothesis (`CosineInRange`, `ListingFaithful`).

All scores are Dafny `real`s. The Python `round(x, 2)` on reported values is not modelled. The model proves, among other things:

- **Cleaning.** `clean_text` output cannot be longer than its input. It is stripped, and it holds only word characters, spaces and `- + # . , ( ) /`. It keeps every visible allowed character, in order; any other visible character becomes a space. In the pipeline, the cleaned résumé is a single line. Because of that, a cleaned résumé of 50 characters or more fills no section, scores 0 for sections and gets no line-count formatting bonus.
- **Keyword matching.** `semantic_keyword_matching` splits the JD terms into the matched and the missing ones. Both lists keep the JD order, and a term is matched exactly when some résumé term is at least the threshold similar to it.
- **Ranking.** Frequency keywords, prioritised keywords and highlights all come from one stable top-N. That top-N is proved: sorted descending, a sub-multiset of its input, nothing left out that outranks something kept, and equal scores kept in input order.
- **Experience.** The parsed years are the maximum of the explicit mentions, or else the sum of the valid date ranges. The years are never negative. The match rule is piecewise, stays within [0, 100] and does not decrease as the candidate's years grow.
- **ATS.** The section scanner is a state machine: every section is empty or ends in a newline, and the first matching header wins. Every sub-score is bounded. The ATS score lies in [0, 100], and its label is monotone in the score.
- **Section levels.** Soft-skill levels and section levels obey exact band conditions in both directions.
- **The whole report.** All four scores are percentages, at most 7 matched and 7 missing keywords are displayed, those two lists are disjoint and free of duplicates, there are at most 5 highlights, and there are at most 20 distinct résumé keywords.

Behaviour of the code worth knowing:

- `clean_text` is not idempotent. Punctuation is replaced after whitespace runs are collapsed, so `"a!!b"` becomes `"a  b"`; `TextPreprocessing.CleanTextNotIdempotent` proves this.
- Required soft skills fall into three bands by the share found: Strongly Matched from one half, Partially Matched from one quarter, Not Matched below (`Backend/utils/section_matcher.py` lines 73-78).
- `prioritize_keywords` ranks both displayed lists by their counts in the JD text.
- The ATS score is never clamped. Its bound follows from the weights and the inputs.

## Model

| member | source | states |
|---|---|---|
| `Text.Lower` | Backend/utils/keyword_extraction.py:109 | `lower()` keeps the length and maps each character by the ASCII case map; the result has no upper-case letter |
| `Text.Strip` | Backend/utils/text_preprocessing.py:39 | `strip()` is a slice `s[i..j]` of its input with only whitespace before `i` and after `j`; it leaves no outer whitespace, and is empty exactly when the input is all whitespace |
| `Text.Split` | Backend/utils/ats_score.py:55 | `split(sep)` gives at least one piece, none containing `sep`, and `[s]` when `sep` does not occur |
| `Text.SplitJoin` | Backend/utils/ats_score.py:55 | joining the pieces of `split(sep)` with `sep` gives back the input, so splitting drops only the separators |
| `Text.FilterConcat` | Backend/utils/text_preprocessing.py:36-38 | filtering the characters of a concatenation is the concatenation of the filtered parts (the step that carries content preservation through each rewrite) |
| `Text.Take` | Backend/utils/keyword_extraction.py:118 | `xs[:n]` has `min(n, len(xs))` elements and is a prefix of `xs` |
| `TextPreprocessing.CollapseSpaces` | Backend/utils/text_preprocessing.py:36 | `re.sub(r'\s+', ' ', s)` never lengthens and leaves no whitespace other than plain spaces |
| `TextPreprocessing.ReplaceDisallowed` | Backend/utils/text_preprocessing.py:38 | each character outside `[\w\s\-\+\#\.\,\(\)/]` becomes a space, every other character stays, length unchanged |
| `TextPreprocessing.ReplaceGivesClean` | Backend/utils/text_preprocessing.py:36-38 | after the whitespace collapse, the punctuation pass leaves only word characters, spaces and the kept punctuation |
| `TextPreprocessing.StripKeepsClean` | Backend/utils/text_preprocessing.py:39 | stripping keeps the text clean |
| `TextPreprocessing.CleanText` | Backend/utils/text_preprocessing.py:29-39 | `clean_text` never lengthens, is stripped, and holds only word characters, plain spaces and `- + # . , ( ) /` |
| `TextPreprocessing.CleanTextExcludes` | Backend/utils/text_preprocessing.py:36-38 | clean text holds no newline, tab, carriage return, en dash or em dash |
| `TextPreprocessing.CleanTextSingleLine` | Backend/utils/text_preprocessing.py:36-39 | `clean_text` output is one line and has no en or em dash, whatever the input |
| `TextPreprocessing.CollapseKeepsVisible` | Backend/utils/text_preprocessing.py:36 | the whitespace collapse keeps every non-whitespace character, in order |
| `TextPreprocessing.ReplaceKeepsVisible` | Backend/utils/text_preprocessing.py:38 | the visible characters after the punctuation pass are exactly the allowed visible characters before it |
| `TextPreprocessing.StripLeftKeepsVisible` | Backend/utils/text_preprocessing.py:39 | removing leading whitespace keeps every visible character |
| `TextPreprocessing.StripRightKeepsVisible` | Backend/utils/text_preprocessing.py:39 | removing trailing whitespace keeps every visible character |
| `TextPreprocessing.StripKeepsVisible` | Backend/utils/text_preprocessing.py:39 | `strip()` keeps every visible character, in order |
| `TextPreprocessing.CleanTextKeepsContent` | Backend/utils/text_preprocessing.py:29-39 | the non-space characters of `clean_text(s)` are, in order, exactly the visible allowed characters of `s` |
| `TextPreprocessing.CleanTextBlanksPunctuation` | Backend/utils/text_preprocessing.py:38 | a disallowed character becomes a space without collapsing: `"a!!b"` cleans to `"a  b"` |
| `TextPreprocessing.CleanTextCollapsesSpaces` | Backend/utils/text_preprocessing.py:36 | a whitespace run becomes one space: `"a  b"` cleans to `"a b"` |
| `TextPreprocessing.CleanTextNotIdempotent` | Backend/utils/text_preprocessing.py:36-39 | cleaning `"a!!b"` twice differs from cleaning it once |
| `TextPreprocessing.FilterStopWordsSpec` | Backend/utils/text_preprocessing.py:102-107 | the result is a subsequence of the terms; each term keeps its multiplicity exactly when none of its lower-cased words is one of the stop words at lines 14-26, else it is gone |
| `TextPreprocessing.FilterStopWordsIdempotent` | Backend/utils/text_preprocessing.py:102-107 | filtering stop words twice is the same as once |
| `TextPreprocessing.CapChainEnd` | Backend/utils/text_preprocessing.py:47 | the repeated `\s+[A-Z][a-z]+` group either adds nothing or ends the phrase on a lower-case letter at least three characters further |
| `TextPreprocessing.CapitalizedFrom` | Backend/utils/text_preprocessing.py:47 | every capitalised phrase found starts with a capital, ends with a lower-case letter and has at least five characters |
| `TextPreprocessing.UpperRuns` | Backend/utils/text_preprocessing.py:51 | each acronym word kept is two or more capital letters |
| `TextPreprocessing.Acronyms` | Backend/utils/text_preprocessing.py:51 | every acronym found is two or more capital letters |
| `TextPreprocessing.HyphenChainEnd` | Backend/utils/text_preprocessing.py:55 | the repeated `-\w+` group either adds nothing or ends on a word character at least two characters further |
| `TextPreprocessing.HyphenatedFrom` | Backend/utils/text_preprocessing.py:55 | every hyphenated term found starts and ends with a word character and has at least three characters |
| `TextPreprocessing.KeepPhrases` | Backend/utils/text_preprocessing.py:68 | every phrase kept is stripped and longer than two characters |
| `TextPreprocessing.ExtractNounPhrases` | Backend/utils/text_preprocessing.py:42-68 | the method that extends the phrase list pattern by pattern returns the filtered concatenation of the capitalised, acronym and hyphenated matches |
| `TextPreprocessing.KeepPhrasesOfStripped` | Backend/utils/text_preprocessing.py:68 | on phrases that are already stripped, the comprehension only drops those of length at most 2 |
| `TextPreprocessing.RawPhrasesStripped` | Backend/utils/text_preprocessing.py:47-56 | every match of the three patterns is already stripped |
| `TextPreprocessing.KeepPhrasesSpec` | Backend/utils/text_preprocessing.py:68 | on stripped phrases, the result is a subsequence holding exactly those longer than two characters |
| `TextPreprocessing.NounPhrasesSpec` | Backend/utils/text_preprocessing.py:42-68 | the noun phrases are an ordered selection of the raw matches, exactly those longer than two characters, so a two-letter acronym is never returned |
| `TextPreprocessing.LastNonNewline` | Backend/utils/text_preprocessing.py:94 | finds where the greedy `.+` of a bullet line gives back trailing positions: the last non-newline character before the bound |
| `TextPreprocessing.BulletLinesFrom` | Backend/utils/text_preprocessing.py:94 | every bullet-line capture is non-empty and has no newline |
| `TextPreprocessing.LastWordEnd` | Backend/utils/text_preprocessing.py:96 | the backtracking point of `[\w\-\.]+\b`: the last position before the bound that ends on a word character |
| `TextPreprocessing.BulletWordsFrom` | Backend/utils/text_preprocessing.py:96 | every bullet word starts with a letter, has at least two characters and ends on a word character |
| `TextPreprocessing.LowerSetMembers` | Backend/utils/text_preprocessing.py:77 | the lower-cased phrases are exactly the lower-cased forms of the phrases |
| `TextPreprocessing.LongWordsLowerMembers` | Backend/utils/text_preprocessing.py:97 | the bullet words added are exactly the lower-cased forms of the words longer than three characters |
| `TextPreprocessing.BulletTermsMembers` | Backend/utils/text_preprocessing.py:95-97 | the terms from bullet lines are exactly the long words of some bullet line, lower-cased |
| `TextPreprocessing.BulletTermsStep` | Backend/utils/text_preprocessing.py:95-97 | one more bullet line adds exactly its long lower-cased words (the loop step of the set update) |
| `TextPreprocessing.ExtractTechnicalTerms` | Backend/utils/text_preprocessing.py:71-99 | the method that updates the term set phrase by phrase and line by line returns the technical-term set |
| `TextPreprocessing.TechnicalTermsShape` | Backend/utils/text_preprocessing.py:77-97 | every technical term is lower-case and longer than two characters; every bullet word longer than three is in the set, lower-cased |
| `KeywordExtraction.Joined` | Backend/utils/keyword_extraction.py:37-38 | joining two words with a space has length `len(a) + 1 + len(b)` |
| `KeywordExtraction.JoinedLowercase` | Backend/utils/keyword_extraction.py:37-38 | joining lower-case words stays lower-case |
| `KeywordExtraction.Bigrams` | Backend/utils/keyword_extraction.py:37 | there are `len(words) - 1` two-grams, none for fewer than two words |
| `KeywordExtraction.Trigrams` | Backend/utils/keyword_extraction.py:38 | there are `len(words) - 2` three-grams, none for fewer than three words |
| `KeywordExtraction.BigramAt` | Backend/utils/keyword_extraction.py:37 | the i-th two-gram is words i and i+1 joined by a space |
| `KeywordExtraction.TrigramAt` | Backend/utils/keyword_extraction.py:38 | the i-th three-gram is words i, i+1 and i+2 joined by spaces |
| `KeywordExtraction.NGramsMembers` | Backend/utils/keyword_extraction.py:36-41 | a term is in `words + two_grams + three_grams` exactly when it is one word or two or three consecutive words joined by spaces |
| `KeywordExtraction.NGramsShape` | Backend/utils/keyword_extraction.py:37-41 | n-grams of lower-case words of length at least 3 are lower-case and of length at least 3 |
| `KeywordExtraction.TokensSpec` | Backend/utils/keyword_extraction.py:36 | `re.findall(r'\b[a-z]{3,}\b', text.lower())` gives exactly the whole lower-cased word runs of three or more letters |
| `KeywordExtraction.TokensShape` | Backend/utils/keyword_extraction.py:36 | every token is lower-case and at least three characters long |
| `KeywordExtraction.FilteredNGrams` | Backend/utils/keyword_extraction.py:44-45 | the second filter `len(term) > 2` removes nothing; what remains is exactly the n-grams not dropped |
| `KeywordExtraction.FilteredTermsShape` | Backend/utils/keyword_extraction.py:44-45 | every filtered term is lower-case and at least three characters long |
| `KeywordExtraction.FilteredTermsSpec` | Backend/utils/keyword_extraction.py:36-45 | the filtered terms are the stop-word filter of the n-grams, exactly the n-grams of the tokens with no stop word |
| `KeywordExtraction.MostCommonDistinct` | Backend/utils/keyword_extraction.py:48-51 | `most_common(n)` gives `min(n, distinct terms)` different terms, each one of the input terms |
| `KeywordExtraction.MostCommonRanked` | Backend/utils/keyword_extraction.py:48-51 | the terms come by non-increasing count, and a term left out occurs at most as often as every term given |
| `KeywordExtraction.MostCommonSpec` | Backend/utils/keyword_extraction.py:41-51 | together with the two above: among equal counts, the terms given are the first in first-occurrence order of `words + two_grams + three_grams` |
| `KeywordExtraction.AllTermsShape` | Backend/utils/keyword_extraction.py:53-65 | every term of the union of dynamic keywords and technical terms is lower-case and longer than two characters |
| `KeywordExtraction.MaxSimilarity` | Backend/utils/keyword_extraction.py:89-90 | the loop computing `np.max(similarities)` over a non-empty résumé list returns a value attained by some résumé keyword and not exceeded by any |
| `KeywordExtraction.SemanticKeywordMatching` | Backend/utils/keyword_extraction.py:67-97 | the method with the early return and the append loop computes the matched/missing split |
| `KeywordExtraction.MatchKeywordsSpec` | Backend/utils/keyword_extraction.py:77-97 | matched and missing are both subsequences of the JD keywords, together exactly its multiset; a keyword is matched exactly when some résumé keyword is at least `threshold` similar, and with an empty résumé list everything is missing |
| `KeywordExtraction.PrioritizeKeywords` | Backend/utils/keyword_extraction.py:99-118 | the method that builds `keyword_freq` in a loop and sorts it returns the stable top-N by lower-cased occurrence count |
| `KeywordExtraction.PrioritizedSpec` | Backend/utils/keyword_extraction.py:108-118 | `min(top_n, len(keywords))` keywords drawn from the input, by non-increasing count, none left out that outcounts one kept, ties in input order |
| `ExperienceParser.LettersAt` | Backend/utils/experience_parser.py:23-25 | a keyword spelled in letters covers no digit |
| `ExperienceParser.KeywordsAreLetters` | Backend/utils/experience_parser.py:23-25 | the words year, yr, of, exp, experience are lower-case letters |
| `ExperienceParser.YearWordEnd` | Backend/utils/experience_parser.py:25 | after `years?` or `yrs?` the match ends further on, over no digit |
| `ExperienceParser.UnitEnd` | Backend/utils/experience_parser.py:25 | the optional `+`, spaces and a year or yr unit after a digit run ends further on, over no digit |
| `ExperienceParser.ExperienceWordEnd` | Backend/utils/experience_parser.py:23 | the word experience or exp ends further on, over no digit |
| `ExperienceParser.Values` | Backend/utils/experience_parser.py:30 | `[int(m) for m in matches]` converts each capture in place |
| `ExperienceParser.MaxOf` | Backend/utils/experience_parser.py:33 | `max(years)` is an element of the list and at least every element |
| `ExperienceParser.CalculateFromDateRanges` | Backend/utils/experience_parser.py:43-69 | the accumulation loop returns the sum of the valid range durations |
| `ExperienceParser.CollectYears` | Backend/utils/experience_parser.py:28-30 | the loop over the three patterns collects all their captures in pattern order |
| `ExperienceParser.ExtractExperienceYears` | Backend/utils/experience_parser.py:14-40 | the method returns the maximum capture if there is one, else the date-range total |
| `ExperienceParser.ExperienceMatchEntryLevel` | Backend/utils/experience_parser.py:80-89 | 0 required gives 100; for 1 or 2 required, any experience gives 100 and none gives 60 |
| `ExperienceParser.ExperienceMatchRatio` | Backend/utils/experience_parser.py:92-93 | for 3 or more required, the score times `required` is `100 * candidate` up to `required` years, and 100 beyond |
| `ExperienceParser.ExperienceMatchBounds` | Backend/utils/experience_parser.py:80-93 | for non-negative years the score lies in [0, 100] |
| `ExperienceParser.ExperienceMatchMonotone` | Backend/utils/experience_parser.py:80-93 | for a fixed requirement the score never decreases as the candidate's years grow |
| `ExperienceParser.YearMentionsComplete` | Backend/utils/experience_parser.py:25 | every maximal digit run followed by a year unit is a capture of the line-25 pattern |
| `ExperienceParser.ExplicitAreMentions` | Backend/utils/experience_parser.py:23-25 | every capture of the line-23 pattern is also a capture of the line-25 pattern |
| `ExperienceParser.LabelledAreMentions` | Backend/utils/experience_parser.py:24-25 | every capture of the line-24 pattern is also a capture of the line-25 pattern |
| `ExperienceParser.ValuesMembers` | Backend/utils/experience_parser.py:30 | converting a sub-collection of captures gives a sub-collection of values |
| `ExperienceParser.MaxOfCovered` | Backend/utils/experience_parser.py:33 | adding values already present leaves the maximum unchanged |
| `ExperienceParser.CapturedPatterns` | Backend/utils/experience_parser.py:22-30 | `years` is the values of the three patterns' captures, in pattern order |
| `ExperienceParser.MentionsCoverCaptures` | Backend/utils/experience_parser.py:22-30 | every value of the first two patterns is a value of the third, and if the third finds nothing neither does any other |
| `ExperienceParser.ExperienceYearsSpec` | Backend/utils/experience_parser.py:19-40 | some pattern matches exactly when a line-25 mention exists; then the result is the maximum mentioned value (not a sum), else the date-range total; never negative |
| `ExperienceParser.TotalDurationBounds` | Backend/utils/experience_parser.py:58-69 | the summed durations are between 0 and `(2025 - 1980)` per range |
| `ExperienceParser.DateRangeYearsSpec` | Backend/utils/experience_parser.py:50-69 | the fallback is the total over the ranges found, bounded as above, and 0 when no range is valid (1980 ≤ start ≤ end ≤ 2025, `present`/`current` meaning 2025) |
| `ExperienceParser.InvalidAddNothing` | Backend/utils/experience_parser.py:66-67 | invalid ranges add nothing to the total |
| `AtsScore.FindHeader` | Backend/utils/ats_score.py:62-65 | the loop over the section patterns stops at the first hit on a short line |
| `AtsScore.HasTextIsStrip` | Backend/utils/ats_score.py:68 | a line has text exactly when its `strip()` is non-empty |
| `AtsScore.LineHeader` | Backend/utils/ats_score.py:59-65 | the header test of one line on its lower-cased, stripped form |
| `AtsScore.AddLine` | Backend/utils/ats_score.py:62-69 | one loop step updates the current section and the dictionary as the scanner's step function does |
| `AtsScore.IdentifySections` | Backend/utils/ats_score.py:31-71 | the method looping over the lines with a current-section variable returns the scanner's final dictionary |
| `AtsScore.ScanNext` | Backend/utils/ats_score.py:58-69 | scanning one more line is one more step of the state machine |
| `AtsScore.FirstHeaderSpec` | Backend/utils/ats_score.py:62-65 | a line opens a section exactly when it is shorter than 50 and matches some pattern, and it opens the first such section in key order |
| `AtsScore.StepWellFormed` | Backend/utils/ats_score.py:62-69 | a step keeps the six keys and keeps every section empty or ending in a newline |
| `AtsScore.EmptySectionsSpec` | Backend/utils/ats_score.py:36-43 | the initial dictionary has the six keys, all empty |
| `AtsScore.ScanWellFormed` | Backend/utils/ats_score.py:58-69 | the whole scan keeps the sections well formed |
| `AtsScore.SectionsWellFormed` | Backend/utils/ats_score.py:36-71 | `identify_sections` always returns the six keys, each empty or ending in a newline |
| `AtsScore.NoHeaderNoContent` | Backend/utils/ats_score.py:56-69 | with no header line, no line lands in any section |
| `AtsScore.StepSpec` | Backend/utils/ats_score.py:62-69 | a header line changes the current section; only the current section changes, by the line plus a newline when the line has text; with no current section nothing is added |
| `AtsScore.LinesSizeFront` | Backend/utils/ats_score.py:55 | the size of the line list, one more per line |
| `AtsScore.SplitSize` | Backend/utils/ats_score.py:55 | the lines of `split('\n')` plus their newlines are one character longer than the text |
| `AtsScore.SizeUpdate` | Backend/utils/ats_score.py:69 | updating one section changes the total size by the difference |
| `AtsScore.StepSize` | Backend/utils/ats_score.py:69 | a step adds at most the line and a newline |
| `AtsScore.ScanSize` | Backend/utils/ats_score.py:58-69 | the sections hold no more than the lines scanned |
| `AtsScore.SectionsSizeBound` | Backend/utils/ats_score.py:31-71 | all sections together are at most one character longer than the text |
| `AtsScore.SingleLongLineNoSections` | Backend/utils/ats_score.py:55-69 | a single line whose lower-cased stripped form has 50 or more characters fills no section |
| `AtsScore.LongLineNoHeader` | Backend/utils/ats_score.py:63 | a line with 50 or more characters after stripping is never a header |
| `AtsScore.CountFilledBound` | Backend/utils/ats_score.py:79-82 | the count of filled sections is at most the number of sections asked about |
| `AtsScore.SectionScoreSpec` | Backend/utils/ats_score.py:74-84 | the section score is 5 times the number of filled sections among education, experience and skills, so it is in {0, 5, 10, 15} |
| `AtsScore.FilledScore` | Backend/utils/ats_score.py:74-84 | for any section map, the filled fraction of the three required sections times 15 is 5 per filled section, one of 0, 5, 10 and 15 |
| `AtsScore.ContactScoreOf` | Backend/utils/ats_score.py:87-99 | the accumulating method returns the contact score |
| `AtsScore.FormattingScoreOf` | Backend/utils/ats_score.py:102-114 | the accumulating method returns the formatting score |
| `AtsScore.ContactFormattingSpec` | Backend/utils/ats_score.py:87-114 | contact and formatting scores are each in {0, 5, 10}; contact is 10 exactly when both detectors fire; a one-line text earns only the length bonus |
| `AtsScore.CountContainedBound` | Backend/utils/ats_score.py:124 | at most every phrase is found |
| `AtsScore.RatioBounds` | Backend/utils/ats_score.py:129 | `k / n` with `k ≤ n` lies in [0, 1] |
| `AtsScore.ShareOf` | Backend/utils/ats_score.py:148-149 | a weighted ratio lies in [0, w] and equals `w` exactly when `k == n` |
| `AtsScore.PhraseShareSpec` | Backend/utils/ats_score.py:124-130 | the share is 0 for no phrases, else 5 times the fraction found, in [0, 5], and 5 exactly when all are found |
| `AtsScore.ContextualScoreSpec` | Backend/utils/ats_score.py:117-130 | at most 15 JD phrases are used; the contextual score is 0 when there are none and lies in [0, 5] |
| `AtsScore.KeywordPartSpec` | Backend/utils/ats_score.py:147-149 | the keyword part lies in [0, 25], is 0 for no JD keywords, and is 25 exactly when all are matched |
| `AtsScore.CalculateAtsScore` | Backend/utils/ats_score.py:133-176 | the accumulating method returns the sum of the six parts and the label of that unrounded sum |
| `AtsScore.AtsScoreBounds` | Backend/utils/ats_score.py:144-164 | with similarity in [0, 1] and no more matched than JD keywords, the unclamped ATS score lies in [0, 100] |
| `AtsScore.LabelMonotone` | Backend/utils/ats_score.py:167-176 | the label never goes down as the score goes up: Excellent exactly from 70, Good exactly in [55, 70), Poor exactly below 35 |
| `SectionMatcher.RatioAtLeast` | Backend/utils/section_matcher.py:71-75 | comparing a ratio with a cut point is comparing the numerator with the scaled denominator |
| `SectionMatcher.QuarterBands` | Backend/utils/section_matcher.py:71-76 | `f / n >= 0.5` exactly when `2f >= n`, and `>= 0.25` exactly when `4f >= n` |
| `SectionMatcher.SoftSkillLevelSpec` | Backend/utils/section_matcher.py:45-78 | Not Required exactly when no vocabulary skill occurs in the JD; required are exactly the vocabulary skills in the JD, found exactly the required ones in the résumé text; the three bands hold exactly at ratio ≥ 0.5, in [0.25, 0.5) and below 0.25 |
| `SectionMatcher.SkillMembers` | Backend/utils/section_matcher.py:56-68 | required and found skills are exactly those the comprehensions select, and there are no more found than required |
| `SectionMatcher.SoftSkillBands` | Backend/utils/section_matcher.py:61-78 | the level is Not Required exactly for no required skill, and each band holds exactly in its range |
| `SectionMatcher.VocabularyLengths` | Backend/utils/section_matcher.py:45-50 | every soft-skill word is longer than five characters |
| `SectionMatcher.SoftSkillsNeedSections` | Backend/utils/section_matcher.py:52-62 | with all six sections empty the joined text is five spaces and no skill is found, so whatever the JD says the level is Not Required or Not Matched |
| `SectionMatcher.ShortTextFindsNothing` | Backend/utils/section_matcher.py:65-68 | skills longer than the text are never found |
| `SectionMatcher.SectionTextsEmpty` | Backend/utils/section_matcher.py:52 | empty sections give as many empty pieces |
| `SectionMatcher.JoinEmptyPieces` | Backend/utils/section_matcher.py:52 | `' '.join` of empty pieces is only the separators |
| `SectionMatcher.LevelsOfSpec` | Backend/utils/section_matcher.py:95-112 | the loop's dictionary has exactly the sections looped over, each at the level of its text |
| `SectionMatcher.LevelsOfNext` | Backend/utils/section_matcher.py:95-112 | one more section adds exactly its level |
| `SectionMatcher.SectionMatchLevel` | Backend/utils/section_matcher.py:96-112 | one section's level: Not Matched when shorter than 10, else by the strict similarity cut points |
| `SectionMatcher.KeySectionLevels` | Backend/utils/section_matcher.py:93-112 | the loop over the four key sections fills the dictionary with their levels |
| `SectionMatcher.AnalyzeSectionMatch` | Backend/utils/section_matcher.py:80-120 | the method returns the key-section levels and the soft-skill level of the identified sections |
| `SectionMatcher.SectionAnalysisKeys` | Backend/utils/section_matcher.py:93-118 | the result has exactly the keys education, certifications, skills and experience, plus the soft-skill level, each at the level of its section text |
| `SectionMatcher.KeyLevels` | Backend/utils/section_matcher.py:93-112 | the levels dictionary has exactly the four key sections |
| `SectionMatcher.NoSectionsNothingMatched` | Backend/utils/section_matcher.py:90-118 | when no section is identified, every key section is Not Matched and soft skills are Not Required or Not Matched |
| `SectionMatcher.ShortSectionNotMatched` | Backend/utils/section_matcher.py:99-101 | a section text shorter than 10 is Not Matched whatever the similarity model returns |
| `SectionMatcher.SimilarityLevelMonotone` | Backend/utils/section_matcher.py:107-112 | the level never goes down as similarity grows; Strongly exactly above 0.5, Not Matched exactly at or below 0.25, and 0.5 itself is only Partially |
| `Similarity.SemanticSimilarity` | Backend/utils/similarity.py:26-40 | 0 when either text is empty, otherwise the model's cosine similarity (`section_matcher.py` lines 26-34 are the same guard and use this function) |
| `Similarity.Pieces` | Backend/utils/similarity.py:53 | `re.split(r'[.!?]+', ...)` gives at least one piece, none containing `. ! ?` |
| `Similarity.StripNoTerminator` | Backend/utils/similarity.py:54 | stripping a piece adds no terminator |
| `Similarity.KeepSentencesSpec` | Backend/utils/similarity.py:54 | every kept sentence is a stripped piece longer than 20 without terminators |
| `Similarity.SentencesSpec` | Backend/utils/similarity.py:53-54 | every sentence is a stripped fragment of the résumé split on runs of `. ! ?`, longer than 20 characters, with no `. ! ?` |
| `Similarity.BoostedSimilarity` | Backend/utils/similarity.py:67-78 | the in-place rescaling of `similarity` gives the boosted score |
| `Similarity.ExtractRelevantHighlights` | Backend/utils/similarity.py:42-85 | the loop building `sentence_scores`, the sort and the slice return the stable top-N by boosted score |
| `Similarity.BoostFactorSpec` | Backend/utils/similarity.py:72-78 | the boost is 1, 1.15, 1.1 or 1.265, each exactly for its combination of having a digit and an action verb, and never below 1 |
| `Similarity.HighlightsSpec` | Backend/utils/similarity.py:53-85 | `[]` when no sentence survives; otherwise `min(top_n, sentences)` of the sentences by non-increasing boosted score, none left out that outscores one kept, ties in sentence order |
| `Similarity.SubsetSize` | Backend/utils/similarity.py:100-101 | a subset is no larger |
| `Similarity.SubsetSameSize` | Backend/utils/similarity.py:100-101 | a subset of the same size is the set itself |
| `Similarity.JaccardSpec` | Backend/utils/similarity.py:96-103 | the Jaccard ratio lies in [0, 1], is 0 when either set is empty, is symmetric, and is 1 exactly for equal non-empty sets |
| `Similarity.PhraseOverlapSpec` | Backend/utils/similarity.py:87-103 | phrase overlap lies in [0, 1], is 0 when either trigram set is empty, and is symmetric |
| `MatcherService.SkillScoreSpec` | Backend/services/matcher_service.py:83-88 | 0 for no JD terms; in [0, 100] for similarity in [0, 1]; 100 exactly when every JD term is matched and the similarity is 1 |
| `MatcherService.OverallSpec` | Backend/services/matcher_service.py:139-144 | the weights 0.45, 0.25, 0.20, 0.10 sum to 1, so the overall match lies between the least and the greatest component and in [0, 100] |
| `MatcherService.OverallMonotone` | Backend/services/matcher_service.py:139-144 | raising any component never lowers the overall match |
| `MatcherService.Analyze` | Backend/services/matcher_service.py:40-168 | on the cleaned texts and their term sets: with similarities in [0, 1], the four scores are percentages and the ATS label fits its score; years are non-negative, at most 5 highlights, at most 20 distinct résumé keywords, and at most 7 matched and 7 missing keywords whatever the similarities and the listing; with a faithful set listing, each matched or missing keyword is a JD term on its side of the threshold, the two lists are disjoint and neither has duplicates |
| `MatcherService.Assemble` | Backend/services/matcher_service.py:69-166 | for steps 3 to 13 on any cleaned texts and term sets: the score bounds when similarities lie in [0, 1], the size bounds (7 matched, 7 missing, 5 highlights, 20 résumé keywords) always, and the keyword-list guarantees under a faithful listing alone |
| `MatcherService.KeywordMatch` | Backend/services/matcher_service.py:66-74 | matched and missing together are exactly the listed JD terms |
| `MatcherService.SemanticOf` | Backend/services/matcher_service.py:77-80 | the whole-text similarity lies in [0, 1] when the model's does |
| `MatcherService.SkillOf` | Backend/services/matcher_service.py:83-88 | the skill score lies in [0, 100] when similarities do |
| `MatcherService.YearsOf` | Backend/services/matcher_service.py:91-92 | parsed years are never negative |
| `MatcherService.ExperienceOf` | Backend/services/matcher_service.py:91-96 | the experience score lies in [0, 100] |
| `MatcherService.AtsOf` | Backend/services/matcher_service.py:112-118 | the ATS score lies in [0, 100] when similarities do |
| `MatcherService.OverallOf` | Backend/services/matcher_service.py:139-144 | the overall score lies in [0, 100] when similarities do |
| `MatcherService.HighlightsOf` | Backend/services/matcher_service.py:99-103 | at most 5 highlights |
| `MatcherService.ResumeKeywordsOf` | Backend/services/matcher_service.py:133-136 | at most 20 résumé keywords, without duplicates |
| `MatcherService.KeywordsOf` | Backend/services/matcher_service.py:120-130 | at most 7 matched and 7 missing keywords always; with a faithful listing, neither list repeats a term, the matched ones are JD terms some résumé term is at least 0.65 similar to, the missing ones JD terms none is, and no keyword is in both |
| `MatcherService.DisplayedLists` | Backend/services/matcher_service.py:120-130 | with a faithful listing, prioritising the two halves of the match gives lists without duplicates, matched terms above and missing terms below the threshold, the two disjoint |
| `MatcherService.SkillScoreBounded` | Backend/services/matcher_service.py:83-88 | the implication form of the skill-score bound |
| `MatcherService.AtsBounded` | Backend/utils/ats_score.py:144-164 | the implication form of the ATS bound |
| `MatcherService.KeywordMatchSpec` | Backend/services/matcher_service.py:66-74 | with a faithful listing, the matched terms are exactly the JD terms some résumé term is similar enough to, the missing ones exactly the others, and the listed JD terms have no duplicates |
| `MatcherService.DisplayedSpec` | Backend/services/matcher_service.py:121-130 | a prioritised sub-list of distinct JD terms has at most 7 entries, all distinct and all from the sub-list |
| `MatcherService.CleanedFormatting` | Backend/services/matcher_service.py:52 | on a cleaned résumé the line-count bonus at `ats_score.py` line 111 never fires: the formatting score is 5 exactly when it is longer than 500, else 0 |
| `MatcherService.CleanedLongResumeHasNoSections` | Backend/services/matcher_service.py:52 | a cleaned résumé of 50 or more characters fills no section and scores 0 for sections |
| `MatcherService.LongLineHasNoSections` | Backend/utils/ats_score.py:55-69 | a stripped single line of 50 or more characters fills no section |
| `MatcherService.NoSectionsScoreZero` | Backend/utils/ats_score.py:74-84 | with no section filled the section score is 0 |
| `MatcherService.CleanedLongResumeMatchesNoSection` | Backend/services/matcher_service.py:52-109 | in the pipeline, a cleaned résumé of 50 or more characters has every key section Not Matched and soft skills Not Required or Not Matched |
| `MatcherService.LowerKeepsStripped` | Backend/utils/ats_score.py:59 | lower-casing a stripped line keeps it stripped |
| `MatcherService.EmptyNotFilled` | Backend/utils/ats_score.py:79-82 | no empty section counts as filled |
| `MatcherService.Min4` | Backend/services/matcher_service.py:139-144 | the least of four components, one of them |
| `MatcherService.Max4` | Backend/services/matcher_service.py:139-144 | the greatest of four components, one of them |
| `Ranking.Insert` | Backend/utils/keyword_extraction.py:116 | one insertion of the stable sort adds exactly one element |
| `Ranking.SortDesc` | Backend/utils/keyword_extraction.py:116 | `sort(key=..., reverse=True)` keeps the length |
| `Ranking.Keys` | Backend/utils/keyword_extraction.py:118 | `[kw for kw, _ in ...]` keeps the items in place |
| `Ranking.ScoreBy` | Backend/utils/keyword_extraction.py:111-113 | each item is paired with its score, in place |
| `Ranking.ScoreByNext` | Backend/utils/keyword_extraction.py:111-113 | scoring one more item appends its pair |
| `Ranking.KeysScoreBy` | Backend/utils/keyword_extraction.py:111-118 | dropping the scores gives the items back |
| `Ranking.InsertMultiset` | Backend/utils/keyword_extraction.py:116 | insertion adds exactly the pair inserted |
| `Ranking.InsertKeys` | Backend/utils/keyword_extraction.py:116 | insertion adds exactly the item inserted |
| `Ranking.SortKeys` | Backend/utils/keyword_extraction.py:116 | sorting permutes the items |
| `Ranking.TopKeys` | Backend/utils/keyword_extraction.py:118 | the top items are drawn from the items |
| `Ranking.InsertSorted` | Backend/utils/keyword_extraction.py:116 | inserting into a descending list keeps it descending |
| `Ranking.WithKeyInsert` | Backend/utils/keyword_extraction.py:116 | insertion places an element after all earlier elements of equal score |
| `Ranking.SortStable` | Backend/utils/keyword_extraction.py:116 | the sort keeps the input order among equal scores (Python's sort is stable) |
| `Ranking.SortSorted` | Backend/utils/keyword_extraction.py:116 | the sort's result is descending |
| `Ranking.SortPermutes` | Backend/utils/keyword_extraction.py:116 | the sort's result is a permutation of its input |
| `Ranking.SortSpec` | Backend/utils/similarity.py:83 | the sort is descending and a permutation |
| `Ranking.WithKeyPrefix` | Backend/utils/keyword_extraction.py:118 | the equal-score elements of a prefix are a prefix of those of the whole |
| `Ranking.SortedSplit` | Backend/utils/keyword_extraction.py:118 | in a descending list, everything after a cut scores at most what comes before it |
| `Ranking.TopPrefix` | Backend/utils/keyword_extraction.py:118 | `[:n]` of the sorted list has `min(n, length)` elements |
| `Ranking.TopRest` | Backend/utils/similarity.py:83-85 | the top-N is drawn from the input, and nothing left out outscores anything kept |
| `Ranking.TopStable` | Backend/utils/similarity.py:83-85 | among equal scores the top-N keeps the first in input order |
| `Ranking.TopSpec` | Backend/utils/keyword_extraction.py:116-118 | the top-N has `min(n, length)` elements, is descending, drawn from the input, outranks everything left out, and keeps ties in input order |
| `Ranking.TopOfScoreBy` | Backend/utils/keyword_extraction.py:111-118 | the top-N items by a score: `min(n, length)` of them, from the input, by non-increasing score, none left out scoring higher than one kept |
| `Seqs.SubsequenceExtend` | Backend/utils/keyword_extraction.py:92-95 | appending to both sides, or to the larger one, keeps a subsequence |
| `Seqs.SubsequenceRefl` | Backend/utils/keyword_extraction.py:77-78 | a list is a subsequence of itself (the early return gives the JD list unchanged) |
| `Seqs.FirstIndex` | Backend/utils/keyword_extraction.py:48 | the first position of an element that occurs |
| `Seqs.FirstIndexExtend` | Backend/utils/keyword_extraction.py:48 | appending keeps first positions |
| `Seqs.Distinct` | Backend/utils/keyword_extraction.py:48 | the distinct elements, each once, exactly those of the input |
| `Seqs.DistinctInFirstOccurrenceOrder` | Backend/utils/keyword_extraction.py:48 | `Counter` keys are in first-occurrence order |
| `Seqs.NoDuplicatesMultiset` | Backend/services/matcher_service.py:66 | a list without duplicates has each element at most once |
| `Seqs.SubMultisetNoDuplicates` | Backend/services/matcher_service.py:121-130 | a sub-multiset of a duplicate-free list is duplicate free |
| `Seqs.FilterOutSpec` | Backend/utils/text_preprocessing.py:104-107 | an order-preserving filter gives a subsequence keeping exactly the multiplicity of every element it keeps |
| `Seqs.FilterOutMembers` | Backend/utils/text_preprocessing.py:104-107 | membership after a filter is membership before and not being dropped |
| `Seqs.FilterOutLength` | Backend/utils/text_preprocessing.py:104-107 | a filter never lengthens |
| `Seqs.FilterOutIdempotent` | Backend/utils/text_preprocessing.py:104-107 | filtering twice is filtering once |
| `Seqs.FilterOutKeepsAll` | Backend/utils/keyword_extraction.py:45 | a filter that drops nothing present is the identity |
| `Seqs.FilterOutDropsAll` | Backend/utils/section_matcher.py:56-59 | a filter that drops everything present gives the empty list |
| `Seqs.FilterOutPartition` | Backend/utils/keyword_extraction.py:92-95 | a filter and its complement split the multiset |
| `Seqs.FilterSplit` | Backend/utils/keyword_extraction.py:84-97 | a filter and its complement are two subsequences whose lengths and multisets add up to the input, each holding exactly its side |

## Left out

- The sentence-embedding model, encoding and cosine similarity are one function parameter shared by all components. The three model instances in the source load the same configured model. Its [0, 1] range is a hypothesis (`CosineInRange`) wherever a bound needs it.
- The e-mail and phone regexes (`Backend/utils/ats_score.py` lines 92 and 96) are predicate parameters.
- The order in which `list(jd_terms)` and `list(resume_terms)` enumerate a Python set (`Backend/services/matcher_service.py` lines 66-67) is a parameter. `ListingFaithful` assumes it lists each element exactly once; only the keyword-list guarantees depend on it.
- Python's `round(x, 2)` on the reported scores (`Backend/utils/ats_score.py` line 176, `Backend/services/matcher_service.py` lines 148-165) is binary-float rounding. The model reports the unrounded reals. The overall match uses the rounded ATS score in the source and the unrounded one here. The source labels the unrounded score but reports the rounded one (`Backend/utils/ats_score.py` lines 167-176), so an unrounded 69.996 is shown as 70.0 with the label "Good"; the label agrees with the reported score here (`MatcherService.ScoresInRange`) only because the model reports the unrounded score.
- Unicode is not modelled. `\w`, `\d`, `\s`, `lower()` and `strip()` are their ASCII versions.
- The case-insensitive skill-phrase patterns of `extract_noun_phrases` (`Backend/utils/text_preprocessing.py` lines 59-66) are left out. They need a backtracking regex engine, so `ExtractNounPhrases` returns the three other patterns' phrases.
- The skill-indicator patterns of `extract_technical_terms` (lines 80-91) are left out for the same reason. The technical terms are the noun phrases and the bullet-line words.
- TextPreprocessing.ExtractTechnicalTerms: because of the two omissions above, it states the terms of the noun-phrase and bullet strategies only.
- The capture groups of the first two experience patterns (`Backend/utils/experience_parser.py` lines 23-24) are modelled by scanners. The maximum is taken over the line-25 captures, as `ExperienceYearsSpec` states. `ExplicitAreMentions` and `LabelledAreMentions` prove that the other captures are among them.
- `analyze_from_assets` is not modelled, because it does file search and PDF reading. `Backend/utils/file_utils.py`, `Backend/app.py` (Flask routing), `Backend/services/report_generator.py` and the front end are not part of this model.
- The `pip install` fallbacks at import time are not modelled.
- `top_n` parameters are natural numbers. Python's negative slice bounds are not modelled, and every caller passes a positive constant.
- `line.strip()` non-empty (`Backend/utils/ats_score.py` line 68) is the predicate `HasText`, and `AtsScore.HasTextIsStrip` proves it equal.
- MatcherService.Analyze: its keyword guarantees are stated about the term sets `extract_all_terms` returns. Beyond the length bounds, which always hold, they need a faithful set listing. Its score bounds hold only when the similarity model stays in [0, 1].
- MatcherService.SemanticOf: its bound is an implication from `CosineInRange`, because the source relies on the model's documented range.
- MatcherService.SkillOf: its bound is an implication from `CosineInRange`, because the source relies on the model's documented range.
- MatcherService.AtsOf: its bound is an implication from `CosineInRange`, because the source relies on the model's documented range.
- MatcherService.OverallOf: its bound is an implication from `CosineInRange`, because the source relies on the model's documented range.
- MatcherService.KeywordsOf: its guarantees other than the two length bounds are an implication from `ListingFaithful`, because Python's `list(set)` is assumed to enumerate each element once.
