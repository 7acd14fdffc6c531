# hiring_cv_bias — a verified model of the comparison and cleaning core

This project models in Dafny the part of `hiring_cv_bias` that can be stated exactly. That part has three pieces:

- **Confusion bookkeeping.** It compares what the rule-based extractors find in a candidate's CV with what the commercial CV parser reports. Four loops do this: `compare`, `evaluate_rule_based_extraction`, `evaluate_driver_license_extraction` and `extract_skill_cases`. They count true and false positives and negatives, and record one evidence row per disagreeing label.
- **Numbers derived from the counts.** These are the scores with their zero guards, the per-group error rates and the disparity index.
- **Cleaning and exploration helpers.** These are the CV text cleaners, the label normalisers, the row filters, the CV-quality statistics, the job-title normaliser and the group and share tables of the gender analysis.

**Data model.**
- A data frame is a sequence of records; a column is the function that reads a field from a row.
- A Python set is a Dafny `set`; a list of evidence rows is a `seq`. Because rows are appended while a set is iterated, their order is unspecified, so the contracts speak of their multiset.
- Division is exact `real` arithmetic.
- A possibly-null value is an `Option`. A Python exception the modelled code raises on its inputs is the `Err` side of a `Result`; the exceptions that are not modelled are named under "## Left out".
- Regular expressions are parameters: a predicate "the pattern matches somewhere in this text", or the list of match spans. The one exception is the licence-code test `^[a-e][1-9]?e?$`, which is modelled exactly.

**Modules.**

| Module | Models |
|---|---|
| `Maybe` | `Option`/`Result` |
| `Collections` | count, filter, order-preserving dedup, sums |
| `Text` | the Python `str` builtins used: `strip`, `split`, `lower`, `replace`, `splitlines` |
| `Tables` | candidate and skill rows |
| `Bags` | evidence rows built from sets |
| `Metrics` | `Conf`, `scores`, `compute_metrics` |
| `CompareParser` | `compare`, `compute_candidate_coverage` |
| `DriverLicenseParser` | `evaluate_driver_license_extraction`, `analyze_bias_by_gender` |
| `RuleBasedParser` | `evaluate_rule_based_extraction`, `extract_parser_snippets`, `highlight_snippets` (src version) |
| `Snippets` | the context window shared by the snippet functions |
| `SkillCases` | `extract_skill_cases` |
| `Groups` | `get_category_distribution`, `error_rates_by_group` |
| `RuleBasedReport` | `highlight_snippets` and the overall rates of `print_report` (hiring version) |
| `Extractors` | the extractors and both normalisers |
| `FuzzyUtils` | `normalize_jobs`, `compute_tp_rate`, `remove_duplicates` |
| `FuzzyParsing` | `clean_cv`, `clean_punctuation` |
| `RuleBasedClean` | the other `clean_cv` |
| `Disparity` | `compute_disparity` |
| `Exploration` | `add_suffix_and_concat`, `split_df_per_attribute`, `localize` |
| `RawCv` | the CV-quality statistics |
| `Cleaning` | the row filters |
| `GenderAnalysis` | the skill distribution and gender-share tables |

**Duplicated source files.** The repository keeps two copies, `hiring_cv_bias/` and `src/hiring_cv_bias/`, of several files. Where two copies do the same thing, the model has one definition and the table cites either copy:

- `clean_cv_text` in `hiring_cv_bias/translation/translate.py:14-21` and in `src/hiring_cv_bias/translation/translate.py:19-26` is the same sequence of steps as `clean_cv` in `src/hiring_cv_bias/bias_detection/fuzzy/parsing.py:5-12`. All three are `FuzzyParsing.CleanCv`.
- `localize` at `src/hiring_cv_bias/exploration/utils.py:1-6` and at `src/hiring_cv_bias/utils.py:14-19` is `Exploration.Localize`.
- `compute_disparity` at `hiring_cv_bias/exploration/disparity.py:84-90` and at `hiring_cv_bias/exploration/utils.py:179-185` is `Disparity.Disparity`.
- `filter_out_candidate_ids` in the src copy is the hiring one without the percentage.
- `normalize_jobs` and `compute_tp_rate` are the same in both `fuzzy/utils.py` files.
- The two `extractors.py` versions share `extract_driver_license`, `extract_languages` and `norm_driver_license`. They differ only in the pattern tables, which are parameters here.

**Where a natural reading and the code differ, the model follows the code:**

- `compare` keeps a parser label that normalises to the empty string. Nothing filters `""` out of the parser set, so `""` is counted like any other label.
- `assign_bin` never indexes out of range when `bin_size` and `max_bin` are positive, even if `max_bin` is not a multiple of `bin_size`: `RawCv.AssignBinContains` proves it.
- `norm_driver_license` of a non-string is `""`, but `""` itself may still match the abstract licence pattern. So normalising twice is the same as normalising once only when the input is a string or the pattern rejects `""` (`Extractors.NormDriverLicenseIdempotent`).
- `error_rates_by_group` and `analyze_bias_by_gender` build a data frame from the list of error rows. When that list is empty, the data frame has no columns and `group_by` raises; the model returns `Err(ColumnNotFoundError)` there.
- `extract_skill_cases` calls `.item()` on the rows of each untouched candidate id, which raises unless exactly one row has that id. The model returns `Err(ValueError)` in that case.
- `normalize_jobs` raises a `ValueError` on unpacking a job of at most three words that contains two or more `/`. At that point the list has already been partly edited.

**What the proofs establish.**

For the four loops:
- The final counters are the sum of per-candidate contributions. Each candidate adds exactly |truth∩parser|, |truth−parser| and |parser−truth|, or one branch of the four-way classifier.
- The counters do not depend on the order of the candidates.
- The evidence lists are exactly the rows for the disagreeing labels, one per label, with the fixed reason string.
- The lengths of the evidence lists equal the matching counters.

For the numbers and helpers:
- The scores lie in [0, 1]; a zero denominator gives 0.
- The per-group counts add up to the number of rows.
- The disparity index lies in [0, 1), is 0 for equal points and is unchanged by permutation.
- The rule-based `clean_cv` deletes exactly the marker and triple-quote occurrences a left-to-right scan finds, and leaves no line break, no two adjacent whitespace characters and no whitespace at the ends; `clean_punctuation` removes exactly the punctuation characters.
- `normalize_jobs` leaves only short, unsplit titles, in the order the list operations produce.
- The quality statistics stay within their bounds.

## Model

| member | source | states |
|---|---|---|
| Tables.SkillsOfType | hiring_cv_bias/bias_detection/rule_based/evaluation/compare_parser.py:89 | the rows kept are exactly the skill rows of the given type, never more rows than the input |
| Tables.RowIds | hiring_cv_bias/bias_detection/rule_based/evaluation/compare_parser.py:90-91 | an id is in the set iff some row carries it |
| Tables.RowIdsCard | hiring_cv_bias/bias_detection/rule_based/evaluation/compare_parser.py:89-92 | the number of distinct ids is at most the number of rows they come from |
| Tables.CandidateIds | hiring_cv_bias/bias_detection/utils.py:13 | an id is in the set iff some candidate row carries it |
| Tables.RowsWithId | hiring_cv_bias/bias_detection/utils.py:30 | the filtered candidates are exactly those with the id, never more than the input |
| Bags.AppendRows | hiring_cv_bias/bias_detection/rule_based/evaluation/compare_parser.py:44-65 | appending one row per label keeps the old rows as a prefix, adds exactly the image of the labels and grows by the number of labels |
| Bags.BagMembers | hiring_cv_bias/bias_detection/rule_based/evaluation/compare_parser.py:44-65 | a row is in the accumulated evidence iff some candidate produced it |
| Bags.BagCard | hiring_cv_bias/bias_detection/rule_based/evaluation/compare_parser.py:44-65 | the accumulated evidence has as many rows as the per-candidate row sets have together |
| Bags.BagStep | hiring_cv_bias/bias_detection/rule_based/evaluation/compare_parser.py:44-65 | one more candidate adds exactly its own rows to the evidence |
| Metrics.RatioProperties | hiring_cv_bias/bias_detection/rule_based/evaluation/metrics.py:10-13 | a guarded ratio is 0 on a zero denominator, otherwise the exact quotient; it is non-negative, at most 1 when part ≤ whole, 1 when part = whole > 0 |
| Metrics.F1Bounds | hiring_cv_bias/bias_detection/rule_based/evaluation/metrics.py:12 | f1 is 0 when precision + recall is 0, otherwise 2pr/(p+r), and lies between the smaller and the larger of p and r, hence in [0, 1] |
| Metrics.ScoreBounds | hiring_cv_bias/bias_detection/rule_based/evaluation/metrics.py:9-13 | all four scores lie in [0, 1]; all counts zero gives four zeros; each zero denominator gives 0; fp = 0 < tp gives precision 1 and fn = 0 < tp gives recall 1 |
| Metrics.ScoreQuotients | hiring_cv_bias/bias_detection/rule_based/evaluation/metrics.py:9-13 | with a non-zero denominator, accuracy·(tp+fp+tn+fn) = tp+tn, precision·(tp+fp) = tp, recall·(tp+fn) = tp and f1·(p+r) = 2pr |
| Metrics.ComputeMetrics | hiring_cv_bias/bias_detection/rule_based/parser.py:99-105 | `compute_metrics` returns (accuracy, precision, recall, f1) of the same confusion counts as `scores`, each 0 on its zero denominator and each in [0, 1] |
| Metrics.LabelConfPartition | hiring_cv_bias/bias_detection/rule_based/evaluation/compare_parser.py:38-42 | for one candidate, tp + fn = the reference size, tp + fp = the prediction size, tp + fp + fn = the size of their union, and tn is 1 exactly when both sets are empty and then nothing else is counted |
| Metrics.SumConfAppend | hiring_cv_bias/bias_detection/rule_based/evaluation/compare_parser.py:21-42 | the totals over two runs of candidates are the sum of their totals |
| Metrics.SumConfPrefix | hiring_cv_bias/bias_detection/rule_based/evaluation/compare_parser.py:21-42 | the counters after any prefix of the loop are at most the final counters (they never decrease) |
| Metrics.SumConfRemove | hiring_cv_bias/bias_detection/rule_based/evaluation/compare_parser.py:21-42 | the totals are the totals without one candidate plus that candidate's contribution |
| Metrics.SumConfPermutation | hiring_cv_bias/bias_detection/rule_based/evaluation/compare_parser.py:21-42 | the totals do not depend on the order of the candidates |
| CompareParser.ParserSetSkipsNonStrings | hiring_cv_bias/bias_detection/rule_based/evaluation/compare_parser.py:30-36 | a matching row whose skill is not a string adds nothing to the parser set |
| CompareParser.ParserSetHasRow | hiring_cv_bias/bias_detection/rule_based/evaluation/compare_parser.py:30-36 | every string skill of a row with the candidate's id and the skill type contributes its normalised form, whatever that form is (including "") |
| CompareParser.ParserSetIgnoresOthers | hiring_cv_bias/bias_detection/rule_based/evaluation/compare_parser.py:32-34 | rows with another id or another skill type do not change the parser set |
| CompareParser.RowSetFacts | hiring_cv_bias/bias_detection/rule_based/evaluation/compare_parser.py:44-65 | the evidence rows of one candidate, one per label, are as many as the labels and are exactly the rows for those labels with the given reason |
| CompareParser.RowCounts | hiring_cv_bias/bias_detection/rule_based/evaluation/compare_parser.py:38-65 | the number of fp evidence rows equals the fp counter and the number of fn rows the fn counter |
| CompareParser.EvidenceOf | hiring_cv_bias/bias_detection/rule_based/evaluation/compare_parser.py:44-65 | every evidence row carries the fixed reason and belongs to a candidate whose labels contain its skill, and every such label has its row |
| CompareParser.EvidenceExact | hiring_cv_bias/bias_detection/rule_based/evaluation/compare_parser.py:44-65 | every fp row's skill is in parser − truth for its candidate and every fn row's skill in truth − parser, each with its one reason string, and every such label has its row |
| CompareParser.CompareStep | hiring_cv_bias/bias_detection/rule_based/evaluation/compare_parser.py:21-65 | one iteration adds exactly the candidate's confusion counts and its fp and fn rows |
| CompareParser.Compare | hiring_cv_bias/bias_detection/rule_based/evaluation/compare_parser.py:11-67 | `compare` returns the per-candidate sums of the confusion counts, exactly the fp rows (parser − truth) and fn rows (truth − parser) of all candidates, and as many rows of each kind as the fp and fn counters |
| CompareParser.CompareOrderFree | hiring_cv_bias/bias_detection/rule_based/evaluation/compare_parser.py:21-42 | the final counters do not depend on the candidate order, and the counters never decrease during the loop |
| CompareParser.CompareTotals | hiring_cv_bias/bias_detection/rule_based/evaluation/compare_parser.py:38-42 | tp + fn is the total size of the truth sets, tp + fp that of the parser sets, and tn is at most the number of candidates |
| CompareParser.CandidateCoverage | hiring_cv_bias/bias_detection/rule_based/evaluation/compare_parser.py:70-113 | the regex ids and parser ids are the ids with an extractor hit and with a skill row of the type; common, only-regex and only-parser are pairwise disjoint, common ∪ only-regex = regex ids, common ∪ only-parser = parser ids, each `num_*` count is the size of its set, the counts add up accordingly, and unique parser ids ≤ parser occurrences, which count the skill rows of the type |
| DriverLicenseParser.ParserSeesLicense | hiring_cv_bias/bias_detection/rule_based/parser.py:63-67 | the parser flag holds iff the candidate has a skill row of type "DRIVERSLIC" |
| DriverLicenseParser.BranchPartition | hiring_cv_bias/bias_detection/rule_based/parser.py:71-94 | every candidate falls into exactly one of tp, fp, tn, fn, chosen by the regex and parser flags |
| DriverLicenseParser.LicenseTotal | hiring_cv_bias/bias_detection/rule_based/parser.py:58-95 | tp + fp + tn + fn equals the number of candidates |
| DriverLicenseParser.LicenseFindingCounts | hiring_cv_bias/bias_detection/rule_based/parser.py:73-94 | there are as many false-positive findings as fp and as many false-negative findings as fn |
| DriverLicenseParser.LicenseParserCount | hiring_cv_bias/bias_detection/rule_based/parser.py:67-86 | the parser-positive candidates counted are exactly tp + fn |
| DriverLicenseParser.LicenseFindingsExact | hiring_cv_bias/bias_detection/rule_based/parser.py:73-94 | a false-positive finding exists exactly for each candidate with the regex flag and no parser row, and a false-negative one for the reverse, each with its fixed reason |
| DriverLicenseParser.LicenseStep | hiring_cv_bias/bias_detection/rule_based/parser.py:58-95 | one iteration adds its branch to the counters, at most one finding to the matching list, and the candidate to the count when the parser flag holds |
| DriverLicenseParser.EvaluateDriverLicenseExtraction | hiring_cv_bias/bias_detection/rule_based/parser.py:50-96 | the loop returns the per-candidate branch sums, exactly the findings in candidate order and the parser-positive count; the four counters add up to the number of candidates, the list lengths equal fp and fn, and count = tp + fn |
| DriverLicenseParser.AnalyzeBiasByGender | hiring_cv_bias/bias_detection/rule_based/parser.py:108-117 | grouping fails with a missing-column error exactly when the false-positive or the false-negative list is empty |
| DriverLicenseParser.AnalyzeBiasByGenderRates | hiring_cv_bias/bias_detection/rule_based/parser.py:108-134 | with both lists non-empty, each result row is a gender's number of findings over its candidate count (null when the gender has no candidates), and exactly the genders that occur in the findings appear |
| RuleBasedParser.ExtractLanguagesRuleBased | src/hiring_cv_bias/bias_detection/rule_based/parser.py:25-27 | a language is listed iff its pattern matches the lower-cased text, at most one entry per pattern |
| RuleBasedParser.ExtractLanguagesInOrder | src/hiring_cv_bias/bias_detection/rule_based/parser.py:27 | the result is the names of the table entries whose pattern matches, in table order |
| RuleBasedParser.ParserSkillsExact | src/hiring_cv_bias/bias_detection/rule_based/parser.py:88-95 | the parser set holds the normalised skill of every row with the id and skill type and nothing else; with no such row it is empty |
| RuleBasedParser.FindingSetFacts | src/hiring_cv_bias/bias_detection/rule_based/parser.py:111-131 | one candidate's findings are one per skill, with the given reason |
| RuleBasedParser.FindingCounts | src/hiring_cv_bias/bias_detection/rule_based/parser.py:97-131 | the number of false-positive findings equals fp (rule − parser) and of false-negative findings equals fn (parser − rule) |
| RuleBasedParser.FindingsExact | src/hiring_cv_bias/bias_detection/rule_based/parser.py:111-131 | every finding has the list's reason and a skill in the candidate's label set, and every such label has its finding |
| RuleBasedParser.AppendFindings | src/hiring_cv_bias/bias_detection/rule_based/parser.py:111-131 | the inner loop appends exactly one finding per skill and keeps the earlier findings as a prefix |
| RuleBasedParser.EvaluateStep | src/hiring_cv_bias/bias_detection/rule_based/parser.py:80-131 | one candidate adds |rule∩parser|, |rule−parser|, |parser−rule|, a tn or a count, and its findings, preserving the loop invariant |
| RuleBasedParser.EvaluateDone | src/hiring_cv_bias/bias_detection/rule_based/parser.py:75-133 | at loop exit the counters are the per-candidate sums, tn + count is the number of candidates, and the finding lists are exactly the findings with lengths fp and fn |
| RuleBasedParser.EvaluateRuleBasedExtraction | src/hiring_cv_bias/bias_detection/rule_based/parser.py:68-133 | the evaluation returns the per-candidate sums with fp = rule − parser and fn = parser − rule, tn + count = number of candidates, and exactly the findings of each kind, as many as fp and fn |
| RuleBasedParser.EvaluateWithDefaultNorm | src/hiring_cv_bias/bias_detection/rule_based/parser.py:73-95 | with the default normaliser `x.lower()`, the call raises AttributeError exactly when some candidate has a skill row of the type with a null `Skill` cell; otherwise it returns the evaluation of the lower-cased cells |
| RuleBasedParser.DefaultParserSkills | src/hiring_cv_bias/bias_detection/rule_based/parser.py:73-95 | without null cells, a candidate's default parser labels are exactly its lower-cased `Skill` cells, none with an upper-case letter |
| RuleBasedParser.EvaluationTotals | src/hiring_cv_bias/bias_detection/rule_based/parser.py:97-103 | tp + fp is the total rule-set size, tp + fn the total parser-set size, and tn is at most the number of candidates |
| RuleBasedParser.EvaluationOrderFree | src/hiring_cv_bias/bias_detection/rule_based/parser.py:80-109 | the counters do not depend on the order of the candidates |
| RuleBasedParser.ExtractParserSnippets | src/hiring_cv_bias/bias_detection/rule_based/parser.py:30-40 | one snippet per match span, in match order, each "... before...matched...after ..." over the clipped context window |
| RuleBasedParser.HighlightSnippets | src/hiring_cv_bias/bias_detection/rule_based/parser.py:136-148 | the result is ["No occurrence found."] exactly when there are no matches, otherwise one highlighted snippet per match, in order |
| RuleBasedParser.HighlightedSnippetShape | src/hiring_cv_bias/bias_detection/rule_based/parser.py:139-147 | a snippet is "... " + before + "..." + RED + match + RESET + "..." + after + " ..."; before and after are at most the context long and with the match form the contiguous window of the text |
| Snippets.WindowStart | src/hiring_cv_bias/bias_detection/rule_based/parser.py:34 | the window start is at most the match start, within context characters of it, and is clipped only at 0 |
| Snippets.WindowEnd | src/hiring_cv_bias/bias_detection/rule_based/parser.py:35 | the window end is at least the match end, at most the text length, within context characters, and clipped only at the length |
| Snippets.Before | src/hiring_cv_bias/bias_detection/rule_based/parser.py:36 | the text before the match is at most context characters long |
| Snippets.After | src/hiring_cv_bias/bias_detection/rule_based/parser.py:38 | the text after the match is at most context characters long |
| Snippets.WindowContiguous | src/hiring_cv_bias/bias_detection/rule_based/parser.py:33-38 | before + match + after is exactly the window of the text from the clipped start to the clipped end |
| SkillCases.CollectSkills | hiring_cv_bias/bias_detection/utils.py:18-22 | `_collect_skills` keeps exactly the rows whose skill is a variant, in order, and removes exactly their ids from the candidate set |
| SkillCases.TnRowsStep | hiring_cv_bias/bias_detection/utils.py:29-42 | adding the tn row of one more id keeps one row per id |
| SkillCases.TnProgressStep | hiring_cv_bias/bias_detection/utils.py:29-42 | one iteration of the tn loop preserves its invariant |
| SkillCases.CollectTnRows | hiring_cv_bias/bias_detection/utils.py:28-42 | the tn loop fails with a ValueError exactly when some remaining id does not have exactly one candidate row, and otherwise builds one tn row per remaining id, from that candidate, with no skill and the fixed reason |
| SkillCases.ExtractSkillCases | hiring_cv_bias/bias_detection/utils.py:8-48 | the tp, fp and fn rows are the variant rows of each list, the tn rows are one per untouched candidate id, it fails exactly as the tn loop does, and the Conf holds the four list lengths |
| SkillCases.KeptRows | hiring_cv_bias/bias_detection/utils.py:18-26 | a row is kept iff it is in the input and its skill is one of the variants; never more rows than the input |
| SkillCases.TnDisjoint | hiring_cv_bias/bias_detection/utils.py:13-29 | no kept tp, fp or fn row belongs to a tn candidate, and every candidate is either a tn candidate or owns a kept row |
| Groups.CountsOfRows | hiring_cv_bias/exploration/gender_analysis.py:15 | the count rows pair each key with its number of occurrences, and their counts add up to the occurrences of the keys |
| Groups.GroupByRows | hiring_cv_bias/exploration/gender_analysis.py:15 | `group_by(col).agg(len)` has one row per distinct value, in first-appearance order, with that value's count |
| Groups.GroupByFacts | hiring_cv_bias/exploration/gender_analysis.py:15-16 | the grouping is a count table: distinct keys, each counted correctly and positive, every value present, counts summing to the number of rows |
| Groups.CountTablePermutation | hiring_cv_bias/exploration/gender_analysis.py:18-20 | reordering a count table (as the sort does) keeps it a count table of the same rows |
| Groups.CategoryDistributionFacts | hiring_cv_bias/exploration/gender_analysis.py:12-22 | the distribution is a permutation of the grouping, sorted by count descending, and a count table of the column |
| Groups.CategoryDistributionSum | src/hiring_cv_bias/exploration/gender_analysis.py:11-12 | the counts add up to the number of rows, the percentage denominator |
| Groups.PercentageBounds | hiring_cv_bias/exploration/gender_analysis.py:19 | count/total·100 lies in [0, 100], is 0 only for a zero count, and times total gives 100·count |
| Groups.SumPercentages | hiring_cv_bias/exploration/gender_analysis.py:16-19 | the percentages of some rows add up to the percentage of their summed counts |
| Groups.PercentagesSumTo100 | hiring_cv_bias/exploration/gender_analysis.py:16-19 | the unrounded percentages of a non-empty column add up to 100 |
| Groups.LookupTotal | hiring_cv_bias/bias_detection/rule_based/evaluation/bias.py:25 | the left join finds a group's population total when the group is in the distribution, and gives null exactly when it is not |
| Groups.RateTableFacts | hiring_cv_bias/bias_detection/rule_based/evaluation/bias.py:18-31 | each rate row holds a group of the error rows, its number of error rows, its population count (null when absent from the population) and the quotient; every group in the error rows has exactly one row and no other group appears |
| Groups.RateRowCorrect | hiring_cv_bias/bias_detection/rule_based/evaluation/bias.py:18-31 | the joined row of one error-row group holds its error count, its population count (null exactly when the group is absent from the population) and their quotient |
| Groups.RateTableSum | hiring_cv_bias/bias_detection/rule_based/evaluation/bias.py:18-19 | the per-group counts add up to the number of error rows |
| Groups.ErrorRatesByGroup | hiring_cv_bias/bias_detection/rule_based/evaluation/bias.py:6-33 | it fails with a missing-column error exactly when the fp or fn list is empty |
| Groups.ErrorRatesByGroupTables | hiring_cv_bias/bias_detection/rule_based/evaluation/bias.py:15-33 | otherwise it returns the fp and fn rate tables against the population's category distribution |
| RuleBasedReport.HighlightSnippets | hiring_cv_bias/bias_detection/rule_based/utils.py:50-62 | the result is ["No occurrence found."] exactly when there are no matches, otherwise one highlighted snippet per match, in order |
| RuleBasedReport.HighlightedIsNotNoOccurrence | hiring_cv_bias/bias_detection/rule_based/utils.py:62 | no highlighted snippet equals the no-occurrence message, so the two cases cannot be confused |
| RuleBasedReport.HighlightedShape | hiring_cv_bias/bias_detection/rule_based/utils.py:53-61 | a snippet is before + RED + match + RESET + after with no ellipses; before and after are at most the context long; removing the colour codes leaves the contiguous window of the text |
| RuleBasedReport.OverallRates | hiring_cv_bias/bias_detection/rule_based/utils.py:44-47 | the overall rates are the numbers of fp and fn rows over the population height, and dividing by a zero height raises |
| RuleBasedReport.OverallRatesMatchGroups | hiring_cv_bias/bias_detection/rule_based/utils.py:33-47 | the per-group error counts of the grouped report add up to the numerators of the overall rates |
| Text.ReplaceAllCharacterised | src/hiring_cv_bias/bias_detection/rule_based/utils.py:5-6 | `s.replace(pat, rep)`: exactly one list of leftmost, non-overlapping occurrences of `pat` exists, and the result is the text between them joined by `rep` |
| RuleBasedClean.CleanCvDeletions | src/hiring_cv_bias/bias_detection/rule_based/utils.py:5-6 | there is a left-to-right list of leftmost, non-overlapping occurrences of "CV anonimizzato:", the first step deletes exactly those and keeps the text between them; likewise for `"""` in its result |
| RuleBasedClean.CleanCvProperties | src/hiring_cv_bias/bias_detection/rule_based/utils.py:4-9 | the cleaned CV has no newline or carriage return, no two adjacent whitespace characters, no leading or trailing whitespace, and is never longer than the input |
| FuzzyParsing.CleanCvNoNewline | src/hiring_cv_bias/bias_detection/fuzzy/parsing.py:5-12 | the cleaned text contains no newline |
| FuzzyParsing.CleanCvSpacing | hiring_cv_bias/translation/translate.py:14-21 | the cleaned text contains neither two consecutive spaces nor " ," |
| FuzzyParsing.CleanCvLowerAndShorter | src/hiring_cv_bias/translation/translate.py:19-26 | the cleaned text has no upper-case letter and is never longer than the input |
| FuzzyParsing.CleanPunctuation | src/hiring_cv_bias/bias_detection/fuzzy/parsing.py:15-20 | the loop over `string.punctuation` leaves exactly the text without punctuation characters |
| FuzzyParsing.CleanPunctuationProperties | src/hiring_cv_bias/bias_detection/fuzzy/parsing.py:16-20 | the result keeps exactly the non-punctuation characters, is never longer, is idempotent, and is the text itself when it has no punctuation |
| FuzzyUtils.SplitOnFacts | hiring_cv_bias/bias_detection/fuzzy/utils.py:13 | `split("/")` yields one more part than there are separators, none containing the separator |
| FuzzyUtils.SplitOnOne | hiring_cv_bias/bias_detection/fuzzy/utils.py:13 | with exactly one "/", the split yields the two halves around it |
| FuzzyUtils.HalvesFacts | hiring_cv_bias/bias_detection/fuzzy/utils.py:12-13 | a short job with one "/" splits into two halves that are themselves short and slash-free |
| FuzzyUtils.SplitHalvesKept | hiring_cv_bias/bias_detection/fuzzy/utils.py:12-15 | every appended half is short and slash-free |
| FuzzyUtils.SplitHalvesLength | hiring_cv_bias/bias_detection/fuzzy/utils.py:13-15 | two halves are appended per split job |
| FuzzyUtils.NormalizedJobsFacts | hiring_cv_bias/bias_detection/fuzzy/utils.py:8-15 | after normalisation no job has more than 3 words or any "/"; the untouched jobs come first in their original order, followed by two halves per split job |
| FuzzyUtils.RemoveAfterKept | hiring_cv_bias/bias_detection/fuzzy/utils.py:11 | `list.remove` takes out the first occurrence, which lies after the jobs already kept |
| FuzzyUtils.Unroll | hiring_cv_bias/bias_detection/fuzzy/utils.py:8-15 | the list after step i+1 of the loop is the list after step i with job i handled |
| FuzzyUtils.RemoveStep | hiring_cv_bias/bias_detection/fuzzy/utils.py:11-14 | removing job i from the partly normalised list leaves the kept prefix, the unvisited jobs and the halves |
| FuzzyUtils.DropStep | hiring_cv_bias/bias_detection/fuzzy/utils.py:10-11 | dropping a job of more than 3 words preserves the loop invariant |
| FuzzyUtils.SplitStep | hiring_cv_bias/bias_detection/fuzzy/utils.py:12-15 | replacing a job by its two halves appended at the end preserves the loop invariant |
| FuzzyUtils.KeepStep | hiring_cv_bias/bias_detection/fuzzy/utils.py:8-15 | a job left untouched preserves the loop invariant |
| FuzzyUtils.StopStep | hiring_cv_bias/bias_detection/fuzzy/utils.py:12-13 | a short job whose split does not give two parts stops the loop with the list as the earlier jobs left it, and the input then has a bad split |
| FuzzyUtils.DoneStep | hiring_cv_bias/bias_detection/fuzzy/utils.py:8-16 | after the last job the list is the normalised list of the input |
| FuzzyUtils.JobList.constructor | hiring_cv_bias/bias_detection/fuzzy/utils.py:7 | the list object holds the given jobs |
| FuzzyUtils.JobList.NormalizeJobs | src/hiring_cv_bias/bias_detection/fuzzy/utils.py:7-16 | the list is edited in place; the call raises a ValueError exactly when some short job has two or more "/", leaving the list as it stood at that job, and otherwise returns the same list, now the normalised jobs |
| FuzzyUtils.ComputeTpRate | hiring_cv_bias/bias_detection/fuzzy/utils.py:19-26 | the rate is None exactly when tp + fn = 0, otherwise 100·tp/(tp+fn) in [0, 100], 100 exactly when fn = 0 and 0 exactly when tp = 0 |
| FuzzyUtils.RateBounds | src/hiring_cv_bias/bias_detection/fuzzy/utils.py:22-23 | the rate formula lies in [0, 100] and times tp + fn gives 100·tp |
| FuzzyUtils.RemoveDuplicates | hiring_cv_bias/bias_detection/fuzzy/utils.py:29-34 | the loop with a seen-set returns the order-preserving dedup of the list |
| FuzzyUtils.DedupFacts | hiring_cv_bias/bias_detection/fuzzy/utils.py:33-34 | the dedup has the same elements, no duplicates, is never longer, keeps first occurrences in order, and is idempotent |
| Extractors.ExtractDriverLicense | hiring_cv_bias/bias_detection/rule_based/extractors.py:13-16 | the result is {"driver_license"} when the pattern matches the lower-cased text and the empty set otherwise |
| Extractors.ExtractLanguages | src/hiring_cv_bias/bias_detection/rule_based/extractors.py:18-20 | the result is a subset of the table's languages: exactly those whose pattern matches the lower-cased text |
| Extractors.ExtractorsIgnoreCase | hiring_cv_bias/bias_detection/rule_based/extractors.py:35-37 | both extractors give the same answer on a text and on its lower-cased form |
| Extractors.DriverCodeForms | hiring_cv_bias/bias_detection/rule_based/extractors.py:19 | `^[a-e][1-9]?e?$` accepts exactly a letter a–e, an optional digit 1–9 and an optional "e" |
| Extractors.DriverCodeExamples | src/hiring_cv_bias/bias_detection/rule_based/extractors.py:24 | "b", "b1", "ce", "c1e" are codes; "", "f", "b0", "b10", "bee", upper-case "B" and "driver_license" are not |
| Extractors.NormDriverLicense | hiring_cv_bias/bias_detection/rule_based/extractors.py:22-29 | a non-string gives ""; otherwise the result is "driver_license" exactly when the lower-cased stripped label is a code or matches the pattern (or already is that token), and else that label; the result never has upper-case letters unless it is the token |
| Extractors.NormDriverLicenseCodes | src/hiring_cv_bias/bias_detection/rule_based/extractors.py:37-40 | upper-case codes "B" and "CE" map to "driver_license" whatever the pattern |
| Extractors.NormDriverLicenseStrips | hiring_cv_bias/bias_detection/rule_based/extractors.py:25-28 | surrounding whitespace is stripped before the code test |
| Extractors.NormDriverLicenseIdempotent | src/hiring_cv_bias/bias_detection/rule_based/extractors.py:35-41 | normalising a normalised label changes nothing |
| Extractors.AddVariantsFacts | hiring_cv_bias/bias_detection/rule_based/extractors.py:40-44 | adding one code's variants maps each lower-cased variant to the code and leaves other keys alone |
| Extractors.ReverseLanguageMapKeys | hiring_cv_bias/bias_detection/rule_based/extractors.py:40-44 | the reverse map's keys are exactly the lower-cased variants of all entries |
| Extractors.ReverseLanguageMapLastWins | hiring_cv_bias/bias_detection/rule_based/extractors.py:40-44 | a key named by several entries maps to the code of the last one |
| Extractors.ReverseLanguageMapValues | hiring_cv_bias/bias_detection/rule_based/extractors.py:40-44 | every value of the reverse map is the code of an entry naming that key |
| Extractors.LanguageCodeFacts | hiring_cv_bias/bias_detection/rule_based/extractors.py:49-60 | a non-empty result is a code of `LANGUAGE_VARIANTS` whose variants name the stripped, lower-cased label, and it is the code of the last entry naming it |
| Extractors.LanguageCodeIgnoresCase | hiring_cv_bias/bias_detection/rule_based/extractors.py:53-55 | the lookup does not see case or surrounding whitespace |
| Extractors.LanguageNormalizer.constructor | hiring_cv_bias/bias_detection/rule_based/extractors.py:40-46 | the module state starts with the reverse map of the variant table and an empty missing set |
| Extractors.LanguageNormalizer.NormLanguages | hiring_cv_bias/bias_detection/rule_based/extractors.py:49-60 | the result is the map's code of the stripped lower-cased label, or ""; a non-string returns "" and leaves `_missing` alone; a miss adds the stripped, not lower-cased, label to `_missing` |
| Disparity.ComputeDisparity | hiring_cv_bias/exploration/disparity.py:84-90 | the loop over all unordered pairs computes the disparity index, and fails with a division by zero exactly when the list is empty or sums to 0 |
| Disparity.PairSumOfEqual | hiring_cv_bias/exploration/utils.py:180-183 | the pair sum of equal points is 0 |
| Disparity.DisparityOfEqual | hiring_cv_bias/exploration/disparity.py:85-89 | equal points with a non-zero sum have disparity 0 |
| Disparity.PairSumBound | hiring_cv_bias/exploration/utils.py:182-183 | for non-negative points the pair sum is non-negative and bounded by (n−1)·Σx |
| Disparity.DisparityBounds | hiring_cv_bias/exploration/utils.py:180-184 | non-negative points with a positive sum have disparity in [0, 1), at most (n−1)/n |
| Disparity.DisparityUndefined | hiring_cv_bias/exploration/disparity.py:89 | the division fails exactly when the list is empty or sums to 0 |
| Disparity.SumPermutation | hiring_cv_bias/exploration/disparity.py:89 | the sum of the points does not depend on their order |
| Disparity.PairSumPermutation | hiring_cv_bias/exploration/disparity.py:85-88 | the sum over unordered pairs does not depend on the order of the points |
| Disparity.DisparityPermutation | hiring_cv_bias/exploration/utils.py:180-185 | the disparity index does not depend on the order of the points |
| Exploration.Suffixed | hiring_cv_bias/exploration/utils.py:189 | `column + suffix` appends the suffix to every value |
| Exploration.ConcatLength | hiring_cv_bias/exploration/utils.py:190 | the concatenation is as long as all columns together |
| Exploration.ConcatAt | hiring_cv_bias/exploration/utils.py:190 | value k of column i sits at the column's offset plus k |
| Exploration.AddSuffixAndConcat | hiring_cv_bias/exploration/utils.py:188-191 | the call raises ValueError("cannot concat empty list") exactly when there is no column or no suffix |
| Exploration.AddSuffixAndConcatFacts | hiring_cv_bias/exploration/utils.py:188-191 | with no column or no suffix the call fails with the empty-concat ValueError; otherwise the result is as long as the zipped columns together, and value k of column i is that value with suffix i appended, at the column's offset plus k |
| Exploration.SplitDfPerAttribute | hiring_cv_bias/exploration/utils.py:194-201 | the keys are the distinct values in first-appearance order and each maps to exactly the rows holding it |
| Exploration.RowsWithCount | hiring_cv_bias/exploration/utils.py:199 | a group has as many rows as its value has occurrences in the column |
| Exploration.SplitPartition | hiring_cv_bias/exploration/utils.py:197-201 | the keys are distinct, exactly the values present, in first-appearance order; each row is in the group of its own value only; the group sizes add up to the number of rows |
| Exploration.Localize | src/hiring_cv_bias/exploration/utils.py:1-6 | "NORTH" iff latitude > 44.5, "SOUTH" iff latitude < 40, "CENTER" iff 40 ≤ latitude ≤ 44.5 |
| Exploration.LocalizeMonotone | src/hiring_cv_bias/utils.py:14-19 | the label is always one of the three, and a larger latitude never gives a band further south |
| RawCv.TextLengthFacts | src/hiring_cv_bias/cleaning/raw_cv.py:17 | the length is at most the raw length, 0 exactly for a null, empty or all-whitespace text, and unaffected by stripping first |
| RawCv.Decimal | src/hiring_cv_bias/cleaning/raw_cv.py:74 | a number formats to a non-empty string of digits |
| RawCv.DecimalRoundTrip | src/hiring_cv_bias/cleaning/raw_cv.py:98 | reading back the digits of a formatted number (the `cast(pl.Int64)` of its text) gives the number |
| RawCv.DecimalInjective | src/hiring_cv_bias/cleaning/raw_cv.py:74 | different numbers format differently |
| RawCv.LeadingNumberOf | src/hiring_cv_bias/cleaning/raw_cv.py:98 | `extract(r"^(\d+)")` of a formatted number followed by a non-digit gives that number |
| RawCv.BinEdges | src/hiring_cv_bias/cleaning/raw_cv.py:73 | the edges are 0, bin_size, 2·bin_size, …, one more than the number of labels |
| RawCv.BinEdgesAreRange | src/hiring_cv_bias/cleaning/raw_cv.py:73 | every edge is below the stop `max_bin + bin_size` and one more step would reach it, as `range(0, max_bin + bin_size, bin_size)` yields |
| RawCv.BinCountBounds | src/hiring_cv_bias/cleaning/raw_cv.py:73-75 | the labels cover max_bin, there are none exactly when max_bin = 0, and the last one starts below max_bin |
| RawCv.BinLabels | src/hiring_cv_bias/cleaning/raw_cv.py:73-75 | building the labels succeeds iff bin_size > 0 and max_bin > 0, with one label per bin; otherwise `range` or `labels[-1]` raises |
| RawCv.BinLabelsFacts | src/hiring_cv_bias/cleaning/raw_cv.py:74-75 | label j starts with j·bin_size; the inner labels read "lo-hi" and the last reads "{bin_edges[-2]}+" |
| RawCv.BinLabelAt | src/hiring_cv_bias/cleaning/raw_cv.py:74-75 | the same facts for one label j |
| RawCv.BinIndex | src/hiring_cv_bias/cleaning/raw_cv.py:78-81 | the chosen index is in range and its bin starts at or below n |
| RawCv.AssignBinContains | src/hiring_cv_bias/cleaning/raw_cv.py:77-81 | `assign_bin` never fails for positive sizes; its label starts at the bin of n (clipped to the last), holds n when inner, and is the "+" label for the last bin |
| RawCv.AssignBinIndex | src/hiring_cv_bias/cleaning/raw_cv.py:77-81 | the label returned is the last label for n ≥ max_bin and labels[n // bin_size] otherwise |
| RawCv.AnalyzeBlank | src/hiring_cv_bias/cleaning/raw_cv.py:128-134 | a text of only blank lines has no content lines and gives (0, 1.0) |
| RawCv.AnalyzeRatio | src/hiring_cv_bias/cleaning/raw_cv.py:131-136 | otherwise the result is (number of non-blank stripped lines, 1 − distinct/total), in [0, 1), 0 exactly when the lines are distinct |
| RawCv.StrippedLine | src/hiring_cv_bias/cleaning/raw_cv.py:131 | stripping a line again changes nothing, and a stripped line still has no line break |
| RawCv.ContentLinesAreStripped | src/hiring_cv_bias/cleaning/raw_cv.py:131 | every content line is non-empty, already stripped and free of line breaks |
| RawCv.DetectVocabSparsity | src/hiring_cv_bias/cleaning/raw_cv.py:166-180 | the three lists stay aligned with the texts and hold each text's word statistics |
| RawCv.WordsOfNonBlank | src/hiring_cv_bias/cleaning/raw_cv.py:168-173 | a text with a non-whitespace character has at least one token |
| RawCv.VocabStatsFacts | src/hiring_cv_bias/cleaning/raw_cv.py:167-180 | unique ≤ total and ttr ∈ [0, 1]; a blank text gives (0, 0, 0.0); otherwise ttr = unique/total with unique ≥ 1, and ttr = 1 exactly when no token repeats ignoring case |
| RawCv.NonBlankStats | src/hiring_cv_bias/cleaning/raw_cv.py:173-176 | a non-blank text counts its tokens and its distinct lower-cased tokens |
| RawCv.VocabStatsOfNonBlank | src/hiring_cv_bias/cleaning/raw_cv.py:173-180 | the statistics of a non-blank text are its token counts and their quotient |
| RawCv.ToDiscardFacts | src/hiring_cv_bias/cleaning/raw_cv.py:187-190 | a text is discarded iff it has fewer than min_words tokens or a ttr below min_ttr; with the defaults a blank text is discarded; never more texts than the input |
| RawCv.UnusualCharClasses | src/hiring_cv_bias/cleaning/raw_cv.py:210-222 | ASCII letters, digits and the space are never unusual; a control character below 0x20 is unusual unless it is a tab, newline or carriage return; 0x7F–0x9F are unusual |
| RawCv.ComputeFracFacts | src/hiring_cv_bias/cleaning/raw_cv.py:234-239 | the fraction is 0.0 for the empty string and otherwise unusual/len, in [0, 1], 0 exactly when no character is unusual and 1 exactly when all are |
| Cleaning.FilterOrder | hiring_cv_bias/cleaning/common.py:49 | a filter keeps the passing rows at strictly increasing positions, i.e. as an order-preserving subsequence |
| Cleaning.FilterOutKeeps | hiring_cv_bias/cleaning/common.py:49 | a row is kept iff its id is not in the list, in the original order |
| Cleaning.ReportFacts | hiring_cv_bias/cleaning/common.py:48-52 | dropped is the number of rows whose id is listed, dropped + remaining = original, and pct is 0.0 for no rows and otherwise dropped/original·100 in [0, 100] |
| Cleaning.FilterOutEmptyAndTwice | src/hiring_cv_bias/cleaning/common.py:45 | an empty id list leaves the rows unchanged, and filtering twice with the same list equals filtering once |
| Cleaning.KeepSkillFacts | hiring_cv_bias/cleaning/common.py:78-89 | a skill is kept iff its length is within bounds, it has an ASCII letter and the placeholder pattern does not match; a null skill is never kept |
| Cleaning.DefaultPatternExamples | hiring_cv_bias/cleaning/common.py:66 | with the `X{5,}` pattern, "XXXXX" and "aXXXXXb" are dropped, "Excel" is kept and "42" is dropped |
| Cleaning.DroppedAreFailing | hiring_cv_bias/cleaning/common.py:89-96 | the anti join returns exactly the rows whose skill fails the keep predicate, and they and the kept rows add up to all rows |
| Cleaning.FilterUnknownIsOneFilter | hiring_cv_bias/utils.py:17-18 | the two filters in a row are one filter by the conjunction |
| Cleaning.FilterUnknownMembers | hiring_cv_bias/utils.py:17-18 | a row survives iff its gender is "Male" or "Female" and its age bucket is "25-34", "45-54" or "55-74"; "35-44" and "Unknown" never survive |
| Cleaning.FilterUnknownIdempotent | hiring_cv_bias/utils.py:17-18 | filtering again changes nothing |
| Cleaning.FilterUnknownOrder | hiring_cv_bias/utils.py:14-19 | the result is an order-preserving subsequence of the input |
| GenderAnalysis.CountTableTotals | hiring_cv_bias/exploration/gender_analysis.py:28-31 | every gender in the (gender, skill) counts has a positive total |
| GenderAnalysis.ShareRowsRows | hiring_cv_bias/exploration/gender_analysis.py:33-36 | the join adds one share row per count row |
| GenderAnalysis.SumGenderCounts | hiring_cv_bias/exploration/gender_analysis.py:29-31 | a gender's total is the sum of its (gender, skill) counts |
| GenderAnalysis.GenderTotalIsRowCount | hiring_cv_bias/exploration/gender_analysis.py:28-31 | a gender's total_skills is the number of rows of that gender |
| GenderAnalysis.ShareOfCorrect | hiring_cv_bias/exploration/gender_analysis.py:28-36 | each row holds its pair's positive count, its gender's total, and count/total·100 |
| GenderAnalysis.SkillDistributionFacts | hiring_cv_bias/exploration/gender_analysis.py:25-40 | every row of the distribution is correct in that sense |
| GenderAnalysis.PercentagesComplement | src/hiring_cv_bias/exploration/gender_analysis.py:61-70 | the unrounded male and female percentages add up to 100 |
| GenderAnalysis.SharePercentages | hiring_cv_bias/exploration/gender_analysis.py:35 | the percentages of one gender's rows add up to the percentage of their summed counts |
| GenderAnalysis.PercentagesPerGender | hiring_cv_bias/exploration/gender_analysis.py:33-36 | the unrounded percentages within a gender that occurs add up to 100 |
| GenderAnalysis.JoinKeysFacts | src/hiring_cv_bias/exploration/gender_analysis.py:56 | the outer join's keys are distinct and are exactly the skills present for either gender |
| GenderAnalysis.ShareTableRows | src/hiring_cv_bias/exploration/gender_analysis.py:56-59 | one share row per joined key |
| GenderAnalysis.KeysOfCount | src/hiring_cv_bias/exploration/gender_analysis.py:44-54 | a skill's per-gender count is the number of its rows of that gender |
| GenderAnalysis.KeysOfLength | src/hiring_cv_bias/exploration/gender_analysis.py:44-54 | the per-gender key list has one entry per row of that gender |
| GenderAnalysis.ShareRowCorrect | src/hiring_cv_bias/exploration/gender_analysis.py:56-80 | each share row has the two counts (0 on a missing side), total = male + female > 0, diff = male − female with |diff| ≤ total, and percentages of the total that add up to 100 |
| GenderAnalysis.SkillGenderShareFacts | src/hiring_cv_bias/exploration/gender_analysis.py:39-80 | the table has one row per skill present for either gender and each row is correct |
| GenderAnalysis.ShareTableSums | src/hiring_cv_bias/exploration/gender_analysis.py:56-59 | the male and female columns add up to the per-gender key counts |
| GenderAnalysis.SkillGenderShareTotals | src/hiring_cv_bias/exploration/gender_analysis.py:44-59 | the male column adds up to the male rows and the female column to the female rows |
| GenderAnalysis.ShareIgnoresOtherGenders | src/hiring_cv_bias/exploration/gender_analysis.py:44-54 | rows of other genders do not change the table |
| GenderAnalysis.SkilltypeGenderShareFacts | src/hiring_cv_bias/exploration/gender_analysis.py:150-192 | the skill-type table is a permutation of the share table sorted by count_total descending, and each row is correct |

## Left out

- Regular expressions (`driver_license_pattern_eng`/`_it`, `LANGUAGE_REGEXES(_EN)`, `DRIVER_LICENSE_SNIPPET_PATTERN`, the placeholder pattern) are parameters: their contents live in pattern tables, and the language tables are built at import time from third-party packages and a CSV file.
- Set iteration order: Python iterates a set in an unspecified order, so the order of appended evidence rows and of tn rows is not modelled, only their multiset or their one-row-per-element shape.
- Streamlit apps, spaCy/NLTK/SentenceTransformer matching, the LLM labelling loop, language detection, Google Translate and Zippia scraping are foreign calls and are not part of this model.
- Plotting, printing, progress bars, CSV and Excel loading, `prepare_data`, `print_report`'s printing, `print_highlighted_cv`, `print_candidate_coverage` and `export_false_negatives_for_manual_labelling` are I/O.
- Decimal rounding (`round(…, 1)`, `np.round`) is not modelled: every ratio is the exact rational; `RateBounds` and `ComputeTpRate` state the unrounded rate.
- `bias_strength` (`log1p`), `get_skill_target_share`, `cramers_v` and the z-score ranking in `compute_top_disparity_values` are floating-point analytics outside the core.
- `Text.Lower` lower-cases ASCII letters only; Python's `str.lower` also maps non-ASCII letters. `Text.IsSpace` is Python's whitespace set.
- `Groups.CategoryDistributionFacts`: polars' `group_by` returns groups in an unspecified order; the model groups in first-appearance order and then sorts by count, largest first, and its contract does not fix the order among equal counts.
- `GenderAnalysis.SkillDistributionFacts`: the final sort by gender ascending and percentage descending is not modelled; the rows stay in first-appearance order.
- `GenderAnalysis.JoinKeysFacts`: the outer join's row order is unspecified in polars; the model lists male keys first, then female-only keys.
- Null handling of polars (`is_in` with nulls, `localize` on NaN, non-string or null CV texts passed to `.strip()` or to `clean_cv`) is not modelled: texts are strings and latitudes are reals.
- `RuleBasedParser.EvaluateRuleBasedExtraction` takes a caller-supplied `normalize_parser_skill` as a total function on cells, null included; a supplied normaliser that raises is not modelled. The default normaliser and its AttributeError are modelled by `RuleBasedParser.EvaluateWithDefaultNorm`.
- `add_suffix_and_concat` is modelled for string columns only; other column types are not part of this model.
- The `> max_repetition` filter of `detect_repetitive_cvs`, the `> max_unusual_frac` filter of `detect_corrupted_cvs`, `filter_placeholder_tails`, `find_and_print_short_cvs`, `inspect_missing` and `assess_translation_completeness` are one-line filters or reports around the modelled statistics and are not modelled.
- `Extractors.NormDriverLicenseIdempotent`: stated only for a string input or a pattern that rejects `""`, because a non-string maps to `""`, which the abstract pattern may match.
- `Disparity.DisparityBounds` states the bound `(n−1)/n` through `Disparity.Len`, the length as a real, which `Disparity.LenIsLength` equates with `|xs|`.
- `hiring_cv_bias/bias_detection/rule_based/utils.py` imports `error_rates_by_group` from a module whose shown version does not define it; the grouped report is modelled with `Groups.ErrorRatesByGroup` from `bias.py`.
