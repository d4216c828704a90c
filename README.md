# EHRSQL 2024 scoring engine, in Dafny

This project models the scoring engine of the EHRSQL 2024 shared task on
reliable text-to-SQL over electronic health records, together with the small
helpers around it. A system answers each question with an SQL query, or
abstains with the string `null`. The scorer then does four things:

- it normalises both the gold and the predicted SQL with a fixed pipeline of
  text rewrites;
- it executes both against a frozen database and canonicalises the rows;
- it scores every sample 1, 0 or -1;
- it reports the mean score under several penalties for wrong answers.

The model also covers these helpers:

- the submission format validator;
- the schema-to-prompt serialiser of the ChatGPT baseline, and that baseline's answer clean-up;
- the all-abstain baseline.

Modules:

| module | file | models |
|---|---|---|
| `Text` | text.dfy | Python string primitives: `str.replace`, `re.sub('[ ]+', ' ', …)`, `strip()`, ASCII `lower()`, `join`, slicing off a trailing separator |
| `Ordering` | ordering.dfy | Python's string order and `sorted` on lists of strings (insertion sort) |
| `Dicts` | dicts.dfy | a Python `dict` with string keys: insertion order plus a map |
| `SqlRewrites` | sql_rewrites.dfy | the whitespace collapse, operator-spacing fix and strftime fix-up shared by both normalisers |
| `VitalBounds` | vital_bounds.dfy | the `<name>_lower`/`<name>_upper` bound substitution shared by both normalisers |
| `PostProcessing` | postprocessing.dfy | `post_process_sql` and `convert_date_function` of the scoring program |
| `LegacyScorer` | legacy_scoring.dfy | the older `post_process_sql` in task/scorer/scoring.py |
| `Outcomes` | outcomes.dfy | executed answers, the five-case reliability score, the penalised mean |
| `ScoringUtils` | scoring_utils.dfy | `process_answer`, `execute_sql_wrapper`, `execute_all`, `reliability_score`, and the accuracies the official script reports |
| `ReliabilityScore` | reliability_score.dfy | `process_answer`, `execute`, `execute_query` and `calculate_score` of the first scoring module |
| `FormatChecker` | format_checker.dfy | the record loop and the null-majority rule of `check_format` |
| `PromptGenerator` | prompt_generator.dfy | the flattening in `load_schema`, the two `find_*_MYSQL_like` functions, `create_schema_prompt` |
| `ChatGptModel` | chatgpt_model.dfy | `post_process` of the ChatGPT baseline |
| `DummyModel` | dummy_model.dfy | `model.generate` of the all-abstain baseline |

How Python entities are modelled:

- **Strings** are `seq<char>`.
- **Regular expressions** are implemented by hand, exactly as the code writes them.
  - `\w` and `\d` are ASCII word characters and digits.
  - The greedy `[a-zA-Z0-9_]+_lower` takes the whole identifier run, then backs off to the last `_lower` inside it.
  - `[, ]+ INTERVAL` backtracks, so it needs at least one separator character before the blank that starts ` INTERVAL`.
- **The database** is a function from SQL text to either the fetched rows or a failure. Each row appears as its printed `str(row)`.
- **Executed answers** are a datatype: `Skip` (the string `'null'`), `Rows(canon)` (the printed canonical row list) or `Error(message)`.
  - A printed Python list starts with `[`, so it never equals `'null'` or an error string.
  - Comparing answers as datatype values is therefore the same as the scorer's string comparison.
- **Dictionaries** keep their insertion order, which the scoring loops iterate in.
- **`np.mean`** is the exact rational mean. The mean of an empty list, which numpy gives as `nan`, is modelled as `None`.
- **Loops** that fill lists or dictionaries are methods with loop invariants. Each is proved equal to a specification function, and the properties are proved about that function.

Where the two sides disagree, the model follows the code:

- **`TIME_PATTERN`** only rewrites a `DATE_SUB`/`DATE_ADD` whose date argument is a zero-argument call such as `NOW()` or a quoted literal.
  - A bare column such as `admittime` is left unchanged.
  - This is `PostProcessing.BareColumnNotMatched` and `PostProcessing.BareColumnUnchanged`: the date group of the pattern accepts only `\w+()` or a quoted literal, so no bare column is converted.
- **The vital-sign table** of the older normaliser is the same table, so both normalisers share `VitalBounds.PrecomputedRanges`.
- **`reliability_score(…, return_dict=True)`** is modelled by one method that returns both the list and the dictionary.

## Model

| member | source | states |
|---|---|---|
| `SqlRewrites.CollapseWhitespace` | scoring_program/postprocessing.py:36 | no newline and no two spaces in a row are left, the ends are not whitespace, the non-whitespace characters are exactly those of the input in order, and the text never grows |
| `SqlRewrites.CollapseWhitespaceOfCollapsed` | scoring_program/postprocessing.py:36 | text with no newline, no doubled space and no whitespace at either end is a fixed point of the collapse |
| `SqlRewrites.CollapseWhitespaceOfSeparated` | scoring_program/postprocessing.py:36 | a gap of spaces and newlines between two such texts is replaced by exactly one space |
| `SqlRewrites.CollapseWhitespaceIdempotent` | scoring_program/postprocessing.py:36 | collapsing twice is collapsing once |
| `SqlRewrites.FixOperatorSpacing` | scoring_program/postprocessing.py:37 | no `> =`, `< =` or `! =` is left, only spaces are removed, and text without those operators is unchanged |
| `SqlRewrites.FixOperatorSpacingJoins` | scoring_program/postprocessing.py:37 | a spaced `> =`, `< =` or `! =` between texts without `>`, `<` or `!` becomes `>=`, `<=` or `!=` and nothing else changes |
| `SqlRewrites.FixStrftime` | scoring_program/postprocessing.py:65 | position by position, a `y` right after `%` becomes `Y`, a `j` right after `%` becomes `J`, and every other character is kept; so no `%y` or `%j` is left and text without them is unchanged |
| `SqlRewrites.FixStrftimeIdempotent` | scoring_program/postprocessing.py:65 | the fix-up is idempotent |
| `PostProcessing.MatchInterval` | scoring_program/postprocessing.py:15 | a match of TIME_PATTERN is a well-formed call (operator `DATE_SUB`/`DATE_ADD`, date `\w+()` or `'…'`, a `[, ]` run, digits, unit `MONTH`/`YEAR`/`DAY`) whose text is exactly the start of the input |
| `PostProcessing.MatchIntervalComplete` | scoring_program/postprocessing.py:15 | every well-formed call is matched, with its own groups and the text after it: the converse of `MatchInterval` |
| `PostProcessing.BareColumnNotMatched` | scoring_program/postprocessing.py:15 | `DATE_SUB(`/`DATE_ADD(` followed by a bare column name is not a match |
| `PostProcessing.MatchIntervalNeedsDate` | scoring_program/postprocessing.py:15 | when the date argument is neither form, nothing matches |
| `PostProcessing.ConvertDateFunctionShape` | scoring_program/postprocessing.py:17-32 | the replacement is `datetime(<date>, '<sign><n> <unit>')` with `-` for `DATE_SUB` and `+` otherwise, the unit lower-cased and singular exactly when the number is `1` |
| `PostProcessing.LowerUnit` | scoring_program/postprocessing.py:21 | the three units lower-case to `month`, `year`, `day`, none ending in `s` |
| `PostProcessing.NoTrailingS` | scoring_program/postprocessing.py:24-27 | `rstrip('s')` keeps such a unit and `endswith('s')` is false, so the plural gains exactly one `s` |
| `PostProcessing.RewriteIntervalsIdentity` | scoring_program/postprocessing.py:40 | text in which the pattern matches nowhere is unchanged by `re.sub` |
| `PostProcessing.RewriteIntervalsAtCall` | scoring_program/postprocessing.py:40 | a matched call is replaced by its `datetime` form and scanning resumes after it |
| `PostProcessing.RewriteIntervalsOfCall` | scoring_program/postprocessing.py:40 | a query that is one call becomes its `datetime` form |
| `PostProcessing.BareColumnUnchanged` | scoring_program/postprocessing.py:40 | an interval call on a bare column, with any unit, passes through the rewrite unchanged when no other `DAT` follows in the text |
| `PostProcessing.BareColumnDayExample` | scoring_program/postprocessing.py:15 | `DATE_ADD(admittime, INTERVAL 2 DAY)` is left exactly as it is |
| `PostProcessing.RewriteIntervalsSkips` | scoring_program/postprocessing.py:40 | text at none of whose positions the pattern matches is copied through, and the scan continues after it |
| `PostProcessing.RewriteIntervalsMidCall` | scoring_program/postprocessing.py:40 | a well-formed call after text without `DAT` is converted in place and the text before it is kept |
| `PostProcessing.ReplaceIfPresent` | scoring_program/postprocessing.py:42-53 | the `if p in q` guard never changes the result of the replacement |
| `PostProcessing.FreezeClock` | scoring_program/postprocessing.py:42-53 | a query without any clock word is unchanged |
| `PostProcessing.FreezeClockRemovesPlaceholders` | scoring_program/postprocessing.py:42-53 | after the clock rewrites no `current_time`, `current_date`, `NOW()`, `CURDATE()` or `CURTIME()` is left |
| `PostProcessing.ReplaceRemovesPlaceholder` | scoring_program/postprocessing.py:42-53 | replacing a word by text made only of digits and `-: '.%YJ` leaves no occurrence of that word |
| `PostProcessing.ReplaceKeepsPlaceholdersAbsent` | scoring_program/postprocessing.py:42-53 | such a replacement never creates a clock word that was absent |
| `PostProcessing.FreezeWord` | scoring_program/postprocessing.py:42-53 | each guarded rewrite replaces every occurrence of its clock word by its frozen value in quotes |
| `PostProcessing.FreezeClockOfWord` | scoring_program/postprocessing.py:42-53 | one clock word amid text without `c`, `C`, `n` or `N` becomes its value in quotes: `current_time`, `'now'` and `NOW()` the instant `'2100-12-31 23:59:00'`, `current_date` and `CURDATE()` the date `'2100-12-31'`, `CURTIME()` the time `'23:59:00'`; nothing else changes |
| `PostProcessing.PostProcessSql` | scoring_program/postprocessing.py:34-67 | the normalised query holds none of the five clock words and neither `%y` nor `%j` |
| `PostProcessing.VitalBoundsKeepAbsent` | scoring_program/postprocessing.py:55-63 | the bound substitution never creates a clock word |
| `PostProcessing.TextFixesIdentity` | scoring_program/postprocessing.py:36-37 | text that is already tidy passes the first two stages unchanged |
| `PostProcessing.LastStagesIdentity` | scoring_program/postprocessing.py:55-65 | text with no `_lower` and no `%` passes the last two stages unchanged |
| `PostProcessing.PipelineOfCallOnNow` | scoring_program/postprocessing.py:34-67 | a tidy interval call on `NOW()` ends as its `datetime` form with `NOW()` frozen, because the interval rewrite runs before the clock rewrites |
| `PostProcessing.IntervalOnNowExample` | scoring_program/postprocessing.py:40-53 | `DATE_SUB(NOW(), INTERVAL 1 YEAR)` ends as `datetime('2100-12-31 23:59:00', '-1 year')` |
| `VitalBounds.LastTagAt` | scoring_program/postprocessing.py:55 | the greedy back-off point is the largest position at which the tag starts, and there is none exactly when the tag starts nowhere |
| `VitalBounds.SearchTagged` | scoring_program/postprocessing.py:55-57 | a found group is an identifier ending in the tag, with at least one character before it |
| `VitalBounds.SearchTaggedOccurs` | scoring_program/postprocessing.py:55 | a found group means the tag occurs in the query |
| `VitalBounds.FindAllOfGroup` | scoring_program/postprocessing.py:58 | `re.findall('([a-zA-Z0-9_]+)_lower', g)` on a found group yields exactly its name |
| `VitalBounds.DistinctOfTwo` | scoring_program/postprocessing.py:58-59 | the set of the two names has one element exactly when they are equal |
| `VitalBounds.SubstituteVitalBounds` | scoring_program/postprocessing.py:55-63 | without both a `_lower` and an `_upper` group the query is unchanged, and it changes only if `_lower` occurs |
| `VitalBounds.SubstituteFound` | scoring_program/postprocessing.py:58-63 | the query is unchanged or both groups are replaced by the bounds of some key of the table |
| `VitalBounds.VitalSubstitutionRule` | scoring_program/postprocessing.py:55-63 | the query changes exactly when the two groups name the same vital sign and that name, underscores turned into spaces, is a key of the table, and then every occurrence of each group becomes its bound |
| `VitalBounds.SearchTaggedSkipsWord` | scoring_program/postprocessing.py:55 | no match starts inside text without blanks |
| `VitalBounds.SearchTaggedSkipsUntagged` | scoring_program/postprocessing.py:55 | a blank and an identifier without the tag are skipped |
| `VitalBounds.SearchTaggedFinds` | scoring_program/postprocessing.py:55-57 | a blank then an identifier ending in the tag is the match, and the identifier is the group |
| `VitalBounds.ReplaceTwoTags` | scoring_program/postprocessing.py:63 | two different tags that each occur once are each replaced by their bound |
| `VitalBounds.KeyOfTwoWords` | scoring_program/postprocessing.py:60 | `a_b` becomes the key `a b` |
| `VitalBounds.HeartRateExample` | scoring_program/postprocessing.py:55-63 | `v BETWEEN heart_rate_lower AND heart_rate_upper` becomes `v BETWEEN 60.0 AND 100.0` |
| `LegacyScorer.PostProcessSql` | task/scorer/scoring.py:22-42 | no `current_time` survives, and neither does `%y` or `%j` |
| `LegacyScorer.ClockWordStaysAway` | task/scorer/scoring.py:27-40 | once `current_time` is replaced, no later stage brings it back |
| `LegacyScorer.CollapseDoubledQuotes` | task/scorer/scoring.py:39 | the text never grows, and text without `''` is unchanged |
| `LegacyScorer.CollapseDoubledQuotesJoins` | task/scorer/scoring.py:39 | a doubled quote between quote-free texts becomes one quote and nothing else changes |
| `LegacyScorer.DoubledQuotesCollapsed` | task/scorer/scoring.py:27-39 | the doubled quotes around the inserted instant each collapse to one |
| `LegacyScorer.QuotedClockWord` | task/scorer/scoring.py:27-39 | a quoted `'current_time'` ends as the single-quoted `'2105-12-31 23:59:00'` |
| `LegacyScorer.QuotedClockWordAlone` | task/scorer/scoring.py:27-39 | the query `'current_time'` alone ends as `'2105-12-31 23:59:00'` |
| `LegacyScorer.PostProcessSqlIdentity` | task/scorer/scoring.py:22-42 | tidy text without `current_time`, `_lower`, `''`, `%y` or `%j` is unchanged, so MySQL calls pass through |
| `LegacyScorer.IntervalOnNowUnchanged` | task/scorer/scoring.py:22-42 | `DATE_SUB(NOW(), INTERVAL 1 YEAR)` is left exactly as it is |
| `Ordering.SortIgnoresOrder` | scoring_program/scoring_utils.py:10 | sorting two permutations of a list gives the same list |
| `Ordering.SortedUnique` | scoring_program/scoring_utils.py:10 | two sorted permutations of each other are equal |
| `Ordering.Sort` | scoring_program/scoring_utils.py:10 | `sorted` returns a sorted permutation of its input |
| `Ordering.LexLeTotal` | scoring_program/scoring_utils.py:10 | Python's string order is total |
| `Ordering.LexLeTransitive` | scoring_program/scoring_utils.py:10 | Python's string order is transitive |
| `ScoringUtils.ProcessAnswer` | scoring_program/scoring_utils.py:9-10 | the canonical answer is sorted, holds only input rows, and has as many rows as the input, capped at 100 |
| `ScoringUtils.ProcessAnswerIgnoresOrder` | scoring_program/scoring_utils.py:9-10 | the canonical answer does not depend on the order of the fetched rows |
| `ScoringUtils.ProcessAnswerKeepsLeast` | scoring_program/scoring_utils.py:10 | the rows cut off are never below the rows kept |
| `ScoringUtils.ExecuteSqlWrapper` | scoring_program/scoring_utils.py:20-29 | the key is kept; `'null'` is returned without running anything; other SQL gives its canonical rows, or `'error_' + tag` exactly when it fails |
| `ScoringUtils.SkipIgnoresDatabase` | scoring_program/scoring_utils.py:20-29 | an abstention gives the same answer whatever the database |
| `ScoringUtils.GoldErrorNeverMatches` | scoring_program/scoring_utils.py:26 | a failed gold query never equals any predicted answer and never scores 1 |
| `ScoringUtils.ExecuteAll` | scoring_program/scoring_utils.py:31-36 | one entry per input key, in input order, each holding that key's wrapped answer |
| `ScoringUtils.ReliabilityScore` | scoring_program/scoring_utils.py:50-82 | one score per gold key in gold order, each the five-case score of that key, each in {-1, 0, 1}, and the dictionary maps each key to the same score |
| `ScoringUtils.OfficialAccuracies` | scoring_program/scoring.py:48-61 | the four accuracies exist exactly when there is at least one score |
| `ScoringUtils.OfficialAccuraciesOrdered` | scoring_program/scoring.py:48-61 | accuracy0 lies in [0, 100], accuracy5 in [-500, 100], accuracy10 in [-1000, 100], accuracy10 ≤ accuracy5 ≤ accuracy0, and accuracyN ≤ accuracy10 once there are at least ten samples |
| `Outcomes.Score` | scoring_program/scoring_utils.py:57-75 | 1 exactly when the answers are equal (both abstaining included), 0 exactly when an answerable question is abstained on, -1 exactly when the prediction answers and differs |
| `Outcomes.ScoreRange` | scoring_program/scoring_utils.py:59-75 | the five cases cover every pair, so every score is -1, 0 or 1 and the fallback branch is unreachable |
| `Outcomes.Penalize` | scoring_program/scoring_utils.py:84-85 | the penalised mean exists exactly for a non-empty list |
| `Outcomes.PenalizeBounds` | scoring_program/scoring_utils.py:84-85 | with penalty p ≥ 0 the mean lies in [-p, 1], and in [0, 1] for p = 0 |
| `Outcomes.PenalizeAntitone` | scoring_program/scoring_utils.py:84-85 | a heavier penalty never raises the mean |
| `Outcomes.ChargedSumBounds` | scoring_program/scoring_utils.py:85 | the sum of the charged scores lies in [-p·n, n] |
| `Outcomes.ChargedSumAntitone` | scoring_program/scoring_utils.py:85 | the charged sum is non-increasing in the penalty |
| `Outcomes.ChargedSumOfPermutation` | scoring_program/scoring_utils.py:85 | the charged sum does not depend on the order of the scores |
| `Outcomes.PenalizeIgnoresOrder` | scoring_program/scoring_utils.py:84-85 | the penalised mean does not depend on the order of the scores |
| `ReliabilityScore.ProcessAnswer` | scoring_program/reliability_score.py:10-11 | the canonical answer is sorted and is a permutation of the first 100 rows |
| `ReliabilityScore.ProcessAnswerIgnoresTail` | scoring_program/reliability_score.py:11 | rows after the 100th never change the canonical answer |
| `ReliabilityScore.ProcessAnswersAgreeOnShortResults` | scoring_program/reliability_score.py:11 | for at most 100 rows the two `process_answer` variants agree |
| `ReliabilityScore.Execute` | scoring_program/reliability_score.py:13-22 | `'null'` comes back unchanged without touching the database; other SQL gives its canonical rows, or an exception exactly when it fails |
| `ReliabilityScore.ExecuteQuery` | scoring_program/reliability_score.py:24-34 | the record keeps its key; a gold failure becomes `'error1'` and a prediction failure `'error2'`, and otherwise each side is its executed answer |
| `ReliabilityScore.GoldErrorNeverMatches` | scoring_program/reliability_score.py:24-34 | a failed gold query never scores 1 |
| `ReliabilityScore.ExpectedScores` | scoring_program/reliability_score.py:65-90 | one score per gold key, each in {-1, 0, 1} |
| `ReliabilityScore.ExecuteQueryDistributed` | scoring_program/reliability_score.py:36-48 | one result per pair, each the `execute_query` of that pair |
| `ReliabilityScore.AccuraciesOf` | scoring_program/reliability_score.py:92-94 | no samples gives no accuracies; otherwise there are three accuracies |
| `ReliabilityScore.AccuraciesOrdered` | scoring_program/reliability_score.py:92-94 | accuracy0 lies in [0, 100], accuracy10 in [-1000, accuracy0], and accuracyN ≤ accuracy10 with at least ten samples |
| `ReliabilityScore.AccuraciesIgnoreOrder` | scoring_program/reliability_score.py:63-94 | the accuracies do not depend on the order in which the results arrive |
| `ReliabilityScore.CalculateScore` | scoring_program/reliability_score.py:50-96 | different id sets abort before anything runs; otherwise the outcome is the accuracies of the expected score of every gold key |
| `FormatChecker.Labels` | task/format_checker/format_checker.py:34-39 | one label per record, in record order |
| `FormatChecker.DoubledLength` | task/format_checker/format_checker.py:35-39 | appending the label once per column makes the list twice as long |
| `FormatChecker.DoubledMultiset` | task/format_checker/format_checker.py:35-39 | and every label appears twice as often |
| `FormatChecker.DoubledRuleIsUndoubledRule` | task/format_checker/format_checker.py:34-46 | the `count > len // 2` rule gives the same decision on the doubled list as on the labels, and holds exactly when more than half the labels are `null` |
| `FormatChecker.AcceptsAtMostHalfNull` | task/format_checker/format_checker.py:33-48 | a submission is accepted exactly when every record has `id` and `label` and at most half its labels are `null` |
| `FormatChecker.HalfNullAccepted` | task/format_checker/format_checker.py:44 | exactly half `null` is accepted |
| `FormatChecker.EmptyAccepted` | task/format_checker/format_checker.py:44-48 | the empty submission is accepted |
| `FormatChecker.MissingKeyRejected` | task/format_checker/format_checker.py:35-37 | a record without `id` or `label` rejects the submission |
| `FormatChecker.CheckFormat` | task/format_checker/format_checker.py:30-48 | the loop returns True exactly when the submission is accepted |
| `PromptGenerator.ZipLength` | chatgpt_sample_submission/prompt_generator.py:15 | `zip` stops at the shorter list |
| `PromptGenerator.FieldRowsOf` | chatgpt_sample_submission/prompt_generator.py:15-18 | at most one field row per zipped column, each naming the database and one of its tables |
| `PromptGenerator.FieldRowsOfAttached` | chatgpt_sample_submission/prompt_generator.py:15-18 | with every column attached to a table there is exactly one row per column, in column order, holding its table, name and type |
| `PromptGenerator.AttachedColumnsSpec` | chatgpt_sample_submission/prompt_generator.py:15-17 | the attached columns are listed in increasing order, and a column is listed exactly when its table index is above -1 |
| `PromptGenerator.FieldRowsOfMixed` | chatgpt_sample_submission/prompt_generator.py:15-18 | with attached and detached columns mixed, the field rows are exactly the rows of the attached columns, in column order |
| `PromptGenerator.FieldRowsOfDetached` | chatgpt_sample_submission/prompt_generator.py:17 | columns of table -1 give no row |
| `PromptGenerator.PrimaryKeyRowsOf` | chatgpt_sample_submission/prompt_generator.py:19-21 | one row per primary key, in key order, its table resolved through the column's table index |
| `PromptGenerator.ForeignKeyRowsOf` | chatgpt_sample_submission/prompt_generator.py:22-26 | one row per foreign-key pair, in pair order, both tables resolved |
| `PromptGenerator.KeyRowsCount` | chatgpt_sample_submission/prompt_generator.py:19-26 | over all entries, one primary-key row per primary key and one foreign-key row per foreign-key pair |
| `PromptGenerator.FieldRowsComeFromEntries` | chatgpt_sample_submission/prompt_generator.py:9-18 | every field row names an entry's database and one of that entry's tables |
| `PromptGenerator.EntryFieldRows` | chatgpt_sample_submission/prompt_generator.py:15-18 | the column loop of one entry builds its field rows |
| `PromptGenerator.EntryPrimaryKeyRows` | chatgpt_sample_submission/prompt_generator.py:19-21 | the primary-key loop of one entry builds its primary-key rows |
| `PromptGenerator.EntryForeignKeyRows` | chatgpt_sample_submission/prompt_generator.py:22-26 | the foreign-key loop of one entry builds its foreign-key rows |
| `PromptGenerator.LoadSchema` | chatgpt_sample_submission/prompt_generator.py:3-32 | the three frames are the rows of all entries, entry after entry |
| `PromptGenerator.Where` | chatgpt_sample_submission/prompt_generator.py:35 | a boolean row selection keeps a row exactly when it is in the frame and passes the test, and never grows the frame |
| `PromptGenerator.WhereConcat` | chatgpt_sample_submission/prompt_generator.py:35 | the selection keeps frame order: selecting from two frames in a row gives the two selections in a row |
| `PromptGenerator.WhereOne` | chatgpt_sample_submission/prompt_generator.py:35 | a one-row frame keeps its row exactly when it passes |
| `PromptGenerator.WhereCounts` | chatgpt_sample_submission/prompt_generator.py:35 | every passing row is kept as often as it occurs, and no other row is kept |
| `PromptGenerator.ForeignKeysOf` | chatgpt_sample_submission/prompt_generator.py:35 | the selected rows are exactly the rows of the frame that belong to the database |
| `PromptGenerator.FieldsOf` | chatgpt_sample_submission/prompt_generator.py:45 | the selected rows are exactly the rows of the frame that belong to the database |
| `PromptGenerator.ForeignKeyListEmpty` | chatgpt_sample_submission/prompt_generator.py:34-42 | the list is exactly `[]` when the database has no foreign key |
| `PromptGenerator.FindForeignKeys` | chatgpt_sample_submission/prompt_generator.py:34-42 | the loop, the cut of the last `, ` and the `[]` fix give `[` + the `T1.c1 = T2.c2` texts joined by `, ` + `]` |
| `PromptGenerator.CutLastSeparator` | chatgpt_sample_submission/prompt_generator.py:34-42 | cutting the last two characters after appending `x, ` per item leaves the items joined by `, ` |
| `PromptGenerator.GroupNames` | chatgpt_sample_submission/prompt_generator.py:46 | the groups are visited in sorted order |
| `PromptGenerator.GroupNamesAreTables` | chatgpt_sample_submission/prompt_generator.py:45-48 | the groups are exactly the tables that have a field row |
| `PromptGenerator.GroupNamesDistinct` | chatgpt_sample_submission/prompt_generator.py:46-48 | no table is listed twice |
| `PromptGenerator.GroupNonEmpty` | chatgpt_sample_submission/prompt_generator.py:48-52 | every group has a row, so the cut of the last two characters never eats into the header |
| `PromptGenerator.Group` | chatgpt_sample_submission/prompt_generator.py:48-51 | a group holds exactly the rows of its table |
| `PromptGenerator.AppendGroup` | chatgpt_sample_submission/prompt_generator.py:49-53 | one pass of the outer loop appends `Table t, columns = [f1, f2, …]` and a newline |
| `PromptGenerator.FindFields` | chatgpt_sample_submission/prompt_generator.py:44-54 | the listing is one line per table of the database, tables in sorted order, fields in row order |
| `PromptGenerator.CreateSchemaPrompt` | chatgpt_sample_submission/prompt_generator.py:56-61 | a lower-cased prompt has no upper-case letter, and the prompt is as long as the listing, the label and the foreign-key list together |
| `PromptGenerator.PromptParts` | chatgpt_sample_submission/prompt_generator.py:56-61 | the prompt starts with the field listing and ends with `Foreign_keys = ` and the foreign-key list, each lower-cased exactly when `is_lower` |
| `ChatGptModel.PostProcess` | chatgpt_sample_submission/model.py:7-10 | no newline and no two spaces in a row remain, every character other than space and newline is kept in order, and the answer never grows |
| `ChatGptModel.PostProcessIdempotent` | chatgpt_sample_submission/model.py:8-9 | cleaning twice is cleaning once |
| `ChatGptModel.PostProcessKeepsLeadingBlank` | chatgpt_sample_submission/model.py:7-10 | the ends are not trimmed: a leading space or newline leaves a leading space |
| `ChatGptModel.PostProcessOfSeparated` | chatgpt_sample_submission/model.py:8-9 | a gap of spaces and newlines between two pieces is replaced by exactly one space, and each piece is cleaned on its own |
| `ChatGptModel.PostProcessOfClean` | chatgpt_sample_submission/model.py:8-9 | an answer without newline or doubled space is unchanged |
| `DummyModel.Ids` | dummy_sample_submission/model.py:16-17 | the set holds exactly the sample ids |
| `DummyModel.Model.Generate` | dummy_sample_submission/model.py:7-19 | the keys are exactly the sample ids (a repeated id becomes one key, so there are never more keys than samples), every value is `null`, no samples give an empty dictionary, and the keys are in order of each id's first occurrence |
| `DummyModel.AbstentionNeverPenalized` | dummy_sample_submission/model.py:17 | scored by the five-case rule, the abstention is worth 1 on an unanswerable question and 0 otherwise, never -1 |
| `Text.ReplaceAll` | scoring_program/postprocessing.py:37 | `str.replace` leaves text without the pattern unchanged, never lengthens it when the replacement is no longer than the pattern, and keeps its length when both are as long |
| `Text.ReplaceAllKeepsAbsent` | scoring_program/postprocessing.py:42-53 | a replacement sharing no character with a word does not create that word |
| `Text.Squeeze` | chatgpt_sample_submission/model.py:9 | `re.sub('[ ]+', ' ', …)` never lengthens the text and keeps its first character |
| `Text.SqueezeRun` | chatgpt_sample_submission/model.py:9 | a maximal run of spaces between two texts becomes exactly one space, and each text is squeezed on its own |
| `Text.SqueezeConcat` | chatgpt_sample_submission/model.py:9 | a cut that does not follow a space splits the squeeze into two |
| `Text.SqueezeSpaceRun` | chatgpt_sample_submission/model.py:9 | a run of spaces in front of a non-space becomes one space |
| `Text.NewlinesToSpaces` | chatgpt_sample_submission/model.py:8 | `replace('\n', ' ')` keeps the length, turns each newline into a space and keeps every other character |
| `Text.ReplacePairPointwise` | scoring_program/postprocessing.py:65 | replacing `pc` by `pC` changes exactly the `c`s right after a `p`, position by position |
| `Text.SqueezeFilter` | chatgpt_sample_submission/model.py:9 | and it keeps every character that is not a space, in order |
| `Text.StripFilter` | scoring_program/postprocessing.py:36 | `strip()` removes only whitespace |
| `Text.Lower` | chatgpt_sample_submission/prompt_generator.py:60 | `lower()` keeps the length, turns each ASCII upper-case letter into its lower-case partner and changes nothing else |

## Left out

- Real SQLite execution (`sqlite3.connect`, `text_factory`, `fetchall`). The database is an oracle from SQL text to rows or a failure, and rows are represented by their printed form.
- `execute_all_distributed` in scoring_program/scoring_utils.py is not modelled: it runs in a `multiprocessing.Pool` with callbacks, and the sequential `ScoringUtils.ExecuteAll` gives the same keyed result.
- `ReliabilityScore.ExecuteQueryDistributed`: does not model the pool. The results are produced in pair order, whereas the source collects them in completion order. `ReliabilityScore.AccuraciesIgnoreOrder` shows that the reported accuracies do not depend on that order.
- The lookups `q_real = real_dict[key]` and `q_pred = pred_dict[key]` in `calculate_score` are not modelled: their values are never used, and the key always comes from both dictionaries.
- Floating point: `np.mean` is the exact rational mean, and an empty list gives `None` for numpy's `nan`. The printed bounds (`60.0`, `100.0`) are kept as the strings Python prints.
- `\w`, `\d`, `lower()` and `isspace()` are modelled on ASCII. `Text.IsPyWhitespace` lists the ASCII and Unicode spaces `strip()` removes, but non-ASCII letters and digits are not word characters here.
- `PostProcessing.PostProcessSql`: does not state that no `'now'` is left. A replacement ending in a quote can stand right before `now'` and form `'now'` anew, so only the five other clock words are proved gone.
- `PostProcessing.RewriteIntervals` has no contract of its own. Its behaviour is stated by `RewriteIntervalsIdentity`, `RewriteIntervalsSkips`, `RewriteIntervalsAtCall`, `RewriteIntervalsMidCall`, `RewriteIntervalsOfCall` and `BareColumnUnchanged`.
- The CLI and JSON I/O scripts are not modelled; the scoring program's `scoring.py` contributes only the penalties and the scaling of `ScoringUtils.OfficialAccuracies`.
- The command-line part of task/scorer/scoring.py (lines 44-68: reading the JSON files, timing, printing and writing the scores) is I/O and is not modelled.
- `pd.read_json` in `load_schema` and the file-existence check and JSON parsing in `check_format` are I/O.
  - A submission is modelled as a list of records mapping strings to strings.
  - A record that is not a JSON object, and a label that is not a string, are not modelled.
- `PromptGenerator.LoadSchema`: requires every index to resolve (`Resolvable`). The source raises `IndexError` otherwise, and that exception path is not modelled.
- The OpenAI client, the API key and `generate` of the ChatGPT baseline are network calls and are left out. Its `post_process` is modelled.
- The database connection `con` that `calculate_score` opens and never uses is left out.
- The primary-key frame that `create_schema_prompt` receives and never reads is passed along and ignored.
- `DummyModel.Model.Generate`: a sample without an `id` key, which raises `KeyError` in Python, cannot occur, because a `Sample` always has an id.
- The data-preparation script for the MIMIC-IV database is not part of this model: it is a pandas/CSV pipeline with random sampling.
- The editor backups under `.ipynb_checkpoints` and the ingestion program (which loads the submission and calls `generate`) are not modelled: they are copies of modelled code or file I/O.
- The unreachable debug fallbacks (`pdb.set_trace()` and the bare `NotImplementedError`) are not modelled; `Outcomes.ScoreRange` proves they cannot be reached.
