# JobAnalysis normalisation and filtering pipeline, in Dafny

This project models the part of JobAnalysis that turns scraped job rows
into the analysis dataset, and proves properties of that model. The
pipeline has three stages.

1. **Preprocessing** (`preprocess.py`)
   - `extract_salary` reads a free-text salary as an annual figure.
   - `standardize_location` reduces a location to `Remote` or a state
     abbreviation.
   - Two adapters turn each source's rows into `{Title, Location, Skills, Salary}`
     records. `main` concatenates their outputs.
2. **Skill denoising** (`removeIrrelevantFeatures.py`)
   - `filter_row_skills` deletes the exclusion pattern's matches from a
     skills cell. It then splits the cell on `;`, trims and lower-cases the
     pieces, drops blank pieces, collapses duplicates and removes
     denylisted tokens.
   - The `main` loop drops rows whose skills are blank.
   - `count_skills` tallies token frequencies.
3. **Analysis** (`main.py`)
   - The title filter.
   - `filter_experience` removes the experience keywords.
   - `get_top_5_skills` computes per-title frequency leaders.

Modules, in pipeline order:

| module | file | contents |
|---|---|---|
| `Common` | common.dfy | `Option`, order-preserving filters (`Filter`, `FilterMap`), `Dedup`, the subsequence relation |
| `Text` | text.dfy | Python's `str.strip`, `str.lower`, `str.split` on one character, `str.join`, `str.replace` of one character, substring search |
| `Salary`, `SalaryFacts` | salary.dfy | `extract_salary` on exact integers, with its round trip and worked examples |
| `Location` | location.dfy | `standardize_location` over an abstract state table |
| `Preprocess`, `PreprocessFacts` | preprocess.dfy | the two adapters and their concatenation |
| `Noise` | noise.dfy | the exclusion pattern as data, and one left-to-right `re.sub` pass |
| `SkillFilter`, `SkillFilterFacts` | skillfilter.dfy | `filter_row_skills`, the row loop, the denylist, `count_skills` |
| `Analysis` | analysis.dfy | the title filter, `filter_experience`, the top-five ranking |

Representation choices:
- A salary is a whole number of cents.
  - The parsed number is kept as its digit strings, so `float(value)` is the exact rational `Salary.Value`.
  - Python's `round(x, 2)` is modelled as rounding the exact value half to even.
- A CSV row is a `map<string, string>` from column name to cell text.
- `us.states.lookup` is a `map<string, string>` parameter, from the text looked up to the state's abbreviation.
- The exclusion regex is a sequence of `Noise.Alternative` values. It is matched on the lower-cased text and tried branch by branch at each position, as the regex engine does.
- A `Counter` is a `multiset<string>`.
- `df['Skills'].apply(filter_experience)` works on records `Analysis.Record` (title and raw skills text).
  - Its result is `Analysis.Entry` (title and skill list).

## Model

| member | source | states |
|---|---|---|
| Salary.ExtractSalary | preprocess.py:5-26 | No value exactly when the text has no digit, the empty text included. Otherwise the value is the first number of the cleaned text, scaled by the unit rules and rounded to cents with ties to even |
| Salary.Clean | preprocess.py:10 | The cleaned text holds no comma and has no blanks at either end |
| Salary.CleanKeepsDigits | preprocess.py:10 | Removing commas, lower-casing and trimming neither adds nor loses a digit, so "no number" is decided the same on the raw text |
| Salary.FirstDigit | preprocess.py:13 | The search starts at the first digit: nothing iff no digit, and no digit before the position returned |
| Salary.UnitAt | preprocess.py:13 | A unit is returned only when its word starts the text; none is returned only when no unit word does |
| Salary.UnitsExclusive | preprocess.py:13 | At most one unit word can start a text, so the order of the unit alternatives does not matter |
| Salary.UnitAfterPadded | preprocess.py:13 | `\s*` before the unit: a run of blanks of any length is skipped, and the unit is the one starting where the blanks end |
| Salary.FractionLength | preprocess.py:13 | The greedy `(?:\.\d+)?`: a dot followed by a maximal digit run, or nothing when no dot-digit follows |
| Salary.ReadToken | preprocess.py:13-16 | The captured number is all digits (with an optional `.digits`), is a prefix of the text and is not followed by another digit. Its length is the greedy extent: the whole digit run, plus the fraction when a dot and a digit follow. The unit is the one read after the blanks that follow the number |
| Salary.Scan | preprocess.py:13-16 | `re.search` finds nothing iff the text has no digit. Otherwise the number read starts at the first digit, has the greedy extent, is not followed by a digit, and carries the unit read after it |
| Salary.DigitsValueAppend | preprocess.py:17 | Reading a concatenation of digit strings is reading the first, shifted by the length of the second, plus the second |
| Salary.ValueIsMantissa | preprocess.py:17 | `float(value)` equals all the digits read as one integer over 10 to the number of fraction digits |
| Salary.MultiplierFollowsRules | preprocess.py:19-22 | The integer multiplier equals the source's rules on the decimal value: `k` gives 1000 first; then an hourly unit or a value below 250, whatever the unit, gives 2000; otherwise 1 |
| Salary.RoundHalfEven | preprocess.py:24 | The quotient is within half a unit of `n / d`, and an exact half goes to the even neighbour |
| Salary.RoundingScalesDown | preprocess.py:24 | The integer rounding conditions mean the result is `round` of the real quotient |
| Salary.ScaledIsAnnual | preprocess.py:17-22 | The integer numerator over the fraction's power of ten is exactly 100 times the scaled decimal value |
| Salary.Cents | preprocess.py:17-24 | The cents are the exact annual value times 100, rounded half to even |
| SalaryFacts.ReadRendered | preprocess.py:13-16 | Round trip: a number written with an optional gap and unit word is read back as that same number and unit |
| SalaryFacts.ExtractRendered | preprocess.py:5-24 | Round trip: a digit-free lead-in, then a written number and unit, yields exactly that token's cents |
| SalaryFacts.ExtractViaClean | preprocess.py:10-24 | Any raw text that cleans to a lead-in plus a written token yields that token's cents |
| SalaryFacts.CommasAndCaseIgnored | preprocess.py:10 | Two texts equal after comma removal and lower-casing give the same result |
| SalaryFacts.ExactRound | preprocess.py:24 | A value the divisor divides exactly is not changed by rounding |
| SalaryFacts.ExampleThousandsSeparator | preprocess.py:10-24 | `$45,000` gives 45000.00 |
| SalaryFacts.ExampleThousandsUnit | preprocess.py:10-20 | `45.9K` gives 45900.00: case is folded before the unit is read, and `k` multiplies by 1000 |
| SalaryFacts.ExampleHourlyUnit | preprocess.py:21-22 | `20 per hour` gives 40000.00 |
| SalaryFacts.ExampleSmallNumber | preprocess.py:21-22 | A bare `45` is taken as hourly and gives 90000.00 |
| SalaryFacts.ExampleThreshold | preprocess.py:21-24 | A bare `250` is not below the threshold and stays 250.00 |
| SalaryFacts.ExampleSmallUsd | preprocess.py:21-22 | `100 usd` still gets the hourly factor: the `usd` unit does not exempt a small value |
| SalaryFacts.ExampleNoNumber | preprocess.py:5-26 | The empty text and `N/A` give no value |
| Location.LastSegment | preprocess.py:37-38 | The looked-up key is trimmed and contains no comma |
| Location.StandardizeLocation | preprocess.py:28-48 | The result is `Remote` or a value of the state table. It is `Remote` for empty text or any mention of `remote`. Otherwise it is the table's value for the trimmed last comma segment when that is a key, and `Remote` on a miss |
| Location.RemoteAnywhere | preprocess.py:33-34 | `remote` in any letter case anywhere in the text gives `Remote` |
| Location.LastCommaDecides | preprocess.py:36-44 | Only the part after the last comma is looked up: what precedes it changes nothing |
| Location.NoCommaWholeText | preprocess.py:37-38 | Without a comma the key is the whole trimmed text |
| Location.SegmentIgnoresBlanks | preprocess.py:38 | Blanks around the key after the last comma do not change the key |
| Location.ExampleCityState | preprocess.py:36-44 | `New York, NY` is looked up as `NY` |
| Location.ExampleRemote | preprocess.py:33-34 | `Remote - US` gives `Remote` |
| Location.ExampleUnknown | preprocess.py:41-46 | A text the table does not know gives `Remote` |
| Preprocess.KeptSalary | preprocess.py:56-57 | A salary is kept iff it parses and is not zero, since zero fails the truth test |
| Preprocess.AdaptProcessed | preprocess.py:55-66 | A record is emitted iff the `Salary` column holds a kept salary, and the record's salary is that value. The title is `Job Name` verbatim, or the default only when the column is missing. Skills is the raw `Qualifications`, or nothing when that column is missing. The location is the standardized `Location` column (empty when missing), so `Remote` or a table value |
| Preprocess.ProcessProcessedJobData | preprocess.py:50-67 | No more records than rows; every salary is positive; every location is `Remote` or a table value |
| Preprocess.RenameTitle | preprocess.py:78-84 | The trimmed title is renamed to `AI/ML` or `Software Engineering` on a case-insensitive exact match, and otherwise kept |
| Preprocess.AdaptFlexjobs | preprocess.py:74-91 | A record is emitted iff `Salary Range` holds a kept salary. Skills is always nothing. The title is the renamed `Job Title`; the location comes from `Remote Option` |
| Preprocess.ProcessFlexjobs | preprocess.py:69-92 | No more records than rows; every record has a positive salary, no skills and a trimmed title |
| Preprocess.Combine | preprocess.py:106 | The merged dataset has at most as many records as both inputs, all with a positive salary |
| PreprocessFacts.ProcessedAppendRow | preprocess.py:55-66 | Input order is kept: one more row appends its record at the end, exactly when its salary is kept |
| PreprocessFacts.FlexjobsAppendRow | preprocess.py:74-91 | The same for the flexjobs adapter |
| PreprocessFacts.ProcessedCount | preprocess.py:56-57 | The number of records is the number of rows whose salary is kept |
| PreprocessFacts.FlexjobsCount | preprocess.py:75-76 | The same for the flexjobs adapter |
| PreprocessFacts.CombineIsOnePass | preprocess.py:102-106 | The merge equals one pass over the processed rows, then the flexjobs rows, each through its own adapter |
| PreprocessFacts.RenameTitleIdempotent | preprocess.py:78-84 | Renaming a renamed title changes nothing |
| PreprocessFacts.RenameIgnoresCaseAndBlanks | preprocess.py:78-84 | Titles that differ only in letter case and surrounding blanks get the same category |
| PreprocessFacts.RenameKeepsOtherTitles | preprocess.py:78-84 | Any other title passes through, only trimmed |
| Noise.YearsAt | removeIrrelevantFeatures.py:77 | A match of `\d+\+? years` is non-empty, inside the text and free of `;` |
| Noise.YearsAtSpells | removeIrrelevantFeatures.py:77 | A match of length `n` is found exactly when those `n` characters are digits, then an optional `+`, then ` years` |
| Noise.UnderAt | removeIrrelevantFeatures.py:82 | A match of `under \d+ year` is non-empty, inside the text and free of `;` |
| Noise.UnderAtSpells | removeIrrelevantFeatures.py:82 | A match of length `n` is found exactly when those `n` characters are `under `, then digits, then ` year` |
| Noise.WholeWordAt | removeIrrelevantFeatures.py:83-84 | `\b(?:...)\b` over a list of words matches nothing iff no listed word occurs there as a whole word (a word boundary on both sides). A match is non-empty and free of `;`, and its length is that of the first listed word that occurs there whole |
| Noise.WholeWordAtFirst | removeIrrelevantFeatures.py:83-84 | The first listed word that occurs whole at the position decides the match, even when a later word would also fit |
| Noise.AlternativeAt | removeIrrelevantFeatures.py:76-89 | A branch's match is non-empty, inside the text and free of `;` |
| Noise.AlternativeAtSpells | removeIrrelevantFeatures.py:76-89 | Each branch matches `n` characters exactly when they are in that branch's language: the years or `under` phrase, the literal phrase itself, or the first listed whole word |
| Noise.MatchAt | removeIrrelevantFeatures.py:90 | The alternation matches nothing iff no branch matches. Any match is non-empty and free of `;` |
| Noise.MatchAtFirst | removeIrrelevantFeatures.py:90 | Branches are tried in order: the first branch that matches at a position gives the match |
| Noise.MatchStart | removeIrrelevantFeatures.py:76-90 | For a pattern whose every branch spells at least four characters starting with a digit or a listed initial, a match needs such a character and four characters of text |
| Noise.ExclusionPatternShaped | removeIrrelevantFeatures.py:76-89 | Every branch of the configured pattern spells text of at least four characters starting with a digit or one of `l e m s u b p d c w` |
| Noise.NoMatchHere | removeIrrelevantFeatures.py:90 | The configured pattern matches nowhere that a digit or a branch initial does not start, nor within three characters of the end |
| Noise.ExclusionPatternValid | removeIrrelevantFeatures.py:76-90 | Every branch of the configured pattern spells non-empty text without `;` |
| Noise.Matches | removeIrrelevantFeatures.py:52 | The scan's table holds, at every position, the pattern's match there, and every match lies inside the text |
| Noise.SubstituteSubsequence | removeIrrelevantFeatures.py:52 | From any position, the pass keeps a subsequence of the rest of the text |
| Noise.SubstituteSeparators | removeIrrelevantFeatures.py:52 | When no match covers a `;`, the pass keeps every `;` |
| Noise.KeptUpTo | removeIrrelevantFeatures.py:52 | Text before the next match is copied unchanged |
| Noise.FirstMatchDeleted | removeIrrelevantFeatures.py:52 | The pass copies the text up to the first match, deletes the match, and resumes right after it |
| Noise.MatchesSpareSeparators | removeIrrelevantFeatures.py:52 | No match of a pattern whose branches spell no `;` covers a `;` of the text |
| Noise.SubstituteAll | removeIrrelevantFeatures.py:52 | `re.sub(pattern, '', s)` adds and reorders nothing, and keeps the number of `;` |
| Noise.StripNoise | removeIrrelevantFeatures.py:52 | The same for the configured exclusion pattern |
| Noise.NoMatchUnchanged | removeIrrelevantFeatures.py:52 | Where the pattern matches nowhere, the pass returns the text unchanged |
| Noise.CleanTextUnchanged | removeIrrelevantFeatures.py:52 | Text in which the pattern matches nowhere is left as it is |
| Noise.ExampleYears | removeIrrelevantFeatures.py:77-90 | In `java;5+ years;senior;'s`, the first branch matches `5+ years` at position 5 |
| Noise.ExampleSenior | removeIrrelevantFeatures.py:77-90 | At position 14 the first four branches fail, so `senior` is matched by the fifth |
| Noise.ExampleMisses | removeIrrelevantFeatures.py:90 | Nothing matches at the other positions the scan reaches in that cell |
| Noise.ExampleStripped | removeIrrelevantFeatures.py:52 | `re.sub` turns `Java;5+ years;Senior;'s` into `Java;;;'s`: both matches are deleted, case-insensitively, and every `;` stays |
| SkillFilter.CleanPieceFacts | removeIrrelevantFeatures.py:53 | A piece is dropped iff it is blank. A kept piece is stripped, lower-case, non-empty and free of `;` |
| SkillFilter.Tokenize | removeIrrelevantFeatures.py:53 | At most one token per `;`-piece, and every token is stripped, lower-case, non-empty and free of `;`. A text is a token iff some piece is non-blank and strips and lower-cases to it |
| SkillFilter.CleanedPieces | removeIrrelevantFeatures.py:53 | The comprehension keeps exactly the non-blank pieces, stripped and lower-cased |
| SkillFilter.TokenizePiece | removeIrrelevantFeatures.py:53 | Text without `;` gives no token when blank, and otherwise its stripped, lower-cased self |
| SkillFilter.TokenizeConcat | removeIrrelevantFeatures.py:53 | The tokens of `a;b` are those of `a` followed by those of `b` |
| SkillFilter.CleanPieceOfPadded | removeIrrelevantFeatures.py:53 | Blanks before a token are dropped and the token is kept |
| SkillFilter.CleanSkills | removeIrrelevantFeatures.py:55-57 | The result has no duplicates and contains exactly the input tokens that are not denylisted |
| SkillFilter.SkillTokens | removeIrrelevantFeatures.py:52-57 | The tokens of a cell are distinct, clean and not denylisted. They are exactly the non-denylisted tokens of the noise-stripped text, so nothing is invented |
| SkillFilter.AllDenylisted | removeIrrelevantFeatures.py:55-57 | A cell whose every token is denylisted keeps no token |
| SkillFilter.FilterRowSkills | removeIrrelevantFeatures.py:44-59 | The row keeps its columns. Every column except `Skills` is unchanged. An empty or absent `Skills` leaves the row as it is |
| SkillFilter.FilterRowSkillsReadBack | removeIrrelevantFeatures.py:52-58 | The rewritten `Skills` cell reads back as exactly the kept tokens |
| SkillFilter.TokenizeJoin | removeIrrelevantFeatures.py:58 | Round trip: tokens joined with `"; "` and split again give the same tokens |
| SkillFilter.KeepRow | removeIrrelevantFeatures.py:102-104 | A row is kept iff its `Skills` cell is present and not blank, and the kept row is that row with its skills rewritten |
| SkillFilter.FilterRows | removeIrrelevantFeatures.py:100-105 | No more rows than input rows, each with a `Skills` column |
| SkillFilter.RowTokens | removeIrrelevantFeatures.py:34-39 | Every token a row contributes is a clean token |
| SkillFilter.Tally | removeIrrelevantFeatures.py:33-40 | The reference tally contains only clean tokens |
| SkillFilter.TallyStep | removeIrrelevantFeatures.py:40 | One more row adds all of its tokens to the tally |
| SkillFilter.CountSkills | removeIrrelevantFeatures.py:5-42 | Without a `Skills` column the tally is empty; otherwise it is the reference tally of all rows, counted by the loop |
| SkillFilterFacts.FilterRowsAppend | removeIrrelevantFeatures.py:100-105 | Order is kept: one more row appends its cleaned form exactly when its skills are not blank |
| SkillFilterFacts.FilterRowsCount | removeIrrelevantFeatures.py:102-103 | The rows written are as many as the rows whose skills are not blank |
| SkillFilterFacts.EmptiedRowKept | removeIrrelevantFeatures.py:100-105 | A row whose every token is denylisted is still written, with an empty `Skills` cell |
| SkillFilterFacts.TallyAppend | removeIrrelevantFeatures.py:33-40 | The tally of two tables is the sum of their tallies |
| SkillFilterFacts.TallyIgnoresEmpty | removeIrrelevantFeatures.py:34-35 | A row with empty skills adds nothing |
| SkillFilterFacts.TallyCountsRepeats | removeIrrelevantFeatures.py:39-40 | Each row counts every token occurrence, repeats included, with no per-row de-duplication |
| SkillFilterFacts.ExampleTokens | removeIrrelevantFeatures.py:53 | `Java;;;'s` reads as `java` and `'s`: the blank pieces give nothing |
| SkillFilterFacts.KeepsOneToken | removeIrrelevantFeatures.py:55-57 | Of two tokens, the denylisted one goes and the other is all that is left |
| SkillFilterFacts.ExampleCell | removeIrrelevantFeatures.py:52-73 | End to end with the program's denylist: the cell `Java;5+ years;Senior;'s` keeps only `java` |
| Common.Dedup | removeIrrelevantFeatures.py:55 | `list(set(xs))`: no duplicates and the same members, in an order that is a subsequence of the input |
| Text.Strip | preprocess.py:10 | `str.strip`: the result has no outer blanks, is empty iff the text is all blanks, and is no longer than the text |
| Text.LowerFacts | preprocess.py:10 | `str.lower` leaves nothing upper-case, changes no lower-case text, and is idempotent |
| Text.LowerKeepsChar | removeIrrelevantFeatures.py:53 | Lowering keeps every non-letter character's presence, `;` and `,` included |
| Text.LowerAppend | main.py:35 | Lowering works character by character, so it distributes over concatenation |
| Text.Contains | preprocess.py:33 | `sub in s` holds iff `sub` occurs at some position of `s` |
| Text.StripSurrounded | preprocess.py:78 | Stripping blanks around a stripped text gives that text |
| Text.StripKeepsChar | main.py:33 | Stripping keeps every non-blank character's presence |
| Text.Split | main.py:33 | `str.split(sep)` gives one more piece than there are separators, none containing the separator |
| Text.JoinSplit | main.py:33 | Round trip: joining the pieces with the separator gives back the text |
| Text.SplitJoin | main.py:33 | Round trip: separator-free pieces joined and split again give back the pieces |
| Text.JoinCons | removeIrrelevantFeatures.py:58 | `sep.join` puts the separator between the first part and the join of the rest |
| Text.SplitAppend | main.py:33 | Splitting `a;b` gives the pieces of `a` followed by those of `b` |
| Text.LastPieceAfterSeparator | preprocess.py:37-38 | The last piece is what follows the last separator |
| Text.RemoveChar | preprocess.py:10 | `str.replace(c, '')`: no `c` is left, and every other character keeps its count |
| Analysis.StripAll | main.py:33 | Each piece is stripped, position by position |
| Analysis.FilterExperience | main.py:31-36 | At most one result per `;`-piece, in order (a subsequence of the stripped pieces). Each result is stripped, has no `;`, and is not a keyword once lower-cased |
| Analysis.FilterExperienceMembers | main.py:33-35 | A text is in the result iff it is some stripped piece and not a keyword |
| Analysis.FilterExperiencePiece | main.py:33-35 | A text without `;` gives its stripped self, or nothing when that is a keyword |
| Analysis.FilterExperienceConcat | main.py:33-35 | Filtering `a;b` is filtering `a`, then `b` |
| Analysis.StripAllConcat | main.py:33 | The stripped pieces of `a;b` are those of `a` followed by those of `b` |
| Analysis.KeywordRemoved | main.py:35 | A keyword in any letter case, with any blanks around it, is removed |
| Analysis.PieceKept | main.py:33-35 | A stripped piece without `;` that is not a keyword is kept as it is |
| Analysis.MultiWordKept | main.py:27-35 | `Senior Engineer` is kept: only exact keyword matches are removed |
| Analysis.EmptyPieceKept | main.py:33-35 | The empty text gives one empty entry, which is kept |
| Analysis.FilterExperienceIdempotent | main.py:31-36 | Filtering a non-empty result again, joined with `;`, gives the same list |
| Analysis.FilterExperienceOfTokens | main.py:31-36 | On a cell written by the skill cleaner, filtering removes exactly the keyword tokens |
| Analysis.SelectRow | main.py:16-39 | A row is selected iff its trimmed title is one of the three categories. Its skills are the keyword-filtered list |
| Analysis.SelectRows | main.py:16-39 | No more entries than rows. Every title is a category, and no skill is a keyword |
| Analysis.SelectRowsAppend | main.py:22 | Order is kept: one more row appends its entry exactly when its title is a category |
| Analysis.SelectIgnoresBlanks | main.py:16-22 | Blanks around the title do not change the selection |
| Analysis.Leader | main.py:50 | The chosen candidate has the highest count, and it is the first such candidate |
| Analysis.Rank | main.py:50 | `value_counts().head(k)`: `min(k, n)` distinct candidates, each with its true count, counts non-increasing, and no candidate left out counts more than any chosen one |
| Analysis.TopSkills | main.py:49-50 | At most five skills, each occurring with its true positive count, distinct, counts non-increasing. No skill left out counts more than a chosen one. Fewer than five only when every skill is listed |
| Analysis.SkillsOfAppend | main.py:47-49 | The flattened skills of a title gain a row's skills exactly when the row has that title |
| Analysis.CountIsTitleCount | main.py:47-49 | The count in the flattened list is the per-row sum of occurrences under that title |
| Analysis.SkillsOfMember | main.py:47-49 | A flattened skill comes from some row with that title |
| Analysis.TitleSkillsExactly | main.py:47-49 | A skill is in a title's flattened list iff some row with that title lists it |
| Analysis.ListedInSkillsOf | main.py:47-49 | A row with the title that lists a skill puts the skill in the title's flattened list |
| Analysis.TitleTop | main.py:47-50 | The ranking of a title's flattened skills is a top-five list for that title, with counts taken over the title's rows |
| Analysis.TopSkillsByTitle | main.py:42-53 | One list per title present. Each is a top-five list for its title: at most five distinct skills listed by the title's rows, each with its positive count over those rows, most frequent first. No skill of the title left out counts more than a listed one, and a list shorter than five holds every skill of the title |

## Left out

- Browser scraping (simplyjobs.py, linkscraper.py, flexjobs.py): Selenium page I/O, not pure logic.
- CSV reading and writing, `write_to_csv` and file handling. Rows are given as sequences of maps.
- Plotting, model training, the `menu`, and the repeated block at main.py:72-96. These are foreign-library and UI code.
- `us.states.lookup` internals: the state table is an abstract map parameter. A miss or an exception both give `Remote`.
- Salary.ExtractSalary: float rounding artefacts are not modelled. The value is exact, and `round` acts on the exact decimal.
- Salary.ExtractSalary: the optional `\$?` prefix is not matched separately. It is part of the digit-free text before the number, which is equivalent for the value.
- Text.Lower: Unicode case mapping, Unicode digits and Unicode `\w` are not modelled. Only ASCII letters change case, and only ASCII digits count.
- `csv.DictReader` fills short rows with `None`. This is not modelled: every present column holds text.
- Common.Dedup: keeps the first occurrence of each token, in input order, while `list(set(...))` has an unspecified order. Dedup's own contract states part of this choice: the result keeps the input's order (it is a subsequence of the input). The contracts of SkillFilter.CleanSkills, SkillFilter.SkillTokens and the row rewriting built on it state no order, only membership and distinctness.
- Analysis.Rank: equal counts are ordered by first occurrence; pandas' tie order is not modelled. Analysis.Leader's own contract states this choice (no earlier candidate has the same count). The contracts of Analysis.Rank, Analysis.TopSkills and Analysis.TopSkillsByTitle state no tie order.
- pandas `dropna`, `fillna('')` and NaN cells (main.py:13, 25) are left out. A record's skills are text.
- Console output (`print`, `most_common(10)`) is left out.
- Analysis.FilterExperience takes the keyword set as a parameter. `Analysis.ExperienceKeywords` holds the source's set.

Behaviours of the code that the model keeps, and that are easy to overlook:
- The below-250 rule applies whatever the unit, including `usd` and `a year` (preprocess.py:21).
- The adapters do not restrict titles to the three categories (preprocess.py:59, 78-84). That happens later, at main.py:22.
- A row whose skills are all denylisted is still written, with an empty `Skills` cell (removeIrrelevantFeatures.py:57-58, 104-105). Only a blank input cell drops the row (removeIrrelevantFeatures.py:102).
- A parsed salary of 0 is dropped by the truth test (preprocess.py:57, 76).
- Flexjobs titles other than the two renamed ones pass through, only trimmed (preprocess.py:78-84).
- Flexjobs records have no skills (`None`), not an empty string (preprocess.py:89).
- `filter_experience("")` returns `[""]`. An empty piece is not a keyword, so it is kept (main.py:33-35).
