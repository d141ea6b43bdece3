# Time tracker analysis core in Dafny

This project models the analysis core of the time tracker's `TimeAnalyzer` component and
proves properties about it. The user types one task per line, each tagged with a duration
such as `[30 mins]` or `[1.5 hours]`. The core does three things:

- **Duration extraction** (`parseTimeEntry`, module `Duration`). It finds the leftmost
  match of the duration pattern `\[(\d+(?:\.\d+)?)\s*(hours?|hrs?|h|minutes?|mins?|m)\]`,
  ignoring case. It converts the number to minutes: units that start with `h` are
  multiplied by 60. It cuts the matched text out of the line and trims what is left, which
  becomes the description.
- **Categorisation** (`categorizeEntry`, module `Categories`). It lowers the description.
  It then checks eleven keyword rows in table order; the first row with a keyword that is
  a substring of the description decides. If none does, seven fallback work terms are
  checked the same way. If none of those matches either, the result is `Miscellaneous`.
- **Aggregation** (the pure part of `processTimeData`, module `Distribution`). It splits
  the input into lines and keeps the non-blank ones. It parses them and keeps the lines
  that carry a tag. If none is left it reports the "no valid time entries" message.
  Otherwise it classifies each entry and groups the entries by category, in order of first
  appearance. It emits one chart record per group: the group's share of the total time as a
  percentage and its hours, both rounded to one decimal.

Module `Text` holds the string operations the code borrows from JavaScript: `toLowerCase`,
`includes`, `replace` with a string pattern, `trim` and `split`. Module `Wrappers` holds
`Option`, which stands for `null`.

Everything is pure: there are no classes, because the core mutates nothing of its own. The
only effects are the two React state setters, and the model returns their values instead,
as an `Outcome` (`Chart(records)` or `Failed(message)`).

## Behaviour worth knowing

- **Zero durations.** A duration of zero is accepted: `[0 mins] Idle` yields an entry of
  0 minutes (`Duration.IdleExample`).
- **Zero total.** When every entry has zero minutes there is no error: the code divides zero
  by zero and the chart gets records whose percentage is `NaN`, modelled as `Share.NaN`.
  `Distribution.ZeroLineCharts` proves that such a line charts and does not fail, and
  `Distribution.ChartRecord` proves that every percentage is `NaN` when the total is zero.
- **Unit.** The unit kept in an entry is the matched unit word, lower-cased (`"hrs"`,
  `"m"`, …), not an hour/minute enumeration.
- **Record order.** The records come in order of first appearance of each category in the
  input. `_.groupBy` creates keys in that order, and `Object.entries` lists string keys in
  insertion order. No category name looks like an array index, so none is moved ahead.

## Model

| member | source | states |
|---|---|---|
| Text.Lower | src/components/TimeAnalyzer.js:54 | `toLowerCase` keeps the length, turns each ASCII capital into its small letter and leaves every other character |
| Text.LowerIdempotent | src/components/TimeAnalyzer.js:54 | lowering twice is lowering once |
| Text.IndexFrom | src/components/TimeAnalyzer.js:47 | the position of an occurrence of the pattern at or after the start, or none; its meaning is proved in `Text.IndexFromSpec` |
| Text.Contains | src/components/TimeAnalyzer.js:114 | `includes`: the keyword occurs somewhere in the text, characterised by `Text.ContainsIff` |
| Text.IndexFromSpec | src/components/TimeAnalyzer.js:47 | the search returns the first occurrence at or after the start, and none exactly when there is no occurrence there |
| Text.ContainsIff | src/components/TimeAnalyzer.js:114 | `includes` holds exactly when the keyword occurs at some index |
| Text.ContainsTrans | src/components/TimeAnalyzer.js:114 | a text that includes `k` includes everything `k` includes |
| Text.RemoveFirst | src/components/TimeAnalyzer.js:47 | `replace(pattern, '')` cuts out only the first occurrence, and changes nothing when there is none |
| Text.Trim | src/components/TimeAnalyzer.js:47 | `trim`: the text without leading and trailing whitespace, characterised by `Text.TrimSpec` and `Text.TrimKeeps` |
| Text.TrimSpec | src/components/TimeAnalyzer.js:47 | `trim` drops only whitespace from either end, and the result neither starts nor ends with whitespace |
| Text.TrimKeeps | src/components/TimeAnalyzer.js:47 | a stretch that starts and ends with non-white characters survives trimming unchanged |
| Text.TrimEmptyIff | src/components/TimeAnalyzer.js:140 | a line trims to the empty string exactly when it is all whitespace |
| Text.Split | src/components/TimeAnalyzer.js:140 | `split('\n')` gives at least one piece, no piece holds a line break, and joining the pieces with line breaks gives the input back |
| Text.SplitUnique | src/components/TimeAnalyzer.js:140 | those properties determine the split: any decomposition that has them is the split |
| Text.JoinHasPieces | src/components/TimeAnalyzer.js:140 | every character of a line occurs in the input |
| Duration.WordSpellings | src/components/TimeAnalyzer.js:28 | the ten unit alternatives spell exactly hours, hour, hrs, hr, h, minutes, minute, mins, min, m |
| Duration.WordInjective | src/components/TimeAnalyzer.js:28 | different alternatives have different spellings |
| Duration.HoursStartWithH | src/components/TimeAnalyzer.js:39 | a unit counts hours exactly when its spelling starts with `h` |
| Duration.UnitUnique | src/components/TimeAnalyzer.js:28 | at most one alternative can be followed by `]` at a given place, so the order of the alternation never matters |
| Duration.FirstUnit | src/components/TimeAnalyzer.js:28 | the alternation of the ten unit words tried in order with backtracking: the first word from a given place on that is followed by `]`, or none; `Duration.FirstUnitPicks` shows it finds the one that fits |
| Duration.AlternativeIndex | src/components/TimeAnalyzer.js:28 | each unit word is the alternative at its own position among the ten of the alternation |
| Duration.FirstUnitPicks | src/components/TimeAnalyzer.js:28 | trying the alternatives in order finds the unit that fits |
| Duration.MatchAt | src/components/TimeAnalyzer.js:28 | the greedy match of the pattern starting at one index, or none; `Duration.MatchAtSound` and `Duration.MatchAtComplete` show it is exactly the pattern's match there |
| Duration.FindTag | src/components/TimeAnalyzer.js:28-29 | `line.match`: the leftmost index with a match and that match, or none; its meaning is proved in `Duration.FindTagSound`, `Duration.FindTagLeftmost` and `Duration.FindTagNoneIff` |
| Duration.MatchInside | src/components/TimeAnalyzer.js:28 | a match lies inside the line, from `[` to the closing `]`, and its digits, fraction, spaces and unit come in that order |
| Duration.IsMatch | src/components/TimeAnalyzer.js:28 | the regular expression stated declaratively: `[`, one or more digits, an optional `.` with one or more digits, optional whitespace, a unit word and `]`, with the pieces as the span delimits them; `Duration.MatchAtSound` and `Duration.MatchAtComplete` tie the matcher to it |
| Duration.MatchAtSound | src/components/TimeAnalyzer.js:28 | what the greedy matcher returns at an index is a match of the pattern there |
| Duration.MatchAtComplete | src/components/TimeAnalyzer.js:28 | every match of the pattern at an index is what the matcher returns there, so backtracking never finds another one |
| Duration.FindTagSound | src/components/TimeAnalyzer.js:28-29 | `line.match` finds a match, and no match starts further left |
| Duration.FindTagLeftmost | src/components/TimeAnalyzer.js:28-29 | the leftmost match is the one found |
| Duration.FindTagNoneIff | src/components/TimeAnalyzer.js:29-31 | nothing is found exactly when the pattern matches nowhere in the line |
| Duration.DigitsValue | src/components/TimeAnalyzer.js:33 | the integer value of the captured digits, the integer part `parseFloat` reads; `Duration.MatchValueBounds` bounds the value by it |
| Duration.MatchValue | src/components/TimeAnalyzer.js:33 | `parseFloat(match[1])`: the decimal value of the captured digits, bounded in `Duration.MatchValueBounds` |
| Duration.ToMinutes | src/components/TimeAnalyzer.js:38-43 | the value times 60 for a unit starting with `h`, the value otherwise; `Duration.MakeEntryConversion` states this per unit |
| Duration.MakeEntry | src/components/TimeAnalyzer.js:45-50 | the returned record: minutes, the cut and trimmed text, the value and the lowered unit; see `Duration.MakeEntryConversion` and `Duration.TextIsTrimmed` |
| Duration.MatchText | src/components/TimeAnalyzer.js:47 | `match[0]`: the whole matched text from `[` to `]`; `Duration.RemoveFirstCutsMatch` shows `replace` removes exactly this occurrence |
| Duration.ParseTimeEntry | src/components/TimeAnalyzer.js:27-51 | `parseTimeEntry`: `null` without a tag, otherwise the entry of the leftmost tag; see `Duration.ParseNoneIff`, `Duration.ParseFound` and `Duration.ParseLeftmost` |
| Duration.MatchValueBounds | src/components/TimeAnalyzer.js:33 | `parseFloat` of the number lies between its integer part and the next integer, and equals the integer when there is no fraction |
| Duration.MatchUnitLowered | src/components/TimeAnalyzer.js:34 | the matched unit text lowered is the spelling of the matched alternative |
| Duration.ParseNoneIff | src/components/TimeAnalyzer.js:27-31 | `parseTimeEntry` returns `null` exactly when the pattern matches nowhere in the line |
| Duration.RemoveFirstCutsMatch | src/components/TimeAnalyzer.js:47 | `replace(match[0], '')` removes exactly the leftmost match, never an earlier copy of its text |
| Duration.ParseFound | src/components/TimeAnalyzer.js:27-51 | the entry is built from the match that was found, with that match cut out |
| Duration.ParseLeftmost | src/components/TimeAnalyzer.js:27-51 | for any match with no match to its left, the entry is built from that match, with exactly that match cut out before trimming |
| Duration.MakeEntryConversion | src/components/TimeAnalyzer.js:38-50 | the value is not negative, the unit is the lowered spelling, hours are multiplied by 60 and minutes are kept |
| Duration.UnitConversion | src/components/TimeAnalyzer.js:33-43 | every entry has a non-negative value, one of the ten units, and minutes equal to 60 times the value for hour units and to the value otherwise |
| Duration.TextIsTrimmed | src/components/TimeAnalyzer.js:47 | the description neither starts nor ends with whitespace |
| Duration.NoBracketNoEntry | src/components/TimeAnalyzer.js:28-31 | a line without `[` yields `null` |
| Duration.LaterTextKept | src/components/TimeAnalyzer.js:47 | text after the cut match that starts and ends with non-white characters, a second tag for instance, stays in the description |
| Duration.PlanningExample | src/components/TimeAnalyzer.js:27-51 | `[1.5 hours] Planning` gives 90 minutes, description `Planning`, value 1.5, unit `hours` |
| Duration.IdleExample | src/components/TimeAnalyzer.js:27-51 | `[0 mins] Idle` gives an entry of 0 minutes, which is not rejected |
| Duration.UntaggedExample | src/components/TimeAnalyzer.js:27-31 | `Planning session` gives `null` |
| Categories.FirstRowSpec | src/components/TimeAnalyzer.js:113-117 | the first loop stops at the first row with a keyword the text includes, and finds none when no row has one |
| Categories.FirstTermSpec | src/components/TimeAnalyzer.js:129-133 | the second loop stops at the first work term the text includes, and finds none when it includes none |
| Categories.FirstRow | src/components/TimeAnalyzer.js:113-117 | the first loop: the index of the first row with a keyword in the text, or none; characterised by `Categories.FirstRowSpec` |
| Categories.FirstTerm | src/components/TimeAnalyzer.js:129-133 | the second loop: the index of the first work term in the text, or none; characterised by `Categories.FirstTermSpec` |
| Categories.Decide | src/components/TimeAnalyzer.js:113-135 | which rule decides: a row, else a work term, else the default; characterised by `Categories.DecideIff` |
| Categories.Mentions | src/components/TimeAnalyzer.js:114 | `keywords.some(keyword => text.includes(keyword))`: some keyword of the row occurs in the text; `Categories.FirstRowSpec` states the first loop in its terms |
| Categories.DecideIff | src/components/TimeAnalyzer.js:113-135 | the rule that decides is row `k` exactly when row `k` is the first row mentioned; it is work term `k` exactly when no row is mentioned and term `k` is the first term included; it is the default exactly when nothing matches |
| Categories.RowWins | src/components/TimeAnalyzer.js:113-117 | if row `j` is mentioned, a row no later than `j` decides and no work term is consulted |
| Categories.TermShadowed | src/components/TimeAnalyzer.js:119-133 | a work term that is also a keyword of some row never decides |
| Categories.KeywordShadowed | src/components/TimeAnalyzer.js:113-117 | a keyword that contains a keyword of an earlier row can only lead to that earlier row or one before it |
| Categories.Table | src/components/TimeAnalyzer.js:56-111 | the eleven categories with their keywords, in the order of the object literal |
| Categories.WorkTerms | src/components/TimeAnalyzer.js:119-127 | the seven work terms with their categories, in the order of the object literal |
| Categories.Name | src/components/TimeAnalyzer.js:57-106 | the eleven category keys of the object literal, spelt as the chart shows them, and `Miscellaneous` from :135; `Categories.CategorizeEntryTotal` shows every result is one of them |
| Categories.RowOf | src/components/TimeAnalyzer.js:56-111 | every category except Miscellaneous has a row in the table |
| Categories.LeadingRows | src/components/TimeAnalyzer.js:57-80 | the first five rows are, in this order, Meetings, Research, Development, Planning and Communication |
| Categories.Categorize | src/components/TimeAnalyzer.js:53-136 | the category of a text, decided on its lowered form; see `Categories.MiscellaneousIff` and `Categories.EarlierWins` |
| Categories.CategorizeEntry | src/components/TimeAnalyzer.js:53-136 | `categorizeEntry`: the name of that category; see `Categories.CategorizeEntryTotal` |
| Categories.CaseInsensitive | src/components/TimeAnalyzer.js:54 | the category of a text is the category of its lowered form |
| Categories.TablesAvoidDefault | src/components/TimeAnalyzer.js:56-127 | neither table ever names Miscellaneous |
| Categories.MiscellaneousIff | src/components/TimeAnalyzer.js:113-135 | the result is Miscellaneous exactly when no keyword and no work term occurs in the lowered text |
| Categories.EarlierWins | src/components/TimeAnalyzer.js:113-117 | a text that mentions row `j` gets the category of row `j` or of an earlier row |
| Categories.WorkshopIsMeeting | src/components/TimeAnalyzer.js:57-110 | any text with `workshop` is "Meetings & Calls", although Learning & Growth lists `workshop` too |
| Categories.DocumentationIsResearch | src/components/TimeAnalyzer.js:57-105 | a text with `documentation` is Meetings & Calls or Research & Documentation, never Administration & Ops |
| Categories.CoordinationIsCommunication | src/components/TimeAnalyzer.js:57-95 | a text with `coordination` gets one of the first five categories, never Project Management |
| Categories.LearningMeansResearch | src/components/TimeAnalyzer.js:57-110 | a text with `learning` is Meetings & Calls or Research & Documentation, because it contains `learn` |
| Categories.DevelopmentMeansEngineering | src/components/TimeAnalyzer.js:57-110 | a text with `development` gets one of the first three categories, because it contains `develop` |
| Categories.LearningShadowed | src/components/TimeAnalyzer.js:56-117 | a text categorised as Learning & Growth contains none of `workshop`, `learning` and `development` |
| Categories.ReviewReportNeverDecide | src/components/TimeAnalyzer.js:61-133 | the work terms `review` and `report` never decide, since Research & Documentation lists both |
| Categories.CategorizeEntryTotal | src/components/TimeAnalyzer.js:53-136 | every text gets Miscellaneous or the name of a table row |
| Categories.CodeReviewCall | src/components/TimeAnalyzer.js:53-117 | `code review call` is "Meetings & Calls": the earlier row wins over Research and Development |
| Distribution.NonBlankSpec | src/components/TimeAnalyzer.js:140 | the kept lines are exactly the lines whose trimmed text is not empty |
| Distribution.NonBlank | src/components/TimeAnalyzer.js:140 | `filter(line => line.trim())`: the lines that are not blank, characterised by `Distribution.NonBlankSpec`, `Distribution.NonBlankAppend` and `Distribution.NonBlankOne` |
| Distribution.NonBlankAppend | src/components/TimeAnalyzer.js:140 | filtering a concatenation filters each part and concatenates, so order and repetitions are kept |
| Distribution.NonBlankOne | src/components/TimeAnalyzer.js:140 | a single line is kept exactly when it is not blank |
| Distribution.BlankNeverParses | src/components/TimeAnalyzer.js:140 | a blank line would never yield an entry, so dropping blank lines loses no entry |
| Distribution.MapPresent | src/components/TimeAnalyzer.js:142-144 | `.map(f).filter(x => x !== null)` for any `f`: the present results in line order; `Distribution.MapPresentAppend` shows order and repetitions are kept |
| Distribution.ParseAll | src/components/TimeAnalyzer.js:142-144 | `map(parseTimeEntry).filter(entry => entry !== null)`: the entries of the lines that have one, characterised by `Distribution.ParseAllSpec`, `Distribution.ParseAllAppend` and `Distribution.ParseAllOne` |
| Distribution.MapPresentAppend | src/components/TimeAnalyzer.js:142-144 | mapping and dropping `null` over a concatenation handles each part and concatenates the results |
| Distribution.ParseAllAppend | src/components/TimeAnalyzer.js:142-144 | parsing a concatenation of lines gives the entries of the first part followed by those of the second, so order and repetitions are kept |
| Distribution.ParseAllOne | src/components/TimeAnalyzer.js:142-144 | a single line gives its entry, or nothing when it has none |
| Distribution.ParseAllSkipsBlank | src/components/TimeAnalyzer.js:140-144 | dropping the blank lines first changes no entry |
| Distribution.EntriesOfLines | src/components/TimeAnalyzer.js:140-144 | the entries of an input are those of its lines, in order, blank or not |
| Distribution.Entries | src/components/TimeAnalyzer.js:140-144 | the entries of the input: split into lines, drop the blank ones, parse and drop `null`; `Distribution.EntriesOfLines` and `Distribution.EntriesNonNegative` state what they are |
| Distribution.ParseAllSpec | src/components/TimeAnalyzer.js:142-144 | the entries are exactly the results of the lines that yield one |
| Distribution.ParseAllEmptyIff | src/components/TimeAnalyzer.js:142-146 | there are no entries exactly when no line yields one |
| Distribution.EntriesNonNegative | src/components/TimeAnalyzer.js:142-144 | every entry has non-negative minutes |
| Distribution.Classify | src/components/TimeAnalyzer.js:152-155 | classifying keeps every entry, in order |
| Distribution.Items | src/components/TimeAnalyzer.js:152-155 | `categorizedEntries`: every entry of the input with its category, in order; `Distribution.ItemsNonNegative` shows no time is negative |
| Distribution.Keys | src/components/TimeAnalyzer.js:157-160 | the categories of the items in order of first appearance, the keys `_.groupBy` creates; see `Distribution.KeysCover`, `Distribution.KeysDistinct` and `Distribution.KeysOrdered` |
| Distribution.Group | src/components/TimeAnalyzer.js:157 | the items of one category, in order; see `Distribution.GroupHasCategory` and `Distribution.GroupsPartition` |
| Distribution.Minutes | src/components/TimeAnalyzer.js:158-161 | `_.sumBy(items, 'time')`: the sum of the minutes; see `Distribution.GroupsSum` and `Distribution.GroupWithinTotal` |
| Distribution.KeysCover | src/components/TimeAnalyzer.js:157 | the groups are exactly the categories that occur |
| Distribution.KeysDistinct | src/components/TimeAnalyzer.js:157 | each category forms one group only |
| Distribution.KeysOrdered | src/components/TimeAnalyzer.js:157-160 | a group comes before another only if its category occurs before the other's first item |
| Distribution.GroupHasCategory | src/components/TimeAnalyzer.js:157 | every item of a group has the group's category |
| Distribution.GroupsPartition | src/components/TimeAnalyzer.js:157 | the groups together hold every item exactly as often as the entries do |
| Distribution.GroupsSum | src/components/TimeAnalyzer.js:157-161 | the minutes of the groups add up to the total minutes |
| Distribution.GroupWithinTotal | src/components/TimeAnalyzer.js:158-161 | a group's minutes lie between 0 and the total |
| Distribution.RoundTenthClose | src/components/TimeAnalyzer.js:164-165 | `toFixed(1)` rounding is within 0.05 of the exact value and gives whole tenths |
| Distribution.RoundTenth | src/components/TimeAnalyzer.js:164-165 | `parseFloat(x.toFixed(1))`: the nearest tenth, bounded in `Distribution.RoundTenthClose` |
| Distribution.ExactShare | src/components/TimeAnalyzer.js:164 | `(totalTime / totalMinutes) * 100` before rounding: `NaN` for a zero total, the exact percentage otherwise; `Distribution.SharesAddUp` shows the exact shares sum to 100 |
| Distribution.RoundShare | src/components/TimeAnalyzer.js:164 | `parseFloat(share.toFixed(1))`: a percentage rounded to one decimal, and `NaN` kept as `NaN`; bounded in `Distribution.RecordBounds` |
| Distribution.RecordOf | src/components/TimeAnalyzer.js:161-166 | the chart record of one group: its name, its share of the total and its hours; bounded in `Distribution.RecordBounds` |
| Distribution.Records | src/components/TimeAnalyzer.js:160-167 | one record per group key, in key order |
| Distribution.FailsIff | src/components/TimeAnalyzer.js:140-150 | the "no valid time entries" message is shown exactly when no line of the input yields an entry |
| Distribution.NoEntriesMessage | src/components/TimeAnalyzer.js:147 | the text of the error shown when no entry is found; `Distribution.FailsIff` shows when it is shown |
| Distribution.BlankInputFails | src/components/TimeAnalyzer.js:140-150 | empty or all-white input shows that message |
| Distribution.ChartShape | src/components/TimeAnalyzer.js:157-167 | one record per category that occurs, named after it; no name twice; records in order of first appearance |
| Distribution.SharesAddUp | src/components/TimeAnalyzer.js:158-164 | before rounding, the percentages add up to exactly 100 whenever the total is not zero |
| Distribution.RecordBounds | src/components/TimeAnalyzer.js:158-165 | a percentage lies in [0, 100] within 0.05 of the exact share; hours lie within 0.05 of minutes / 60; a zero total gives `NaN` |
| Distribution.PercentBounds | src/components/TimeAnalyzer.js:164 | the rounded share of a part of a positive total lies in [0, 100] within 0.05 of the exact share |
| Distribution.ChartRecord | src/components/TimeAnalyzer.js:138-167 | the same bounds for each record of the chart of an input |
| Distribution.PercentSumClose | src/components/TimeAnalyzer.js:164 | rounding moves the sum of the percentages by at most 0.05 per record |
| Distribution.PercentagesNear100 | src/components/TimeAnalyzer.js:158-167 | the percentages shown add up to 100 within 0.05 per record whenever the total is not zero |
| Distribution.ProcessTimeData | src/components/TimeAnalyzer.js:138-167 | `processTimeData`: the message when no line has an entry, otherwise the chart; see `Distribution.FailsIff`, `Distribution.ChartShape`, `Distribution.ChartRecord` and `Distribution.PercentagesNear100` |
| Distribution.ZeroLineCharts | src/components/TimeAnalyzer.js:140-167 | a line whose duration is zero gives a chart whose one record has a `NaN` percentage and 0 hours, not the error |

## Left out

- The React component is not part of this model: its state hooks, the text area, the
  buttons and the loading of demo data. Also left out are the colour palette (lines 21-25), the
  custom tooltip (177-188), the pie chart with its legend and label geometry (239-273) and
  the summary cards (278-288). `setError` and `setTimeData` become the returned `Outcome`.
- The `catch` branch (lines 171-174) is not modelled. Nothing in the modelled core throws
  for a string input, so the generic processing error never arises in the model.
- The `isNaN(value)` guard (line 36) has no branch in the model. The pattern only captures
  digits with an optional fraction, so `parseFloat` always yields a number and the guard is
  never true.
- Numbers are exact reals, not IEEE doubles. `parseFloat` of the captured digits is their
  exact decimal value. `x * 60`, the divisions and the sums are exact.
- RoundTenthClose: `toFixed(1)` followed by `parseFloat` is rounding to the nearest tenth,
  halves upward, applied to the exact value. The code rounds the nearest double, so results
  can differ where a double sits just below a half. Because of this the stated bounds are
  ±0.05 and not exact digits.
- Text is modelled for ASCII only. `\s` and `trim` are modelled on space, tab, line feed,
  vertical tab, form feed and carriage return; the Unicode spaces they also accept are not
  modelled. Lowering is modelled on `A`–`Z`. With the `i` flag and no `u` flag, case-folded
  matching only matters for ASCII here, so the unit match is exact. `toLowerCase` in
  `categorizeEntry`, however, also maps some non-ASCII letters to ASCII ones (the Kelvin
  sign to `k`); the model does not.
- `_.groupBy` and `_.sumBy` are specified directly by their results (`Group`, `Keys`,
  `Minutes`) and not by lodash's code.
- Concrete whole-pipeline examples are left out, such as the first two lines of the demo
  data, `[1 hour] Weekly team sync meeting\n[30 mins] Code review`. So are concrete negative
  classifications, which need a text to be shown free of every keyword of earlier rows. The
  general lemmas above apply to these inputs but do not settle every result: for
  `Code review`, `Categories.EarlierWins` with row 1 only gives Meetings & Calls or
  Research & Documentation, and fixing Research needs the fact that `code review` holds no
  Meetings & Calls keyword, which the model does not prove.
