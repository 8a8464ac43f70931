# Copilot usage and billing core, in Dafny

This project models the logic core of a GitHub Copilot seat and usage manager
written in TypeScript, and proves properties of that model. The core has five
parts:

- **The strict usage-CSV parser** (`parseUsageCsv`, `parseBool`). It turns a
  CSV export into usage records, or into a single `InvalidFormat` error that
  names the offending line.
- **The header vocabulary.** This is the list of six canonical column names
  and the lower-case alias table.
- **The metrics loops.** One sums each user's `useQuota`. The other collects
  the users flagged as over their monthly quota.
- **The billing estimator.** It covers the unit price read from
  `COPILOT_PRICE_PER_MONTH`, `isActiveInCycle`, `estimateMonthlyCost`, and
  `monthRangeUtc`. `monthRangeUtc` relies on ECMAScript's `Date.UTC`, which is
  modelled here from section 21.4.1 of ECMA-262.
- **The CSV upload registry.** It covers `list`, `latest` and `loadContent`
  over a directory that is given as a value.

Modules, one per file:

| module | file | models |
|---|---|---|
| `Results` | results.dfy | `Result` (`ok`/`err`); `Option` for `undefined` |
| `Text` | text.dfy | `trim`, `toLowerCase`, `split(",")`, `split(/\r?\n/)`, the zero-length filter |
| `JsNumber` | js_number.dfy | `Number(string)` restricted to finite results |
| `UsageHeaders` | usage_headers.dfy | src/parsers/usage-headers.ts |
| `UsageCsv` | usage_csv.dfy | src/parsers/usage-csv.ts |
| `Metrics` | metrics.dfy | src/services/metrics.ts |
| `DateUtc` | date_utc.dfy | `Date.UTC`: MakeDay, MakeDate, MakeFullYear |
| `Types` | types.dfy | src/models/types.ts |
| `Billing` | billing.dfy | src/services/billing.ts |
| `CsvRegistry` | csv_registry.dfy | src/services/csv-registry.ts |

The form of each part follows the source:

- **Loops become methods.** The four loops of the source become methods with
  loops and invariants:
  - `parseUsageCsv`'s loop over the lines;
  - the two metrics loops;
  - `list`'s loop over the directory entries.
- **Each method is proved against a specification function.** Examples are
  `Parse`, `UsageMap` and `ListSpec`. The lemmas then state the properties of
  those functions.
- **`latest` is a method too**, since it calls `list`. Its contract states
  its result in terms of `ListSpec`.
- **The rest becomes functions and lemmas.** This covers the billing
  estimator, `parseBool`, `Number()`, `Date.UTC` and `loadContent`.

### Where the code, not the description, is followed

- **No alias lookup in the parser.** The parser does not look up the alias
  table, and it has no "missing columns" error. It demands the six canonical
  names, case-sensitive, as the first six header cells. Extra cells after
  them are allowed.
- **Column count.** A data line is rejected when it does not split into
  exactly six parts. More parts are also an error.
- **Empty quotas.** An empty or blank quota field reads as 0 and is accepted,
  because `Number("")` is 0.
- **Line numbers.** A line number counts only non-empty lines. A blank line
  made of white space is still counted, but it yields no record.
- **Unreachable branch.** The `"Empty CSV"` branch at
  src/parsers/usage-csv.ts:22 cannot be reached: the list is known to be
  non-empty there. So the model has no such error.

## Model

| member | source | states |
|---|---|---|
| `UsageCsv.ParseUsageCsv` | src/parsers/usage-csv.ts:17-63 | the loop over the lines returns exactly `Parse(text)`: what the header judgement and the per-line verdicts, scanned in order, give |
| `UsageCsv.ExpectedIsRequired` | src/parsers/usage-csv.ts:24-31 | the parser's own header list equals the names of `REQUIRED_HEADERS`, element by element |
| `UsageCsv.CellsMatchIff` | src/parsers/usage-csv.ts:32 | the header matches iff there are at least six cells and trimmed cell `i` equals name `i` exactly, case included, for every `i` |
| `UsageCsv.ShortHeaderRejected` | src/parsers/usage-csv.ts:23-34 | a first line with fewer than five commas never matches |
| `UsageCsv.HeaderIgnoresExtraCells` | src/parsers/usage-csv.ts:32 | appending further cells to a matching header keeps it matching |
| `UsageCsv.JoinedHeaderMatches` | src/parsers/usage-csv.ts:23-32 | the six canonical names, possibly followed by more comma-free cells, joined with commas, form a matching header |
| `UsageCsv.HeaderErrorIff` | src/parsers/usage-csv.ts:33-34 | the result is the header error, which has no line, iff the header does not match |
| `UsageCsv.FirstLine` | src/parsers/usage-csv.ts:18-21 | the header is the text before the first line feed, when that part is non-empty and has no trailing carriage return |
| `UsageCsv.ShortFirstLineRejected` | src/parsers/usage-csv.ts:18-34 | a text whose first line has fewer than six cells fails with "Unexpected CSV header", whatever follows |
| `UsageCsv.ClassifyRule` | src/parsers/usage-csv.ts:39-55 | a data line is skipped iff it is blank; it is rejected with "Wrong column count" iff it is non-blank and does not hold exactly five commas; it is rejected with "Non-numeric quota" iff it has six parts and a trimmed quota is not a finite number |
| `UsageCsv.RowFromFields` | src/parsers/usage-csv.ts:40-59 | six comma-free fields give the record of the trimmed fields and the two numbers, or the quota error; the flag depends only on the sixth field |
| `UsageCsv.RowSucceedsIff` | src/parsers/usage-csv.ts:47-57 | a six-field line is kept iff both quotas are finite numbers; the flag field never makes it fail |
| `UsageCsv.EmptyQuotaIsZero` | src/parsers/usage-csv.ts:47-55 | empty or blank quota fields are accepted as 0 |
| `UsageCsv.ParseBool` | src/parsers/usage-csv.ts:15 | any field reads as a flag, never as an error; only a field of four characters once trimmed reads as true, and a blank one reads as false |
| `UsageCsv.ParseBoolIff` | src/parsers/usage-csv.ts:15 | the flag is true iff the trimmed field is "true" in any mix of cases |
| `UsageCsv.FlagRoundTrip` | src/parsers/usage-csv.ts:15 | "true" reads as true and "false" as false |
| `UsageCsv.ScanSucceedsIff` | src/parsers/usage-csv.ts:37-62 | the scan succeeds iff no line is rejected, and then returns the records of the kept lines, in order |
| `UsageCsv.FirstRejectDecides` | src/parsers/usage-csv.ts:37-55 | the first rejected line decides the error, with its message and its 1-based line number |
| `UsageCsv.ErrorNamesFirstReject` | src/parsers/usage-csv.ts:37-55 | a row error names a rejected line before which no line is rejected |
| `UsageCsv.OutcomeSucceedsIff` | src/parsers/usage-csv.ts:33-62 | the parse succeeds iff the header matches and no data line is rejected; the records are then those of the kept lines, in order |
| `UsageCsv.RowErrorIff` | src/parsers/usage-csv.ts:37-55 | fail-fast: the parse fails with message `m` at line `n` iff the header matches, line `n` is rejected with `m`, and no earlier data line is rejected |
| `UsageCsv.ScanErrorsAbove` | src/parsers/usage-csv.ts:42 | every row error carries a line number, between 2 and the number of lines |
| `UsageCsv.NoLinesIsEmpty` | src/parsers/usage-csv.ts:18-19 | a text with no non-empty line after splitting on `\r?\n` parses to `ok([])`, not to an error |
| `UsageCsv.OnlyLineFeedsIsEmpty` | src/parsers/usage-csv.ts:18-19 | a text of line feeds only, the empty text included, parses to `ok([])` |
| `UsageCsv.EmptyLineInvisible` | src/parsers/usage-csv.ts:18 | an extra line feed changes neither the lines nor the result, line numbers included |
| `UsageCsv.ScanShift` | src/parsers/usage-csv.ts:37-42 | the same verdicts at a later index give the same outcome, with line numbers moved by the offset |
| `UsageCsv.SkipCounts` | src/parsers/usage-csv.ts:37-42 | a skipped line yields no record but moves every later error line number up by one |
| `UsageCsv.BlankLineCounts` | src/parsers/usage-csv.ts:18-42 | a blank but non-empty line inserted after the header changes no record and moves every later error line number up by one |
| `UsageCsv.RowReadsBack` | src/parsers/usage-csv.ts:40-59 | an exported row, with clean text fields and whole quotas, reads back as exactly its record |
| `UsageCsv.RenderLines` | src/parsers/usage-csv.ts:18 | an export splits into the header line, then one line per record |
| `UsageCsv.CanonicalHeader` | src/parsers/usage-csv.ts:24-32 | the canonical header line is one non-empty line that matches |
| `UsageCsv.ParseExportedRows` | src/parsers/usage-csv.ts:32-62 | a matching header followed by exported rows parses to exactly those records |
| `UsageCsv.RowsRoundTrip` | src/parsers/usage-csv.ts:17-63 | under any matching single-line header, exported rows parse back to the exported records |
| `UsageCsv.RenderRoundTrip` | src/parsers/usage-csv.ts:17-63 | parsing an export gives back exactly the exported records |
| `UsageHeaders.RequiredNames` | src/parsers/usage-headers.ts:10-17 | the names of the required headers, in order |
| `UsageHeaders.RequiredHeadersShape` | src/parsers/usage-headers.ts:10-17 | six distinct headers, every header among them, named timestamp, user, model, useQuota, limitMonthlyQuota, exceedsMonthlyQuota in that order |
| `UsageHeaders.NamesDistinct` | src/parsers/usage-headers.ts:2-8 | distinct headers have distinct names |
| `UsageHeaders.AliasTargetsRequired` | src/parsers/usage-headers.ts:20-55 | every alias resolves to a required header |
| `UsageHeaders.AliasKeysLowerCase` | src/parsers/usage-headers.ts:19-55 | every alias key has no capital letter and is its own lower-cased form |
| `UsageHeaders.OwnNameResolves` | src/parsers/usage-headers.ts:20-55 | every header is reached by its own name, lower-cased |
| `UsageHeaders.AliasesManyToOne` | src/parsers/usage-headers.ts:22-25 | time, date, datetime and timestamp all resolve to timestamp |
| `Metrics.SumUsageByUser` | src/services/metrics.ts:5-12 | the map's keys are exactly the users of the records, and each value is the sum of that user's `useQuota` |
| `Metrics.UsageMapTotals` | src/services/metrics.ts:7-10 | the map built record by record has the users as keys and their totals as values |
| `Metrics.UsersExceedingMonthlyQuota` | src/services/metrics.ts:14-22 | `u` is in the set iff some record of `u` has the flag set |
| `Metrics.UsersMeaning` | src/services/metrics.ts:7-9 | a user is a key iff some record is theirs |
| `Metrics.EmptyInput` | src/services/metrics.ts:5-22 | no records give no users, no flagged users and zero totals |
| `Metrics.UserTotalAppend` | src/services/metrics.ts:7-9 | totals add up over a split of the records |
| `Metrics.UserTotalPermutation` | src/services/metrics.ts:7-9 | reordering the records changes no user's total |
| `Metrics.UsageMapPermutation` | src/services/metrics.ts:5-12 | reordering the records changes neither the users nor any total |
| `Metrics.FlaggedAreUsers` | src/services/metrics.ts:18-20 | every flagged user is a key of the usage map |
| `Metrics.FlaggedIgnoresQuotas` | src/services/metrics.ts:19 | the flagged set depends only on users and flags, not on the quotas |
| `Billing.ParseEnvNumber` | src/services/billing.ts:3-7 | an absent or empty value gives nothing; any other value gives exactly `Number(s)` when that is finite and nothing otherwise; a result is always below the overflow threshold in magnitude |
| `Billing.DefaultUnitPrice` | src/services/billing.ts:9 | for a non-empty setting whose `Number()` is finite, that number; for every other setting, 19; the price is always finite |
| `Billing.UnsetPrice` | src/services/billing.ts:3-9 | an unset or empty setting gives 19 |
| `Billing.NonNumericPrice` | src/services/billing.ts:3-9 | a setting holding a character that is not a digit, sign or point gives 19 |
| `Billing.OverridePrice` | src/services/billing.ts:3-9 | a decimal setting, negative ones included, is the price, as long as it is finite as a double |
| `Billing.HugePrice` | src/services/billing.ts:5-9 | a decimal setting too large for a double (its `Number()` is an infinity) falls back to 19 |
| `Billing.BlankSettingIsFree` | src/services/billing.ts:3-9 | a setting of blanks only is truthy, reads as 0, and so sets the price to 0 |
| `Billing.IsActiveInCycle` | src/services/billing.ts:11-15 | an active seat was assigned by the cycle's end; without a (truthy) cancellation date that is all it takes; a cancellation before the cycle's start makes it inactive |
| `Billing.ActiveIffOverlap` | src/services/billing.ts:11-15 | a seat is active in a cycle iff it is held at some instant of the cycle |
| `Billing.FalsyCancellation` | src/services/billing.ts:13-14 | null and empty-string cancellation dates both mean "no cancellation": active iff assigned by the end |
| `Billing.ActiveSeats` | src/services/billing.ts:22 | the filter keeps exactly the active seats and is no longer than its input |
| `Billing.ActiveCount` | src/services/billing.ts:22-23 | the filtered length is the number of positions holding an active seat |
| `Billing.EstimateMonthlyCost` | src/services/billing.ts:17-37 | the count is the number of active positions, at most the number of seats; the price is echoed or defaulted; the cost is count times price; the tags are "simplified" and "medium"; there are the three fixed disclaimers |
| `Billing.NobodyActiveCostsNothing` | src/services/billing.ts:22-24 | with no active seat the cost is 0 |
| `Billing.SeatsCostMonotone` | src/services/billing.ts:24 | at a non-negative price, more seats never cost less and no seat costs nothing |
| `Billing.CostBound` | src/services/billing.ts:22-24 | at a non-negative price the cost lies between 0 and the price of every listed seat |
| `Billing.MonthRangeUtc` | src/services/billing.ts:39-43 | the range starts at midnight UTC of day 1 of the month and ends at 23:59:59 UTC of day 0 of the next month, and the start comes before the end |
| `Billing.MonthRangeLastDay` | src/services/billing.ts:41 | that is 23:59:59 of the month's last day, numbered by the month's length; with `DateUtc.FebruaryAndDecember`, February 29 in leap years and December 31 for month 12 |
| `Billing.MonthRangeLength` | src/services/billing.ts:39-43 | the range lasts the month's 28 to 31 days less one second, so `start < end` |
| `Billing.MonthsTile` | src/services/billing.ts:39-43 | each month starts one second after the previous one ends, December to January included |
| `Billing.StartsOrdered` | src/services/billing.ts:40 | later months start later |
| `Billing.MonthsOrdered` | src/services/billing.ts:39-43 | a month ends before any later month starts |
| `Billing.AssignedSeatStaysActive` | src/services/billing.ts:11-14 | a seat assigned at the start of a month, and not being cancelled, is active in that month and every later one |
| `Billing.ActiveUntilCancelled` | src/services/billing.ts:11-14 | a seat cancelled during month `c` is active in every month up to `c` by whose end it was assigned |
| `Billing.InactiveAfterCancelled` | src/services/billing.ts:11-14 | a seat cancelled by the end of month `c` is inactive in every later month |
| `DateUtc.DateUtcOf` | src/services/billing.ts:40-41 | `Date.UTC` is the day number, from MakeDay with the year's 0-99 mapping, times 86400000 plus the time of day in milliseconds |
| `DateUtc.YearLength` | src/services/billing.ts:40-41 | consecutive New Year's days are 366 days apart in leap years and 365 otherwise |
| `DateUtc.MonthTable` | src/services/billing.ts:40-41 | the month boundaries partition the year |
| `DateUtc.MonthLengthBounds` | src/services/billing.ts:41 | months last 28 to 31 days; February has 29 exactly in leap years |
| `DateUtc.FebruaryAndDecember` | src/services/billing.ts:41 | month 2 has 29 days in leap years and 28 otherwise; month 12 has 31 |
| `DateUtc.MonthLengthRange` | src/services/billing.ts:41 | every month, rolled over or not, lasts 28 to 31 days |
| `DateUtc.MakeDayAbsolute` | src/services/billing.ts:40-41 | MakeDay depends only on the month counted from year 0, so months roll over into years |
| `DateUtc.NextMonth` | src/services/billing.ts:40-41 | day 1 of the next month comes one month length after day 1 of this month, across year ends too |
| `DateUtc.DayShift` | src/services/billing.ts:41 | day numbers within a month are consecutive, past its end and before day 1 too |
| `DateUtc.LastDay` | src/services/billing.ts:41 | day 0 of the next month is the last day of this month |
| `DateUtc.MonthStartMonotone` | src/services/billing.ts:40 | later months start on later days |
| `JsNumber.ParseNumber` | src/parsers/usage-csv.ts:51-55 | `Number()` followed by `Number.isFinite`: blank text is 0; a finite result is below the overflow threshold in magnitude; its sign is the sign written (non-positive after a leading '-', non-negative otherwise) |
| `JsNumber.HugeNaturalRejected` | src/parsers/usage-csv.ts:51-54 | a whole number too large for a double, written in decimal with or without '-', is not finite, so the quota is rejected |
| `JsNumber.BlankIsZero` | src/parsers/usage-csv.ts:51-53 | empty or blank text converts to 0, which is finite |
| `JsNumber.NonNumericRejected` | src/parsers/usage-csv.ts:51-53 | text holding a character that is not a digit, sign or point is not a finite number |
| `JsNumber.NaturalRoundTrip` | src/services/billing.ts:5-6 | a whole number written in decimal converts back to itself |
| `JsNumber.NegativeRoundTrip` | src/services/billing.ts:5-6 | the same with a leading minus sign |
| `Text.TrimDropsBlank` | src/parsers/usage-csv.ts:39 | trimming drops only white space at the ends, and empties exactly the blank texts |
| `Text.TrimIdempotent` | src/parsers/usage-csv.ts:44-49 | trimming twice is trimming once |
| `Text.SplitJoin` | src/parsers/usage-csv.ts:40 | splitting on a separator undoes joining parts that do not hold it |
| `Text.SplitConcat` | src/parsers/usage-csv.ts:23 | a separator between two texts splits them independently |
| `Text.SplitLinesConcat` | src/parsers/usage-csv.ts:18 | a line feed between two texts splits them independently; a carriage return before it goes with the separator |
| `Text.NonEmptyAppend` | src/parsers/usage-csv.ts:18 | the zero-length filter works piecewise over a concatenation |
| `Text.LowerCaseFixed` | src/parsers/usage-csv.ts:15 | lower-casing leaves text without capitals unchanged |
| `CsvRegistry.List` | src/services/csv-registry.ts:31-60 | the loop returns exactly `ListSpec`: an unreadable directory gives a `readdir` error without a file; a successful listing is newest first |
| `CsvRegistry.LastDot` | src/services/csv-registry.ts:37 | the position of the last dot, or none when there is no dot |
| `CsvRegistry.Extname` | src/services/csv-registry.ts:37 | the extension is empty, or is a proper suffix of the name that starts with a dot |
| `CsvRegistry.CsvExtension` | src/services/csv-registry.ts:37 | a name passes the extension filter iff it is longer than ".csv" and ends in ".csv" in any mix of cases |
| `CsvRegistry.Load` | src/services/csv-registry.ts:38-48 | an entry loads iff both stat and read succeed; the record has id and file name equal to the entry name, size and time from stat, and the hash of the bytes; otherwise the first failure's message |
| `CsvRegistry.SortNewestFirst` | src/services/csv-registry.ts:54 | the sort gives a permutation of its input, ordered newest first |
| `CsvRegistry.InsertKeepsOrder` | src/services/csv-registry.ts:54 | inserting into a newest-first list keeps it newest first |
| `CsvRegistry.ListContents` | src/services/csv-registry.ts:35-48 | a successful listing holds the record of every regular `.csv` entry and nothing else |
| `CsvRegistry.ListFailure` | src/services/csv-registry.ts:38-51 | the listing fails at the first candidate whose stat or read fails, tagged `stat` and with the entry's name even when the read failed |
| `CsvRegistry.CollectSucceeds` | src/services/csv-registry.ts:38-53 | when every candidate can be stat'ed and read, the scan succeeds |
| `CsvRegistry.IgnoredEntriesHarmless` | src/services/csv-registry.ts:36-37 | entries that are not regular `.csv` files never affect the result |
| `CsvRegistry.Latest` | src/services/csv-registry.ts:62-65 | the listing's error unchanged; otherwise nothing iff the listing is empty, and else its head, which is a newest record |
| `CsvRegistry.LoadContent` | src/services/csv-registry.ts:67-76 | the file's text, or its read failure tagged `read` with the id as the file |

## Left out

- **Numbers.** `Number(string)` covers only optional signs, decimal digits and
  one optional point. Hexadecimal, exponents and `Infinity` are not modelled.
  Every text outside this grammar counts as a non-finite result. Empty or
  blank text is 0, as in JavaScript.
- **Floating point.** Quotas, prices and costs are exact reals, so rounding
  drift is not modelled. Overflow is modelled where text becomes a number:
  `Number()` of a decimal whose magnitude is 2^1024 - 2^970 or more is an
  infinity, so `ParseNumber` rejects it.
- **Metrics.SumUsageByUser:** the per-user sums are exact. A JavaScript sum
  that passes `Number.MAX_VALUE` becomes Infinity; the model does not capture
  that overflow.
- **Billing.EstimateMonthlyCost:** the cost `count * price` is exact. In
  JavaScript it overflows to Infinity for a price near `Number.MAX_VALUE`;
  the model does not capture that overflow.
- **Dates.** ISO-8601 parsing of dates and invalid (`NaN`) dates are left out.
  Seat timestamps and `Date` values are integer milliseconds since the epoch.
  TimeClip, which limits `Date` to ±8.64e15 ms, is not modelled either.
- **`process.env`.** The `COPILOT_PRICE_PER_MONTH` value is a parameter.
- **File system.** `readdirSync`, `statSync`, `readFileSync` and the path
  functions `resolve` and `join` are replaced by a directory value. It holds
  each entry's stat and read outcomes, and `loadContent` takes a read function
  as a parameter.
- **SHA-256.** The digest is an opaque function parameter.
- **Entry names.** Names are assumed to contain no '/', because `extname`
  sees only the base name.
- **Lower-casing.** `toLowerCase` is modelled on ASCII letters only. No other
  code point lowers to a letter of "true" or ".csv", the only texts compared
  after lowering.
- **Program entry.** src/index.ts, which does console reporting, is not part
  of this model.
- **Seats API.** src/api/seats.ts, a file read plus `JSON.parse`, is not part
  of this model.
- **CsvRegistry.SortNewestFirst:** it models `Array.prototype.sort` as a
  stable insertion sort on a sequence value. This matches the specification
  of a stable sort, but it is not an in-place array algorithm.
- **Billing.NobodyActiveCostsNothing and Billing.CostBound:** these are
  consequences of the estimate's contract, not statements the source makes
  itself.
- **Billing.MonthRangeLastDay:** it is stated for every year and month, not
  as concrete dates. A reader gets, for example, the value for February 2024
  by combining it with `DateUtc.FebruaryAndDecember`.
- **Billing.BlankSettingIsFree:** a setting made only of white space gives a
  price of 0. This is the source's behaviour, kept as it is.
