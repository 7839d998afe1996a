# Customer analysis script and the `Po` combatant, modelled in Dafny

This project models two parts of the `ai-agent` repository.

**The analysis script `agent.py`.** It loads a customer table, tidies its
header, parses a guessed date column, coerces an allow-list of numeric
columns, derives `days_as_customer` and `age_group`, and lays out six charts
in a 3x2 grid. The model keeps every decision of the modelled steps and none
of the pandas or matplotlib machinery:

- A table is a sequence of labels plus one sequence of cells per column.
  A cell is `Option<Value>`, with `None` standing for a pandas null
  (module `Table`).
- The mutable `df` of the script is the class `Table.Frame`. Its methods
  reassign the header (`df.columns = …`) and assign a column (`df[l] = …`).
- Header normalisation is a string rewrite (module `Labels`). It uses
  Python's own whitespace set for `str.strip` and the lowercase mappings
  that can leave a character of `[a-z0-9_]` behind.
- Each preparation step is a function from a table to either a new table
  or the exception that stops the script (module `Features`).
- The script's statements run as imperative methods over a `Frame`, each
  proved to leave exactly the table its `Features` function gives (module
  `Pipeline`). The numeric loop keeps the loop-prefix invariant.
- The chart grid is a sequence of six `Slot` values (module `Charts`).
  `value_counts`, `head` and `sort_values` are modelled, so the bars and
  wedges a panel shows are known.

**The combatant class `po.py`.** `Po` is a Dafny class with `name`,
`health` and `attackPower` fields (module `Combat`). The random damage of
`attack` is a method parameter bounded by the attacker's strength. `str(p)`
is rendered with a model of Python's integer-to-text conversion (module
`Decimal`), which is proved to read back to the same integer.

Behaviour of the code on edge cases, as modelled:

- **Duplicate labels.** Two headers can normalise to the same label, for
  example `Age` and `age `. Then `df[l]` denotes several columns.
  - The date parse of lines 37-40 fails and its exception is swallowed, so
    nothing changes.
  - `pd.to_numeric`, the tenure subtraction and `pd.cut` raise. The model
    returns `Raised(NotASingleColumn(l))`.
  - An assignment `df[l] = v` overwrites every column with that label
    with `v`. pandas has one exception, and the model follows it: when `l`
    labels exactly as many columns as `v` has values, and at least two,
    copy number `k` gets the single value `v[k]` in every row.
- **Tenure from an unparsed column.** Only the first date-like label is
  parsed as dates (lines 35-40), and only when it names one column. The
  tenure source (`joindate`, `join_date` or `signup_date`, line 56) is
  subtracted from today on line 59. When the source is not the column that
  was parsed, the subtraction meets unparsed values and raises, whatever
  those values are. The model returns `Raised(NotDates(source))`. With
  distinct labels and at least one row, `Features.DeriveRaisesExactly`
  states that preparation raises exactly in this case.
- **RFM on an empty table.** When both `orders` and `annual_spend` are
  present, lines 66-68 take `nanmin` of the spend column. On a table with
  no rows that reduction raises, and `Features.DeriveRaisesOnEmptyTable`
  states that preparation stops. The model returns
  `Raised(EmptyReduction("annual_spend"))`. A duplicated `orders` or
  `annual_spend` label also raises, as `NotASingleColumn`. So does a
  duplicated `monetary` or `frequency`: lines 63-64 fill every copy,
  `.values` is then two-dimensional, and the score of line 71 fails to
  broadcast or cannot be stored in one column.

`errors='coerce'` turns a single cell that does not parse into a null, and
the script carries on. The cases above are different: the code raises and
the exception stops the script, and the model follows the code.

## Model

| member | source | states |
|---|---|---|
| Labels.StripLeft | agent.py:32 | removes exactly the leading run of Python whitespace characters and keeps the rest unchanged |
| Labels.StripRight | agent.py:32 | removes exactly the trailing run of Python whitespace characters and keeps the rest unchanged |
| Labels.Strip | agent.py:32 | the result is a contiguous part of the input with only whitespace before and after it, and has no whitespace at either end; it is empty exactly when the input is all whitespace; a label without surrounding whitespace is returned unchanged |
| Labels.MiddleOfStrip | agent.py:32 | stripping the leading run and then the trailing run leaves the part of the input between the two whitespace runs |
| Labels.LowerChar | agent.py:32 | lowercasing one character gives one or two characters with no capital letter; a capital `A`-`Z` becomes the lowercase letter at the same alphabet position; a space stays a space and other uncased characters stay themselves |
| Labels.Lower | agent.py:32 | the lowercased label contains no capital letter and is at most twice as long |
| Labels.LowerAppend | agent.py:32 | lowercasing distributes over concatenation |
| Labels.LowerFixesCanonical | agent.py:32 | lowercasing leaves a label over `[a-z0-9_]` unchanged |
| Labels.ReplaceSpaces | agent.py:32 | same length; every space becomes `_` and every other character stays in place |
| Labels.ReplaceSpacesAppend | agent.py:32 | space replacement distributes over concatenation |
| Labels.ReplaceSpacesFixesCanonical | agent.py:32 | space replacement leaves a label over `[a-z0-9_]` unchanged |
| Labels.KeepLabelChars | agent.py:32 | the result uses only `[a-z0-9_]` and is no longer than the input; it equals the input when the input already uses only those characters, and is empty when the input has none of them, so with the append law every other character is deleted |
| Labels.KeepLabelCharsAppend | agent.py:32 | the filter distributes over concatenation |
| Labels.Normalise | agent.py:32 | every normalised label consists only of characters in `[a-z0-9_]` |
| Labels.NormaliseAll | agent.py:32 | the header keeps its length and every label in it is canonical |
| Labels.Rewrite | agent.py:32 | lowercasing, space replacement and the filter give a canonical label at most twice as long, and leave a canonical label unchanged |
| Labels.NormaliseFixesCanonical | agent.py:32 | a label already over `[a-z0-9_]` is left unchanged |
| Labels.NormaliseIdempotent | agent.py:32 | normalising twice gives the same label as normalising once |
| Labels.NormaliseAllIdempotent | agent.py:32 | normalising a whole normalised header changes nothing |
| Labels.RewriteAppend | agent.py:32 | the three rewrites after strip distribute over concatenation |
| Labels.NormaliseAround | agent.py:32 | a character between two words is rewritten on its own, and the words are normalised separately |
| Labels.NormaliseJoinsWordsWithUnderscore | agent.py:32 | an inner space becomes `_` before the filter runs, so two words are joined by `_` (as in `Annual Spend` to `annual_spend`) |
| Labels.NormaliseDropsOtherWhitespace | agent.py:32 | an inner tab, newline or other non-space whitespace is dropped rather than turned into `_` |
| Labels.RewriteDropsWhitespace | agent.py:32 | a whitespace character other than a space rewrites to nothing |
| Labels.RewriteDropsOther | agent.py:32 | any character that is not a capital, a space, U+0130, U+212A or in `[a-z0-9_]` rewrites to nothing |
| Labels.NormaliseDropsOther | agent.py:32 | such a character between two words is deleted and the words are joined directly |
| Labels.RewriteSpace | agent.py:32 | a lone space rewrites to `_` |
| Labels.LowerSingle | agent.py:32 | lowercasing a one-character label lowercases that character |
| Labels.StripSurroundingSpaces | agent.py:32 | leading and trailing spaces are stripped, not turned into `_` |
| Labels.NormaliseCapitalised | agent.py:32 | a capital letter in front of a canonical rest is lowercased and the rest is kept, as in `Age` to `age` |
| Labels.NormaliseAge | agent.py:32 | the header `Age` becomes `age` |
| Labels.NormaliseAnnualSpend | agent.py:32 | the header `Annual Spend` becomes `annual_spend` |
| Labels.NormaliseAnnualHyphenSpend | agent.py:32 | the header `Annual-Spend` becomes `annualspend` |
| Labels.NormaliseJoinDate | agent.py:32 | the header ` JoinDate ` becomes `joindate`, the first tenure candidate |
| Labels.LowerJoinDate | agent.py:32 | lowercasing `JoinDate` gives `joindate` |
| Labels.NormaliseWordLiteral | agent.py:32 | a capitalised canonical word normalises to its lowercase form |
| Labels.NormaliseWord | agent.py:32 | a capital letter in front of a non-empty canonical rest becomes its lowercase letter and the rest is kept |
| Labels.NormaliseVia | agent.py:32 | a label without surrounding whitespace whose lowercase form is canonical normalises to that form |
| Labels.CanonicalCons | agent.py:32 | a label character in front of a canonical label gives a canonical label |
| Labels.Contains | agent.py:35 | the substring test holds exactly when the pattern occurs at some position of the label |
| Features.IsDateLabel | agent.py:35 | a label is date-like exactly when `date`, `joined` or `signup` occurs in it at some position |
| Features.LastUpdateIsDateLabel | agent.py:35 | `last_update` counts as date-like, because it contains `date` |
| Features.AgeIsNotDateLabel | agent.py:35 | `age` is not date-like |
| Table.IndexOf | agent.py:45-46 | the first position holding the label |
| Table.CopyRank | agent.py:77 | the rank of a copy of a label is below the number of copies |
| Table.CopyRankIncreasing | agent.py:77 | copies further right have higher ranks, so the ranks number the copies from left to right |
| Table.Find | agent.py:45-46 | `df[l]` names no column exactly when `l` is absent, several exactly when `l` occurs twice or more, and otherwise the one column with that label |
| Table.Assign | agent.py:38-77 | `df[l] = v` leaves every column with another label untouched and appends `l` with `v` at the right end when absent; each column labelled `l` gets `v`, except when `l` labels exactly `len(v)` >= 2 columns: then each copy holds one value of `v`, the one its rank picks, in every row |
| Table.AssignSpreadsTwoCopies | agent.py:77 | two copies of a label and two rows: assigning `[a, b]` gives the copies `[a, a]` and `[b, b]` |
| Table.AssignShaped | agent.py:46 | assigning a full column keeps every column the same length |
| Table.AssignThenFind | agent.py:46 | unless `l` was duplicated, after `df[l] = v` the label names exactly one column, which holds `v` |
| Table.AssignKeepsOthers | agent.py:46 | `df[l] = v` leaves what every other label names, and its column, untouched |
| Table.Frame.Relabel | agent.py:32 | reassigning the header keeps every column and the row count |
| Table.Frame.SetColumn | agent.py:46 | an in-place column assignment leaves the frame holding `Assign` of its old value |
| Features.FirstDateColumn | agent.py:35-36 | the first label in column order that contains `date`, `joined` or `signup`, and none exactly when no label does |
| Features.DateCells | agent.py:38 | same length; a cell becomes a date exactly when it was non-null and parses, and then it holds the date the parser gives; otherwise it is null |
| Features.ParseDateColumn | agent.py:35-40 | the header and the column lengths are unchanged |
| Features.ParseDateColumnEffect | agent.py:35-40 | only the first date-like column changes, to its parsed cells; with no date-like label, or a duplicated one (the swallowed exception), the table is unchanged |
| Features.ParsedDateLabel | agent.py:35-40 | the label parsed as dates is the first date-like label; there is none exactly when no label is date-like or that label is duplicated (the swallowed exception); a parsed label is present and names one column |
| Features.ParsedLabelHoldsDates | agent.py:37-38 | after the parse, the column of that label holds exactly its parsed cells, so only dates or nulls |
| Features.CoerceStep | agent.py:44-46 | an absent name changes nothing; the iteration raises only on that name when it is present; otherwise header and column count are kept |
| Features.NumberCells | agent.py:46 | same length; a cell becomes a number exactly when it was non-null and parses, and then it holds the number the parser gives; otherwise it is null (no exception) |
| Features.CoerceAll | agent.py:43-46 | when the loop finishes, the header and the column lengths are unchanged |
| Features.NumericColumnsDistinct | agent.py:43 | the allow-list names each column once |
| Features.CoerceAllEffect | agent.py:43-46 | the loop raises exactly when a listed label is duplicated; otherwise exactly the columns whose label is listed are coerced and every other column is unchanged |
| Features.CoerceStepEffect | agent.py:45-46 | one iteration raises exactly when the name labels several columns, and otherwise coerces only the columns with that name |
| Features.CoerceDistinct | agent.py:43-46 | with distinct labels the loop finishes and coerces exactly the allow-listed columns |
| Features.FirstPresent | agent.py:56 | the first candidate, in list order, that is a label, and none exactly when no candidate is |
| Features.TenureSource | agent.py:56 | the chosen source is one of the three candidates and is present |
| Features.TenureGuardAgrees | agent.py:55-57 | the `any(…)` guard holds exactly when `next(…)` finds a source |
| Features.TenureSourcePriority | agent.py:56 | `joindate` beats `join_date`, which beats `signup_date`; none of the three means no source |
| Features.AddTenure | agent.py:55-59 | no source means no change; the step raises only on the source; it finishes with a source only when the source is the column parsed as dates; the header is kept or `days_as_customer` appended; the table stays rectangular |
| Features.ClippedDays | agent.py:59 | the day difference, or 0 when the join day lies after today |
| Features.TenureCells | agent.py:59 | same length, nulls stay null, each date becomes exactly its clipped day count from today, and every day count is a whole number that is at least 0 |
| Features.AddTenureEffect | agent.py:55-59 | with no source the table is unchanged; when tenure is added, `days_as_customer` names one column holding the clipped day counts of the source |
| Features.TenureFrom | agent.py:56-59 | taken from one column, tenure is added exactly when that column is the one parsed as dates and holds dates or nulls; otherwise the step raises on that column |
| Features.AddTenureLabels | agent.py:59 | tenure leaves the header alone or appends `days_as_customer` |
| Features.AddTenureShaped | agent.py:59 | tenure keeps the table rectangular |
| Features.AgeBucket | agent.py:75-77 | an age gets a bucket exactly when 0 <= age < 999, and the bucket's interval `[bins[k], bins[k+1])` contains it |
| Features.AgeBucketMonotone | agent.py:75-77 | an older age never gets an earlier bucket |
| Features.AgeBucketBoundaries | agent.py:75-77 | 17 is `<18`, 18 and 24.5 are `18-24`, 55 and 998 are `55+`, 999 and -1 get no bucket |
| Features.AgeCells | agent.py:77 | same length; a cell gets a bucket exactly when it is a number in [0, 999), and that bucket is `AgeBucket` of it |
| Features.AddAgeGroup | agent.py:74-77 | no `age` column means no change; the step raises only on `age`, because it names several columns or holds a non-number; the table stays rectangular |
| Features.AddAgeGroupEffect | agent.py:74-77 | with no `age` column the table is unchanged; the step raises exactly when `age` is duplicated or holds a non-number; otherwise `age_group` names one column holding the bucket of each age |
| Features.AddAgeGroupLabels | agent.py:77 | bucketing leaves the header alone or appends `age_group` |
| Features.AddAgeGroupShaped | agent.py:77 | bucketing keeps the table rectangular |
| Features.AddAgeGroupDuplicatedTarget | agent.py:77 | with a single numeric `age` and an `age_group` that labels several columns, the step finishes and every copy gets the buckets, or, with as many copies as rows, copy `k` gets the bucket of row `k` in every row |
| Features.RfmScore | agent.py:62-71 | the RFM step raises only when both `orders` and `annual_spend` are present, and then on a present label among `annual_spend`, `orders`, `monetary` and `frequency`; otherwise the modelled table is unchanged |
| Features.RfmScoreEffect | agent.py:62-71 | on a rectangular table the RFM step raises exactly when both columns are present and the table has no rows or one of `annual_spend`, `orders`, `monetary` and `frequency` is duplicated |
| Features.Finish | agent.py:62-77 | the RFM and age steps raise only on a present label among `annual_spend`, `orders`, `monetary`, `frequency` and `age`; a finished table is rectangular |
| Features.Derive | agent.py:35-77 | an exception of the derivation steps always names a label of the table; a finished table is rectangular |
| Features.Prepare | agent.py:31-77 | an exception names a label of the normalised header, which is canonical; a finished table starts with the whole normalised header |
| Features.TenureKeepsLabel | agent.py:59 | a label the RFM or age step can raise on that is present after the tenure step was there before it |
| Features.CoerceStageShaped | agent.py:35-46 | date parsing and numeric coercion keep the header and the row count |
| Features.TenureStageShaped | agent.py:35-59 | after tenure the table keeps the row count and has the original header, with `days_as_customer` possibly appended |
| Features.DeriveHeader | agent.py:35-77 | preparation keeps the whole original header as a prefix and appends at most `days_as_customer` and `age_group`, each exactly when its source exists or it was already there |
| Features.DeriveShaped | agent.py:35-77 | preparation keeps the table rectangular |
| Features.DeriveRaisesOnDuplicateNumericLabel | agent.py:44-46 | a duplicated allow-listed label always stops the script |
| Features.TenureSourceNotNumeric | agent.py:43 | no tenure candidate is on the numeric allow-list, so coercion never touches the tenure source |
| Features.DeriveSucceeds | agent.py:35-77 | with distinct labels and at least one row, preparation cannot raise when the tenure source is absent or is the column parsed as dates |
| Features.RfmStepSucceeds | agent.py:62-68 | with distinct labels and at least one row, the RFM step cannot raise after tenure |
| Features.AppendKeepsCount | agent.py:59 | appending one label leaves the count of every other label unchanged |
| Features.DeriveRaisesOnEmptyTable | agent.py:62-68 | with `orders` and `annual_spend` present and no rows, preparation raises |
| Features.DeriveRaisesOnUnparsedTenureSource | agent.py:35-59 | with distinct labels, a tenure source that is not the column parsed as dates makes the script raise on that column, whatever its cells hold |
| Features.DeriveRaisesExactly | agent.py:35-77 | with distinct labels and at least one row, preparation raises exactly when a tenure source exists that is not the column parsed as dates |
| Pipeline.NormaliseHeader | agent.py:32 | the frame's header becomes the normalised header; columns and rows are kept |
| Pipeline.ParseDates | agent.py:35-40 | the frame ends up holding `ParseDateColumn` of its old value, and the method returns the label that was parsed as dates, if any |
| Pipeline.CoerceNumeric | agent.py:43-46 | the loop leaves the frame holding `CoerceAll` of its old value, or reports the exception `CoerceAll` raises |
| Pipeline.CoerceAllSnoc | agent.py:44-46 | running the loop over one more name is one more iteration on the loop's outcome so far |
| Pipeline.CoerceRaisedPersists | agent.py:44-46 | once one iteration raises, the whole loop's outcome is that exception |
| Pipeline.AddTenureColumn | agent.py:55-59 | the frame ends up holding `AddTenure` of its old value for the label parsed earlier, or the exception it raises |
| Pipeline.CheckRfm | agent.py:62-71 | without changing the frame, reports exactly the exception the RFM step raises, or none |
| Pipeline.AddAgeGroupColumn | agent.py:74-77 | the frame ends up holding `AddAgeGroup` of its old value, or the exception it raises |
| Pipeline.Prepare | agent.py:31-77 | the whole preparation in place, RFM check included, agrees with `Features.Prepare`: the same final table, or the same exception |
| Charts.BreakdownColumn | agent.py:125-151 | `city` whenever it is present, `category` only when `city` is absent, none when both are absent |
| Charts.Layout | agent.py:89-151 | six panels; each panel is blank exactly when a column it needs is missing (panel 4 needs both `age_group` and `annual_spend`); drawn panels read only present columns; panel 1 is a 24-bin `age` histogram, panel 2 the full `gender` pie, panel 3 a 30-bin `annual_spend` histogram, panel 4 the mean `annual_spend` per `age_group`; panels 5 and 6 use `city` with 10 bars, else `category` with 8, and a top-5 pie |
| Charts.BreakdownPanelsAgree | agent.py:123-151 | panels 5 and 6 are both blank or both break down the same column |
| Charts.Distinct | agent.py:126 | every non-null value of the column appears once, and nothing else does |
| Charts.Insert | agent.py:139 | insertion adds exactly one entry to the multiset of entries |
| Charts.InsertMembers | agent.py:139 | an inserted list holds only the new entry and old ones |
| Charts.InsertDescending | agent.py:139 | inserting into a descending count keeps it descending |
| Charts.InsertNoDuplicates | agent.py:139 | inserting a new entry into a list without repeats gives a list without repeats |
| Charts.SortDescending | agent.py:139 | the sort is a permutation and its result is in descending order of count |
| Charts.SortNoDuplicates | agent.py:139 | sorting a list without repeats gives a list without repeats |
| Charts.DescendingTail | agent.py:139 | the tail of a descending count is descending and starts no higher than its head |
| Charts.InsertAtFront | agent.py:139 | an entry counted at least as often as the first entry goes to the front |
| Charts.SortSortedIsIdentity | agent.py:139 | sorting a count that is already descending changes nothing |
| Charts.Tally | agent.py:126 | the entries are exactly the column's non-null values paired with their counts, without repeats |
| Charts.SortedTally | agent.py:126 | the sorted tally has exactly the tally's entries and no repeats |
| Charts.TallyEntries | agent.py:126 | such a list pairs each non-null value once with its exact count of at least 1 |
| Charts.ValueCounts | agent.py:100 | each non-null value appears exactly once with its exact count (at least 1), no other entry appears, and counts descend |
| Charts.Head | agent.py:126 | `head(k)` is the first `min(k, n)` entries |
| Charts.HeadKeepsLargest | agent.py:126 | truncating a descending count keeps it descending, and each dropped count is at most each kept count |
| Charts.Column | agent.py:126 | the cells of a column carrying the label |
| Charts.Counted | agent.py:100-149 | only pie and bar panels count values; counts descend; a bar panel shows at most its limit, a top-k pie at most k, and the gender pie the full value count |
| Charts.Shown | agent.py:89-151 | what panel `i` shows as counts is in descending order |
| Charts.BreakdownCounts | agent.py:125-151 | panel 5 shows at most 10 (city) or 8 (category) bars and panel 6 at most 5 wedges, both descending, and the wedges are the first bars of panel 5 |
| Charts.BreakdownShown | agent.py:125-151 | with a breakdown column, panel 5 shows the top `k` of its value count and panel 6 the top 5 after re-sorting |
| Charts.BreakdownBlank | agent.py:123-151 | with neither `city` nor `category`, panels 5 and 6 show nothing |
| Charts.HeadOfHead | agent.py:126 | a shorter head of a count is a prefix of a longer one |
| Charts.GenderPieComplete | agent.py:99-100 | every gender in the column gets a wedge with its exact count, and no other wedge appears |
| Decimal.NatToString | po.py:17 | the digits of a natural number, never with a leading zero, and `0` only for zero |
| Decimal.IntToString | po.py:17 | the text is canonical (digits without a leading zero, or `-` and such digits other than `0`), starts with `-` exactly for negative numbers, and is `0` exactly for zero |
| Decimal.ParseInt | po.py:17 | a string of digits reads as the number it denotes |
| Decimal.NatRoundTrip | po.py:17 | reading the digits of `n` back gives `n` |
| Decimal.IntRoundTrip | po.py:17 | reading the text of any integer back, negative ones included, gives the integer |
| Decimal.NegativeRoundTrip | po.py:17 | a negative integer's text reads back as that integer |
| Decimal.ParseSigned | po.py:17 | `-` and digits read as the negated value |
| Decimal.ParseDigits | po.py:17 | a string of digits reads as its value |
| Decimal.IntToStringInjective | po.py:17 | different health values are shown differently |
| Decimal.CanonicalDigitsAreText | po.py:17 | digits without a leading zero are the text of the number they denote |
| Decimal.CanonicalIntIsText | po.py:17 | every canonical text reads back as an integer whose text it is, so the canonical texts are exactly the texts of integers |
| Combat.Po.constructor | po.py:3-6 | a new combatant has the given name, health 100 and attack strength 20 |
| Combat.Po.IsAlive | po.py:13-14 | a combatant is alive exactly when its health is positive, that is when its text is neither `0` nor negative |
| Combat.Po.Attack | po.py:8-10 | the target's health drops by exactly `damage`, where 0 <= damage <= attack strength, so it never rises; a defeated target stays defeated; names and strengths are unchanged; the attacker's health changes only when it attacks itself |
| Combat.Po.ToString | po.py:16-17 | the text is exactly the name, `: `, the decimal text of the health and ` HP`; its middle part is canonical and reads back as the health |
| Combat.SixBlows | po.py:8-14 | six full-strength blows take a fresh combatant to -20 health, not 0: health is not clamped, and the combatant is no longer alive |
| Combat.SelfAttack | po.py:8-10 | a combatant that attacks itself loses the damage from its own health |

## Left out

- Loading the CSV file and exiting when it is missing (agent.py:21-26): file I/O and process exit. A `Frame` is built from a given table.
- `pd.to_datetime` and `pd.to_numeric` (agent.py:38, 46) are library parsers. They are parameters `parseDate` and `parseNumber`: partial functions from a raw value to a day number or a real, with `None` for a value that does not parse. Parsing is modelled cell by cell; the whole-column dtype inference of pandas is not modelled.
- The clock (agent.py:58) is the parameter `today`, a day number. Dates are whole days, so sub-day timestamps and the rounding of `.dt.days` are not modelled.
- The RFM score (agent.py:62-71) uses floating-point arithmetic with `nanmin`/`nanmax`, an epsilon and rounding. The `monetary`, `frequency` and `rfm_score` columns therefore do not appear in the modelled table, and no chart panel reads them. The exceptions of that step are modelled: a duplicated `orders`, `annual_spend`, `monetary` or `frequency` label, and `nanmin` of an empty column. An existing single `monetary` or `frequency` column keeps its old cells in the model, although line 63 or 64 overwrites it. `nanmin` of a column of nulls only warns and is not an exception; `fillna(0)` removes the nulls there anyway.
- The group-by mean of panel 4 (agent.py:117) is floating-point averaging. The model says which columns the panel reads and when it is drawn, not the bar heights.
- All matplotlib rendering (agent.py:85-154): style, figure size, colours, titles, tick rotation, `tight_layout`, `show`.
- The `print` output of both files, including the attack message of po.py:11.
- p.py is a plotting wrapper with no logic of its own. p.py is not part of this model.
- The random draw of po.py:9 is the parameter `damage` of `Attack`. Its precondition is the draw's range. A negative `attack_power`, where `random.randint` raises, is excluded by that precondition; no code in the repository produces one.
- Labels.LowerChar: models the lowercase mappings of A-Z and of the two non-ASCII characters whose lowercase form contains a character of `[a-z0-9_]` (U+0130 and U+212A). Every other character is left as it is. This is exact for `Normalise`, because the filter then drops every remaining non-ASCII character, but weaker than `str.lower` for the intermediate string. The Unicode version is fixed at the one these tables come from.
- Charts.SortDescending: ties between equal counts keep their first-appearance order. pandas' `value_counts` and `sort_values` (default quicksort) do not promise any order among ties, so the model fixes one.
- Charts.Column: when a chart column's label is duplicated, pandas draws from a sub-frame. The model counts the first column with that label.
- Features.ParseDateColumn: the bare `except` around `pd.to_datetime` (agent.py:37-40) is modelled only for the duplicated-label failure. Any other exception of the library parser is not modelled, since the parser is a parameter.
- Features.RfmScore: a duplicated `monetary` or `frequency` always raises in the model. If `rfm_score` itself already labels as many columns as the two-dimensional score has, pandas may store the score instead of raising. That corner is not modelled.
