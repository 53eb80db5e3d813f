# FieldSurvey Re-Checker: record-management core in Dafny

The survey tool keeps a list of beneficiary re-verification records in the
browser. Each record says whether a beneficiary was found Eligible or
Ineligible, where, and which officer signed off. The tool has two screens.
The dashboard shows counts, a two-slice chart with percentage labels, a CSV
export button and an "Add New Record" button. The entry form is pre-filled with
the next serial number and either saves a record or cancels.

This project models the logic behind those screens, all of it in `App.tsx`,
over the types in `types.ts`:

- `Types`: the two-valued `ValidationStatus`, the `BeneficiaryRecord`, and the
  form's payload `RecordInput`, which is a record without `id` and `timestamp`.
  `WithIdentity` is the spread `{...data, id, timestamp}`.
- `AppState.App` is a class with the component's state: `view`, `records`, and
  `storage`, the `beneficiary_records` storage entry. `HandleSave` puts the new
  record in front of the collection, persists it and returns to the dashboard.
  `OpenForm` and `Cancel` switch screens. `ExportCsv` builds the CSV lines in a
  loop, as the source does. `Step` is the two-screen state machine.
- `Dashboard`: the stats (`filter(...).length` counts) and the percentage labels.
- `Serial`: `String(records.length + 1).padStart(3, '0')`.
- `Csv`: the export text. It has a 14-column header line and one line per
  record, and the lines are joined with `'\n'`. It also has a reader that splits
  a line at commas outside double quotes. The reader states what a line means:
  a line reads back as the record's 14 values as long as no unquoted value holds
  a comma or a quote and the remarks hold no double quote.
- `Strings`: the JavaScript built-ins used above (`String(n)`, `padStart`,
  `join`). `String(n)` and `join` come with their inverses (reading a digit
  string back as a number, and `split`), with round-trip lemmas in both
  directions. `String(i)` for a signed integer states that its digits spell the
  magnitude.

Some inputs are parameters. The new record's `id` (`Math.random`) and
`timestamp` (`Date.now`) are method parameters. So is the seed record's
timestamp. The locale date-time formatter `new Date(t).toLocaleString()` is an
uninterpreted parameter `formatTime: int -> string`.

Where the code behaves differently from what its screens and comments suggest,
the model follows the code:

- A coordinate of 0 is exported as an empty value, not only an absent one,
  because `row.latitude || ''` treats 0 as false.
- A stored entry is used whenever it is a non-empty string. The code does not
  catch a `JSON.parse` error, so a corrupt entry does not fall back to the seed
  record. The model's storage holds records, not text (see Left out).
- The remarks are put between double quotes, but a double quote inside them is
  not escaped. Remarks such as `a"b,c` end the quoted value early, split at
  their comma, and run the rest of the line into one value, so the line reads
  back as 9 values instead of 14 (`Csv.RemarksQuoteMergesColumns`).
- The two percentage labels do not always add up to 100. Both round half up, so
  1 of 8 records gives 13% and 88% (`Dashboard.LabelsCanSumTo101`).

## Model

| member | source | states |
|---|---|---|
| Types.WithIdentity | App.tsx:41-45 | the new record carries exactly the given id and timestamp, and dropping them gives back the form's fields unchanged |
| AppState.App.HandleSave | App.tsx:40-48 | called from the form, the only screen that offers save: the collection becomes the new record followed by the previous collection, unchanged; storage holds the new collection; the view is the dashboard, the step `Step` gives for saving |
| AppState.App.OpenForm | App.tsx:156-157 | called from the dashboard, the only screen with "Add New Record": shows the form, the step `Step` gives, and changes nothing else |
| AppState.App.Cancel | App.tsx:244 | called from the form, the only screen that offers cancel: shows the dashboard, the step `Step` gives, and changes nothing else |
| AppState.SeedRecord | App.tsx:18-32 | the seed is an Eligible record with id "1", stamped with the start-up time, with no coordinates, remarks or image, and its serial number is the one the form offers for an empty collection ("001") |
| AppState.App.constructor | App.tsx:10-38 | start on the dashboard with the stored collection, or only the seed record when storage is empty; the collection is then persisted |
| AppState.Reload | App.tsx:13-17 | a fresh start from what the app persisted restores the same collection |
| AppState.Step | App.tsx:140-247 | a control is usable only on its own screen ("Add New Record" on the dashboard, save and cancel on the form), and every step moves to the other screen |
| AppState.App.ExportCsv | App.tsx:50-90 | the loop that pushes one comma-joined line per record after the header and joins the lines with newlines produces exactly the export text `Csv.Text` of the collection |
| Dashboard.Filter | App.tsx:104-105 | filtering keeps exactly the records with the given status: each kept record is in the collection and has that status, and each such record is kept |
| Dashboard.FilterConcat | App.tsx:104-105 | filtering a concatenation is the concatenation of the filtered parts |
| Dashboard.PartitionCount | App.tsx:104-105 | since the status has two values, eligible and ineligible counts add up to the record count |
| Dashboard.ComputeStats | App.tsx:101-107 | total is the record count and eligible plus ineligible equals total, so each count is at most total and an empty collection gives all zeros |
| Dashboard.PrependStats | App.tsx:104-105 | saving a record raises total and the count of its own status by one and leaves the other count unchanged |
| Dashboard.StatsOfConcat | App.tsx:101-107 | the counts of a concatenated collection are the sums of the parts' counts |
| Dashboard.Percentage | App.tsx:230 | 0 when total is 0; otherwise the integer within one half of 100·count/total, with halves rounded up |
| Dashboard.PercentageUnique | App.tsx:230 | no other integer lies within one half of the exact percentage, so the label is determined |
| Dashboard.PercentageAtMostHundred | App.tsx:230-234 | a count no larger than the total gives a label in [0, 100] |
| Dashboard.LabelsInRange | App.tsx:227-236 | both chart labels lie in [0, 100] for every collection |
| Dashboard.LabelsSum | App.tsx:230-234 | with at least one record, the Eligible and Ineligible labels add up to 100 or 101 |
| Dashboard.LabelsCanSumTo101 | App.tsx:230-234 | 1 eligible record out of 8 gives labels adding up to 101 |
| Serial.NextSerialNumber | App.tsx:110 | the serial number is all digits and exactly 3 characters long when the count plus one has fewer than 3 digits, otherwise exactly as long as its decimal text |
| Serial.SerialStripsToDecimal | App.tsx:110 | removing leading zeros from the serial number gives the decimal text of the record count plus one |
| Serial.SerialValue | App.tsx:110 | read as a number, the serial number is the record count plus one |
| Serial.SerialNoTruncation | App.tsx:110 | once the count plus one has three or more digits, the serial number is its decimal text, never shortened |
| Serial.SerialPaddedExamples | App.tsx:110 | 0, 4 and 9 records give "001", "005" and "010" |
| Serial.SerialWideExample | App.tsx:110 | 999 records give "1000" |
| Strings.NatToDecimal | App.tsx:110 | `String(n)` is a non-empty digit string whose first digit is 0 only for n = 0 |
| Strings.DecimalValueOfDecimal | App.tsx:110 | reading `String(n)` back as a number gives n |
| Strings.DecimalOfDecimalValue | App.tsx:110 | a digit string without a superfluous leading zero is `String` of its value |
| Strings.PadStart | App.tsx:110 | `padStart` keeps the text as its suffix, fills only in front, and reaches the width without ever truncating |
| Strings.IntToDecimal | App.tsx:80-81 | an integer's text is a minus sign exactly for negative numbers, followed by a digit string that reads back as the magnitude and starts with 0 only for 0 |
| Strings.Join | App.tsx:87-90 | `join` puts the separator between neighbouring parts; `SplitOnJoin` and `JoinSplitOn` state it is undone by `split` and undoes it, `NotInJoin` that it adds no character beyond the parts and the separator |
| Strings.SplitOnJoin | App.tsx:90 | splitting a newline-joined text at newlines gives back the lines, when no line holds a newline |
| Strings.JoinSplitOn | App.tsx:90 | joining the pieces of a split text with the separator gives back the text |
| Csv.Coordinate | App.tsx:80-81 | a coordinate is written empty exactly when it is absent or 0, and otherwise exactly as `String(n)` of its value (`IntToDecimal`) |
| Types.StatusText | types.ts:1-4 | a status is written as its enum string, which holds no comma, quote or newline, so it always goes into a CSV line as it is |
| Csv.HeaderLine | App.tsx:51-68 | the 14 column names joined by commas; `HeaderFields` states it reads back as those names, `HeaderLineSingleLine` that it holds no newline |
| Csv.Row | App.tsx:71-87 | a record's 14 values joined by commas; `RowFields` states it reads back as those values, with the quoted remarks in column 8, when no unquoted value holds a comma or a quote and the remarks hold no double quote; `RowSingleLine` that it is one line when no value holds a newline |
| Csv.Text | App.tsx:68-90 | the header line, then one line per record, joined by newlines; `TextStartsWithHeader` states that the header comes first, and `TextLines` that, when no value holds a newline, there are exactly as many lines more as records |
| Csv.Lines | App.tsx:68-88 | the `csvRows` array: the header line, then the line pushed for each record; `LinesShape` states the header is at index 0 and record k's line at index k + 1, `LinesSnoc` that one more record appends exactly its line |
| Csv.Rows | App.tsx:71-88 | one line per record, in collection order: record k's line is `Row` of record k; `RowsSnoc` states one more record appends exactly its line |
| Csv.LinesShape | App.tsx:68-88 | the export's lines are as many as the records plus one, the header first and record k's line at index k + 1 |
| Csv.LinesSnoc | App.tsx:71-88 | pushing one more record's line onto the lines of a prefix of the collection gives the lines of the longer prefix |
| Csv.Quoted | App.tsx:79 | the remarks value is the remarks between two double quotes, also when empty |
| Csv.RowValues | App.tsx:71-86 | a record's line has one value per header column |
| Csv.HeaderFields | App.tsx:51-68 | the header line reads back as the 14 fixed column names |
| Csv.SplitFieldsOfJoin | App.tsx:87 | a comma-joined line of values without stray commas or quotes reads back as those values |
| Csv.UnquotedCommaAddsColumn | App.tsx:71-87 | a comma inside an unquoted value makes the line read back with one column too many |
| Csv.RowFields | App.tsx:71-87 | when the unquoted values hold no comma or quote and the remarks hold no double quote, a record's line reads back as exactly its 14 values in header order, with the remarks column being the quoted remarks, commas included |
| Csv.TimestampCommaAddsColumn | App.tsx:85-87 | a formatted timestamp containing a comma makes the record's line read back as 15 columns |
| Csv.RemarksQuoteMergesColumns | App.tsx:79-87 | remarks `a"b,c` (a double quote, then a comma) make the record's line read back as 9 columns, with column 8 ending at the remarks' comma |
| Csv.TextStartsWithHeader | App.tsx:68-90 | whatever the records hold, the export's first line is the header line, and with no records the export is the header line alone |
| Csv.TextLines | App.tsx:68-90 | when no value holds a newline, the export has exactly one line more than there are records: the header, then each record's line in collection order |

## Left out

- The JSX layout, styling, icons and the Recharts pie chart (App.tsx:118-251) are presentation only. Only which screen shows which control is kept, in `AppState.Step`.
- Browser storage and JSON. The storage entry holds the records themselves, so `JSON.stringify` followed by `JSON.parse` is taken to give the records back exactly. A stored text that does not parse throws in the source, because the source does not catch the error; the model has no such text. An entry holding the empty string counts as absent, as `if (saved)` treats it.
- The download plumbing (App.tsx:91-98) is browser I/O with no logic to verify: `Blob`, the object URL, the link element and its click, and the `beneficiary_data_<date>.csv` file name.
- `Math.random`, `Date.now` and `toLocaleString` are parameters, not computations, because they are random, clock-dependent or locale-dependent.
- Dashboard.Percentage: rounds the exact ratio, because the model has no floating point. The source rounds the floating-point product `(count / total) * 100`, which can land just below a .5 tie. For 29 of 200 the product can come out as 14.499999999999998, which `Math.round` turns into 14 where the model gives 15.
- Csv.Coordinate: models coordinates as integers and writes `String(n)` for them. Fractional coordinates, `NaN` (also falsy, hence empty) and the exponent form JavaScript uses for very large numbers are not modelled.
- Strings.PadStart: takes a single fill character. That is the only way the source calls it; `padStart`'s repetition of longer fill strings is not modelled.
- The spread `{...data, ...}` would also copy extra properties present at run time. `RecordInput` has exactly the declared fields.
- React's batching of state updates and the `useMemo` cache of the stats are left out. The handlers assign their fields at once, and the stats are a function of the current collection.
- The `Stats` interface (types.ts:30-34) is `Dashboard.Stats`. `imageUrl` is carried through a save but never exported, as in the source.
- The `EntryForm`, `RecordList` and `StatsCard` components are not part of this model, so the form's field validation is not modelled. `vite.config.ts` holds only build configuration.
