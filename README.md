# expense-tracker, modelled in Dafny

A model of the command-line expense tracker `expense-tracker` (a single Node.js file,
`index.js`). The tracker keeps an ordered collection of expense records
`{id, description, amount, date}` in one JSON backing file and offers four commands:
`add` (check the options, build a record, append it, write the file back), `list`
(number the records from 1), `delete` (find the first record with the id, splice it
out, write only if it was found) and `summary` (reduce over the records, adding the
amount of each record whose month segment, the second `-`-separated piece of its date,
equals the requested month text exactly).

Layout:

- `wrappers.dfy` — module `Wrappers`: `Option`, used for optional command-line options
  and for JavaScript's `undefined`.
- `text.dfy` — module `Text`: `split` on a one-character separator and its inverse
  `Join`, with the round trip and the "first piece is the prefix before the first
  separator" fact.
- `expenses.dfy` — module `Expenses`: the `Expense` record, the collection invariants
  (unique ids, no negative amount), the date cut from the ISO timestamp, the
  `findIndex` search loop, the reference definition of delete (`RemoveFirst`) and its
  splice form, the summary reduction and its closed form (the sum of exactly the
  records in the month), and the numbered list rows.
- `tracker.dfy` — module `Tracker`: the backing file as a value (`Missing`, `Blank`,
  `Malformed` or `Records`) inside a class `ExpenseStore` whose `Add` and `Delete`
  methods update it in place and count the writes, and whose `List` and `Summary`
  functions read it.

What the model makes explicit about the code:

- `add` is lenient about the file: missing, blank or unparseable content all start from
  the empty collection, so such a file ends up holding exactly the one new record.
  `delete` and `summary` report "No expenses found." only for a missing file, and
  `list` reports it for a missing file or a file holding no records. All three fail on
  blank or unparseable content, because they call `JSON.parse` without a recovery
  branch.
- The month comparison is `===` between two values that are each text or `undefined`.
  The text `"8"` never matches a stored `"08"` (`UnpaddedMonthMatchesNothing`,
  `AugustScenario`). Without `--month`, the comparison is `undefined === undefined` for
  a record whose date has no `-`, so such a record *is* counted, under the property name
  `"undefined"`; the summary stays empty only when every date has a `-`, as every date
  cut from an ISO timestamp does (`SummarizeWithoutMonth`).
- `acc[month] || 0` starts an entry at 0, so the month's key is present exactly when at
  least one record is in the month, even when the amounts add up to 0.

## Model

| member | source | states |
|---|---|---|
| `Text.Split` | index.js:131 | `split` on a one-character separator (also the `split('T')` of line 46): the pieces between separators, in order, always at least one |
| `Expenses.MonthSegment` | index.js:131 | `date.split('-')[1]`: the second piece, or `undefined` (`None`) when there is none |
| `Expenses.InMonth` | index.js:132 | the `expenseMonth === month` test, as equality of two optional texts |
| `Expenses.KeyOf` | index.js:133 | the property name `acc[month]` uses, and `summary[month]` on line 139 reads; a missing month becomes the key "undefined" |
| `Expenses.EntryOrZero` | index.js:133 | the `acc[month]` or-0 default: the entry under the key, or 0 when there is none |
| `Expenses.Step` | index.js:131-135 | one reduce step: a record in the month adds its amount to the month's entry, others leave the accumulator alone |
| `Expenses.Reduce` | index.js:130-136 | the steps applied to the records in storage order |
| `Expenses.Summarize` | index.js:130-136 | the reduction started from the empty object |
| `Expenses.RemoveFirst` | index.js:101-105 | reference definition of delete: drop the first record with the id, keep the rest in order |
| `Tracker.RequiredMissing` | index.js:25 | the required-option test: the description is absent or empty, or the amount is absent or empty |
| `Text.SplitPieces` | index.js:131 | the pieces of `split` hold no separator, join back to the input, and are more than one exactly when the input holds the separator |
| `Text.SplitWithoutSeparator` | index.js:131 | text without the separator splits into itself alone |
| `Text.SplitAfterPiece` | index.js:131 | a separator-free piece followed by the separator comes off the front of the split intact |
| `Text.SplitJoin` | index.js:131 | splitting joined separator-free pieces gives the same pieces back |
| `Text.FirstPiece` | index.js:46 | `split(sep)[0]` is the prefix of the text up to, and not including, the first separator (or all of it) |
| `Expenses.DateOf` | index.js:46 | the record's date is the prefix of the ISO timestamp before its first `T` |
| `Expenses.DateOfIsoTimestamp` | index.js:46 | for a timestamp `Y-M-DThh:mm...` the date is `Y-M-D` |
| `Expenses.AppendKeepsValid` | index.js:47-53 | appending the record `add` builds, with a new id and a non-negative amount, keeps ids unique and amounts non-negative |
| `Expenses.FindIndex` | index.js:101 | returns -1 exactly when no record has the id, otherwise the index of the first record with it (`FirstIndex`) |
| `Expenses.FirstIndex` | index.js:101 | when some record has the id, the position of the first record with it |
| `Expenses.RemoveFirstAbsent` | index.js:101-103 | deleting an id no record has leaves the collection unchanged |
| `Expenses.RemoveFirstAt` | index.js:101-105 | when the first record with the id is at `k`, delete equals `splice(k, 1)`: the records before `k` then those after it |
| `Expenses.RemoveFirstPresent` | index.js:101-105 | when some record has the id, delete is `splice` at the first such record: the records before it, then those after it |
| `Expenses.SpliceEffect` | index.js:105 | `splice(k, 1)` makes the collection one shorter, keeps the records before `k` in place, moves those after down by one, and loses only the record at `k` |
| `Expenses.SpliceKeepsValid` | index.js:105 | `splice(k, 1)` keeps ids unique and amounts non-negative, and no record with the removed id remains |
| `Expenses.DeleteKeepsValid` | index.js:101-105 | deleting keeps a valid collection valid, and with unique ids no record with the deleted id remains |
| `Expenses.MonthSegmentOfDate` | index.js:131 | the month segment of `Y-M-D` is `M` exactly as written, padding included |
| `Expenses.MonthSegmentAbsent` | index.js:131 | `date.split('-')[1]` is `undefined` exactly when the date has no `-` |
| `Expenses.InMonthRecordsMembers` | index.js:132 | the filter keeps a record exactly when its month segment equals the month |
| `Expenses.StepInMonth` | index.js:132-133 | a step on a record in the month adds its amount to the month's entry, starting from 0 |
| `Expenses.NoneInMonth` | index.js:132 | when no record's month segment equals the month, no record is kept |
| `Expenses.ReduceTotals` | index.js:130-136 | the reduction leaves an accumulator untouched when nothing matches, and otherwise grows the month's one key by the sum of the matching amounts |
| `Expenses.SummarizeTotals` | index.js:130-136 | the summary is `{}` when no record is in the month, and otherwise has the month's key only, holding the sum of exactly the matching amounts |
| `Expenses.SummarizeWithoutMonth` | index.js:121-136 | without a month, the summary is empty when every date has a `-` |
| `Expenses.UnpaddedMonthMatchesNothing` | index.js:131-132 | asking for `"8"` finds nothing when every month segment is the zero-padded `"08"` |
| `Expenses.AugustScenario` | index.js:130-136 | one expense of 50 dated 2024-08-15 gives `{"08": 50}` for month `"08"` and `{}` for month `"8"` |
| `Expenses.RowsFrom` | index.js:78-79 | one row per record, in order, the i-th numbered `first + i` and carrying the record's date, description and amount |
| `Expenses.ListRows` | index.js:77-80 | the list has one row per record, in storage order, numbered from 1 |
| `Tracker.ExpenseStore.Add` | index.js:23-61 | rejects a missing or empty description or amount, then a negative amount, without touching the file; otherwise appends the record with the given id, the amount and the timestamp's date to the file's records, or makes it the only record when the file was missing, blank or unparseable, and writes once |
| `Tracker.ExpenseStore.Delete` | index.js:93-113 | no file: nothing found; unparseable file: failure; otherwise not found (no write) exactly when no record has the id, else the collection becomes `RemoveFirst` of it and is written once |
| `Tracker.ExpenseStore.List` | index.js:64-86 | nothing to list for a missing file or empty collection, failure for unparseable content, otherwise rows numbered from 1 matching the records |
| `Tracker.ExpenseStore.Summary` | index.js:118-145 | no file: nothing; unparseable content: failure; otherwise the summary is `{}` when nothing matched and otherwise holds just the month's key; the printed total is the sum of the matching amounts, or `undefined` when nothing matched (for a month that names no inherited property of a JavaScript object) |

## Left out

- File I/O (`existsSync`, `readFileSync`, `writeFileSync`, the fixed path next to the
  program): the backing file is the `content` value of `ExpenseStore`, and a write is
  the assignment to it plus one on `writes`. A write or read that throws an I/O error
  (caught, printed, exit status 1) is not modelled.
- JSON parsing and pretty-printing: they belong to a library outside the tracker.
  Content that does not parse is `Malformed`; JSON that parses to something other than
  an array of well-formed records (which can make `push`, `findIndex` or `date.split`
  throw, or make `list` print `undefined` fields) is not modelled.
- `uuidv4()` and `new Date().toISOString()` are the parameters `id` and `timestamp` of
  `Add`; that the generated id is new in the collection is an assumption of
  `AppendKeepsValid`, not something the tracker ensures.
- Command-line parsing with `commander`, the printed messages and the exit codes: each
  handler's outcome datatype names the message or failure instead.
- Tracker.ExpenseStore.Add: the amount option is modelled as an already numeric
  `Option<real>` (`None` for a missing or empty option), so JavaScript's coercion of
  the text in `amount < 0`, `parseFloat` of non-numeric text (`NaN`) and floating-point
  rounding of amounts and sums are not modelled. Because of that coercion the tracker
  does not guarantee non-negative amounts even for the records it builds: for
  `--amount -5abc`, `Number("-5abc")` is `NaN`, `NaN < 0` is false, and `parseFloat`
  stores -5. The `amount >= 0.0` that `AppendKeepsValid` assumes holds only for amount
  text that is a plain number.
- Tracker.ExpenseStore.Summary: the accumulator is a map that holds only its own keys.
  The JavaScript `{}` also inherits the properties of `Object.prototype`, so for a month
  such as `constructor`, `toString`, `valueOf` or `__proto__` the printed total is an
  inherited function rather than `undefined`, and `acc[month] || 0` starts from that
  inherited value rather than 0. Such months are not modelled.
- Tracker.ExpenseStore.List: the row text (tabs, the `$` suffix, the header line) is
  console formatting and is not modelled; the rows carry the fields it prints.
- Concurrent invocations racing on the file: the code does no locking, so there is no
  property to state.
