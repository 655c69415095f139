# Expense-ledger bot: a Dafny model of its pipeline

The bot takes chat messages of the form `name, category, amount`. It appends each accepted
entry as a row to a spreadsheet, adds up every row into per-person, per-category totals, and
replies with those totals as text. This project models that pipeline in `index.js`:

- the input parser `parseInput`;
- the sheet as an append-only sequence of rows, with `addRow` and `getRows`;
- the aggregation loop of `addEntryAndGetTotals`;
- the reply formatter `formatTotalsMessage`;
- `processMessage`, which chains the three.

Modules, one per file:

| module | file | contents |
|---|---|---|
| `Wrappers` | `wrappers.dfy` | `Option` and `Result` |
| `Text` | `text.dfy` | JavaScript `split` on one character and `trim`, with their laws |
| `Amount` | `amount.dfy` | amounts as whole cents or NaN: parsing with rounding to the cent (`parseFloat` plus `Math.round(x*100)/100`) and printing with `toFixed(2)` |
| `Parser` | `parser.dfy` | `parseInput` and its four errors |
| `Ledger` | `ledger.dfy` | rows and the sheet, a class whose `rows` field is appended to |
| `Totals` | `totals.dfy` | the nested totals object as association lists in key-insertion order, the aggregation loop, and the fold that specifies it |
| `Format` | `format.dfy` | the reply text, built by nested loops, and its line structure |
| `Pipeline` | `pipeline.dfy` | `addEntryAndGetTotals` and `processMessage` |

Amounts are modelled as `Num = Cents(int) | NaN`. The parser never lets NaN through. The
aggregator reads the amount cells of stored rows without checking them, so a NaN can reach a
total, and the model keeps it.

The model follows the code where a plain-language description of the bot differs from it:

- A category line starts with exactly one space (index.js:86).
- A stored amount cell that is not a number becomes NaN, not 0. The `|| 0` in
  `parseFloat(row._rawData[2] || 0)` replaces only a missing or empty cell, so any other
  non-numeric text parses to NaN and reaches the bucket. The bucket then prints `NaN`. The next
  row of that bucket restarts it from 0, because `!NaN` holds (index.js:70-73).

## Model

| member | source | states |
|---|---|---|
| Text.Split | index.js:45 | `text.split(',')` gives one piece more than there are commas. No piece holds a comma, and joining the pieces with commas gives the text back. |
| Text.SplitJoin | index.js:45 | Splitting comma-free pieces joined by commas gives exactly those pieces back. |
| Text.SplitAtSeparator | index.js:45 | Splitting at one occurrence of the separator splits each side on its own. |
| Text.Count | index.js:45-46 | The comma count is at most the length, and it is zero exactly when there is no comma. |
| Text.Trim | index.js:45 | `s.trim()` is a slice of `s` with only whitespace cut from either side. The result is never padded, is empty exactly when `s` is blank, and equals `s` when `s` is not padded. |
| Text.FirstNonBlank | index.js:45 | The leading whitespace ends at the returned index: every character before it is whitespace, and the character at it is not. |
| Text.EndNonBlank | index.js:45 | The trailing whitespace starts at the returned index: every character from it on is whitespace, and the one before it is not. |
| Text.TrimKeepsOut | index.js:45-47 | Trimming introduces no character, so a trimmed field keeps no comma. |
| Amount.RoundToCents | index.js:49 | `Math.round(v/10^k*100)` is the nearest whole cent, a tie going up. |
| Amount.Numeral | index.js:86 | The digits printed for a whole number denote that number, with no leading zero unless the number is 0. |
| Amount.Fixed | index.js:86 | The unsigned part of `toFixed(2)` starts with a digit, has no leading zero before its point other than a lone `0`, holds exactly two digits after its point, and holds only digits before that point. |
| Amount.ParseUnsignedFixed | index.js:49 | The unsigned text of `toFixed(2)` parses back to the signed amount. |
| Amount.FormatCents | index.js:86 | `toFixed(2)` prints an optional minus sign (exactly for negative amounts), a whole part with no leading zero other than a lone `0`, a point and exactly two digits. With `FormatThenParse` this fixes the text. |
| Amount.ParseCents | index.js:49 | `parseFloat` gives a number exactly for decimal text: leading whitespace, an optional sign, then digits with at most one point and at least one digit. Anything else gives NaN. |
| Amount.ParseUnsignedAccepts | index.js:49 | The text after the sign is read exactly when it is digits with at most one point and at least one digit. |
| Amount.NumTextHasNo | index.js:86 | `NumText`, which is `total.toFixed(2)` for a number or NaN, holds no line feed or other character outside a numeral or `NaN`. |
| Amount.FormatThenParse | index.js:49 | Parsing and rounding what `toFixed(2)` printed gives back the same amount in cents. |
| Parser.ParseInput | index.js:43-52 | Empty text is refused with `EmptyInput` and nothing else is. A comma count other than two is refused with `WrongFieldCount` and nothing else is. An accepted name and category are non-empty, comma-free and trimmed. |
| Parser.ParseFields | index.js:47-51 | The three trimmed parts are accepted exactly when none is empty and the amount parses. The entry then holds them. Otherwise the error is `MissingFields` for an empty part and `InvalidAmount` for the rest. |
| Parser.MissingFieldsExactly | index.js:47-48 | `MissingFields` is returned exactly for text with two commas and a blank part. |
| Parser.InvalidAmountExactly | index.js:49-50 | `InvalidAmount` is returned exactly for text with two commas, three non-blank parts and a trimmed last part that is not a number. An accepted amount is therefore never NaN. |
| Parser.ParsedFrom | index.js:45-51 | An accepted entry comes from three comma-free parts joined by commas. Its name and category are the first two parts trimmed, and its amount is the third part parsed and rounded. |
| Parser.ParseJoined | index.js:45-51 | Conversely, three such parts with a non-blank name and category and a numeric amount are accepted as that entry. |
| Parser.EntryTextRoundTrip | index.js:43-52 | An entry with valid fields, written as `name, category, amount` with `toFixed(2)`, parses back to itself. |
| Ledger.Sheet.constructor | index.js:61 | The sheet starts with the given rows. |
| Ledger.Sheet.AddRow | index.js:62 | `addRow` puts the row after every stored row and changes nothing else. |
| Ledger.Sheet.GetRows | index.js:64 | `getRows` returns every stored row in storage order. |
| Totals.FindPerson | index.js:71 | `totals[n]` exists exactly when `n` is one of the keys. |
| Totals.FindTotal | index.js:72 | `cats[c]` exists exactly when `c` is one of the keys. |
| Totals.AddPerson | index.js:71 | `if (!totals[n]) totals[n] = {}` adds an absent person last, with no categories. Every other person is unchanged. |
| Totals.SetCategory | index.js:72-73 | Assigning `cats[c]` gives `c` the value. An existing key keeps its place, a new key goes last, and the other categories keep their values. |
| Totals.SetTotal | index.js:72-73 | Assigning `totals[n][c]` changes only person `n`'s categories and no key of the outer object. |
| Totals.AggregateTotals | index.js:66-74 | The `forEach` loop builds exactly the fold `TotalsOf` of the rows. |
| Totals.TotalsOfPrefix | index.js:67 | The fold over one more row is one more step of the loop. |
| Totals.StepLookup | index.js:68-73 | `Step`, the body of the `forEach`: one row changes only the bucket of its own name and category. That bucket becomes its old value, or 0 if it was absent or falsy, plus the row's amount. |
| Totals.StepNames | index.js:71 | One row adds its name last when it is new, and otherwise leaves the names alone. |
| Totals.StepCategories | index.js:72 | One row adds its category last to its own person when it is new, and leaves every other person's categories alone. |
| Totals.BucketIsFold | index.js:66-74 | A bucket exists exactly for the name and category of some row. Its value is that bucket's amounts folded in row order. |
| Totals.BucketSnoc | index.js:67-73 | One more row extends its bucket's amounts, and the fold of them, by its amount. Every other bucket stays as it was. |
| Totals.FoldIsSum | index.js:72-73 | Folding numeric amounts is summing them. |
| Totals.BucketIsSum | index.js:66-74 | While no amount of a bucket is NaN, its total is the sum of the amounts of the rows under that name and category. A missing or empty amount cell counts 0 (index.js:70). A pair with no row has no bucket. |
| Totals.AmountsForEmpty | index.js:66-74 | A bucket has no amounts exactly when no row carries its name and category. |
| Totals.BucketPresent | index.js:66-74 | `totals[n][c]` exists exactly when some row carries name `n` and category `c`. |
| Totals.FoldEndingInNaN | index.js:70-73 | A NaN amount makes its bucket NaN. |
| Totals.FoldRestartsWhenFalsy | index.js:72 | Once a bucket is falsy (`Falsy`: 0 or NaN), the next amounts start it over. |
| Totals.NaNDiscardsEarlierAmounts | index.js:70-73 | After a NaN amount, a bucket holds only the amounts that come after it. |
| Totals.DistinctIsSet | index.js:71-72 | Keeping the first occurrences leaves no duplicates and the same elements. |
| Totals.NamesInFirstSeenOrder | index.js:66-71 | The people appear in the order their names are first seen in the rows. |
| Totals.CategoriesInFirstSeenOrder | index.js:68-72 | Each person's categories appear in the order first seen in that person's rows. |
| Totals.KeysAreUnique | index.js:71-72 | No name, and no category of one person, occurs twice. |
| Totals.EntryRowReadsBack | index.js:62-70 | The row `EntryRow` stores for an entry (name, date, amount, category) reads back through `NameOf` (cell 0), `CategoryOf` (cell 3) and `AmountOf` (cell 2) as the entry's name, category and amount. |
| Totals.AmountOfCell | index.js:70 | `AmountOf` reads a missing or empty amount cell as 0, the fallback to 0 in the source. Any other cell gives NaN exactly when it is not decimal text. |
| Totals.AccumulateNumber | index.js:72-73 | Adding a number to a numeric bucket gives the sum (`Plus`, JavaScript `+`). Adding it to an absent or NaN bucket gives the number. |
| Totals.MissingAmountAddsZero | index.js:70-73 | A row with a missing or empty amount cell leaves a numeric bucket at its value, and makes an absent or NaN bucket 0. |
| Totals.AppendRow | index.js:64-74 | Aggregating one more row is one more step of the loop, as `StepLookup` states. |
| Totals.AppendNumberRow | index.js:70-73 | Appending a row whose amount is a number adds it to that row's bucket. The bucket is created if absent and restarted if NaN. Every other bucket keeps its value. |
| Totals.AppendEntry | index.js:62-74 | Appending an entry and aggregating again adds exactly its amount to the bucket of its name and category. The bucket is created if absent and restarted if NaN. Every other bucket is unchanged. |
| Totals.AppendEntryNames | index.js:62-71 | Appending an entry adds its name last when it is new, and leaves the names alone otherwise. |
| Format.FormatTotalsMessage | index.js:81-90 | The nested loops build exactly the header line, then per person in key order the person's line, then the category lines in key order. Each line ends in a line feed. |
| Format.TerminatedAppend | index.js:82-88 | Appending lines appends their text. |
| Format.TerminatedSnoc | index.js:84-86 | One more line adds its text and a line feed at the end. |
| Format.AppendLine | index.js:84-86 | `msg +=` of one line's text and a line feed gives the text of the lines with that line added. |
| Format.CategoryLinesSnoc | index.js:85-86 | One more category adds its line at the end. |
| Format.BlockLineAt | index.js:83-88 | The lines of person `i`'s block come right after the header and the blocks of the earlier people. |
| Format.LinesSnoc | index.js:83-87 | One more person adds that person's line and category lines at the end. |
| Format.MessageStartsWithHeader | index.js:82 | Every reply starts with `Current spending totals:` and a line feed. |
| Format.CategoryLinesLength | index.js:85-86 | Each category gives exactly one line. |
| Format.BodyLineCount | index.js:83-88 | The lines after the header are one per person plus one per bucket. |
| Format.LineCount | index.js:81-89 | The reply has 1 + #people + #(person, category) lines. |
| Format.CategoryLineAt | index.js:85-86 | The `j`-th category line carries the `j`-th category and its total. |
| Format.BodyLinesPrefix | index.js:83-88 | The lines of the first people are a prefix of all the lines. |
| Format.LinePositions | index.js:83-88 | Person `i`'s line comes right after the header and the blocks of the earlier people. That person's `j`-th category line is `j+1` lines later. |
| Format.TerminatedIsJoin | index.js:82-88 | The lines' text, each followed by a line feed, is their text joined by line feeds, with an empty last piece. |
| Format.CategoryLinesSingle | index.js:86 | The category lines hold no line feed in their categories when the categories hold none. |
| Format.BodyLinesSingle | index.js:84-86 | No line holds a line feed when no name or category does. |
| Format.RenderSingle | index.js:84-86 | A line's text (`Render`: the header, `${person}:` or ` ${cat}: ${total.toFixed(2)}`) holds no line feed when its name or category holds none. |
| Format.RenderedLength | index.js:82-88 | There is one text per line. |
| Format.RenderedSingle | index.js:82-88 | No line's text holds a line feed when no line's name or category holds one. |
| Format.SplitMessage | index.js:82-88 | If no name or category holds a line feed, splitting the reply at line feeds gives back exactly the text of its lines, then an empty piece. |
| Format.FindPersonAt | index.js:83 | A person found by key is at some position of the table. |
| Format.FindTotalAt | index.js:85 | A category found by key is at some position of its person's entries. |
| Format.BucketHasLine | index.js:83-88 | Every bucket is reported: its person's line, and after it its category's line with the total. |
| Pipeline.AddEntryAndGetTotals | index.js:58-76 | The entry's row is appended after every stored row. The totals returned are those of all rows, the new one included. |
| Pipeline.ProcessMessage | index.js:95-100 | Text that does not parse yields the parser's error and leaves the sheet alone. Otherwise the entry is appended and the reply is the formatted totals of every row. |
| Pipeline.ReplyReportsEntry | index.js:95-99 | The reply to an accepted entry holds the entry's person line, and after it the line of its category with the new total. |

## Left out

- The Express server, both webhook handlers, their request-body extraction and their fixed error replies (index.js:1-10, 103-152). `Pipeline.ProcessMessage` returns the parser's error instead of a reply text.
- Credential decoding, JWT authentication, `loadInfo` and `sheetsByIndex` (index.js:14-26, 59-61). These are foreign library calls. The sheet is a sequence of rows in memory.
- A failing or concurrent spreadsheet call. `async`/`await` and network errors are not modelled, and the appended row is assumed to be the last row that `getRows` returns.
- The Telegram registration and `sendMessage` calls, and the Twilio TwiML building (index.js:29-31, 105-116, 129-138). These are network clients.
- The date from `new Date().toISOString()` (index.js:97). It reads the clock, so it is a parameter.
- Amount.ParseCents: it accepts only decimal text (leading whitespace, an optional sign, digits, at most one point, at least one digit, and nothing after them). `parseFloat` also reads the numeric prefix of longer text (`"12abc"`, or `" 5 "` with trailing whitespace), exponents and `Infinity`, and the model gives NaN for these. Its rounding is exact decimal rounding, not floating-point rounding.
- Floating-point sums. Totals are exact sums of cents. The limits of a JavaScript number are not modelled: the model keeps exact unbounded cents, whereas in the code cents beyond 2^53 lose precision, `toFixed(2)` of a value of 1e21 or more prints exponent form (`"1e+21"`), and a digit string beyond the range of a double makes `parseFloat` return `Infinity`, which the `isNaN` test at index.js:50 lets through. The binary rounding error of `+=` on doubles (index.js:73) is not modelled, and `toFixed(2)` on such a sum is taken to print the exact cents.
- The spreadsheet's display formatting of stored amounts. A stored amount is read back as the `toFixed(2)` text of the cents (`Ledger.EntryRow`). A sheet that shows currency symbols or thousands separators would read back differently.
- `Object.entries` listing integer-like keys (such as a person named `"7"`) before the other keys (index.js:83, 85). The model uses plain insertion order.
- Keys that collide with `Object.prototype` properties (index.js:71-73). The model treats every key as an own key of a plain object, and the code does not:
  - A category such as `constructor`, `toString` or `valueOf` reads the inherited function, which is truthy, so the bucket is not reset to 0. `+=` then stores the function's source text followed by the amount as a string. `total.toFixed(2)` on that string throws a TypeError (index.js:86), so every reply fails while such a row is in the sheet.
  - A name `__proto__` reads `Object.prototype` itself, so index.js:72-73 write the category onto `Object.prototype`. Every person object created afterwards inherits that value, and it is added into their bucket of that category. The pollution outlives the request and grows with each one.
- The conversion of a cell value other than a string to a property key. A missing cell becomes the key `"undefined"`, which the model keeps.
