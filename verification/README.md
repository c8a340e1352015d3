# merge-sc-monthlyp, modelled in Dafny

The `merge_sc_monthlyp` handler takes an uploaded workbook and cross-references two
of its sheets. "Sheet1" is a reference table of codes and monthly premiums
("월초P(KRW)"). "Rival" is a comparison sheet laid out as person blocks. Each block
starts at a row mentioning "본부" (headquarters) and ends at a row mentioning "Total".
The handler walks "Rival" row by row and keeps a buffer of the codes it collects. At
each "Total" row it looks up the first buffered code. If the code is known, it writes
that code's premium into the row's "Total" cell.

This project models that core as pure functions over already-parsed sheets:

- `wrappers.dfy` (`Wrappers`): `Option` and `Result`.
- `text.dfy` (`Text`): `strip()`, `isdigit()` and the `in` substring test on cell strings.
- `reference.dfy` (`Reference`): the drop of incomplete Sheet1 rows and the code → premium
  dictionary (later rows win).
- `rival_scan.dfy` (`RivalScan`): the scan state (buffer, counter, output rows), one loop
  iteration `Step`, and the whole loop `Scan`.
- `scan_properties.dfy` (`ScanProperties`): what the scan guarantees. This covers row shape,
  which code supplies a written premium, what the buffer holds between rows, prefix stability,
  and silent skipping of unknown codes.
- `handler.dfy` (`Handler`): the sheet-presence guard and the composition of the steps, plus
  the loop written imperatively (`RunScan`, `ProcessRow`, `WriteFirstTotal`) and proved equal
  to the functional scan.

Modelling choices:

- A sheet comes in two views. `keyed` is the Code / 월초P(KRW) pair of each Sheet1 row, with
  `None` for an empty cell and codes already in string form. `cells` is each row's cells as
  strings, with blanks read as "". The header row is not part of `cells`, because the reader
  uses it as column labels.
- Premiums have an opaque type `V`. Output cells are `Str(text)` for untouched cells and
  `Val(v)` for a written premium.
- Scan decisions read the input rows only. Writes go to a separate output, as the source reads
  the filled copy and writes to the original frame.

## Model

| member | source | states |
|---|---|---|
| Handler.MergeMonthlyP | main.py:24-59 | the result is the error "Sheet1 또는 Rival 시트가 존재하지 않습니다." exactly when either sheet is absent, and then no table is produced; otherwise the Sheet1 output is the Code/premium pairs of the complete Sheet1 rows, in order, the Rival output is the row scan over Rival with the map built from Sheet1 and has one row per input row, and the counter equals the number of written rows and never exceeds the row count |
| Handler.MergedRow | main.py:31-58 | each output row of Rival is either its input row, or its input row with only the leftmost exact "Total" cell replaced by the Sheet1 premium of the first code collected since the last reset. The start row is pinned: no "본부" row and no consuming "Total" row lies between it and the row, and every earlier start that would add codes is cut off by such a reset. Conversely, a row with an exact "Total" cell whose pending codes start with a code known to Sheet1 is always written |
| Handler.WriteFirstTotal | main.py:54-58 | the premium is written iff some cell trims to exactly "Total", and then only into the leftmost such cell; otherwise the row is unchanged |
| Handler.ProcessRow | main.py:41-59 | the imperative loop body (reset, collect, look up, write, clear) yields exactly one step of the functional scan |
| Handler.RunScan | main.py:36-59 | the imperative loop from an empty buffer and a zero counter yields the functional scan's output and counter, with one output row per input row |
| Reference.DropIncomplete | main.py:31 | never yields more entries than Sheet1 has rows; which entries survive is stated by `Reference.DropIncompleteMembers` |
| Reference.ToDict | main.py:33 | the dictionary has at most one key per entry; which premium a key holds is stated by `Reference.ToDictLastWins` |
| Reference.BuildReferenceMap | main.py:31-33 | the map has at most one key per Sheet1 row; its keys and values are stated by `Reference.ReferenceMapKeys` and `Reference.ReferenceMapLastWins` |
| Reference.DropIncompleteMembers | main.py:31 | an entry survives the drop exactly when some Sheet1 row carries both its code and its premium |
| Reference.ToDictLastWins | main.py:33 | in the dictionary built from the entries, a code maps to the premium of its last entry |
| Reference.ReferenceMapKeys | main.py:31-33 | a code is a key of the reference map exactly when some row with both a code and a premium carries it |
| Reference.ReferenceMapLastWins | main.py:31-33 | for a repeated code, the map holds the premium of the last complete row with that code |
| Text.Trim | main.py:48 | `strip()` never lengthens a cell; what it removes is stated by `Text.TrimFacts` |
| Text.IsDigits | main.py:48 | `isdigit()` holds exactly when the text is non-empty and every character is '0'-'9', and such a text has no whitespace to strip |
| Text.AllDigitsIff | main.py:48 | the left-to-right digit check agrees with "every character is a digit" |
| Text.Contains | main.py:43-51 | a match needs the text to be at least as long as the marker, and the empty marker is always found; the positional meaning is stated by `Text.ContainsIff` |
| Text.TrimFacts | main.py:48 | `strip()` leaves no whitespace at either end, removes only whitespace around a contiguous slice, and maps an all-whitespace cell to "" |
| Text.TrimUnpads | main.py:48 | any stripped text padded with whitespace strips back to that text |
| Text.TrimIdempotent | main.py:48 | stripping twice is stripping once |
| Text.ContainsIff | main.py:43 | the substring test holds exactly when the text occurs at some position |
| RivalScan.AnyCellContains | main.py:43-51 | a row with no cells never matches, and the empty marker matches exactly the non-empty rows; the existential meaning is stated by `RivalScan.AnyCellContainsIff` |
| RivalScan.DigitCodes | main.py:47-49 | a row yields at most one code per cell; which codes, in which order, is stated by `ScanProperties.DigitCodesMembers`, `ScanProperties.DigitCodesAppend` and `ScanProperties.DigitCodesHead` |
| RivalScan.Collect | main.py:43-49 | without a "본부" cell the buffer keeps its old codes as a prefix and grows by at most one code per cell; with one, the result holds at most one code per cell of this row. The buffer's content over the whole scan is stated by `ScanProperties.BufferIsPending` |
| RivalScan.Flushes | main.py:51 | a row consumes the buffer when it mentions "Total" and codes are pending; the ensures unfolds this into the row's own digit cells and, without a "본부" cell, the older buffer. The meaning over the whole sheet is stated by `ScanProperties.FlushesIff` |
| RivalScan.AnyCellContainsIff | main.py:43 | "some cell of the row contains the marker" as a search agrees with the existential reading |
| RivalScan.FindTotal | main.py:54-58 | the column found is the leftmost whose trimmed text is exactly "Total"; none is found only when no such cell exists |
| RivalScan.Step | main.py:41-59 | one iteration appends one output row of the input row's length, leaves earlier output alone, raises the counter by one exactly when the row gets a written cell, and changes no cell that does not trim to "Total" |
| RivalScan.Scan | main.py:36-59 | the loop produces one output row per input row, and its counter equals the number of written rows |
| ScanProperties.DigitCodesAppend | main.py:47-49 | codes are collected left to right: collecting over two adjoining parts of a row concatenates their codes |
| ScanProperties.DigitCodesMembers | main.py:47-49 | a code is collected from a row exactly when some cell trims to it and it is made of digits only |
| ScanProperties.DigitCodesHead | main.py:47-49 | the first code collected from a row is the leftmost all-digit cell, trimmed |
| ScanProperties.HeadquartersResets | main.py:43-44 | on a "본부" row, the previously buffered codes make no difference |
| ScanProperties.FlushEmptiesBuffer | main.py:51-59 | a "Total" row with pending codes always empties the buffer, and with an unknown first code leaves the row and the counter unchanged |
| ScanProperties.TotalCellMentionsTotal | main.py:51-55 | a row with an exact "Total" cell always passes the "mentions Total" test |
| ScanProperties.ScanPrefixStable | main.py:36-40 | scanning more rows never changes output rows already produced and never lowers the counter |
| ScanProperties.ScanBufferIsBuffer | main.py:43-53 | the buffer evolves the same way whatever the reference map holds, so lookups never influence later decisions |
| ScanProperties.BufferIsPending | main.py:38-59 | between rows, the buffer holds exactly the digit codes, in row-major order, of the rows since the last reset point, and no reset lies between |
| ScanProperties.WrittenValueIsFirstPending | main.py:51-56 | a written row holds, in its leftmost exact "Total" cell, the premium of the first code collected since the last reset; the start row satisfies `PendingStart`, so no earlier start that adds codes is still pending |
| ScanProperties.FlushesIff | main.py:38-59 | row `i` consumes the buffer exactly when it mentions "Total" and some code has been collected since its `PendingStart` row, that is, since the last "본부" row or consuming "Total" row |
| ScanProperties.KnownPendingIsWritten | main.py:51-57 | the converse of `WrittenValueIsFirstPending`: a row with an exact "Total" cell, whose codes pending since a `PendingStart` start row are non-empty and begin with a key of the map, is a written row |
| ScanProperties.CollectIsPendingRun | main.py:38-49 | after row `i` is collected, the buffer is the row-major digit codes from the computed reset point through row `i`, and that reset point satisfies `PendingStart` |
| ScanProperties.PendingStartUnique | main.py:38-53 | any two start rows that are pending up to row `i` and earliest in that sense see the same codes, so the start pins the value that `codes[0]` reads |
| ScanProperties.ScanRowShape | main.py:54-58 | at most one cell per row changes: an output row equals its input row, or differs only in the leftmost exact "Total" cell, which holds a premium from the map |
| ScanProperties.NoKnownCodeLeavesSheet | main.py:53 | when no collected code is known, the output equals the input, the counter stays 0, and no known code is pending |

## Left out

- The FastAPI endpoint, upload handling, temporary paths built with `uuid4`, `shutil.copyfileobj`,
  `FileResponse`, background tasks and `cleanup_files` (main.py:10-19, 66-83). These are I/O and
  framework plumbing.
- Excel reading and writing (`pd.read_excel`, `ExcelWriter`, `to_excel`, main.py:23, 62-64). The
  workbook arrives already parsed as a map from sheet name to `Sheet`.
- How pandas turns values into strings: `astype(str)` of a float code ("101.0"), and NaN before
  `fillna` (main.py:32, 36, 41). Codes and cells arrive as strings. Unwritten output cells keep
  the input text, so a blank cell appears as "" where the source writes back the original empty
  cell.
- The numeric type of 월초P values. They are an opaque type `V`.
- The generic `except Exception` branch (main.py:76-77). This includes the `KeyError` raised when
  Sheet1 lacks the "Code" or "월초P(KRW)" column. Such an error has no stateable result beyond
  "some message".
- The other Sheet1 columns. The source writes back the whole filtered Sheet1 frame (main.py:63);
  the model's Sheet1 output holds only the Code / 월초P(KRW) pair of each kept row, because only
  those two columns take part in the computation.
- Text.TrimFacts: whitespace is only the ten ASCII characters Python counts as whitespace (space,
  `\t`, `\n`, `\v`, `\f`, `\r` and `\x1c`-`\x1f`), and digits are only '0'-'9'. Python's `strip()`
  and `isdigit()` also accept non-ASCII whitespace (such as `\x85` and `\xa0`) and non-ASCII digits.
- `updated_rows` is computed but never returned by the source. The model exposes it in `Merged`
  so that properties can be stated about it.
- "Append Sc Monthlyp Api.py" is a separate, merge-based variant of the endpoint and is not part
  of this model.
