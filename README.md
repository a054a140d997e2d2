# SIC two-pass assembler, modelled in Dafny

This project is a model of the assembler in `script.js` for the SIC teaching machine. The assembler reads two texts: an assembly program, and an opcode table that maps mnemonics to opcodes. It produces two outputs: a fixed-width listing and an object-record file. The pipeline has five steps:

1. `parseInputFile` turns each non-blank, trimmed source line into a record `(label, instruction, operand)`. A `-` label means "no label", and a missing third field means "no operand" (module `Source`).
2. `parseOptabFile` builds the mnemonic-to-opcode map. A later line overrides an earlier one. A line without an opcode stores JavaScript's `undefined`, which is modelled as `None` (module `Optab`).
3. Pass 1, `generateSymbolTable`, walks the records with a location counter. The counter starts at 0 and a `START` line sets it. Each labelled line other than a `START` gets the counter value from before its own increment, written in upper-case hexadecimal (module `Pass1`).
4. `generateFinalOutput` walks the records again and prints one row per line (module `Listing`). Each row shows:
   - the address the line occupies;
   - the three fields;
   - on every row but a `START` row, the opcode when the mnemonic is defined;
   - on every row but a `START` row, the operand's symbol address when the mnemonic is defined and the operand also resolves.
5. `generateRecordFile` walks the records a third time (module `ObjectRecord`). Its counter starts at the fixed load address `1000` (hexadecimal), whatever `START` says. It prints a Header record, a Text record and an End record.

All three walks advance the counter by the same increment. That rule is defined once, as `Locctr.Delta`:

| instruction | increment |
|---|---|
| `BYTE` | operand length − 3 |
| `WORD` | 3 |
| `RESB` | the decimal count |
| `RESW` | 3 × the decimal count |
| anything else | 3 |

Module `Assembler` composes the steps in the order `processFiles` calls them.

How the model is built:

- **JavaScript string and number calls.** Module `Text` models `split('\n')`, `trim`, `split(/\s+/)`, `padStart` and `padEnd`. Module `Numbers` models `parseInt` on hexadecimal and on decimal digit strings, and `toString(16).toUpperCase()` as `JsHex`. `JsHex` covers negative numbers too, which print with a leading minus sign.
- **The passes are imperative.** Each pass is a method with a loop, as in the source. `ParseOptab`, `GenerateSymbolTable`, `GenerateFinalOutput` and `GenerateRecordFile` are each proved equal to a left fold over the records:

  | method | fold |
  |---|---|
  | `ParseOptab` | `TableOf` |
  | `GenerateSymbolTable` | `Symbols` |
  | `GenerateFinalOutput` | `ListingText(Rows(…))` |
  | `GenerateRecordFile` | `RecordFile` |

  The properties the source promises are then proved as lemmas about those folds.
- **The `forEach` callbacks.** The callbacks of the listing pass and the record pass are the methods `ListingLine` and `RecordLine`.
- **Quirks modelled as written:**
  - The record pass counts a `START` line as 3 bytes.
  - `lastAddress` is the counter less 6.
  - Line 195 keeps `slice(2)` of the text record, so the start address `001000` appears a second time, right after the length field.
  - The listing tests `optab[m] !== undefined`, which is `Optab.Defined`.
  - The record pass tests `optab[m]` for truthiness, which is `Optab.Truthy`.

  `Optab.ParsedTableTests` shows that the two tests agree on a table that `parseOptabFile` built.

The code never rejects a malformed number: `parseInt` returns `NaN` or reads only a prefix. The model requires well-formed operands instead. `Locctr.WellFormed` requires:

- a hexadecimal `START` operand;
- a decimal `RESB`/`RESW` count.

`Source.WellFormedText` requires a mnemonic on every non-blank line.

## Model

| member | source | states |
|---|---|---|
| Source.ParseLine | script.js:49-54 | The instruction is the second token. The label is empty exactly when the first token is `-`, and is otherwise that token. The operand is empty exactly when there are fewer than three tokens, and is otherwise the third token. No field holds white space. |
| Source.ParseSource | script.js:46-56 | One record per non-blank line of the text. Every record has a mnemonic, and no field holds white space. |
| Source.NonBlankClean | script.js:47 | Every line kept by the trim-and-filter step is trimmed and non-empty. |
| Source.NonBlankOfLine | script.js:47 | A raw line is dropped exactly when it is all white space; otherwise its trimmed text is kept. |
| Source.NonBlankSnoc | script.js:47 | One more raw line adds its trimmed text to the kept lines, after the others, unless it is all white space. |
| Source.ParseSourceAppend | script.js:47-55 | Two texts joined by a line break parse to the first text's records followed by the second's, so records come out in source order. |
| Source.ParseSourceOneLine | script.js:47-54 | A single line parses to nothing when it is blank, and otherwise to the one record of its trimmed text. |
| Source.ParseRender | script.js:46-56 | Rendering records as space-separated fields, one line each, and parsing the text gives the same records back. |
| Optab.ParseOptab | script.js:59-67 | The `forEach` loop builds exactly the table of the non-blank lines, each line storing its opcode under its mnemonic, in order. |
| Optab.TableOfKeys | script.js:62-65 | A mnemonic is a key of the table exactly when some line names it. |
| Optab.TableOfLastWins | script.js:62-65 | The last line naming a mnemonic decides its entry. A last line without an opcode leaves the mnemonic undefined, which fails both the listing's test and the record pass's test. |
| Optab.TableOfCodes | script.js:60-65 | Every stored opcode is a non-empty token. |
| Optab.ParsedTableTests | script.js:161 | On a parsed table, the record pass's truthiness test (line 161) agrees with the listing's `!== undefined` test (line 118). |
| Locctr.Delta | script.js:83-98 | The increment is negative only for a `BYTE` whose operand is shorter than 3 characters. A `START` that reaches the switch counts as 3. |
| Locctr.CounterAfterNoStart | script.js:71-98 | Without a `START`, the counter is the sum of the increments, from 0. |
| Locctr.CounterAfterLastStart | script.js:74-99 | After the last `START`, the counter is that line's hexadecimal operand plus the increments of the lines after it. Everything earlier is forgotten. |
| Pass1.GenerateSymbolTable | script.js:70-103 | The loop builds exactly the fold `Symbols`, keeping the counter equal to `CounterAfter` of the lines seen so far. |
| Pass1.SymbolsKeys | script.js:74-80 | A label is in the table exactly when some line carries it and is not a `START`. |
| Pass1.SymbolAddress | script.js:78-80 | A label's entry is the upper-case hexadecimal of the counter before the line's own increment, taken at the label's last definition. |
| Pass1.SymbolValues | script.js:79 | Every address in the table is a non-empty token, so a present key is always truthy. |
| Pass1.SymbolsExample | script.js:70-103 | `START 1000`, `- RESW 1`, `LOOP WORD 5` gives the table `{LOOP: "1003"}`. |
| Listing.ListingLine | script.js:110-145 | The callback produces the listed row's text and the counter for the next line. A `START` sets the counter; any other line advances it by its increment. |
| Listing.GenerateFinalOutput | script.js:106-149 | The loop produces exactly the rows of the lines, each followed by a line break, with each line met at Pass 1's counter. |
| Listing.OneRowPerLine | script.js:110-126 | Split at its line breaks, the listing is one row per record, in order, followed by one empty piece. |
| Listing.RowBeginsWithAddress | script.js:114-126 | Each row begins with the line's address padded to 4 digits. For a `START` that address is its own; otherwise it is the counter before the line. A non-negative address gives a prefix of at least 4 upper-case hexadecimal digits that reads back as the address. |
| Listing.RowColumns | script.js:114-124 | A `START` row has no machine-code or address column. Otherwise the machine code is the opcode exactly when the mnemonic is defined. The address column is the operand's entry exactly when the mnemonic is defined, the operand is non-empty and the operand is a key. |
| Listing.ListingAgreesWithSymbols | script.js:118-126 | The row of a label's last definition shows the address Pass 1 stored for it. Every row other than a `START` row whose mnemonic is defined and whose operand is that label shows the same address in its address column. |
| ObjectRecord.LoadAddressIs | script.js:154-155 | `parseInt("001000", 16)` is `0x1000`. |
| ObjectRecord.RecordLine | script.js:160-188 | The callback appends the line's unit and a `^` exactly when the opcode is truthy. The counter advances by the line's increment, and `lastAddress` becomes the counter less 6. |
| ObjectRecord.GenerateRecordFile | script.js:153-207 | The loop and the rebuilding that follows produce exactly the Header, Text and End records, each followed by a line break. |
| ObjectRecord.TextRecordRebuilt | script.js:195-201 | Rebuilding the text record with `slice(2)` and dropping its last character gives the `^`-joined fields `T`, start address, length, start address again, then the units. |
| ObjectRecord.UnitsAppend | script.js:160-167 | The units of two runs of lines are the first run's units followed by the second's, in source order. |
| ObjectRecord.UnitsOfLine | script.js:161-166 | A line contributes one unit exactly when its opcode is truthy: the opcode, followed by the operand's address padded to 4 digits when the operand resolves. |
| ObjectRecord.UnitsAvoid | script.js:161-166 | Every unit is non-empty, and it holds a character other than `0` only if some opcode or symbol address does. |
| ObjectRecord.ProgramLengthOfNothing | script.js:156-191 | With no lines, the length field is `00`. |
| ObjectRecord.ProgramLengthValue | script.js:187-198 | When the increments total at least 6, the length is the final counter less 6, less `0x1000`, which is the increments' total less 6. It is written in upper-case hexadecimal of at least 2 digits, and the Header's 6-digit field is upper-case hexadecimal that reads back as the same number. |
| ObjectRecord.ProgramLengthNegative | script.js:187-198 | When the increments total less than 6, the length is a minus sign followed by the upper-case hexadecimal of 6 less the total. The Header's field puts zeros in front of the minus sign, up to 6 characters. |
| ObjectRecord.ProgramLengthOfOneWord | script.js:187-198 | A program of one 3-byte line has the length `-3`, and the Header's length field is `0000-3`. |
| ObjectRecord.RecordCounterWithoutStart | script.js:155-185 | Without a `START`, the record pass's counter is Pass 1's counter shifted by the load address. |
| ObjectRecord.RecordCounterWithStart | script.js:170-185 | With one leading `START`, the record pass ignores its address and counts it as 3 bytes. Its counter is the load address plus 3 plus what Pass 1 added after the `START`'s address. |
| ObjectRecord.TextRecordFields | script.js:195-201 | Split at `^`, the Text record is `T`, `001000`, the length, `001000` again, then the units. None of these is empty, so there is no trailing `^`. |
| ObjectRecord.RecordFileLines | script.js:198-206 | Split at its line breaks, the record file is the Header, Text and End records followed by one empty piece. |
| Assembler.Assemble | script.js:26-34 | The composition parse → Pass 1 → listing and record file gives the fold-defined outputs for the parsed program and table. |
| Assembler.AssembledListing | script.js:26-33 | For a parsed program, the listing has one row per record, in order. |
| Assembler.AssembledRecords | script.js:26-34 | For a parsed program, the record file is exactly the Header, Text and End records, each on its own line. |
| Numbers.ParseHexDigits | script.js:79 | `toString(16).toUpperCase()` of a non-negative number is a hexadecimal numeral that reads back as the number. |
| Numbers.PaddedHexReadsBack | script.js:116 | A non-negative counter in upper-case hexadecimal, zero-padded to width `w` (4 for the address column), is at least `w` upper-case hexadecimal digits and reads back as the counter. |

## Left out

- `readFile` and the browser side of `processFiles` are not modelled: the `FileReader`, the `Promise`, the `getElementById`/`textContent` writes and the `alert` on error. `Assembler.Assemble` takes the two texts as parameters and returns the two outputs.
- `parseInt` leniency is not modelled. The code can return `NaN` or read only a prefix, such as `"12ab"` read as 12. Instead, a `START` operand must be all hexadecimal digits, and a `RESB`/`RESW` count all decimal digits. These are `Locctr.StartOperandOk` and `Locctr.CountOperandOk`.
- Single-token source lines are not modelled: `parts[1]` would be `undefined`. `Source.WellFormedText` requires every non-blank line to have a mnemonic.
- Keys inherited from `Object.prototype`, such as `constructor`, are not modelled: the tables are plain maps. An inherited key would make `optab[m]` or `symbolTable[operand]` defined without any line having put it there.
- JavaScript numbers are doubles. The model's integers are unbounded, so it ignores precision loss above 2^53.
- `String.length` counts UTF-16 code units. The model counts Dafny characters.
- The Text record's length field is the program length as the code computes it. No lemma relates it to the record's actual length, and the code does not relate them either.
- ObjectRecord.ProgramLengthValue: this is stated only when the increments total at least 6. A shorter program prints a negative length, such as `-3` with the Header field `0000-3`; that case is stated by ObjectRecord.ProgramLengthNegative instead.
- Listing.RowColumns: this is stated for tables whose stored opcodes and addresses are non-empty. `Optab.TableOfCodes` and `Pass1.SymbolValues` prove those preconditions for parsed tables.
- ObjectRecord.TextRecordFields and ObjectRecord.RecordFileLines: these are stated for tables whose entries hold no `^` and no line break, respectively. `Assembler.AssembledRecords` discharges the line-break condition for parsed inputs.
