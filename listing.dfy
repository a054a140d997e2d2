/**
 * The listing pass (`generateFinalOutput`): one row per source line, showing
 * the address the line occupies, its fields, its opcode and the address of
 * its operand.
 */
module Listing {
  import opened Text
  import opened Numbers
  import opened Source
  import opened Optab
  import opened Locctr
  import opened Pass1

  /** The columns of one listing row; a START row has no machine-code or address column. */
  datatype Row =
    | StartRow(loc: int, line: Line)
    | CodeRow(loc: int, line: Line, code: string, target: string)

  /** The machine-code column: the opcode when the mnemonic is defined in the table. */
  function MachineCode(optab: OpcodeTable, line: Line): string {
    if Defined(optab, line.instruction) then optab[line.instruction].value else ""
  }

  /** The address column: the operand's address when the mnemonic is defined and the operand resolves. */
  function TargetAddress(optab: OpcodeTable, symtab: SymbolTable, line: Line): string {
    if Defined(optab, line.instruction) && Resolves(symtab, line.operand) then symtab[line.operand] else ""
  }

  /** The row for a line met with counter `c`: a START row shows the START address. */
  function RowFor(c: int, line: Line, optab: OpcodeTable, symtab: SymbolTable): Row
    requires StartOperandOk(line)
  {
    if line.instruction == "START" then StartRow(ParseHex(line.operand), line)
    else CodeRow(c, line, MachineCode(optab, line), TargetAddress(optab, symtab, line))
  }

  /** The rows for `lines`, each line met with Pass 1's counter. */
  function Rows(lines: seq<Line>, optab: OpcodeTable, symtab: SymbolTable): (rows: seq<Row>)
    requires WellFormed(lines)
    ensures |rows| == |lines|
  {
    if lines == [] then []
    else
      var init := lines[..|lines| - 1];
      Rows(init, optab, symtab) + [RowFor(CounterAfter(init), lines[|lines| - 1], optab, symtab)]
  }

  /** The address column: the counter in upper-case hexadecimal, padded with zeros to 4 digits. */
  function AddressColumn(loc: int): string {
    PadStart(JsHex(loc), 4, '0')
  }

  /** The three source fields, each padded to 5 characters and preceded by two spaces. */
  function FieldColumns(line: Line): string {
    "  " + PadEnd(line.labelName, 5, ' ') + "  " + PadEnd(line.instruction, 5, ' ') + "  " + PadEnd(line.operand, 5, ' ')
  }

  /** The machine code padded to 2 characters, then the operand's address. */
  function CodeColumns(code: string, target: string): string {
    "  " + PadEnd(code, 2, ' ') + " " + target
  }

  /** What follows the address column in a row. */
  function Columns(row: Row): string {
    match row
    case StartRow(_, line) => FieldColumns(line)
    case CodeRow(_, line, code, target) => FieldColumns(line) + CodeColumns(code, target)
  }

  /** A row's text without its line break. */
  function Body(row: Row): string {
    AddressColumn(row.loc) + Columns(row)
  }

  function Bodies(rows: seq<Row>): (bs: seq<string>)
    ensures |bs| == |rows|
  {
    seq(|rows|, i requires 0 <= i < |rows| => Body(rows[i]))
  }

  /** The listing text: every row followed by a line break. */
  function ListingText(rows: seq<Row>): string {
    Terminated(Bodies(rows), '\n')
  }

  lemma RowsPrefix(lines: seq<Line>, optab: OpcodeTable, symtab: SymbolTable, i: nat)
    requires WellFormed(lines) && i < |lines|
    ensures Rows(lines[..i + 1], optab, symtab)
      == Rows(lines[..i], optab, symtab) + [RowFor(CounterAfter(lines[..i]), lines[i], optab, symtab)]
  {
    assert lines[..i + 1][..i] == lines[..i];
  }

  lemma ListingTextSnoc(rows: seq<Row>, row: Row)
    ensures ListingText(rows + [row]) == ListingText(rows) + Body(row) + "\n"
  {
    assert Bodies(rows + [row]) == Bodies(rows) + [Body(row)] by {
      var rs := rows + [row];
      forall k | 0 <= k < |rs| ensures Bodies(rs)[k] == (Bodies(rows) + [Body(row)])[k] {
        if k < |rows| { assert rs[k] == rows[k]; }
      }
    }
    TerminatedSnoc(Bodies(rows), Body(row), '\n');
  }

  /** One more line adds its row's text and a line break to the listing, and advances the counter. */
  lemma ListingStep(lines: seq<Line>, optab: OpcodeTable, symtab: SymbolTable, i: nat)
    requires WellFormed(lines) && i < |lines|
    ensures var row := RowFor(CounterAfter(lines[..i]), lines[i], optab, symtab);
      ListingText(Rows(lines[..i + 1], optab, symtab)) == ListingText(Rows(lines[..i], optab, symtab)) + Body(row) + "\n"
    ensures CounterAfter(lines[..i + 1]) == Advance(CounterAfter(lines[..i]), lines[i])
  {
    RowsPrefix(lines, optab, symtab, i);
    CounterAfterPrefix(lines, i);
    ListingTextSnoc(Rows(lines[..i], optab, symtab), RowFor(CounterAfter(lines[..i]), lines[i], optab, symtab));
  }

  /** The `forEach` callback of `generateFinalOutput`: the text of one line's row, and the counter after it. */
  method ListingLine(locctr: int, line: Line, optab: OpcodeTable, symtab: SymbolTable) returns (text: string, next: int)
    requires CountOperandOk(line) && StartOperandOk(line)
    ensures text == Body(RowFor(locctr, line, optab, symtab))
    ensures next == Advance(locctr, line)
  {
    var machineCode := "";
    var address := "";
    if line.instruction == "START" {
      next := ParseHex(line.operand);
      text := AddressColumn(next) + FieldColumns(line);
    } else {
      if Defined(optab, line.instruction) {
        machineCode := optab[line.instruction].value;
        if line.operand != "" && line.operand in symtab && symtab[line.operand] != "" {
          address := symtab[line.operand];
        }
      }
      text := AddressColumn(locctr) + (FieldColumns(line) + CodeColumns(machineCode, address));
      next := locctr + Delta(line);
    }
  }

  /** `generateFinalOutput`. */
  method GenerateFinalOutput(lines: seq<Line>, optab: OpcodeTable, symtab: SymbolTable) returns (output: string)
    requires WellFormed(lines)
    ensures output == ListingText(Rows(lines, optab, symtab))
  {
    var locctr := 0;
    output := "";
    var i := 0;
    while i < |lines|
      invariant 0 <= i <= |lines|
      invariant locctr == CounterAfter(lines[..i])
      invariant output == ListingText(Rows(lines[..i], optab, symtab))
    {
      ListingStep(lines, optab, symtab, i);
      var text;
      text, locctr := ListingLine(locctr, lines[i], optab, symtab);
      output := output + text + "\n";
      i := i + 1;
    }
    assert lines[..i] == lines;
  }

  /** Row `i` is the row of line `i`, met with the counter Pass 1 has before that line. */
  lemma {:induction false} RowsAt(lines: seq<Line>, optab: OpcodeTable, symtab: SymbolTable, i: nat)
    requires WellFormed(lines) && i < |lines|
    ensures Rows(lines, optab, symtab)[i] == RowFor(CounterAfter(lines[..i]), lines[i], optab, symtab)
  {
    var n := |lines| - 1;
    if i < n {
      var init := lines[..n];
      assert init[i] == lines[i] && init[..i] == lines[..i];
      RowsAt(init, optab, symtab, i);
    }
  }

  /** A row holds no line break when its fields hold none. */
  lemma BodyHasNoNewline(row: Row)
    requires '\n' !in row.line.labelName && '\n' !in row.line.instruction && '\n' !in row.line.operand
    requires row.CodeRow? ==> '\n' !in row.code && '\n' !in row.target
    ensures '\n' !in Body(row)
  {
    var line := row.line;
    assert '\n' !in AddressColumn(row.loc) by {
      NoSpaceHasNoNewline(JsHex(row.loc));
      PadChars(JsHex(row.loc), 4, '0', '\n');
    }
    assert '\n' !in FieldColumns(line) by {
      PadChars(line.labelName, 5, ' ', '\n');
      PadChars(line.instruction, 5, ' ', '\n');
      PadChars(line.operand, 5, ' ', '\n');
    }
    if row.CodeRow? {
      assert '\n' !in CodeColumns(row.code, row.target) by {
        PadChars(row.code, 2, ' ', '\n');
      }
    }
  }

  /** No source field, opcode or symbol address holds a line break. */
  predicate NoNewlines(lines: seq<Line>, optab: OpcodeTable, symtab: SymbolTable) {
    && (forall i :: 0 <= i < |lines| ==>
         '\n' !in lines[i].labelName && '\n' !in lines[i].instruction && '\n' !in lines[i].operand)
    && (forall m :: m in optab && optab[m].Some? ==> '\n' !in optab[m].value)
    && (forall l :: l in symtab ==> '\n' !in symtab[l])
  }

  lemma RowHasNoNewline(lines: seq<Line>, optab: OpcodeTable, symtab: SymbolTable, i: nat)
    requires WellFormed(lines) && i < |lines|
    requires NoNewlines(lines, optab, symtab)
    ensures '\n' !in Body(Rows(lines, optab, symtab)[i])
  {
    RowsAt(lines, optab, symtab, i);
    BodyHasNoNewline(Rows(lines, optab, symtab)[i]);
  }

  /**
   * The listing has exactly one line per source line, in order: split at its
   * line breaks it is the row bodies followed by one empty piece.
   */
  lemma OneRowPerLine(lines: seq<Line>, optab: OpcodeTable, symtab: SymbolTable)
    requires WellFormed(lines)
    requires NoNewlines(lines, optab, symtab)
    ensures var pieces := Split(ListingText(Rows(lines, optab, symtab)), '\n');
      |pieces| == |lines| + 1 && pieces[|lines|] == ""
      && forall i :: 0 <= i < |lines| ==> pieces[i] == Body(Rows(lines, optab, symtab)[i])
  {
    var rows := Rows(lines, optab, symtab);
    var bodies := Bodies(rows);
    forall i | 0 <= i < |rows| ensures bodies[i] == Body(rows[i]) && '\n' !in bodies[i] {
      RowHasNoNewline(lines, optab, symtab, i);
    }
    SplitTerminated(bodies, '\n');
  }

  /**
   * Each row begins with the address its line occupies, padded to 4 digits:
   * a START's own address, otherwise Pass 1's counter before the line; a
   * non-negative address reads back from that prefix.
   */
  lemma RowBeginsWithAddress(lines: seq<Line>, optab: OpcodeTable, symtab: SymbolTable, i: nat)
    requires WellFormed(lines) && i < |lines|
    ensures var row := Rows(lines, optab, symtab)[i];
      var loc := if lines[i].instruction == "START" then ParseHex(lines[i].operand) else CounterAfter(lines[..i]);
      var a := AddressColumn(loc);
      && row.loc == loc && row.line == lines[i]
      && |a| <= |Body(row)| && Body(row)[..|a|] == a
      && (loc >= 0 ==> |a| >= 4 && IsHexNumeral(a) && NoLowerHex(a) && ParseHex(a) == loc)
  {
    RowsAt(lines, optab, symtab, i);
    var row := Rows(lines, optab, symtab)[i];
    var a := AddressColumn(row.loc);
    assert Body(row)[..|a|] == a;
    if row.loc >= 0 {
      PaddedHexReadsBack(row.loc, 4);
    }
  }

  /**
   * The columns of row `i`: a START gets a START row; otherwise the machine
   * code is the opcode exactly when the mnemonic is defined, and the address
   * column is the operand's symbol address exactly when, besides, the operand
   * is non-empty and a key of the symbol table.
   */
  lemma RowColumns(lines: seq<Line>, optab: OpcodeTable, symtab: SymbolTable, i: nat)
    requires WellFormed(lines) && i < |lines|
    requires forall m :: m in optab && optab[m].Some? ==> optab[m].value != ""
    requires forall l :: l in symtab ==> symtab[l] != ""
    ensures var row := Rows(lines, optab, symtab)[i];
      var line := lines[i];
      && (row.StartRow? <==> line.instruction == "START")
      && (row.CodeRow? ==>
           && (row.code != "" <==> Defined(optab, line.instruction))
           && (row.code != "" ==> row.code == optab[line.instruction].value)
           && (row.target != "" <==>
                Defined(optab, line.instruction) && line.operand != "" && line.operand in symtab)
           && (row.target != "" ==> row.target == symtab[line.operand]))
  {
    RowsAt(lines, optab, symtab, i);
  }

  /**
   * The listing agrees with Pass 1: the row of a label's last definition shows
   * the address the symbol table holds for it, and every row whose operand is
   * that label shows the same address in its address column.
   */
  lemma ListingAgreesWithSymbols(lines: seq<Line>, optab: OpcodeTable, l: string, i: nat, j: nat)
    requires WellFormed(lines)
    requires i < |lines| && Defines(lines[i], l)
    requires forall k :: i < k < |lines| ==> !Defines(lines[k], l)
    requires j < |lines| && lines[j].instruction != "START" && lines[j].operand == l
    requires Defined(optab, lines[j].instruction)
    ensures var rows := Rows(lines, optab, Symbols(lines));
      && l in Symbols(lines) && JsHex(rows[i].loc) == Symbols(lines)[l]
      && rows[j].CodeRow? && rows[j].target == JsHex(rows[i].loc)
  {
    RowsAt(lines, optab, Symbols(lines), i);
    RowsAt(lines, optab, Symbols(lines), j);
    SymbolAddress(lines, l, i);
    SymbolValues(lines);
  }
}
