/**
 * The pipeline of `processFiles`, without reading the files or writing the
 * page: parse the program and the opcode table, run Pass 1, then the
 * listing pass and the object-record pass on the same records and tables.
 */
module Assembler {
  import opened Text
  import opened Source
  import opened Optab
  import opened Locctr
  import opened Pass1
  import opened Listing
  import opened ObjectRecord

  /** The tables the pipeline builds from its two input texts. */
  function ParsedOptab(optabText: string): OpcodeTable {
    TableOf(NonBlankLines(optabText))
  }

  /** `processFiles`: both outputs, from the program text and the opcode-table text. */
  method Assemble(input: string, optabText: string) returns (finalOutput: string, recordFile: string)
    requires WellFormedText(input)
    requires WellFormed(ParseSource(input))
    ensures var program := ParseSource(input);
      && finalOutput == ListingText(Rows(program, ParsedOptab(optabText), Symbols(program)))
      && recordFile == RecordFile(program, ParsedOptab(optabText), Symbols(program))
  {
    var inputProgram := ParseSource(input);
    var optab := ParseOptab(optabText);
    var symbolTable := GenerateSymbolTable(inputProgram);
    finalOutput := GenerateFinalOutput(inputProgram, optab, symbolTable);
    assert CountOperandsOk(inputProgram);
    recordFile := GenerateRecordFile(inputProgram, optab, symbolTable);
  }

  /** No parsed field, opcode or symbol address holds a line break. */
  lemma ParsedHaveNoNewlines(input: string, optabText: string)
    requires WellFormedText(input)
    requires WellFormed(ParseSource(input))
    ensures var program := ParseSource(input);
      && NoNewlines(program, ParsedOptab(optabText), Symbols(program))
      && TablesAvoid(ParsedOptab(optabText), Symbols(program), '\n')
  {
    var program := ParseSource(input);
    var optab := ParsedOptab(optabText);
    var symtab := Symbols(program);
    forall i | 0 <= i < |program|
      ensures '\n' !in program[i].labelName && '\n' !in program[i].instruction && '\n' !in program[i].operand
    {
      NoSpaceHasNoNewline(program[i].labelName);
      NoSpaceHasNoNewline(program[i].instruction);
      NoSpaceHasNoNewline(program[i].operand);
    }
    NonBlankClean(Split(optabText, '\n'));
    TableOfCodes(NonBlankLines(optabText));
    forall m | m in optab && optab[m].Some? ensures '\n' !in optab[m].value {
      NoSpaceHasNoNewline(optab[m].value);
    }
    SymbolValues(program);
    forall l | l in symtab ensures '\n' !in symtab[l] {
      NoSpaceHasNoNewline(symtab[l]);
    }
  }

  /**
   * The listing of a parsed program has exactly one line per record, in
   * order, and each begins with the address of its line.
   */
  lemma AssembledListing(input: string, optabText: string)
    requires WellFormedText(input)
    requires WellFormed(ParseSource(input))
    ensures var program := ParseSource(input);
      var rows := Rows(program, ParsedOptab(optabText), Symbols(program));
      var pieces := Split(ListingText(rows), '\n');
      && |pieces| == |program| + 1 && pieces[|program|] == ""
      && forall i :: 0 <= i < |program| ==> pieces[i] == Body(rows[i])
  {
    ParsedHaveNoNewlines(input, optabText);
    OneRowPerLine(ParseSource(input), ParsedOptab(optabText), Symbols(ParseSource(input)));
  }

  /** The record file of a parsed program is exactly its Header, Text and End records, each on its own line. */
  lemma AssembledRecords(input: string, optabText: string)
    requires WellFormedText(input)
    requires WellFormed(ParseSource(input))
    ensures var program := ParseSource(input);
      && CountOperandsOk(program)
      && Split(RecordFile(program, ParsedOptab(optabText), Symbols(program)), '\n')
           == [HeaderRecord(program), TextRecord(program, ParsedOptab(optabText), Symbols(program)), EndRecord, ""]
  {
    var program := ParseSource(input);
    assert CountOperandsOk(program);
    ParsedHaveNoNewlines(input, optabText);
    RecordFileLines(program, ParsedOptab(optabText), Symbols(program));
  }
}
