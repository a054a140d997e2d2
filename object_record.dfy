/**
 * The object-record pass (`generateRecordFile`): a Header, a Text and an End
 * record. The pass keeps its own counter, loaded at the fixed address 1000
 * (hexadecimal) whatever a START line says, and treats START like any other
 * line; its program length is the final counter less 6, less the load address.
 */
module ObjectRecord {
  import opened Text
  import opened Numbers
  import opened Source
  import opened Optab
  import opened Locctr
  import opened Pass1

  /** The start address as the records print it. */
  const StartAddress: string := "001000"

  /** The value `parseInt(startAddress, 16)`. */
  const LoadAddress: int := 0x1000

  /** The End record. */
  const EndRecord: string := "E^" + StartAddress

  lemma LoadAddressIs()
    ensures IsHexNumeral(StartAddress) && ParseHex(StartAddress) == LoadAddress
  {
    assert "0"[..0] == "";
    assert "00"[..1] == "0";
    assert "001"[..2] == "00";
    assert "0010"[..3] == "001";
    assert "00100"[..4] == "0010";
    assert StartAddress[..5] == "00100";
    assert ParseHex("00") == 0;
    assert ParseHex("001") == 1;
    assert ParseHex("0010") == 0x10;
    assert ParseHex("00100") == 0x100;
  }

  /** The unit a line contributes: its opcode, then the operand's address padded to 4 digits when the operand resolves. */
  function Unit(line: Line, optab: OpcodeTable, symtab: SymbolTable): string
    requires Truthy(optab, line.instruction)
  {
    optab[line.instruction].value
      + (if Resolves(symtab, line.operand) then PadStart(symtab[line.operand], 4, '0') else "")
  }

  /** The units of `lines`, in order: one for each line whose mnemonic has a truthy opcode. */
  function Units(lines: seq<Line>, optab: OpcodeTable, symtab: SymbolTable): seq<string> {
    if lines == [] then []
    else
      var line := lines[|lines| - 1];
      Units(lines[..|lines| - 1], optab, symtab)
        + (if Truthy(optab, line.instruction) then [Unit(line, optab, symtab)] else [])
  }

  /** The record pass's counter after `lines`: the load address plus every increment, a START's 3 included. */
  function RecordCounter(lines: seq<Line>): int
    requires CountOperandsOk(lines)
  {
    LoadAddress + DeltaSum(lines)
  }

  /** `lastAddress`: the load address before any line, the counter less 6 after the last one. */
  function LastAddress(lines: seq<Line>): int
    requires CountOperandsOk(lines)
  {
    if lines == [] then LoadAddress else RecordCounter(lines) - 6
  }

  /** The length field: `lastAddress` less the load address, in upper-case hexadecimal, padded to 2 digits. */
  function ProgramLength(lines: seq<Line>): string
    requires CountOperandsOk(lines)
  {
    PadStart(JsHex(LastAddress(lines) - LoadAddress), 2, '0')
  }

  /** The Header record: a fixed program name, the start address and the length padded to 6 digits. */
  function HeaderRecord(lines: seq<Line>): string
    requires CountOperandsOk(lines)
  {
    "H^COPY^" + StartAddress + "^" + PadStart(ProgramLength(lines), 6, '0')
  }

  /**
   * The Text record as `^`-separated fields: `T`, the start address, the
   * length, the start address a second time, then the units.
   */
  function TextRecord(lines: seq<Line>, optab: OpcodeTable, symtab: SymbolTable): string
    requires CountOperandsOk(lines)
  {
    Join(["T", StartAddress, ProgramLength(lines), StartAddress] + Units(lines, optab, symtab), '^')
  }

  /** The record file: the three records, each followed by a line break. */
  function RecordFile(lines: seq<Line>, optab: OpcodeTable, symtab: SymbolTable): string
    requires CountOperandsOk(lines)
  {
    (HeaderRecord(lines) + "\n") + (TextRecord(lines, optab, symtab) + "\n") + (EndRecord + "\n")
  }

  lemma UnitsPrefix(lines: seq<Line>, optab: OpcodeTable, symtab: SymbolTable, i: nat)
    requires i < |lines|
    ensures Units(lines[..i + 1], optab, symtab) == Units(lines[..i], optab, symtab)
      + (if Truthy(optab, lines[i].instruction) then [Unit(lines[i], optab, symtab)] else [])
  {
    assert lines[..i + 1][..i] == lines[..i];
  }

  lemma CountOperandsPrefix(lines: seq<Line>, i: nat)
    requires CountOperandsOk(lines) && i <= |lines|
    ensures CountOperandsOk(lines[..i])
  {
    forall k | 0 <= k < i ensures CountOperandOk(lines[..i][k]) {
      assert lines[..i][k] == lines[k];
    }
  }

  /** The text record under construction after `i` lines: its opening fields, then each unit followed by `^`. */
  function PartialText(units: seq<string>): string {
    "T^" + StartAddress + "^" + Terminated(units, '^')
  }

  /** One more line: the counter advances by its increment, and its unit, if any, is appended with a `^`. */
  lemma RecordStep(lines: seq<Line>, optab: OpcodeTable, symtab: SymbolTable, i: nat)
    requires CountOperandsOk(lines) && i < |lines|
    ensures CountOperandsOk(lines[..i]) && CountOperandsOk(lines[..i + 1])
    ensures RecordCounter(lines[..i + 1]) == RecordCounter(lines[..i]) + Delta(lines[i])
    ensures LastAddress(lines[..i + 1]) == RecordCounter(lines[..i + 1]) - 6
    ensures Truthy(optab, lines[i].instruction) ==>
      PartialText(Units(lines[..i + 1], optab, symtab))
        == PartialText(Units(lines[..i], optab, symtab)) + Unit(lines[i], optab, symtab) + "^"
    ensures !Truthy(optab, lines[i].instruction) ==>
      Units(lines[..i + 1], optab, symtab) == Units(lines[..i], optab, symtab)
  {
    CountOperandsPrefix(lines, i);
    CountOperandsPrefix(lines, i + 1);
    DeltaSumPrefix(lines, i);
    UnitsPrefix(lines, optab, symtab, i);
    if Truthy(optab, lines[i].instruction) {
      var us := Units(lines[..i], optab, symtab);
      TerminatedSnoc(us, Unit(lines[i], optab, symtab), '^');
    }
  }

  /** The four opening fields of the Text record, joined. */
  lemma OpeningFields(len: string)
    ensures Join(["T", StartAddress, len, StartAddress], '^') == "T^" + StartAddress + "^" + len + "^" + StartAddress
  {
    JoinCons(len, [StartAddress], '^');
    JoinCons(StartAddress, [len, StartAddress], '^');
    JoinCons("T", [StartAddress, len, StartAddress], '^');
  }

  /**
   * Rebuilding the text record as `generateRecordFile` does with
   * `textRecord.slice(2)`, and dropping its last character, gives the
   * `^`-separated fields of the Text record.
   */
  lemma TextRecordRebuilt(len: string, units: seq<string>)
    ensures var t := "T^" + StartAddress + "^" + len + "^" + PartialText(units)[2..];
      t != [] && t[..|t| - 1] == Join(["T", StartAddress, len, StartAddress] + units, '^')
  {
    var opening := ["T", StartAddress, len, StartAddress];
    var head := "T^" + StartAddress + "^" + len + "^" + StartAddress;
    var p := PartialText(units);
    assert p[2..] == StartAddress + "^" + Terminated(units, '^');
    var t := "T^" + StartAddress + "^" + len + "^" + p[2..];
    OpeningFields(len);
    if units == [] {
      assert t == head + "^";
      assert opening + units == opening;
    } else {
      TerminatedJoin(units, '^');
      JoinAppend(opening, units, '^');
      assert t == head + "^" + Join(units, '^') + "^";
    }
  }

  lemma TerminatedThree(a: string, b: string, c: string, sep: char)
    ensures Terminated([a, b, c], sep) == (a + [sep]) + (b + [sep]) + (c + [sep])
  {
    assert [a, b, c][..2] == [a, b];
    assert [a, b][..1] == [a];
    assert [a][..0] == [];
    assert Terminated([a], sep) == a + [sep];
  }

  /**
   * The `forEach` callback of `generateRecordFile`: the line's unit and a `^`
   * are appended when its mnemonic has a truthy opcode, the counter advances
   * by the line's increment, and `lastAddress` becomes the counter less 6.
   */
  method RecordLine(locctr: int, textRecord: string, line: Line, optab: OpcodeTable, symtab: SymbolTable)
    returns (locctr': int, lastAddress': int, textRecord': string)
    requires CountOperandOk(line)
    ensures locctr' == locctr + Delta(line) && lastAddress' == locctr' - 6
    ensures textRecord' == if Truthy(optab, line.instruction) then textRecord + Unit(line, optab, symtab) + "^" else textRecord
  {
    textRecord' := textRecord;
    if Truthy(optab, line.instruction) {
      var machineCode := optab[line.instruction].value;
      if line.operand != "" && line.operand in symtab && symtab[line.operand] != "" {
        machineCode := machineCode + PadStart(symtab[line.operand], 4, '0');
      }
      textRecord' := textRecord' + machineCode + "^";
    }
    locctr' := locctr + Delta(line);
    lastAddress' := locctr' - 6;
  }

  /** `generateRecordFile`. */
  method GenerateRecordFile(lines: seq<Line>, optab: OpcodeTable, symtab: SymbolTable) returns (recordFile: string)
    requires CountOperandsOk(lines)
    ensures recordFile == RecordFile(lines, optab, symtab)
  {
    var startAddress := StartAddress;
    LoadAddressIs();
    var locctr := ParseHex(startAddress);
    var lastAddress := locctr;
    var textRecord := "T^" + startAddress + "^";
    var i := 0;
    while i < |lines|
      invariant 0 <= i <= |lines|
      invariant CountOperandsOk(lines[..i])
      invariant locctr == RecordCounter(lines[..i])
      invariant lastAddress == LastAddress(lines[..i])
      invariant textRecord == PartialText(Units(lines[..i], optab, symtab))
    {
      RecordStep(lines, optab, symtab, i);
      locctr, lastAddress, textRecord := RecordLine(locctr, textRecord, lines[i], optab, symtab);
      i := i + 1;
    }
    assert lines[..i] == lines;
    var programLength := PadStart(JsHex(lastAddress - ParseHex(startAddress)), 2, '0');
    var textRecordLength := programLength;
    assert programLength == ProgramLength(lines);
    TextRecordRebuilt(textRecordLength, Units(lines, optab, symtab));
    textRecord := "T^" + startAddress + "^" + textRecordLength + "^" + textRecord[2..];
    assert textRecord[..|textRecord| - 1] == TextRecord(lines, optab, symtab);
    recordFile := "H^COPY^" + startAddress + "^" + PadStart(programLength, 6, '0') + "\n";
    assert recordFile == HeaderRecord(lines) + "\n";
    recordFile := recordFile + (textRecord[..|textRecord| - 1] + "\n");
    recordFile := recordFile + ("E^" + startAddress + "\n");
  }

  /** No opcode and no symbol address holds `c`. */
  predicate TablesAvoid(optab: OpcodeTable, symtab: SymbolTable, c: char) {
    && (forall m :: m in optab && optab[m].Some? ==> c !in optab[m].value)
    && (forall l :: l in symtab ==> c !in symtab[l])
  }

  /** The units of two runs of lines are those of the first followed by those of the second. */
  lemma {:induction false} UnitsAppend(la: seq<Line>, lb: seq<Line>, optab: OpcodeTable, symtab: SymbolTable)
    ensures Units(la + lb, optab, symtab) == Units(la, optab, symtab) + Units(lb, optab, symtab)
    decreases |lb|
  {
    if lb == [] {
      assert la + lb == la;
    } else {
      var n := |lb| - 1;
      var line := lb[n];
      var ab := la + lb;
      assert ab[..|ab| - 1] == la + lb[..n] && ab[|ab| - 1] == line;
      UnitsAppend(la, lb[..n], optab, symtab);
    }
  }

  /** One line contributes its unit exactly when its mnemonic has a truthy opcode. */
  lemma UnitsOfLine(line: Line, optab: OpcodeTable, symtab: SymbolTable)
    ensures Units([line], optab, symtab) == if Truthy(optab, line.instruction) then [Unit(line, optab, symtab)] else []
  {
    assert [line][..0] == [];
  }

  /** Every unit is non-empty, and holds a character only when some opcode or symbol address does. */
  lemma {:induction false} UnitsAvoid(lines: seq<Line>, optab: OpcodeTable, symtab: SymbolTable, c: char)
    requires TablesAvoid(optab, symtab, c) && c != '0'
    ensures Avoids(Units(lines, optab, symtab), c)
    ensures forall k :: 0 <= k < |Units(lines, optab, symtab)| ==> Units(lines, optab, symtab)[k] != ""
  {
    if lines != [] {
      var n := |lines| - 1;
      var line := lines[n];
      var init := Units(lines[..n], optab, symtab);
      UnitsAvoid(lines[..n], optab, symtab, c);
      if Truthy(optab, line.instruction) {
        var u := Unit(line, optab, symtab);
        if Resolves(symtab, line.operand) {
          PadChars(symtab[line.operand], 4, '0', c);
        }
        assert u != "" && c !in u;
        var us := init + [u];
        assert Units(lines, optab, symtab) == us;
        forall k | 0 <= k < |us| ensures us[k] != "" && c !in us[k] {
          if k < |init| { assert us[k] == init[k]; }
        }
      } else {
        assert Units(lines, optab, symtab) == init;
      }
    }
  }

  /** With no lines the length field is `00`. */
  lemma ProgramLengthOfNothing()
    ensures ProgramLength([]) == "00"
  {
    assert JsHex(0) == "0";
  }

  /**
   * Once the counter has passed 6 bytes beyond the load address, the length
   * field is the increments' total less 6, in hexadecimal of at least 2
   * upper-case digits, and the Header's 6-digit field reads back as the same number.
   */
  lemma ProgramLengthValue(lines: seq<Line>)
    requires CountOperandsOk(lines) && lines != [] && DeltaSum(lines) >= 6
    ensures var len := ProgramLength(lines);
      && |len| >= 2 && IsHexNumeral(len) && NoLowerHex(len) && ParseHex(len) == DeltaSum(lines) - 6
      && var field := PadStart(len, 6, '0');
         |field| >= 6 && IsHexNumeral(field) && NoLowerHex(field) && ParseHex(field) == DeltaSum(lines) - 6
  {
    var n := DeltaSum(lines) - 6;
    assert JsHex(n) == HexDigits(n);
    ParseHexDigits(n);
    ZeroPaddedReadsBack(HexDigits(n), 2);
    ZeroPaddedReadsBack(ProgramLength(lines), 6);
  }

  /**
   * When the increments total less than 6 the length is negative: a minus
   * sign before the digits of 6 less the total, and `padStart` puts its
   * zeros in front of the minus sign in the Header's field.
   */
  lemma {:induction false} ProgramLengthNegative(lines: seq<Line>)
    requires CountOperandsOk(lines) && lines != [] && DeltaSum(lines) < 6
    ensures ProgramLength(lines) == "-" + HexDigits(6 - DeltaSum(lines))
    ensures var len := ProgramLength(lines);
      var field := PadStart(len, 6, '0');
      && |field| == (if |len| < 6 then 6 else |len|)
      && field[|field| - |len|..] == len
      && forall k :: 0 <= k < |field| - |len| ==> field[k] == '0'
  {
    var m: int := 6 - DeltaSum(lines);
    assert LastAddress(lines) - LoadAddress == -m;
    assert JsHex(-m) == "-" + HexDigits(m);
    PadStartParts(ProgramLength(lines), 6, '0');
  }

  lemma OneWordLength()
    ensures CountOperandsOk([Line("", "WORD", "5")]) && ProgramLength([Line("", "WORD", "5")]) == "-3"
  {
    var lines := [Line("", "WORD", "5")];
    assert lines[..0] == [];
    assert DeltaSum(lines) == 3;
    assert HexDigits(3) == "3";
    ProgramLengthNegative(lines);
  }

  lemma MinusThreePadded()
    ensures PadStart("-3", 6, '0') == "0000-3"
  {
    assert Repeat('0', 1) == "0";
    assert Repeat('0', 2) == "00";
    assert Repeat('0', 3) == "000";
    assert Repeat('0', 4) == "0000";
  }

  /** A program of one 3-byte line: the length is `-3` and the Header's field `0000-3`. */
  lemma ProgramLengthOfOneWord()
    ensures ProgramLength([Line("", "WORD", "5")]) == "-3"
    ensures PadStart(ProgramLength([Line("", "WORD", "5")]), 6, '0') == "0000-3"
    ensures HeaderRecord([Line("", "WORD", "5")]) == "H^COPY^" + StartAddress + "^" + "0000-3"
  {
    OneWordLength();
    MinusThreePadded();
  }

  /** Without a START line the record pass's counter is Pass 1's, shifted by the load address. */
  lemma RecordCounterWithoutStart(lines: seq<Line>)
    requires WellFormed(lines)
    requires forall i :: 0 <= i < |lines| ==> lines[i].instruction != "START"
    ensures CountOperandsOk(lines) && RecordCounter(lines) == LoadAddress + CounterAfter(lines)
  {
    CounterAfterNoStart(lines);
  }

  /**
   * With a single START in front, the record pass ignores its address: its
   * counter is the load address plus 3 for the START plus what Pass 1 added
   * after the START's address.
   */
  lemma RecordCounterWithStart(lines: seq<Line>)
    requires WellFormed(lines) && lines != [] && lines[0].instruction == "START"
    requires forall i :: 0 < i < |lines| ==> lines[i].instruction != "START"
    ensures CountOperandsOk(lines)
      && RecordCounter(lines) == LoadAddress + 3 + (CounterAfter(lines) - ParseHex(lines[0].operand))
  {
    assert CountOperandsOk(lines);
    CounterAfterLastStart(lines, 0);
    DeltaSumCons(lines);
  }

  /** The length field and its 6-digit padding hold only digits and a minus sign. */
  lemma LengthAvoids(lines: seq<Line>, c: char)
    requires CountOperandsOk(lines)
    requires c != '-' && !IsHexDigit(c)
    ensures c !in ProgramLength(lines) && c !in PadStart(ProgramLength(lines), 6, '0')
  {
    JsHexAvoids(LastAddress(lines) - LoadAddress, c);
    PadChars(JsHex(LastAddress(lines) - LoadAddress), 2, '0', c);
    PadChars(ProgramLength(lines), 6, '0', c);
  }

  lemma HeaderHasNoNewline(lines: seq<Line>)
    requires CountOperandsOk(lines)
    ensures '\n' !in HeaderRecord(lines)
  {
    LengthAvoids(lines, '\n');
    var fixed := "H^COPY^" + StartAddress + "^";
    assert forall k :: 0 <= k < |fixed| ==> fixed[k] != '\n';
  }

  /** No field of the Text record holds `c` when no table entry does and `c` is none of `T`, `^`, a digit or a minus sign. */
  lemma TextFieldsAvoid(lines: seq<Line>, optab: OpcodeTable, symtab: SymbolTable, c: char)
    requires CountOperandsOk(lines)
    requires TablesAvoid(optab, symtab, c)
    requires c != 'T' && c != '-' && !IsHexDigit(c)
    ensures var us := Units(lines, optab, symtab);
      && Avoids(["T", StartAddress, ProgramLength(lines), StartAddress] + us, c)
      && forall k :: 0 <= k < |us| ==> us[k] != ""
  {
    var len := ProgramLength(lines);
    UnitsAvoid(lines, optab, symtab, c);
    LengthAvoids(lines, c);
    assert Avoids(["T", StartAddress, len, StartAddress], c) by {
      var opening := ["T", StartAddress, len, StartAddress];
      assert c !in StartAddress && c !in "T";
      forall k | 0 <= k < 4 ensures c !in opening[k] {
        assert k == 0 || k == 1 || k == 2 || k == 3;
      }
    }
    AvoidsAppend(["T", StartAddress, len, StartAddress], Units(lines, optab, symtab), c);
  }

  /**
   * Split at `^`, the Text record is `T`, the start address, the length, the
   * start address again, and the units in order; none of these is empty, so
   * the record has no trailing `^`.
   */
  lemma TextRecordFields(lines: seq<Line>, optab: OpcodeTable, symtab: SymbolTable)
    requires CountOperandsOk(lines)
    requires TablesAvoid(optab, symtab, '^')
    ensures var us := Units(lines, optab, symtab);
      && Split(TextRecord(lines, optab, symtab), '^') == ["T", StartAddress, ProgramLength(lines), StartAddress] + us
      && ProgramLength(lines) != ""
      && forall k :: 0 <= k < |us| ==> us[k] != ""
  {
    TextFieldsAvoid(lines, optab, symtab, '^');
    SplitJoin(["T", StartAddress, ProgramLength(lines), StartAddress] + Units(lines, optab, symtab), '^');
  }

  /** The record file is three lines: split at its line breaks it is the three records and one empty piece. */
  lemma RecordFileLines(lines: seq<Line>, optab: OpcodeTable, symtab: SymbolTable)
    requires CountOperandsOk(lines)
    requires TablesAvoid(optab, symtab, '\n')
    ensures Split(RecordFile(lines, optab, symtab), '\n')
      == [HeaderRecord(lines), TextRecord(lines, optab, symtab), EndRecord, ""]
  {
    var h, t := HeaderRecord(lines), TextRecord(lines, optab, symtab);
    HeaderHasNoNewline(lines);
    assert '\n' !in t by {
      TextFieldsAvoid(lines, optab, symtab, '\n');
      JoinChars(["T", StartAddress, ProgramLength(lines), StartAddress] + Units(lines, optab, symtab), '^', '\n');
    }
    assert Avoids([h, t, EndRecord], '\n');
    TerminatedThree(h, t, EndRecord, '\n');
    SplitTerminated([h, t, EndRecord], '\n');
  }
}
