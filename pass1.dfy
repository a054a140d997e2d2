/**
 * Pass 1 (`generateSymbolTable`): every label gets the counter value of its
 * line, before that line's own increment, as upper-case hexadecimal.
 */
module Pass1 {
  import opened Text
  import opened Source
  import opened Numbers
  import opened Locctr

  /** Label to address, the address as unpadded upper-case hexadecimal. */
  type SymbolTable = map<string, string>

  /** `operand && symbolTable[operand]`: the operand is non-empty and its table entry is truthy. */
  predicate Resolves(symtab: SymbolTable, operand: string) {
    operand != "" && operand in symtab && symtab[operand] != ""
  }

  /** The line enters label `l` into the table: it has that label and is not a START. */
  predicate Defines(line: Line, l: string) {
    line.instruction != "START" && line.labelName != "" && line.labelName == l
  }

  /** The table after `lines`. */
  function Symbols(lines: seq<Line>): SymbolTable
    requires WellFormed(lines)
  {
    if lines == [] then map[]
    else
      var init := lines[..|lines| - 1];
      var line := lines[|lines| - 1];
      if line.instruction != "START" && line.labelName != "" then
        Symbols(init)[line.labelName := JsHex(CounterAfter(init))]
      else
        Symbols(init)
  }

  lemma SymbolsPrefix(lines: seq<Line>, i: nat)
    requires WellFormed(lines) && i < |lines|
    ensures var line := lines[i];
      Symbols(lines[..i + 1]) ==
        if line.instruction != "START" && line.labelName != "" then
          Symbols(lines[..i])[line.labelName := JsHex(CounterAfter(lines[..i]))]
        else
          Symbols(lines[..i])
  {
    assert lines[..i + 1][..i] == lines[..i];
  }

  /** `generateSymbolTable`. */
  method GenerateSymbolTable(lines: seq<Line>) returns (symtab: SymbolTable)
    requires WellFormed(lines)
    ensures symtab == Symbols(lines)
  {
    var locctr := 0;
    symtab := map[];
    var i := 0;
    while i < |lines|
      invariant 0 <= i <= |lines|
      invariant locctr == CounterAfter(lines[..i])
      invariant symtab == Symbols(lines[..i])
    {
      var line := lines[i];
      if line.instruction == "START" {
        locctr := ParseHex(line.operand);
      } else {
        if line.labelName != "" {
          symtab := symtab[line.labelName := JsHex(locctr)];
        }
        locctr := locctr + Delta(line);
      }
      CounterAfterPrefix(lines, i);
      SymbolsPrefix(lines, i);
      i := i + 1;
    }
    assert lines[..i] == lines;
  }

  /** A label is in the table exactly when some line other than a START carries it. */
  lemma {:induction false} SymbolsKeys(lines: seq<Line>, l: string)
    requires WellFormed(lines)
    ensures l in Symbols(lines) <==> exists i :: 0 <= i < |lines| && Defines(lines[i], l)
  {
    if lines != [] {
      var n := |lines| - 1;
      var init := lines[..n];
      SymbolsKeys(init, l);
      assert l in Symbols(lines) <==> l in Symbols(init) || Defines(lines[n], l);
      assert forall i :: 0 <= i < n ==> init[i] == lines[i];
    }
  }

  /**
   * The entry of a label is the counter before its last defining line's own
   * increment: later definitions overwrite earlier ones.
   */
  lemma {:induction false} SymbolAddress(lines: seq<Line>, l: string, i: nat)
    requires WellFormed(lines)
    requires i < |lines| && Defines(lines[i], l)
    requires forall j :: i < j < |lines| ==> !Defines(lines[j], l)
    ensures l in Symbols(lines) && Symbols(lines)[l] == JsHex(CounterAfter(lines[..i]))
  {
    var n := |lines| - 1;
    var init := lines[..n];
    var line := lines[n];
    if i < n {
      assert init[i] == lines[i];
      assert init[..i] == lines[..i];
      SymbolAddress(init, l, i);
      assert !Defines(line, l);
      SymbolsFrame(lines, l);
    } else {
      assert init == lines[..i];
    }
  }

  /** A line that does not define `l` leaves its entry alone. */
  lemma SymbolsFrame(lines: seq<Line>, l: string)
    requires WellFormed(lines) && lines != [] && !Defines(lines[|lines| - 1], l)
    ensures l in Symbols(lines) <==> l in Symbols(lines[..|lines| - 1])
    ensures l in Symbols(lines) ==> Symbols(lines)[l] == Symbols(lines[..|lines| - 1])[l]
  {
  }

  /** Every address in the table is a non-empty token, so `symbolTable[operand]` is truthy whenever the key is present. */
  lemma {:induction false} SymbolValues(lines: seq<Line>)
    requires WellFormed(lines)
    ensures forall l :: l in Symbols(lines) ==> IsToken(Symbols(lines)[l])
  {
    if lines != [] {
      SymbolValues(lines[..|lines| - 1]);
    }
  }

  lemma ExampleNumbers()
    ensures ParseHex("1000") == 0x1000 && ParseDec("1") == 1 && JsHex(0x1003) == "1003"
  {
    assert "1000"[..3] == "100" && "100"[..2] == "10" && "10"[..1] == "1" && "1"[..0] == "";
    assert HexDigits(0x1) == "1";
    assert HexDigits(0x10) == "10";
    assert HexDigits(0x100) == "100";
    assert HexDigits(0x1003) == "1003";
  }

  /** The worked case: `START 1000`, `- RESW 1`, `LOOP WORD 5` gives LOOP the address 1003. */
  lemma SymbolsExample()
    ensures Symbols([Line("", "START", "1000"), Line("", "RESW", "1"), Line("LOOP", "WORD", "5")])
      == map["LOOP" := "1003"]
  {
    var lines := [Line("", "START", "1000"), Line("", "RESW", "1"), Line("LOOP", "WORD", "5")];
    ExampleNumbers();
    assert IsHexNumeral("1000") && IsDecNumeral("1");
    assert WellFormed(lines) by {
      forall i | 0 <= i < 3 ensures CountOperandOk(lines[i]) && StartOperandOk(lines[i]) {
        assert i == 0 || i == 1 || i == 2;
      }
    }
    assert lines[..0] == [] && lines[..3] == lines;
    CounterAfterPrefix(lines, 0);
    assert CounterAfter(lines[..1]) == 0x1000;
    CounterAfterPrefix(lines, 1);
    assert CounterAfter(lines[..2]) == 0x1003;
    SymbolsPrefix(lines, 0);
    SymbolsPrefix(lines, 1);
    assert Symbols(lines[..2]) == map[];
    SymbolsPrefix(lines, 2);
  }
}
