/**
 * The location-counter rule. All three passes advance their counters after
 * a line by the same amount, `Delta`; Pass 1 and the listing pass also
 * let a START line set the counter.
 */
module Locctr {
  import opened Source
  import opened Numbers

  /** RESB and RESW carry a decimal count, which `parseInt` reads in full. */
  predicate CountOperandOk(line: Line) {
    line.instruction == "RESB" || line.instruction == "RESW" ==> IsDecNumeral(line.operand)
  }

  /** START carries a hexadecimal address, which `parseInt(…, 16)` reads in full. */
  predicate StartOperandOk(line: Line) {
    line.instruction == "START" ==> IsHexNumeral(line.operand)
  }

  predicate CountOperandsOk(lines: seq<Line>) {
    forall i :: 0 <= i < |lines| ==> CountOperandOk(lines[i])
  }

  /** Every operand a pass reads as a number is one. */
  predicate WellFormed(lines: seq<Line>) {
    forall i :: 0 <= i < |lines| ==> CountOperandOk(lines[i]) && StartOperandOk(lines[i])
  }

  /**
   * The increment after a line: BYTE its operand's length less 3, WORD 3,
   * RESB its count, RESW three times its count, and 3 for anything else.
   * It is negative only for a BYTE operand shorter than 3 characters, and
   * START, which only the object-record pass advances over, counts as 3.
   */
  function Delta(line: Line): (d: int)
    requires CountOperandOk(line)
    ensures d < 0 ==> line.instruction == "BYTE" && |line.operand| < 3
    ensures line.instruction == "START" ==> d == 3
  {
    if line.instruction == "BYTE" then |line.operand| - 3
    else if line.instruction == "WORD" then 3
    else if line.instruction == "RESB" then ParseDec(line.operand)
    else if line.instruction == "RESW" then 3 * ParseDec(line.operand)
    else 3
  }

  /** Pass 1's and the listing's counter after a line: START sets it, any other line advances it. */
  function Advance(c: int, line: Line): int
    requires CountOperandOk(line) && StartOperandOk(line)
  {
    if line.instruction == "START" then ParseHex(line.operand) else c + Delta(line)
  }

  /** Pass 1's and the listing's counter after `lines`, from 0. */
  function CounterAfter(lines: seq<Line>): int
    requires WellFormed(lines)
  {
    if lines == [] then 0
    else Advance(CounterAfter(lines[..|lines| - 1]), lines[|lines| - 1])
  }

  /** The increments of `lines` added up. */
  function DeltaSum(lines: seq<Line>): int
    requires CountOperandsOk(lines)
  {
    if lines == [] then 0
    else DeltaSum(lines[..|lines| - 1]) + Delta(lines[|lines| - 1])
  }

  lemma CounterAfterPrefix(lines: seq<Line>, i: nat)
    requires WellFormed(lines) && i < |lines|
    ensures CounterAfter(lines[..i + 1]) == Advance(CounterAfter(lines[..i]), lines[i])
  {
    assert lines[..i + 1][..i] == lines[..i];
  }

  lemma DeltaSumPrefix(lines: seq<Line>, i: nat)
    requires CountOperandsOk(lines) && i < |lines|
    ensures DeltaSum(lines[..i + 1]) == DeltaSum(lines[..i]) + Delta(lines[i])
  {
    assert lines[..i + 1][..i] == lines[..i];
  }

  /** The increments can be added up from the front as well. */
  lemma {:induction false} DeltaSumCons(lines: seq<Line>)
    requires CountOperandsOk(lines) && lines != []
    ensures CountOperandsOk(lines[1..])
    ensures DeltaSum(lines) == Delta(lines[0]) + DeltaSum(lines[1..])
  {
    var rest := lines[1..];
    assert CountOperandsOk(rest) by {
      forall k | 0 <= k < |rest| ensures CountOperandOk(rest[k]) {
        assert rest[k] == lines[k + 1];
      }
    }
    var n := |lines| - 1;
    if n == 0 {
      assert rest == [];
    } else {
      var init := lines[..n];
      assert CountOperandsOk(init) by {
        forall k | 0 <= k < n ensures CountOperandOk(init[k]) {
          assert init[k] == lines[k];
        }
      }
      DeltaSumCons(init);
      assert rest[..n - 1] == init[1..] && rest[n - 1] == lines[n];
      assert init[0] == lines[0];
    }
  }

  /** When no line is a START, the counter starts at 0 and only ever advances. */
  lemma {:induction false} CounterAfterNoStart(lines: seq<Line>)
    requires WellFormed(lines)
    requires forall i :: 0 <= i < |lines| ==> lines[i].instruction != "START"
    ensures CounterAfter(lines) == DeltaSum(lines)
  {
    if lines != [] {
      CounterAfterNoStart(lines[..|lines| - 1]);
    }
  }

  /**
   * After the last START the counter is that START's address plus the
   * increments of the lines after it; what came before it is forgotten.
   */
  lemma {:induction false} CounterAfterLastStart(lines: seq<Line>, s: nat)
    requires WellFormed(lines)
    requires s < |lines| && lines[s].instruction == "START"
    requires forall i :: s < i < |lines| ==> lines[i].instruction != "START"
    ensures CounterAfter(lines) == ParseHex(lines[s].operand) + DeltaSum(lines[s + 1..])
  {
    var n := |lines| - 1;
    if s < n {
      var init := lines[..n];
      CounterAfterLastStart(init, s);
      assert init[s + 1..] == lines[s + 1..][..|lines[s + 1..]| - 1];
      assert lines[s + 1..][|lines[s + 1..]| - 1] == lines[n];
    } else {
      assert lines[s + 1..] == [];
    }
  }
}
