/**
 * The opcode-table parser (`parseOptabFile`) and the two ways the passes
 * look a mnemonic up in the table it builds.
 */
module Optab {
  import opened Wrappers
  import opened Text
  import opened Source

  /** Mnemonic to opcode. `None` is JavaScript's `undefined`, stored for a line without an opcode field. */
  type OpcodeTable = map<string, Option<string>>

  /** `optab[m] !== undefined`: the test the listing makes. */
  predicate Defined(optab: OpcodeTable, m: string) {
    m in optab && optab[m].Some?
  }

  /** `if (optab[m])`: the test the object-record pass makes; the empty string is falsy too. */
  predicate Truthy(optab: OpcodeTable, m: string) {
    Defined(optab, m) && optab[m].value != ""
  }

  /** The first field of an opcode-table line. */
  function Mnemonic(l: string): string {
    SplitWs(l)[0]
  }

  /** The second field of an opcode-table line, `undefined` when there is none. */
  function Opcode(l: string): Option<string> {
    var parts := SplitWs(l);
    if |parts| > 1 then Some(parts[1]) else None
  }

  /** The table after the lines `ls` in order: each line stores its opcode under its mnemonic. */
  function TableOf(ls: seq<string>): OpcodeTable {
    if ls == [] then map[]
    else
      var last := ls[|ls| - 1];
      TableOf(ls[..|ls| - 1])[Mnemonic(last) := Opcode(last)]
  }

  lemma TableOfPrefix(ls: seq<string>, i: nat)
    requires i < |ls|
    ensures TableOf(ls[..i + 1]) == TableOf(ls[..i])[Mnemonic(ls[i]) := Opcode(ls[i])]
  {
    assert ls[..i + 1][..i] == ls[..i];
  }

  /** `parseOptabFile`. */
  method ParseOptab(text: string) returns (optab: OpcodeTable)
    ensures optab == TableOf(NonBlankLines(text))
  {
    var lines := NonBlankLines(text);
    optab := map[];
    var i := 0;
    while i < |lines|
      invariant 0 <= i <= |lines|
      invariant optab == TableOf(lines[..i])
    {
      var parts := SplitWs(lines[i]);
      var instruction := parts[0];
      var opcode := if |parts| > 1 then Some(parts[1]) else None;
      optab := optab[instruction := opcode];
      TableOfPrefix(lines, i);
      i := i + 1;
    }
    assert lines[..i] == lines;
  }

  /** A mnemonic some line names is in the table. */
  lemma {:induction false} TableOfHasNamed(ls: seq<string>, m: string, i: nat)
    requires i < |ls| && Mnemonic(ls[i]) == m
    ensures m in TableOf(ls)
  {
    var n := |ls| - 1;
    if i < n {
      var init := ls[..n];
      assert init[i] == ls[i];
      TableOfHasNamed(init, m, i);
    }
  }

  /** The line that put a mnemonic into the table. */
  lemma {:induction false} TableOfNamer(ls: seq<string>, m: string) returns (i: nat)
    requires m in TableOf(ls)
    ensures i < |ls| && Mnemonic(ls[i]) == m
  {
    var n := |ls| - 1;
    if Mnemonic(ls[n]) == m {
      i := n;
    } else {
      var init := ls[..n];
      i := TableOfNamer(init, m);
      assert init[i] == ls[i];
    }
  }

  /** A mnemonic is in the table exactly when some line names it. */
  lemma TableOfKeys(ls: seq<string>, m: string)
    ensures m in TableOf(ls) <==> exists i :: 0 <= i < |ls| && Mnemonic(ls[i]) == m
  {
    if m in TableOf(ls) {
      var i := TableOfNamer(ls, m);
    }
    if exists i :: 0 <= i < |ls| && Mnemonic(ls[i]) == m {
      var i :| 0 <= i < |ls| && Mnemonic(ls[i]) == m;
      TableOfHasNamed(ls, m, i);
    }
  }

  /**
   * The last line that names a mnemonic decides its entry: that line's opcode,
   * and a line without one leaves the mnemonic undefined, which both passes read as absent.
   */
  lemma {:induction false} TableOfLastWins(ls: seq<string>, m: string, i: nat)
    requires i < |ls| && Mnemonic(ls[i]) == m
    requires forall j :: i < j < |ls| ==> Mnemonic(ls[j]) != m
    ensures m in TableOf(ls) && TableOf(ls)[m] == Opcode(ls[i])
    ensures Defined(TableOf(ls), m) <==> |SplitWs(ls[i])| > 1
    ensures |SplitWs(ls[i])| == 1 ==> !Defined(TableOf(ls), m) && !Truthy(TableOf(ls), m)
  {
    if i < |ls| - 1 {
      var init := ls[..|ls| - 1];
      assert init[i] == ls[i];
      TableOfLastWins(init, m, i);
    }
  }

  /** On lines taken from a trimmed text, every stored opcode is a non-empty token. */
  lemma {:induction false} TableOfCodes(ls: seq<string>)
    requires AllClean(ls)
    ensures forall m :: m in TableOf(ls) && TableOf(ls)[m].Some? ==> IsToken(TableOf(ls)[m].value)
  {
    if ls != [] {
      var n := |ls| - 1;
      var last := ls[n];
      var init := ls[..n];
      assert Clean(last);
      assert AllClean(init) by {
        forall k | 0 <= k < n ensures Clean(init[k]) {
          assert init[k] == ls[k];
        }
      }
      TableOfCodes(init);
      SplitWsTokens(last);
    }
  }

  /** On a parsed table the listing's test and the object-record pass's test agree. */
  lemma ParsedTableTests(text: string, m: string)
    ensures Defined(TableOf(NonBlankLines(text)), m) <==> Truthy(TableOf(NonBlankLines(text)), m)
  {
    NonBlankClean(Split(text, '\n'));
    TableOfCodes(NonBlankLines(text));
  }
}
