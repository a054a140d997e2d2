/**
 * The source parser (`parseInputFile`): the program text becomes one
 * `Line` record per non-blank line, in source order.
 */
module Source {
  import opened Text

  /** One parsed source line; an absent label or operand is the empty string (`label` is a Dafny keyword, hence `labelName`). */
  datatype Line = Line(labelName: string, instruction: string, operand: string)

  /** What `trim` leaves of a line that is not blank. */
  predicate Clean(l: string) {
    l != [] && IsTrimmed(l)
  }

  predicate AllClean(ls: seq<string>) {
    forall i :: 0 <= i < |ls| ==> Clean(ls[i])
  }

  /** The raw lines, each trimmed, with the blank ones dropped. */
  function NonBlank(raw: seq<string>): (ls: seq<string>)
    ensures |ls| <= |raw|
  {
    if raw == [] then []
    else
      var t := Trim(raw[0]);
      (if t == [] then [] else [t]) + NonBlank(raw[1..])
  }

  /** `input.split('\n').map(line => line.trim()).filter(line => line)` */
  function NonBlankLines(text: string): seq<string> {
    NonBlank(Split(text, '\n'))
  }

  /** Every kept line is trimmed and not blank. */
  lemma {:induction false} NonBlankClean(raw: seq<string>)
    ensures AllClean(NonBlank(raw))
  {
    if raw != [] {
      var t := Trim(raw[0]);
      var rest := NonBlank(raw[1..]);
      NonBlankClean(raw[1..]);
      var ls := (if t == [] then [] else [t]) + rest;
      assert NonBlank(raw) == ls;
      forall i | 0 <= i < |ls| ensures Clean(ls[i]) {
        if t != [] && i == 0 {
          assert ls[i] == t;
        } else {
          assert ls[i] == rest[i - |ls| + |rest|];
        }
      }
    }
  }

  /** One raw line is dropped exactly when it is blank; otherwise its trimmed text is kept. */
  lemma NonBlankOfLine(r: string)
    ensures NonBlank([r]) == if Blank(r) then [] else [Trim(r)]
  {
    TrimBlank(r);
    assert [r][1..] == [];
  }

  /** The kept lines are the trimmed non-blank raw lines, in order: blank lines are dropped and no other. */
  lemma NonBlankSnoc(raw: seq<string>, r: string)
    ensures NonBlank(raw + [r]) == NonBlank(raw) + (if Blank(r) then [] else [Trim(r)])
  {
    NonBlankAppend(raw, [r]);
    NonBlankOfLine(r);
  }

  /** The line has a second field, the mnemonic. */
  predicate HasMnemonic(l: string) {
    |SplitWs(l)| >= 2
  }

  /** What one parsed line must be: non-blank, trimmed and with a mnemonic. */
  predicate Parsable(l: string) {
    Clean(l) && HasMnemonic(l)
  }

  predicate AllParsable(ls: seq<string>) {
    forall i :: 0 <= i < |ls| ==> Parsable(ls[i])
  }

  /** Every non-blank line of the text has a mnemonic. */
  predicate WellFormedText(text: string) {
    AllParsable(NonBlankLines(text))
  }

  /** No field holds white space, and the mnemonic is present. */
  predicate FieldsOk(line: Line) {
    NoSpace(line.labelName) && IsToken(line.instruction) && NoSpace(line.operand)
  }

  /** One record from one trimmed line: the label field `-` stands for no label, a missing third field for no operand. */
  function ParseLine(l: string): (r: Line)
    requires Parsable(l)
    ensures var parts := SplitWs(l);
      && r.instruction == parts[1]
      && (r.labelName == "" <==> parts[0] == "-")
      && (r.labelName != "" ==> r.labelName == parts[0])
      && (r.operand == "" <==> |parts| < 3)
      && (|parts| >= 3 ==> r.operand == parts[2])
      && FieldsOk(r)
  {
    var parts := SplitWs(l);
    SplitWsTokens(l);
    Line(if parts[0] != "-" then parts[0] else "", parts[1], if |parts| > 2 then parts[2] else "")
  }

  /** `lines.map(…)`: the record of each trimmed, non-blank line, in order. */
  function ParseLines(ls: seq<string>): (lines: seq<Line>)
    requires AllParsable(ls)
    ensures |lines| == |ls|
  {
    seq(|ls|, i requires 0 <= i < |ls| => ParseLine(ls[i]))
  }

  lemma ParseLinesFields(ls: seq<string>)
    requires AllParsable(ls)
    ensures forall i :: 0 <= i < |ls| ==> FieldsOk(ParseLines(ls)[i])
  {
    forall i | 0 <= i < |ls| ensures FieldsOk(ParseLines(ls)[i]) {
      assert ParseLines(ls)[i] == ParseLine(ls[i]);
    }
  }

  /** `parseInputFile`: one record per non-blank line; no field holds white space and every record has a mnemonic. */
  function ParseSource(text: string): (lines: seq<Line>)
    requires WellFormedText(text)
    ensures |lines| == |NonBlankLines(text)|
    ensures forall i :: 0 <= i < |lines| ==> FieldsOk(lines[i])
  {
    ParseLinesFields(NonBlankLines(text));
    ParseLines(NonBlankLines(text))
  }

  lemma AllParsableAppend(la: seq<string>, lb: seq<string>)
    ensures AllParsable(la + lb) <==> AllParsable(la) && AllParsable(lb)
  {
    var ab := la + lb;
    if AllParsable(la) && AllParsable(lb) {
      forall i | 0 <= i < |ab| ensures Parsable(ab[i]) {
        if i < |la| {
          assert ab[i] == la[i];
        } else {
          assert ab[i] == lb[i - |la|];
        }
      }
    }
    if AllParsable(ab) {
      forall i | 0 <= i < |la| ensures Parsable(la[i]) {
        assert ab[i] == la[i];
      }
      forall i | 0 <= i < |lb| ensures Parsable(lb[i]) {
        assert ab[i + |la|] == lb[i];
      }
    }
  }

  lemma ParseLinesAppend(la: seq<string>, lb: seq<string>)
    requires AllParsable(la) && AllParsable(lb)
    ensures AllParsable(la + lb)
    ensures ParseLines(la + lb) == ParseLines(la) + ParseLines(lb)
  {
    AllParsableAppend(la, lb);
    var ab := la + lb;
    var l, r := ParseLines(ab), ParseLines(la) + ParseLines(lb);
    forall i | 0 <= i < |ab| ensures l[i] == r[i] {
      if i < |la| {
        assert ab[i] == la[i];
      } else {
        assert ab[i] == lb[i - |la|];
      }
    }
  }

  lemma {:induction false} NonBlankAppend(a: seq<string>, b: seq<string>)
    ensures NonBlank(a + b) == NonBlank(a) + NonBlank(b)
  {
    if a != [] {
      assert (a + b)[0] == a[0];
      assert (a + b)[1..] == a[1..] + b;
      NonBlankAppend(a[1..], b);
    } else {
      assert a + b == b;
    }
  }

  lemma NonBlankLinesAppend(a: string, b: string)
    ensures NonBlankLines(a + "\n" + b) == NonBlankLines(a) + NonBlankLines(b)
  {
    SplitAppend(a, b, '\n');
    NonBlankAppend(Split(a, '\n'), Split(b, '\n'));
  }

  /** Two texts joined by a line break parse to the records of the first followed by those of the second. */
  lemma ParseSourceAppend(a: string, b: string)
    requires WellFormedText(a) && WellFormedText(b)
    ensures WellFormedText(a + "\n" + b)
    ensures ParseSource(a + "\n" + b) == ParseSource(a) + ParseSource(b)
  {
    NonBlankLinesAppend(a, b);
    ParseLinesAppend(NonBlankLines(a), NonBlankLines(b));
  }

  /** A text without line breaks parses to nothing when blank and to the record of its trimmed self otherwise. */
  lemma ParseSourceOneLine(l: string)
    requires '\n' !in l
    requires Trim(l) == [] || HasMnemonic(Trim(l))
    ensures WellFormedText(l)
    ensures ParseSource(l) == if Trim(l) == [] then [] else [ParseLine(Trim(l))]
  {
    IndexOfIs(l, '\n', |l|);
    SplitFirst(l, '\n');
    assert [l][1..] == [];
    assert NonBlankLines(l) == if Trim(l) == [] then [] else [Trim(l)];
  }

  /** A line the parser reads back: a label that is absent or a token other than `-`, a mnemonic, and an absent or token operand. */
  predicate Renderable(line: Line) {
    && (line.labelName == "" || (IsToken(line.labelName) && line.labelName != "-"))
    && IsToken(line.instruction)
    && (line.operand == "" || IsToken(line.operand))
  }

  function RenderFields(line: Line): seq<string> {
    [if line.labelName == "" then "-" else line.labelName, line.instruction]
      + (if line.operand == "" then [] else [line.operand])
  }

  /** The source text of one record: its fields separated by single spaces. */
  function RenderLine(line: Line): string {
    Join(RenderFields(line), ' ')
  }

  lemma RenderedFields(line: Line)
    requires Renderable(line)
    ensures var fs := RenderFields(line);
      && fs != [] && fs[0] != [] && fs[|fs| - 1] != []
      && AllTokens(fs)
      && Avoids(fs, '\n')
  {
    var fs := RenderFields(line);
    forall k | 0 <= k < |fs| ensures '\n' !in fs[k] {
      NoSpaceHasNoNewline(fs[k]);
    }
  }

  lemma ParseRenderLine(line: Line)
    requires Renderable(line)
    ensures var l := RenderLine(line);
      && Parsable(l) && '\n' !in l
      && ParseLine(l) == line
  {
    var fs := RenderFields(line);
    RenderedFields(line);
    var l := Join(fs, ' ');
    assert Clean(l) by {
      JoinStartsWith(fs, ' ');
      JoinEndsWith(fs, ' ');
    }
    assert SplitWs(l) == fs by {
      SplitWsJoin(fs);
    }
    JoinChars(fs, ' ', '\n');
  }

  lemma {:induction false} NonBlankOfTrimmed(ls: seq<string>)
    requires AllClean(ls)
    ensures NonBlank(ls) == ls
  {
    if ls != [] {
      var rest := ls[1..];
      assert Clean(ls[0]);
      assert AllClean(rest) by {
        forall j | 0 <= j < |rest| ensures Clean(rest[j]) {
          assert rest[j] == ls[j + 1];
        }
      }
      NonBlankOfTrimmed(rest);
      assert ls == [ls[0]] + rest;
    }
  }

  function RenderAll(lines: seq<Line>): (rs: seq<string>)
    ensures |rs| == |lines|
  {
    seq(|lines|, i requires 0 <= i < |lines| => RenderLine(lines[i]))
  }

  /** The source text of a program: its rendered lines separated by line breaks. */
  function Render(lines: seq<Line>): string {
    Join(RenderAll(lines), '\n')
  }

  lemma ParseRenderAll(lines: seq<Line>)
    requires forall i :: 0 <= i < |lines| ==> Renderable(lines[i])
    ensures AllParsable(RenderAll(lines))
    ensures forall i :: 0 <= i < |lines| ==> '\n' !in RenderAll(lines)[i]
    ensures ParseLines(RenderAll(lines)) == lines
  {
    var rs := RenderAll(lines);
    forall i | 0 <= i < |lines| ensures Parsable(rs[i]) && '\n' !in rs[i] && ParseLine(rs[i]) == lines[i] {
      ParseRenderLine(lines[i]);
    }
    assert AllParsable(rs);
    var ps := ParseLines(rs);
    forall i | 0 <= i < |lines| ensures ps[i] == lines[i] {
      assert ps[i] == ParseLine(rs[i]);
    }
  }

  /** Rendering records and parsing the text gives the records back. */
  lemma ParseRender(lines: seq<Line>)
    requires forall i :: 0 <= i < |lines| ==> Renderable(lines[i])
    ensures WellFormedText(Render(lines))
    ensures ParseSource(Render(lines)) == lines
  {
    var rs := RenderAll(lines);
    ParseRenderAll(lines);
    if lines == [] {
      assert Split("", '\n') == [""];
      assert NonBlankLines(Render(lines)) == [];
    } else {
      assert Avoids(rs, '\n');
      SplitJoin(rs, '\n');
      assert AllClean(rs);
      NonBlankOfTrimmed(rs);
      assert NonBlankLines(Render(lines)) == rs;
    }
  }
}
