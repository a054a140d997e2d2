/**
 * The handful of JavaScript string operations the assembler is built from:
 * `split` on a character, `split(/\s+/)`, `trim`, `padStart`, `padEnd`, and
 * string concatenation in a loop. Each is defined once here, with the
 * properties the passes rely on.
 */
module Text {

  /** JavaScript white space and line terminators: what `trim` strips and `\s` matches. */
  predicate IsSpace(c: char) {
    || c == '\t' || c == '\n' || c == '\U{B}' || c == '\U{C}' || c == '\r' || c == ' '
    || c == '\U{A0}' || c == '\U{1680}' || ('\U{2000}' <= c <= '\U{200A}')
    || c == '\U{2028}' || c == '\U{2029}' || c == '\U{202F}' || c == '\U{205F}'
    || c == '\U{3000}' || c == '\U{FEFF}'
  }

  predicate NoSpace(s: string) {
    forall k :: 0 <= k < |s| ==> !IsSpace(s[k])
  }

  /** A non-empty run of non-space characters: what `split(/\s+/)` yields on a trimmed line. */
  predicate IsToken(s: string) {
    s != [] && NoSpace(s)
  }

  /** Neither starts nor ends with white space: what `trim` returns. */
  predicate IsTrimmed(s: string) {
    s == [] || (!IsSpace(s[0]) && !IsSpace(s[|s| - 1]))
  }

  /** Index of the first `c` in `s`, or |s| when `s` has none. */
  function IndexOf(s: string, c: char): (i: nat)
    ensures i <= |s|
    ensures forall k :: 0 <= k < i ==> s[k] != c
    ensures i < |s| ==> s[i] == c
  {
    IndexFrom(s, c, 0)
  }

  /** Index of the first `c` in `s` at or after `j`, or |s| when there is none. */
  function IndexFrom(s: string, c: char, j: nat): (i: nat)
    requires j <= |s|
    ensures j <= i <= |s|
    ensures forall k :: j <= k < i ==> s[k] != c
    ensures i < |s| ==> s[i] == c
    decreases |s| - j
  {
    if j == |s| || s[j] == c then j else IndexFrom(s, c, j + 1)
  }

  /** Index of the first white-space character of `s`, or |s| when it has none. */
  function IndexOfSpace(s: string): (i: nat)
    ensures i <= |s|
    ensures forall k :: 0 <= k < i ==> !IsSpace(s[k])
    ensures i < |s| ==> IsSpace(s[i])
  {
    SpaceFrom(s, 0)
  }

  /** Index of the first white-space character of `s` at or after `j`, or |s| when there is none. */
  function SpaceFrom(s: string, j: nat): (i: nat)
    requires j <= |s|
    ensures j <= i <= |s|
    ensures forall k :: j <= k < i ==> !IsSpace(s[k])
    ensures i < |s| ==> IsSpace(s[i])
    decreases |s| - j
  {
    if j == |s| || IsSpace(s[j]) then j else SpaceFrom(s, j + 1)
  }

  lemma IndexOfSpaceIs(s: string, i: nat)
    requires i <= |s|
    requires forall k :: 0 <= k < i ==> !IsSpace(s[k])
    requires i < |s| ==> IsSpace(s[i])
    ensures IndexOfSpace(s) == i
  {
  }

  lemma IndexOfIs(s: string, c: char, i: nat)
    requires i <= |s|
    requires forall k :: 0 <= k < i ==> s[k] != c
    requires i < |s| ==> s[i] == c
    ensures IndexOf(s, c) == i
  {
  }

  /** `s.split(sep)` for a one-character separator. */
  function Split(s: string, sep: char): (parts: seq<string>)
    ensures |parts| >= 1
    decreases |s|
  {
    var i := IndexOf(s, sep);
    if i == |s| then [s] else [s[..i]] + Split(s[i + 1..], sep)
  }

  /** `parts.join(sep)`. */
  function Join(parts: seq<string>, sep: char): string {
    if parts == [] then ""
    else if |parts| == 1 then parts[0]
    else parts[0] + [sep] + Join(parts[1..], sep)
  }

  lemma JoinCons(p: string, rest: seq<string>, sep: char)
    requires rest != []
    ensures Join([p] + rest, sep) == p + [sep] + Join(rest, sep)
  {
    assert ([p] + rest)[1..] == rest;
  }

  lemma {:induction false} JoinSnoc(parts: seq<string>, last: string, sep: char)
    requires parts != []
    ensures Join(parts + [last], sep) == Join(parts, sep) + [sep] + last
  {
    if |parts| == 1 {
      JoinCons(parts[0], [last], sep);
    } else {
      JoinSnoc(parts[1..], last, sep);
      assert parts + [last] == [parts[0]] + (parts[1..] + [last]);
      JoinCons(parts[0], parts[1..] + [last], sep);
    }
  }

  /** Joining two non-empty lists of pieces puts one separator between their joins. */
  lemma {:induction false} JoinAppend(a: seq<string>, b: seq<string>, sep: char)
    requires a != [] && b != []
    ensures Join(a + b, sep) == Join(a, sep) + [sep] + Join(b, sep)
  {
    if |a| == 1 {
      JoinCons(a[0], b, sep);
      assert a + b == [a[0]] + b;
    } else {
      JoinAppend(a[1..], b, sep);
      assert a + b == [a[0]] + (a[1..] + b);
      JoinCons(a[0], a[1..] + b, sep);
    }
  }

  /** A separator after a piece without one: the piece comes first. */
  lemma SplitAfterPiece(a: string, b: string, sep: char)
    requires sep !in a
    ensures Split(a, sep) == [a]
    ensures Split(a + [sep] + b, sep) == [a] + Split(b, sep)
  {
    var s := a + [sep] + b;
    IndexOfIs(a, sep, |a|);
    forall k | 0 <= k < |a| ensures s[k] != sep {
      assert s[k] == a[k];
    }
    IndexOfIs(s, sep, |a|);
    assert s[..|a|] == a && s[|a| + 1..] == b;
  }

  /** The first piece ends at the first separator. */
  lemma SplitFirst(s: string, sep: char)
    ensures var i := IndexOf(s, sep);
      Split(s, sep) == if i == |s| then [s] else [s[..i]] + Split(s[i + 1..], sep)
  {
  }

  /** A separator inside `a` comes before the one appended to it. */
  lemma SplitAppendFirst(a: string, b: string, sep: char)
    requires IndexOf(a, sep) < |a|
    ensures var i := IndexOf(a, sep);
      Split(a + [sep] + b, sep) == [a[..i]] + Split(a[i + 1..] + [sep] + b, sep)
  {
    var i := IndexOf(a, sep);
    var s := a + [sep] + b;
    forall k | 0 <= k <= i ensures s[k] == a[k] { }
    IndexOfIs(s, sep, i);
    assert s[..i] == a[..i];
    assert s[i + 1..] == a[i + 1..] + [sep] + b;
  }

  /** Splitting at one separator splits the string into the pieces of both halves. */
  lemma {:induction false} SplitAppend(a: string, b: string, sep: char)
    ensures Split(a + [sep] + b, sep) == Split(a, sep) + Split(b, sep)
    decreases |a|
  {
    var i := IndexOf(a, sep);
    if i == |a| {
      SplitAfterPiece(a, b, sep);
    } else {
      var a1, a2 := a[..i], a[i + 1..];
      SplitAppendFirst(a, b, sep);
      SplitAppend(a2, b, sep);
      SplitFirst(a, sep);
      assert [a1] + (Split(a2, sep) + Split(b, sep)) == [a1] + Split(a2, sep) + Split(b, sep);
    }
  }

  /** No piece holds `c`. */
  predicate Avoids(parts: seq<string>, c: char) {
    forall k :: 0 <= k < |parts| ==> c !in parts[k]
  }

  lemma AvoidsTail(parts: seq<string>, c: char)
    requires parts != [] && Avoids(parts, c)
    ensures Avoids(parts[1..], c)
  {
    forall k | 0 <= k < |parts| - 1 ensures c !in parts[1..][k] {
      assert parts[1..][k] == parts[k + 1];
    }
  }

  lemma AvoidsAppend(a: seq<string>, b: seq<string>, c: char)
    requires Avoids(a, c) && Avoids(b, c)
    ensures Avoids(a + b, c)
  {
    forall k | 0 <= k < |a + b| ensures c !in (a + b)[k] {
      if k >= |a| { assert (a + b)[k] == b[k - |a|]; }
    }
  }

  /** Joining and then splitting gives the pieces back, when no piece holds the separator. */
  lemma {:induction false} SplitJoin(parts: seq<string>, sep: char)
    requires parts != []
    requires Avoids(parts, sep)
    ensures Split(Join(parts, sep), sep) == parts
  {
    assert sep !in parts[0];
    assert forall k :: 0 <= k < |parts[0]| ==> parts[0][k] != sep;
    IndexOfIs(parts[0], sep, |parts[0]|);
    if |parts| > 1 {
      AvoidsTail(parts, sep);
      JoinCons(parts[0], parts[1..], sep);
      SplitAppend(parts[0], Join(parts[1..], sep), sep);
      SplitJoin(parts[1..], sep);
      assert parts == [parts[0]] + parts[1..];
    }
  }

  /** `s.trimStart()`: the string after its leading white space. */
  function TrimStart(s: string): (r: string)
    ensures |r| <= |s| && r == s[|s| - |r|..]
    ensures r != [] ==> !IsSpace(r[0])
    ensures s != [] && IsSpace(s[0]) ==> |r| < |s|
  {
    if s != [] && IsSpace(s[0]) then TrimStart(s[1..]) else s
  }

  /** A string ending in a non-space keeps that end when its leading white space goes. */
  lemma {:induction false} TrimStartKeepsEnd(s: string)
    requires s != [] && !IsSpace(s[|s| - 1])
    ensures var r := TrimStart(s); r != [] && r[|r| - 1] == s[|s| - 1]
    decreases |s|
  {
    if IsSpace(s[0]) {
      var t := s[1..];
      assert t != [] && t[|t| - 1] == s[|s| - 1];
      TrimStartKeepsEnd(t);
    }
  }

  /** `s.trim()`: white space removed from both ends. */
  function Trim(s: string): (r: string)
    ensures IsTrimmed(r)
    decreases |s|
  {
    if s == [] then s
    else if IsSpace(s[0]) then Trim(s[1..])
    else if IsSpace(s[|s| - 1]) then Trim(s[..|s| - 1])
    else s
  }

  /** Nothing but white space. */
  predicate Blank(s: string) {
    forall k :: 0 <= k < |s| ==> IsSpace(s[k])
  }

  /** `trim` empties exactly the blank strings. */
  lemma {:induction false} TrimBlank(s: string)
    ensures Trim(s) == [] <==> Blank(s)
    decreases |s|
  {
    if s != [] {
      if IsSpace(s[0]) {
        var t := s[1..];
        TrimBlank(t);
        assert forall k :: 0 <= k < |t| ==> t[k] == s[k + 1];
      } else {
        assert !IsSpace(s[0]);
        if IsSpace(s[|s| - 1]) {
          var t := s[..|s| - 1];
          TrimBlank(t);
          assert t[0] == s[0];
        }
      }
    }
  }

  /** `s.split(/\s+/)`: the pieces between maximal runs of white space. */
  function SplitWs(s: string): (parts: seq<string>)
    ensures |parts| >= 1
    decreases |s|
  {
    var i := IndexOfSpace(s);
    if i == |s| then [s] else [s[..i]] + SplitWs(TrimStart(s[i..]))
  }

  /** Every piece is a token. */
  predicate AllTokens(ps: seq<string>) {
    forall k :: 0 <= k < |ps| ==> IsToken(ps[k])
  }

  lemma AllTokensCons(p: string, ps: seq<string>)
    requires IsToken(p) && AllTokens(ps)
    ensures AllTokens([p] + ps)
  {
    var qs := [p] + ps;
    forall k | 0 <= k < |qs| ensures IsToken(qs[k]) {
      if k > 0 { assert qs[k] == ps[k - 1]; }
    }
  }

  lemma AllTokensTail(ps: seq<string>)
    requires ps != [] && AllTokens(ps)
    ensures AllTokens(ps[1..])
  {
    forall k | 0 <= k < |ps| - 1 ensures IsToken(ps[1..][k]) {
      assert ps[1..][k] == ps[k + 1];
    }
  }

  /** The first piece of `split(/\s+/)` ends at the first white space. */
  lemma SplitWsFirst(s: string)
    ensures var i := IndexOfSpace(s);
      SplitWs(s) == if i == |s| then [s] else [s[..i]] + SplitWs(TrimStart(s[i..]))
  {
  }

  /** A string that starts with a non-space starts with a token. */
  lemma FirstToken(s: string)
    requires s != [] && !IsSpace(s[0])
    ensures IsToken(s[..IndexOfSpace(s)])
  {
    var first := s[..IndexOfSpace(s)];
    forall k | 0 <= k < |first| ensures !IsSpace(first[k]) {
      assert first[k] == s[k];
    }
  }

  /** What follows the first token of a trimmed string, once its leading white space goes, is trimmed and not blank. */
  lemma AfterFirstToken(s: string)
    requires s != [] && IsTrimmed(s) && IndexOfSpace(s) < |s|
    ensures var t := TrimStart(s[IndexOfSpace(s)..]); t != [] && IsTrimmed(t) && |t| < |s|
  {
    var u := s[IndexOfSpace(s)..];
    assert u[|u| - 1] == s[|s| - 1];
    TrimStartKeepsEnd(u);
  }

  /** On a trimmed, non-blank string `split(/\s+/)` yields tokens only. */
  lemma {:induction false} SplitWsTokens(s: string)
    requires s != [] && IsTrimmed(s)
    ensures AllTokens(SplitWs(s))
    decreases |s|
  {
    var i := IndexOfSpace(s);
    FirstToken(s);
    SplitWsFirst(s);
    if i == |s| {
      assert s[..i] == s;
    } else {
      var t := TrimStart(s[i..]);
      AfterFirstToken(s);
      SplitWsTokens(t);
      AllTokensCons(s[..i], SplitWs(t));
    }
  }

  /** A token, one space, then text that starts with a non-space: the token is the first piece. */
  lemma SplitWsCons(p: string, rest: string)
    requires IsToken(p)
    requires rest != [] && !IsSpace(rest[0])
    ensures SplitWs(p + " " + rest) == [p] + SplitWs(rest)
  {
    var s := p + " " + rest;
    var t := [' '] + rest;
    assert s == p + t;
    assert s[..|p|] == p && s[|p|..] == t;
    assert IndexOfSpace(s) == |p| by {
      forall k | 0 <= k < |p| ensures !IsSpace(s[k]) {
        assert s[k] == p[k];
      }
      assert s[|p|] == t[0] == ' ';
      IndexOfSpaceIs(s, |p|);
    }
    assert t[1..] == rest;
    assert TrimStart(t) == TrimStart(t[1..]);
  }

  /** Joining tokens with single spaces and splitting on white space gives the tokens back. */
  lemma {:induction false} SplitWsJoin(tokens: seq<string>)
    requires tokens != []
    requires AllTokens(tokens)
    ensures SplitWs(Join(tokens, ' ')) == tokens
  {
    var p := tokens[0];
    if |tokens| == 1 {
      IndexOfSpaceIs(p, |p|);
    } else {
      assert tokens[1..][0] == tokens[1];
      AllTokensTail(tokens);
      JoinCons(p, tokens[1..], ' ');
      JoinStartsWith(tokens[1..], ' ');
      SplitWsCons(p, Join(tokens[1..], ' '));
      SplitWsJoin(tokens[1..]);
      assert tokens == [p] + tokens[1..];
    }
  }

  /** A space-join of tokens begins with the first token. */
  lemma JoinStartsWith(tokens: seq<string>, sep: char)
    requires tokens != [] && tokens[0] != []
    ensures Join(tokens, sep) != [] && Join(tokens, sep)[0] == tokens[0][0]
  {
  }

  /** A join of tokens ends with the last character of the last token. */
  lemma {:induction false} JoinEndsWith(tokens: seq<string>, sep: char)
    requires tokens != [] && tokens[|tokens| - 1] != []
    ensures var j := Join(tokens, sep); j != [] && j[|j| - 1] == tokens[|tokens| - 1][|tokens[|tokens| - 1]| - 1]
  {
    if |tokens| > 1 {
      JoinEndsWith(tokens[1..], sep);
    }
  }

  /** A join holds no character that is neither the separator nor in some piece. */
  lemma {:induction false} JoinChars(parts: seq<string>, sep: char, c: char)
    requires c != sep
    requires Avoids(parts, c)
    ensures c !in Join(parts, sep)
  {
    if |parts| > 1 {
      AvoidsTail(parts, c);
      JoinChars(parts[1..], sep, c);
    }
  }

  function Repeat(c: char, n: nat): (r: string)
    ensures |r| == n
    ensures forall k :: 0 <= k < n ==> r[k] == c
  {
    if n == 0 then "" else [c] + Repeat(c, n - 1)
  }

  /** `s.padStart(n, c)`: `s`, with `c` put before it until it is `n` long. */
  function PadStart(s: string, n: nat, c: char): (r: string)
    ensures |r| == if |s| >= n then |s| else n
  {
    if |s| >= n then s else Repeat(c, n - |s|) + s
  }

  /** `s.padEnd(n, c)`: `s`, with `c` put after it until it is `n` long. */
  function PadEnd(s: string, n: nat, c: char): (r: string)
    ensures |r| == if |s| >= n then |s| else n
  {
    if |s| >= n then s else s + Repeat(c, n - |s|)
  }

  /** `padStart` keeps `s` at the end and puts only `c` before it. */
  lemma PadStartParts(s: string, n: nat, c: char)
    ensures var r := PadStart(s, n, c);
      r[|r| - |s|..] == s && forall k :: 0 <= k < |r| - |s| ==> r[k] == c
  {
    if |s| < n {
      var r := PadStart(s, n, c);
      assert r[|r| - |s|..] == s;
    }
  }

  /** `padEnd` keeps `s` at the start and puts only `c` after it. */
  lemma PadEndParts(s: string, n: nat, c: char)
    ensures var r := PadEnd(s, n, c);
      r[..|s|] == s && forall k :: |s| <= k < |r| ==> r[k] == c
  {
    if |s| < n {
      var r := PadEnd(s, n, c);
      assert r[..|s|] == s;
    }
  }

  /** Padding adds only the pad character. */
  lemma PadChars(s: string, n: nat, p: char, c: char)
    requires c != p && c !in s
    ensures c !in PadStart(s, n, p) && c !in PadEnd(s, n, p)
  {
    var a, b := PadStart(s, n, p), PadEnd(s, n, p);
    PadStartParts(s, n, p);
    PadEndParts(s, n, p);
    forall k | 0 <= k < |a| ensures a[k] != c {
      if k >= |a| - |s| { assert a[k] == a[|a| - |s|..][k - (|a| - |s|)]; }
    }
    forall k | 0 <= k < |b| ensures b[k] != c {
      if k < |s| { assert b[k] == b[..|s|][k]; }
    }
  }

  /** No white-space character occurs in a string without white space. */
  lemma NoSpaceHasNoNewline(s: string)
    requires NoSpace(s)
    ensures '\n' !in s
  {
    assert forall k :: 0 <= k < |s| ==> s[k] != '\n';
  }

  /** The strings of `parts`, each followed by `sep`: the text of a file whose every line ends in a line break. */
  function Terminated(parts: seq<string>, sep: char): string {
    if parts == [] then "" else Terminated(parts[..|parts| - 1], sep) + parts[|parts| - 1] + [sep]
  }

  lemma TerminatedSnoc(parts: seq<string>, p: string, sep: char)
    ensures Terminated(parts + [p], sep) == Terminated(parts, sep) + p + [sep]
  {
    assert (parts + [p])[..|parts|] == parts;
  }

  /** A non-empty terminated text is the joined parts and one more separator. */
  lemma {:induction false} TerminatedJoin(parts: seq<string>, sep: char)
    requires parts != []
    ensures Terminated(parts, sep) == Join(parts, sep) + [sep]
  {
    var n := |parts| - 1;
    if n > 0 {
      var init := parts[..n];
      TerminatedJoin(init, sep);
      JoinSnoc(init, parts[n], sep);
      assert init + [parts[n]] == parts;
    }
  }

  /** Splitting a terminated text at its separator gives the parts back, followed by one empty piece. */
  lemma SplitTerminated(parts: seq<string>, sep: char)
    requires Avoids(parts, sep)
    ensures Split(Terminated(parts, sep), sep) == parts + [""]
  {
    IndexOfIs("", sep, 0);
    if parts != [] {
      TerminatedJoin(parts, sep);
      assert Terminated(parts, sep) == Join(parts, sep) + [sep] + "";
      SplitAppend(Join(parts, sep), "", sep);
      SplitJoin(parts, sep);
    }
  }
}
