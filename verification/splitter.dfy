/** The statement splitter of internal/request/legacy.go.

    The specification is an automaton that reads one character at a time and never looks
    ahead. The code is a loop over five variables that looks two characters ahead and jumps
    over what it has seen; `SplitSQL` is that loop, proved to compute the specification. */
module Splitter {
  import opened Text

  /** Where a reader stands after some prefix of the text. `Slash`, `Dash`, `DashDash` and
      `Closing` are code whose last characters may yet turn out to open a comment, or to
      double a quote. */
  datatype Lex =
    | Code | Slash | Dash | DashDash | Closing(q: Quote)
    | Line
    | Block | BlockStar
    | Quoted(q: Quote) | Escaped(q: Quote)

  predicate IsQuote(c: char) { c == '\'' || c == '"' || c == '`' }

  type Quote = c: char | IsQuote(c) witness '`'

  /** Outside quotes and comments: a ';' read here ends a statement. */
  predicate Outside(st: Lex) {
    st.Code? || st.Slash? || st.Dash? || st.DashDash? || st.Closing?
  }

  /** Inside a quote or a block comment: text may not end here. */
  predicate Unfinished(st: Lex) {
    st.Block? || st.BlockStar? || st.Quoted? || st.Escaped?
  }

  function CodeStep(c: char): Lex {
    if c == '/' then Slash
    else if c == '-' then Dash
    else if c == '#' then Line
    else if IsQuote(c) then Quoted(c)
    else Code
  }

  function Step(st: Lex, c: char): Lex {
    match st
    case Code => CodeStep(c)
    case Slash => if c == '*' then Block else CodeStep(c)
    case Dash => if c == '-' then DashDash else CodeStep(c)
    case DashDash => if c == '-' then DashDash else if c == '\n' then Code else if IsSpace(c) then Line else CodeStep(c)
    case Closing(q) => if c == q then Quoted(q) else CodeStep(c)
    case Line => if c == '\n' then Code else Line
    case Block => if c == '*' then BlockStar else Block
    case BlockStar => if c == '/' then Code else if c == '*' then BlockStar else Block
    case Quoted(q) => if c == '\\' && q != '`' then Escaped(q) else if c == q then Closing(q) else Quoted(q)
    case Escaped(q) => Quoted(q)
  }

  function Run(st: Lex, s: string): Lex
    decreases |s|
  {
    if s == [] then st else Run(Step(st, s[0]), s[1..])
  }

  /** The text cut at every ';' that the automaton reads outside quotes and comments. */
  function Pieces(st: Lex, cur: string, s: string): seq<string>
    decreases |s|
  {
    if s == [] then [cur]
    else if s[0] == ';' && Outside(st) then [cur] + Pieces(Code, [], s[1..])
    else Pieces(Step(st, s[0]), cur + [s[0]], s[1..])
  }

  function KeepOne(p: string): seq<string> {
    if Trim(p) == [] then [] else [Trim(p)]
  }

  /** Trim each piece and drop those with nothing left. */
  function Keep(pieces: seq<string>): seq<string> {
    if pieces == [] then [] else KeepOne(pieces[0]) + Keep(pieces[1..])
  }

  datatype Result = Parts(parts: seq<string>) | Unterminated

  function Split(s: string): Result {
    if Unfinished(Run(Code, s)) then Unterminated else Parts(Keep(Pieces(Code, [], s)))
  }

  // ---------------------------------------------------------------- the automaton

  lemma {:induction false} RunConcat(st: Lex, a: string, b: string)
    ensures Run(st, a + b) == Run(Run(st, a), b)
    decreases |a|
  {
    if a == [] {
      assert a + b == b;
    } else {
      assert (a + b)[1..] == a[1..] + b;
      RunConcat(Step(st, a[0]), a[1..], b);
    }
  }

  lemma RunSnoc(st: Lex, a: string, c: char)
    ensures Run(st, a + [c]) == Step(Run(st, a), c)
  {
    RunConcat(st, a, [c]);
    assert [c][1..] == [];
  }

  lemma {:induction false} RunBlank(w: string)
    requires Blank(w)
    ensures Run(Code, w) == Code
  {
    if w != [] {
      RunBlank(w[1..]);
    }
  }

  /** White space leaves a quote or a block comment open, and what is outside stays outside or
      becomes a line comment; only a newline ends a line comment. */
  lemma {:induction false} RunBlankFrom(st: Lex, w: string)
    requires Blank(w)
    ensures Unfinished(st) ==> Unfinished(Run(st, w))
    decreases |w|
  {
    if w != [] {
      RunBlankFrom(Step(st, w[0]), w[1..]);
    }
  }

  // ---------------------------------------------------------------- where the cuts are

  /** `s`, read from state `st`, has no ';' outside quotes and comments. */
  ghost predicate NoCut(st: Lex, s: string) {
    forall i :: 0 <= i < |s| && s[i] == ';' ==> !Outside(Run(st, s[..i]))
  }

  lemma NoCutTail(st: Lex, s: string)
    requires NoCut(st, s) && s != []
    ensures !(s[0] == ';' && Outside(st)) && NoCut(Step(st, s[0]), s[1..])
  {
    assert s[..0] == [];
    forall i | 0 <= i < |s[1..]| && s[1..][i] == ';'
      ensures !Outside(Run(Step(st, s[0]), s[1..][..i]))
    {
      assert s[..i + 1][1..] == s[1..][..i];
      assert s[i + 1] == ';';
    }
  }

  lemma NoCutCons(st: Lex, c: char, s: string)
    requires !(c == ';' && Outside(st)) && NoCut(Step(st, c), s)
    ensures NoCut(st, [c] + s)
  {
    var t := [c] + s;
    forall i | 0 <= i < |t| && t[i] == ';' ensures !Outside(Run(st, t[..i])) {
      if i > 0 {
        assert t[..i][1..] == s[..i - 1];
        assert s[i - 1] == ';';
      }
    }
  }

  lemma NoCutPrefix(st: Lex, a: string, b: string)
    requires NoCut(st, a + b)
    ensures NoCut(st, a) && NoCut(Run(st, a), b)
  {
    forall i | 0 <= i < |a| && a[i] == ';' ensures !Outside(Run(st, a[..i])) {
      assert (a + b)[..i] == a[..i] && (a + b)[i] == ';';
    }
    forall i | 0 <= i < |b| && b[i] == ';' ensures !Outside(Run(Run(st, a), b[..i])) {
      assert (a + b)[..|a| + i] == a + b[..i] && (a + b)[|a| + i] == ';';
      RunConcat(st, a, b[..i]);
    }
  }

  lemma NoCutBlankPrefix(w: string, s: string)
    requires Blank(w) && NoCut(Code, s)
    ensures NoCut(Code, w + s)
  {
    forall i | 0 <= i < |w + s| && (w + s)[i] == ';' ensures !Outside(Run(Code, (w + s)[..i])) {
      if i >= |w| {
        assert (w + s)[..i] == w + s[..i - |w|] && s[i - |w|] == ';';
        RunConcat(Code, w, s[..i - |w|]);
        RunBlank(w);
      }
    }
  }

  /** Text without a cut is carried whole into the current piece. */
  lemma {:induction false} PiecesScan(st: Lex, cur: string, a: string, rest: string)
    requires NoCut(st, a)
    ensures Pieces(st, cur, a + rest) == Pieces(Run(st, a), cur + a, rest)
    decreases |a|
  {
    if a == [] {
      assert a + rest == rest && cur + a == cur;
    } else {
      NoCutTail(st, a);
      assert (a + rest)[1..] == a[1..] + rest;
      assert cur + [a[0]] + a[1..] == cur + a;
      PiecesScan(Step(st, a[0]), cur + [a[0]], a[1..], rest);
    }
  }

  /** A list of pieces is cut correctly when no piece holds a further cut and every ';' put
      back between two pieces is outside quotes and comments. */
  ghost predicate CutExactly(pieces: seq<string>) {
    pieces != []
    && (forall k :: 0 <= k < |pieces| ==> NoCut(Code, pieces[k]))
    && (forall k :: 0 <= k < |pieces| - 1 ==> Outside(Run(Code, pieces[k])))
  }

  lemma NoCutSnoc(cur: string, c: char)
    requires NoCut(Code, cur) && !(c == ';' && Outside(Run(Code, cur)))
    ensures NoCut(Code, cur + [c])
  {
    var cur' := cur + [c];
    forall i | 0 <= i < |cur'| && cur'[i] == ';' ensures !Outside(Run(Code, cur'[..i])) {
      if i < |cur| {
        assert cur'[..i] == cur[..i] && cur[i] == ';';
      } else {
        assert cur'[..i] == cur;
      }
    }
  }

  lemma CutExactlyCons(p: string, tail: seq<string>)
    requires NoCut(Code, p) && Outside(Run(Code, p)) && CutExactly(tail)
    ensures CutExactly([p] + tail) && Join([p] + tail, ";") == p + ";" + Join(tail, ";")
  {
    var ps := [p] + tail;
    assert ps[1..] == tail;
    forall k | 0 <= k < |ps| ensures NoCut(Code, ps[k]) {
      if k > 0 { assert ps[k] == tail[k - 1]; }
    }
    forall k | 0 <= k < |ps| - 1 ensures Outside(Run(Code, ps[k])) {
      if k > 0 { assert ps[k] == tail[k - 1]; }
    }
  }

  lemma {:induction false} PiecesScanned(cur: string, s: string)
    requires NoCut(Code, cur)
    ensures var ps := Pieces(Run(Code, cur), cur, s);
            CutExactly(ps) && Join(ps, ";") == cur + s && cur <= ps[0]
    decreases |s|
  {
    var st := Run(Code, cur);
    if s == [] {
      assert cur + s == cur;
    } else if s[0] == ';' && Outside(st) {
      assert NoCut(Code, []);
      PiecesScanned([], s[1..]);
      var tail := Pieces(Code, [], s[1..]);
      assert [] + s[1..] == s[1..];
      CutExactlyCons(cur, tail);
      assert cur + ";" + s[1..] == cur + s;
    } else {
      RunSnoc(Code, cur, s[0]);
      NoCutSnoc(cur, s[0]);
      PiecesScanned(cur + [s[0]], s[1..]);
      assert cur + [s[0]] + s[1..] == cur + s;
    }
  }

  /** The specification cuts at a ';' exactly when it lies outside quotes and comments: putting
      the semicolons back gives the text, and no other list of pieces is cut that way. */
  lemma PiecesAreTheCuts(s: string)
    ensures CutExactly(Pieces(Code, [], s)) && Join(Pieces(Code, [], s), ";") == s
  {
    assert NoCut(Code, []);
    PiecesScanned([], s);
    assert [] + s == s;
  }

  lemma {:induction false} CutsAreUnique(pieces: seq<string>)
    requires CutExactly(pieces)
    ensures Pieces(Code, [], Join(pieces, ";")) == pieces
  {
    var p := pieces[0];
    if |pieces| == 1 {
      PiecesScan(Code, [], p, []);
      assert p + [] == p && [] + p == p;
    } else {
      var rest := Join(pieces[1..], ";");
      assert p + ";" + rest == p + (";" + rest);
      PiecesScan(Code, [], p, ";" + rest);
      assert [] + p == p && (";" + rest)[1..] == rest;
      forall k | 0 <= k < |pieces[1..]| ensures NoCut(Code, pieces[1..][k]) {
      }
      CutsAreUnique(pieces[1..]);
    }
  }

  // ---------------------------------------------------------------- the loop

  /** The five variables of the loop and the automaton describe the same place, given the text
      `ahead` still to be read. Where the loop has already looked ahead, the automaton finds out
      on the next character. */
  ghost predicate Agree(quote: char, escaped: bool, block: bool, line: bool, st: Lex, ahead: string) {
    if line then
      !block && quote == '\0' && !escaped
      && (st.Line? || (st.DashDash? && (ahead == [] || IsSpace(ahead[0]))))
    else if block then
      quote == '\0' && !escaped && (st.Block? || (st.BlockStar? && (ahead == [] || ahead[0] != '/')))
    else if quote != '\0' then
      IsQuote(quote) && st == (if escaped then Escaped(quote) else Quoted(quote))
    else
      !escaped
      && (st.Code?
          || (st.Slash? && (ahead == [] || ahead[0] != '*'))
          || (st.Dash? && (ahead == [] || ahead[0] != '-' || (|ahead| > 1 && !IsSpace(ahead[1]))))
          || (st.DashDash? && ahead != [] && !IsSpace(ahead[0])
              && (ahead[0] != '-' || (|ahead| > 1 && !IsSpace(ahead[1]))))
          || (st.Closing? && (ahead == [] || ahead[0] != st.q)))
  }

  /** One character that is not a cut moves from the text ahead into the current piece. */
  lemma Advance(s: string, start: nat, i: nat)
    requires start <= i < |s|
    requires !(s[i] == ';' && Outside(Run(Code, s[..i])))
    ensures Run(Code, s[..i + 1]) == Step(Run(Code, s[..i]), s[i])
    ensures Pieces(Run(Code, s[..i]), s[start..i], s[i..])
         == Pieces(Run(Code, s[..i + 1]), s[start..i + 1], s[i + 1..])
  {
    assert s[..i + 1] == s[..i] + [s[i]] && s[start..i + 1] == s[start..i] + [s[i]];
    assert s[i..][1..] == s[i + 1..];
    RunSnoc(Code, s[..i], s[i]);
  }

  /** A ';' outside quotes and comments closes the current piece. */
  lemma Cut(s: string, start: nat, i: nat, done: seq<string>)
    requires start <= i < |s| && s[i] == ';' && Outside(Run(Code, s[..i]))
    ensures Run(Code, s[..i + 1]) == Code
    ensures done + Keep(Pieces(Run(Code, s[..i]), s[start..i], s[i..]))
         == done + KeepOne(s[start..i]) + Keep(Pieces(Code, [], s[i + 1..]))
  {
    assert s[..i + 1] == s[..i] + [s[i]] && s[i..][1..] == s[i + 1..];
    RunSnoc(Code, s[..i], s[i]);
    var tail := Pieces(Code, [], s[i + 1..]);
    assert ([s[start..i]] + tail)[1..] == tail;
  }

  /** What the loop has established once it stands at `i` with the current piece begun at `start`. */
  ghost predicate Invariant(s: string, start: nat, i: nat, quote: char, escaped: bool, block: bool, line: bool,
                            result: seq<string>)
  {
    start <= i <= |s|
    && Agree(quote, escaped, block, line, Run(Code, s[..i]), s[i..])
    && result + Keep(Pieces(Run(Code, s[..i]), s[start..i], s[i..])) == Keep(Pieces(Code, [], s))
  }

  lemma FlagsExclude(s: string, start: nat, i: nat, quote: char, escaped: bool, block: bool, line: bool,
                     result: seq<string>)
    requires Invariant(s, start, i, quote, escaped, block, line, result)
    ensures line ==> !block && quote == '\0' && !escaped
    ensures block ==> quote == '\0' && !escaped
    ensures quote == '\0' ==> !escaped
  {
  }

  lemma InLine(s: string, start: nat, i: nat, result: seq<string>)
    requires i < |s| && Invariant(s, start, i, '\0', false, false, true, result)
    ensures Invariant(s, start, i + 1, '\0', false, false, s[i] != '\n', result)
  {
    Advance(s, start, i);
  }

  lemma InBlock(s: string, start: nat, i: nat, result: seq<string>)
    requires i < |s| && Invariant(s, start, i, '\0', false, true, false, result)
    ensures if s[i] == '*' && i + 1 < |s| && s[i + 1] == '/'
            then Invariant(s, start, i + 2, '\0', false, false, false, result)
            else Invariant(s, start, i + 1, '\0', false, true, false, result)
  {
    Advance(s, start, i);
    if s[i] == '*' && i + 1 < |s| && s[i + 1] == '/' {
      Advance(s, start, i + 1);
    }
  }

  lemma InQuote(s: string, start: nat, i: nat, q: char, escaped: bool, result: seq<string>)
    requires i < |s| && q != '\0' && Invariant(s, start, i, q, escaped, false, false, result)
    ensures if escaped then Invariant(s, start, i + 1, q, false, false, false, result)
            else if s[i] == '\\' && q != '`' then Invariant(s, start, i + 1, q, true, false, false, result)
            else if s[i] != q then Invariant(s, start, i + 1, q, false, false, false, result)
            else if i + 1 < |s| && s[i + 1] == q then Invariant(s, start, i + 2, q, false, false, false, result)
            else Invariant(s, start, i + 1, '\0', false, false, false, result)
  {
    Advance(s, start, i);
    if !escaped && s[i] == q && i + 1 < |s| && s[i + 1] == q {
      Advance(s, start, i + 1);
    }
  }

  lemma InCodeBlock(s: string, start: nat, i: nat, result: seq<string>)
    requires i + 1 < |s| && Invariant(s, start, i, '\0', false, false, false, result)
    requires s[i] == '/' && s[i + 1] == '*'
    ensures Invariant(s, start, i + 2, '\0', false, true, false, result)
  {
    Advance(s, start, i);
    Advance(s, start, i + 1);
  }

  lemma InCodeHash(s: string, start: nat, i: nat, result: seq<string>)
    requires i < |s| && s[i] == '#' && Invariant(s, start, i, '\0', false, false, false, result)
    ensures Invariant(s, start, i + 1, '\0', false, false, true, result)
  {
    Advance(s, start, i);
  }

  lemma InCodeDashes(s: string, start: nat, i: nat, result: seq<string>)
    requires i + 1 < |s| && Invariant(s, start, i, '\0', false, false, false, result)
    requires s[i] == '-' && s[i + 1] == '-' && (i + 2 >= |s| || IsSpace(s[i + 2]))
    ensures Invariant(s, start, i + 2, '\0', false, false, true, result)
  {
    Advance(s, start, i);
    Advance(s, start, i + 1);
  }

  predicate LineOpens(s: string, i: nat)
    requires i < |s|
  {
    s[i] == '#' || (s[i] == '-' && i + 1 < |s| && s[i + 1] == '-' && (i + 2 >= |s| || IsSpace(s[i + 2])))
  }

  lemma InCode(s: string, start: nat, i: nat, result: seq<string>)
    requires i < |s| && Invariant(s, start, i, '\0', false, false, false, result)
    requires !(s[i] == '/' && i + 1 < |s| && s[i + 1] == '*') && !LineOpens(s, i)
    ensures if IsQuote(s[i]) then Invariant(s, start, i + 1, s[i], false, false, false, result)
            else if s[i] != ';' then Invariant(s, start, i + 1, '\0', false, false, false, result)
            else Invariant(s, i + 1, i + 1, '\0', false, false, false, result + KeepOne(s[start..i]))
  {
    if s[i] == ';' {
      Cut(s, start, i, result);
      assert s[i + 1..i + 1] == [];
    } else {
      Advance(s, start, i);
    }
  }

  lemma AtEnd(s: string, start: nat, quote: char, escaped: bool, block: bool, line: bool, result: seq<string>)
    requires Invariant(s, start, |s|, quote, escaped, block, line, result)
    ensures Split(s) == if quote != '\0' || block then Unterminated else Parts(result + KeepOne(s[start..]))
  {
    assert s[..|s|] == s && s[|s|..] == [] && s[start..|s|] == s[start..];
    var last := s[start..];
    assert [last][1..] == [];
    assert Keep([last]) == KeepOne(last) + Keep([]);
  }

  /** Both places that close a piece: keep it trimmed, unless nothing is left. */
  method AppendPart(result: seq<string>, piece: string) returns (r: seq<string>)
    ensures r == result + KeepOne(piece)
  {
    var part := Trim(piece);
    r := if part != [] then result + [part] else result;
  }

  /** The branch of the loop that reads inside quotes. */
  method ReadInQuote(input: string, ghost start: nat, i: nat, quote: char, escaped: bool, ghost result: seq<string>)
    returns (i': nat, quote': char, escaped': bool)
    requires i < |input| && quote != '\0' && Invariant(input, start, i, quote, escaped, false, false, result)
    ensures i < i' <= |input| && Invariant(input, start, i', quote', escaped', false, false, result)
  {
    InQuote(input, start, i, quote, escaped, result);
    var c := input[i];
    var next := if i + 1 < |input| then input[i + 1] else '\0';
    if escaped {
      return i + 1, quote, false;
    }
    if c == '\\' && quote != '`' {
      return i + 1, quote, true;
    }
    if c == quote {
      if next == quote {
        return i + 2, quote, false;
      }
      return i + 1, '\0', false;
    }
    return i + 1, quote, false;
  }

  /** The rest of the loop body, outside quotes and comments: a comment or a quote opens, or a ';' closes
      the current piece. */
  method ReadInCode(input: string, start: nat, i: nat, result: seq<string>)
    returns (start': nat, i': nat, quote: char, block: bool, line: bool, result': seq<string>)
    requires i < |input| && Invariant(input, start, i, '\0', false, false, false, result)
    ensures i < i' && Invariant(input, start', i', quote, false, block, line, result')
  {
    start', quote, block, line, result' := start, '\0', false, false, result;
    var c := input[i];
    var next := if i + 1 < |input| then input[i + 1] else '\0';
    if c == '/' && next == '*' {
      InCodeBlock(input, start, i, result);
      block, i' := true, i + 2;
      return;
    }
    if c == '#' || (c == '-' && next == '-' && (i + 2 >= |input| || IsSpace(input[i + 2]))) {
      line, i' := true, i + 1;
      if c == '-' {
        InCodeDashes(input, start, i, result);
        i' := i' + 1;
      } else {
        InCodeHash(input, start, i, result);
      }
      return;
    }
    InCode(input, start, i, result);
    i' := i + 1;
    if c == '\'' || c == '"' || c == '`' {
      quote := c;
      return;
    }
    if c == ';' {
      result' := AppendPart(result, input[start..i]);
      start' := i + 1;
    }
  }

  method SplitSQL(input: string) returns (r: Result)
    ensures r == Split(input)
  {
    var result: seq<string> := [];
    var start, i := 0, 0;
    var quote := '\0';
    var blockComment, lineComment, escaped := false, false, false;
    assert input[..0] == [] && input[0..] == input;
    while i < |input|
      invariant 0 <= start <= i <= |input|
      invariant Invariant(input, start, i, quote, escaped, blockComment, lineComment, result)
      decreases |input| - i
    {
      var c := input[i];
      FlagsExclude(input, start, i, quote, escaped, blockComment, lineComment, result);
      var next := if i + 1 < |input| then input[i + 1] else '\0';
      if lineComment {
        InLine(input, start, i, result);
        if c == '\n' {
          lineComment := false;
        }
        i := i + 1;
        continue;
      }
      if blockComment {
        InBlock(input, start, i, result);
        if c == '*' && next == '/' {
          blockComment := false;
          i := i + 1;
        }
        i := i + 1;
        continue;
      }
      if quote != '\0' {
        i, quote, escaped := ReadInQuote(input, start, i, quote, escaped, result);
        continue;
      }
      start, i, quote, blockComment, lineComment, result := ReadInCode(input, start, i, result);
    }
    AtEnd(input, start, quote, escaped, blockComment, lineComment, result);
    if quote != '\0' || blockComment {
      return Unterminated;
    }
    result := AppendPart(result, input[start..]);
    return Parts(result);
  }

  // ---------------------------------------------------------------- joining the parts again

  /** How ParseLegacyEnvelope puts the body together after splitting the request. */
  function Rejoin(parts: seq<string>): string {
    Join(parts, ";\n") + ";"
  }

  /** A part that stands for exactly one statement wherever it is followed by ';'. */
  ghost predicate Atomic(p: string) {
    NoCut(Code, p) && Outside(Run(Code, p))
  }

  lemma RejoinUnfolds(parts: seq<string>)
    requires parts != []
    ensures Rejoin(parts) == parts[0] + ";" + (if |parts| == 1 then [] else "\n" + Rejoin(parts[1..]))
  {
    if |parts| > 1 {
      var rest := Join(parts[1..], ";\n");
      assert parts[0] + ";\n" + rest + ";" == parts[0] + ";" + ("\n" + (rest + ";"));
    } else {
      assert parts[0] + ";" + [] == parts[0] + ";";
    }
  }

  lemma TrimmedKept(p: string)
    requires Trimmed(p)
    ensures KeepOne(p) == [p] && KeepOne("\n" + p) == [p] && KeepOne([]) == []
  {
    TrimUnique([], p, []);
    assert [] + p + [] == p;
    TrimUnique("\n", p, []);
    assert "\n" + p + [] == "\n" + p;
  }

  lemma JoinFirst(pre: string, ps: seq<string>, qs: seq<string>)
    requires ps != [] && qs == [pre + ps[0]] + ps[1..]
    ensures Join(qs, ";") == pre + Join(ps, ";")
  {
    assert qs[1..] == ps[1..];
    if |ps| > 1 {
      assert pre + ps[0] + ";" + Join(ps[1..], ";") == pre + (ps[0] + ";" + Join(ps[1..], ";"));
    }
  }

  lemma NewlinePieces(ps: seq<string>)
    requires CutExactly(ps)
    ensures Pieces(Code, [], "\n" + Join(ps, ";")) == ["\n" + ps[0]] + ps[1..]
  {
    var qs := ["\n" + ps[0]] + ps[1..];
    NoCutBlankPrefix("\n", ps[0]);
    RunConcat(Code, "\n", ps[0]);
    RunBlank("\n");
    assert qs[1..] == ps[1..];
    assert CutExactly(qs) by {
      assert forall k :: 1 <= k < |qs| ==> qs[k] == ps[k];
    }
    assert Join(qs, ";") == "\n" + Join(ps, ";") by {
      JoinFirst("\n", ps, qs);
    }
    CutsAreUnique(qs);
  }

  lemma NewlineKept(p: string)
    ensures KeepOne("\n" + p) == KeepOne(p)
  {
    var pre, post := TrimSplits(p);
    TrimUnique("\n" + pre, Trim(p), post);
    assert "\n" + p == "\n" + pre + Trim(p) + post;
  }

  /** A newline in front of the text changes neither the parts nor whether the text ends open. */
  lemma LeadingNewline(s: string)
    ensures Keep(Pieces(Code, [], "\n" + s)) == Keep(Pieces(Code, [], s))
    ensures Run(Code, "\n" + s) == Run(Code, s)
  {
    RunConcat(Code, "\n", s);
    RunBlank("\n");
    PiecesAreTheCuts(s);
    var ps := Pieces(Code, [], s);
    NewlinePieces(ps);
    NewlineKept(ps[0]);
    KeepFirst("\n" + ps[0], ps[1..]);
  }

  lemma AtomicFirstPieces(p: string, rest: string)
    requires Atomic(p)
    ensures Pieces(Code, [], p + (";" + rest)) == [p] + Pieces(Code, [], rest)
    ensures Run(Code, p + (";" + rest)) == Run(Code, rest)
  {
    PiecesScan(Code, [], p, ";" + rest);
    assert [] + p == p && (";" + rest)[1..] == rest;
    RunConcat(Code, p, ";" + rest);
  }

  /** What the splitter makes of an atomic first part. */
  lemma AtomicFirst(p: string, rest: string)
    requires Trimmed(p) && Atomic(p)
    ensures Keep(Pieces(Code, [], p + ";" + rest)) == [p] + Keep(Pieces(Code, [], rest))
    ensures Run(Code, p + ";" + rest) == Run(Code, rest)
  {
    assert p + ";" + rest == p + (";" + rest);
    AtomicFirstPieces(p, rest);
    TrimmedKept(p);
    KeepFirst(p, Pieces(Code, [], rest));
  }

  lemma KeepFirst(p: string, tail: seq<string>)
    ensures Keep([p] + tail) == KeepOne(p) + Keep(tail)
  {
    assert ([p] + tail)[1..] == tail;
  }

  /** No part begins with ';': such a ';' would have been a cut. */
  lemma {:induction false} PartsStartElsewhere(pieces: seq<string>, k: nat)
    requires forall j :: 0 <= j < |pieces| ==> NoCut(Code, pieces[j])
    requires k < |Keep(pieces)|
    ensures Keep(pieces)[k] != [] && Keep(pieces)[k][0] != ';'
  {
    var p := pieces[0];
    var kept := KeepOne(p);
    if k < |kept| {
      var pre, post := TrimSplits(p);
      assert p[..|pre|] == pre && p[|pre|] == Trim(p)[0];
      RunBlank(pre);
    } else {
      forall j | 0 <= j < |pieces[1..]| ensures NoCut(Code, pieces[1..][j]) {
        assert pieces[1..][j] == pieces[j + 1];
      }
      PartsStartElsewhere(pieces[1..], k - |kept|);
    }
  }

  lemma {:induction false} FirstCut(p: string) returns (i: nat)
    requires !NoCut(Code, p)
    ensures i < |p| && p[i] == ';' && Outside(Run(Code, p[..i])) && NoCut(Code, p[..i])
  {
    i :| 0 <= i < |p| && p[i] == ';' && Outside(Run(Code, p[..i]));
    while !NoCut(Code, p[..i])
      invariant i < |p| && p[i] == ';' && Outside(Run(Code, p[..i]))
      decreases i
    {
      var j :| 0 <= j < |p[..i]| && p[..i][j] == ';' && Outside(Run(Code, p[..i][..j]));
      assert p[..i][..j] == p[..j];
      i := j;
    }
  }

  /** A first part that is not atomic never comes back first. */
  lemma NotAtomicFirst(p: string, rest: string, out: seq<string>)
    requires Trimmed(p) && !Atomic(p)
    requires out == Keep(Pieces(Code, [], p + ";" + rest))
    ensures out == [] || out[0] != p
  {
    var s := p + ";" + rest;
    PiecesAreTheCuts(s);
    if NoCut(Code, p) {
      // The ';' after p is not a cut, so the first piece is longer than p.
      var tail := ";" + rest;
      assert s == p + tail;
      PiecesScan(Code, [], p, tail);
      assert [] + p == p;
      PiecesContinue(p, tail);
    } else {
      NotAtomicFirstCut(p, rest);
    }
  }

  lemma NotAtomicFirstCut(p: string, rest: string)
    requires Trimmed(p) && !NoCut(Code, p)
    ensures var out := Keep(Pieces(Code, [], p + ";" + rest)); out == [] || out[0] != p
  {
    var i := FirstCut(p);
    var tail := p[i + 1..] + ";" + rest;
    assert p + ";" + rest == p[..i] + (";" + tail);
    AtomicFirstPieces(p[..i], tail);
    var later := Pieces(Code, [], tail);
    KeepFirst(p[..i], later);
    var pre, post := TrimSplits(p[..i]);
    assert i > 0 ==> p[..i][0] == p[0];
    if Trim(p[..i]) == [] {
      PiecesAreTheCuts(tail);
      if Keep(later) != [] {
        PartsStartElsewhere(later, 0);
      }
    }
  }

  lemma PiecesContinue(p: string, tail: string)
    requires Trimmed(p) && NoCut(Code, p) && tail != [] && tail[0] == ';' && !Outside(Run(Code, p))
    ensures var out := Keep(Pieces(Run(Code, p), p, tail));
            out != [] && |out[0]| > |p|
  {
    var p' := p + [tail[0]];
    NoCutSnoc(p, tail[0]);
    RunSnoc(Code, p, tail[0]);
    PiecesScanned(p', tail[1..]);
    var ps := Pieces(Run(Code, p), p, tail);
    var rest := ps[0][|p'|..];
    assert ps[0] == p' + rest;
    var w := TrimRightSplits(ps[0]);
    assert TrimLeft(ps[0]) == ps[0];
    var t := TrimRight(ps[0]);
    forall j | |t| <= j < |ps[0]| ensures IsSpace(ps[0][j]) {
      assert ps[0][j] == w[j - |t|];
    }
    assert ps[0][|p|] == ';';
  }

  ghost predicate AllAtomic(parts: seq<string>) {
    forall k :: 0 <= k < |parts| ==> Atomic(parts[k])
  }

  lemma SplitNothing()
    ensures Split(Rejoin([])) == Parts([])
  {
    var none: string, nothing: seq<string> := [], [];
    assert Rejoin(nothing) == ";";
    assert Atomic(none);
    AtomicFirstPieces(none, none);
    assert none + (";" + none) == ";";
    assert Pieces(Code, [], none) == [none];
    assert Run(Code, none) == Code;
    KeepFirst(none, [none]);
    KeepFirst(none, nothing);
    assert [none] + nothing == [none];
  }

  lemma SplitOne(p: string)
    requires Trimmed(p) && Atomic(p)
    ensures Split(Rejoin([p])) == Parts([p])
  {
    RejoinUnfolds([p]);
    AtomicFirst(p, []);
    assert Keep([[]]) == KeepOne([]) + Keep([[]][1..]);
  }

  /** An atomic first part comes back in front of what the rest gives. */
  lemma SplitFirst(parts: seq<string>)
    requires |parts| > 1 && Trimmed(parts[0]) && Atomic(parts[0])
    ensures Split(Rejoin(parts)) == match Split(Rejoin(parts[1..]))
                                    case Unterminated => Unterminated
                                    case Parts(later) => Parts([parts[0]] + later)
  {
    RejoinUnfolds(parts);
    AtomicFirst(parts[0], "\n" + Rejoin(parts[1..]));
    LeadingNewline(Rejoin(parts[1..]));
  }

  lemma SplitOther(parts: seq<string>)
    requires parts != [] && Trimmed(parts[0]) && !Atomic(parts[0])
    ensures Split(Rejoin(parts)) != Parts(parts)
  {
    RejoinUnfolds(parts);
    NotAtomicFirst(parts[0], if |parts| == 1 then []
                   else "\n" + Rejoin(parts[1..]), Keep(Pieces(Code, [], Rejoin(parts))));
  }

  /** Splitting the rejoined parts gives the same parts if and only if every part, read followed
      by ';', holds no cut of its own and ends outside quotes and comments. */
  lemma {:induction false} RoundTrip(parts: seq<string>)
    requires forall k :: 0 <= k < |parts| ==> Trimmed(parts[k])
    ensures Split(Rejoin(parts)) == Parts(parts) <==> AllAtomic(parts)
  {
    if parts == [] {
      SplitNothing();
    } else if !Atomic(parts[0]) {
      SplitOther(parts);
    } else if |parts| == 1 {
      assert parts == [parts[0]];
      SplitOne(parts[0]);
    } else {
      var rest := parts[1..];
      assert parts == [parts[0]] + rest;
      SplitFirst(parts);
      RoundTrip(rest);
      assert AllAtomic(parts) <==> AllAtomic(rest) by {
        assert forall k :: 1 <= k < |parts| ==> parts[k] == rest[k - 1];
        assert forall k :: 0 <= k < |rest| ==> rest[k] == parts[k + 1];
      }
      assert forall later :: [parts[0]] + later == parts ==> later == rest by {
        forall later | [parts[0]] + later == parts ensures later == rest {
          assert ([parts[0]] + later)[1..] == later;
        }
      }
    }
  }

  /** What every part that the splitter returned looks like: the cuts are all gone, and only a
      line comment whose newline was trimmed away can keep it from being atomic. */
  lemma {:induction false} KeptParts(pieces: seq<string>, k: nat)
    requires forall j :: 0 <= j < |pieces| ==> NoCut(Code, pieces[j]) && !Unfinished(Run(Code, pieces[j]))
    requires k < |Keep(pieces)|
    ensures var p := Keep(pieces)[k]; Trimmed(p) && NoCut(Code, p) && !Unfinished(Run(Code, p))
  {
    var q := pieces[0];
    var kept := KeepOne(q);
    if k < |kept| {
      var pre, post := TrimSplits(q);
      var p := Trim(q);
      assert q == pre + (p + post);
      NoCutPrefix(Code, pre, p + post);
      RunBlank(pre);
      NoCutPrefix(Code, p, post);
      RunConcat(Code, pre, p + post);
      RunConcat(Code, p, post);
      RunBlankFrom(Run(Code, p), post);
    } else {
      forall j | 0 <= j < |pieces[1..]|
        ensures NoCut(Code, pieces[1..][j]) && !Unfinished(Run(Code, pieces[1..][j]))
      {
        assert pieces[1..][j] == pieces[j + 1];
      }
      KeptParts(pieces[1..], k - |kept|);
    }
  }

  lemma {:induction false} LastPieceState(pieces: seq<string>)
    requires CutExactly(pieces)
    ensures Run(Code, Join(pieces, ";")) == Run(Code, pieces[|pieces| - 1])
  {
    if |pieces| > 1 {
      var p, rest := pieces[0], pieces[1..];
      forall k | 0 <= k < |rest| ensures NoCut(Code, rest[k]) {
        assert rest[k] == pieces[k + 1];
      }
      LastPieceState(rest);
      assert p + ";" + Join(rest, ";") == p + (";" + Join(rest, ";"));
      RunConcat(Code, p, ";" + Join(rest, ";"));
      assert (";" + Join(rest, ";"))[1..] == Join(rest, ";");
    }
  }

  /** A part that the splitter returned is atomic unless it ends inside a line comment. */
  lemma PartIsAtomicOrLine(input: string, k: nat)
    requires Split(input).Parts? && k < |Split(input).parts|
    ensures var p := Split(input).parts[k]; Trimmed(p) && (Atomic(p) <==> !Run(Code, p).Line?)
  {
    var pieces := Pieces(Code, [], input);
    PiecesAreTheCuts(input);
    LastPieceState(pieces);
    KeptParts(pieces, k);
  }

  ghost predicate NoneInLineComment(parts: seq<string>) {
    forall k :: 0 <= k < |parts| ==> !Run(Code, parts[k]).Line?
  }

  lemma BodyParts(input: string, from: nat, to: nat)
    requires Split(input).Parts? && from <= to <= |Split(input).parts|
    ensures var body := Split(input).parts[from..to];
            (forall k :: 0 <= k < |body| ==> Trimmed(body[k])) && (AllAtomic(body) <==> NoneInLineComment(body))
  {
    var body := Split(input).parts[from..to];
    forall k | 0 <= k < |body|
      ensures Trimmed(body[k]) && (Atomic(body[k]) <==> !Run(Code, body[k]).Line?)
    {
      PartIsAtomicOrLine(input, from + k);
    }
  }

  /** The body that ParseLegacyEnvelope hands on: any run of parts of a request survives the
      rejoin if and only if none of them ends inside a line comment. */
  lemma BodyRoundTrip(input: string, from: nat, to: nat)
    requires Split(input).Parts? && from <= to <= |Split(input).parts|
    ensures var body := Split(input).parts[from..to];
            Split(Rejoin(body)) == Parts(body) <==> NoneInLineComment(body)
  {
    BodyParts(input, from, to);
    RoundTrip(Split(input).parts[from..to]);
  }

  /** What does not survive, for every such part: the newline that ended the comment is trimmed,
      and the ';' put behind the comment is swallowed by it. */
  lemma CommentSwallowsTheSemicolon(p: string)
    requires Trimmed(p) && NoCut(Code, p) && Run(Code, p).Line?
    ensures Split(p + "\n" + ";") == Parts([p])
    ensures Split(Rejoin([p])) != Parts([p])
  {
    var q := p + ['\n'];
    NoCutSnoc(p, '\n');
    RunSnoc(Code, p, '\n');
    AtomicFirstPieces(q, []);
    assert p + "\n" + ";" == q + (";" + []);
    KeepFirst(q, [[]]);
    TrimUnique([], p, "\n");
    assert [] + p + "\n" == q;
    assert Keep([[]]) == KeepOne([]) + Keep([[]][1..]);
    RoundTrip([p]);
    assert !Atomic([p][0]);
  }
}
