/** What the splitter of internal/request/legacy.go takes for quotes and comments, said by the text itself: which
    characters open them, what may stand inside, and what ends them. Nothing here speaks of the states of a
    reader until the proofs. */
module Lexical {
  import opened Text
  import opened Splitter

  /** Inside quotes: a character that is not special there, the quote twice, or a backslash and any character. */
  datatype Item = Char(c: char) | Twice | Backslash(c: char)

  datatype Token =
    | Plain(c: char)
    | Quotation(q: char, items: seq<Item>)
    | Hash(s: string)
    | Dashes(s: string)
    | Comment(s: string)

  function ItemText(q: char, i: Item): string {
    match i
    case Char(c) => [c]
    case Twice => [q, q]
    case Backslash(c) => ['\\', c]
  }

  function ItemsText(q: char, items: seq<Item>): string {
    if items == [] then [] else ItemText(q, items[0]) + ItemsText(q, items[1..])
  }

  /** Between backticks a backslash is a character like others. */
  predicate ItemFits(q: char, i: Item) {
    match i
    case Char(c) => c != q && (c == '\\' ==> q == '`')
    case Twice => true
    case Backslash(_) => q != '`'
  }

  predicate ItemsFit(q: char, items: seq<Item>) { forall k :: 0 <= k < |items| ==> ItemFits(q, items[k]) }

  function TokenText(t: Token): string {
    match t
    case Plain(c) => [c]
    case Quotation(q, items) => [q] + ItemsText(q, items) + [q]
    case Hash(s) => "#" + s + "\n"
    case Dashes(s) => "--" + s + "\n"
    case Comment(s) => "/*" + s + "*/"
  }

  predicate EndsIn(s: string, tail: string) { |tail| <= |s| && s[|s| - |tail|..] == tail }

  predicate OneLine(s: string) { '\n' !in s }

  predicate Spaced(s: string) { s != [] ==> IsSpace(s[0]) }

  /** The token can stand behind this text. */
  predicate TokenFits(before: string, t: Token) {
    match t
    case Plain(c) =>
      c != '\'' && c != '"' && c != '`' && c != '#' && c != ';'
      && (c == '*' ==> !EndsIn(before, "/")) && (IsSpace(c) ==> !EndsIn(before, "--"))
    case Quotation(q, items) => (q == '\'' || q == '"' || q == '`') && ItemsFit(q, items)
    case Hash(s) => OneLine(s)
    case Dashes(s) => OneLine(s) && Spaced(s)
    case Comment(s) => forall i :: 0 <= i < |s| - 1 ==> !(s[i] == '*' && s[i + 1] == '/')
  }

  function TextOf(tokens: seq<Token>): string {
    if tokens == [] then [] else TextOf(tokens[..|tokens| - 1]) + TokenText(tokens[|tokens| - 1])
  }

  /** A statement: tokens that can stand one behind the other. */
  predicate Sentence(tokens: seq<Token>) {
    forall k :: 0 <= k < |tokens| ==> TokenFits(TextOf(tokens[..k]), tokens[k])
  }

  // ---------------------------------------------------------------- one token

  lemma NoCutConcat(st: Lex, a: string, b: string)
    requires NoCut(st, a) && NoCut(Run(st, a), b)
    ensures NoCut(st, a + b)
  {
    forall i | 0 <= i < |a + b| && (a + b)[i] == ';' ensures !Outside(Run(st, (a + b)[..i])) {
      if i < |a| {
        assert (a + b)[..i] == a[..i] && a[i] == ';';
      } else {
        assert (a + b)[..i] == a + b[..i - |a|] && b[i - |a|] == ';';
        RunConcat(st, a, b[..i - |a|]);
      }
    }
  }

  lemma OneChar(st: Lex, c: char)
    ensures Run(st, [c]) == Step(st, c)
    ensures c != ';' || !Outside(st) ==> NoCut(st, [c])
  {
    assert [c][1..] == [] && [c][..0] == [];
  }

  lemma TwoChars(st: Lex, c: char, d: char)
    ensures Run(st, [c, d]) == Step(Step(st, c), d)
    ensures (c != ';' || !Outside(st)) && (d != ';' || !Outside(Step(st, c))) ==> NoCut(st, [c, d])
  {
    OneChar(st, c);
    OneChar(Step(st, c), d);
    assert [c, d] == [c] + [d];
    RunConcat(st, [c], [d]);
    if (c != ';' || !Outside(st)) && (d != ';' || !Outside(Step(st, c))) {
      NoCutConcat(st, [c], [d]);
    }
  }

  lemma {:induction false} InsideQuotes(q: Quote, items: seq<Item>)
    requires ItemsFit(q, items)
    ensures Run(Quoted(q), ItemsText(q, items)) == Quoted(q) && NoCut(Quoted(q), ItemsText(q, items))
  {
    if items != [] {
      var first, rest := ItemText(q, items[0]), ItemsText(q, items[1..]);
      assert ItemFits(q, items[0]);
      assert Run(Quoted(q), first) == Quoted(q) && NoCut(Quoted(q), first) by {
        match items[0]
        case Char(c) => OneChar(Quoted(q), c);
        case Twice => TwoChars(Quoted(q), q, q);
        case Backslash(c) => TwoChars(Quoted(q), '\\', c);
      }
      InsideQuotes(q, items[1..]);
      RunConcat(Quoted(q), first, rest);
      NoCutConcat(Quoted(q), first, rest);
    }
  }

  lemma {:induction false} InsideLine(s: string)
    requires OneLine(s)
    ensures Run(Line, s) == Line && NoCut(Line, s)
  {
    if s != [] {
      var n := |s| - 1;
      assert s == s[..n] + [s[n]];
      InsideLine(s[..n]);
      OneChar(Line, s[n]);
      RunConcat(Line, s[..n], [s[n]]);
      NoCutConcat(Line, s[..n], [s[n]]);
    }
  }

  lemma {:induction false} InsideComment(s: string)
    requires TokenFits("", Comment(s))
    ensures NoCut(Block, s)
    ensures Run(Block, s) == if s != [] && s[|s| - 1] == '*' then BlockStar else Block
  {
    if s != [] {
      var n := |s| - 1;
      var init := s[..n];
      assert s == init + [s[n]];
      InsideComment(init);
      assert n > 0 ==> !(s[n - 1] == '*' && s[n - 1 + 1] == '/');
      OneChar(Run(Block, init), s[n]);
      RunConcat(Block, init, [s[n]]);
      NoCutConcat(Block, init, [s[n]]);
    }
  }

  /** Behind text that ends outside quotes and comments, text of this kind leads outside again. */
  ghost predicate Closed(st: Lex, s: string) { NoCut(st, s) && Outside(Run(st, s)) }

  lemma QuotationCloses(st: Lex, q: Quote, items: seq<Item>)
    requires Outside(st) && ItemsFit(q, items)
    ensures Closed(st, TokenText(Quotation(q, items)))
  {
    var body := ItemsText(q, items);
    OneChar(st, q);
    assert Step(st, q) == Quoted(q);
    InsideQuotes(q, items);
    RunConcat(st, [q], body);
    NoCutConcat(st, [q], body);
    OneChar(Quoted(q), q);
    RunConcat(st, [q] + body, [q]);
    NoCutConcat(st, [q] + body, [q]);
  }

  /** The first characters of a line comment, as far as they tell it from code. */
  lemma LineOpened(st: Lex, s: string)
    requires Outside(st) && OneLine(s)
    ensures Run(st, "#" + s) == Line && NoCut(st, "#" + s)
    ensures s != [] && IsSpace(s[0]) ==> Run(st, "--" + s) == Line
    ensures Spaced(s) ==> NoCut(st, "--" + s)
  {
    OneChar(st, '#');
    InsideLine(s);
    RunConcat(st, "#", s);
    NoCutConcat(st, "#", s);
    TwoChars(st, '-', '-');
    assert Step(Step(st, '-'), '-') == DashDash;
    if s != [] && IsSpace(s[0]) {
      assert s == [s[0]] + s[1..] && s[0] != '\n';
      OneChar(DashDash, s[0]);
      InsideLine(s[1..]);
      RunConcat(DashDash, [s[0]], s[1..]);
      NoCutConcat(DashDash, [s[0]], s[1..]);
      RunConcat(st, "--", s);
      NoCutConcat(st, "--", s);
    } else {
      assert s == [] ==> "--" + s == "--";
    }
  }

  lemma LineCloses(st: Lex, s: string)
    requires Outside(st) && OneLine(s)
    ensures Closed(st, TokenText(Hash(s))) && (Spaced(s) ==> Closed(st, TokenText(Dashes(s))))
  {
    LineOpened(st, s);
    OneChar(Line, '\n');
    RunConcat(st, "#" + s, "\n");
    NoCutConcat(st, "#" + s, "\n");
    if Spaced(s) {
      if s == [] {
        TwoChars(st, '-', '-');
        assert "--" + s == "--";
      }
      OneChar(Run(st, "--" + s), '\n');
      RunConcat(st, "--" + s, "\n");
      NoCutConcat(st, "--" + s, "\n");
    }
  }

  lemma CommentCloses(st: Lex, s: string)
    requires Outside(st) && TokenFits("", Comment(s))
    ensures Closed(st, TokenText(Comment(s)))
  {
    TwoChars(st, '/', '*');
    InsideComment(s);
    RunConcat(st, "/*", s);
    NoCutConcat(st, "/*", s);
    TwoChars(Run(Block, s), '*', '/');
    RunConcat(st, "/*" + s, "*/");
    NoCutConcat(st, "/*" + s, "*/");
  }

  // ---------------------------------------------------------------- statements

  lemma EndsSnoc(s: string, tail: string, c: char)
    requires EndsIn(s, tail)
    ensures EndsIn(s + [c], tail + [c])
  {
    var all := s + [c];
    assert all[|all| - |tail| - 1..] == s[|s| - |tail|..] + [c];
  }

  lemma StateStep(st: Lex, c: char)
    ensures Step(st, c).Slash? ==> c == '/'
    ensures Step(st, c).Dash? ==> c == '-'
    ensures Step(st, c).DashDash? ==> c == '-' && (st.Dash? || st.DashDash?)
  {
  }

  lemma EndsShorter(s: string)
    requires EndsIn(s, "--")
    ensures EndsIn(s, "-")
  {
    assert s[|s| - 2..][1..] == s[|s| - 1..];
  }

  /** A reader that may yet see a comment open has just seen its first characters. */
  predicate Remembers(st: Lex, s: string) {
    (st.Slash? ==> EndsIn(s, "/")) && (st.Dash? ==> EndsIn(s, "-")) && (st.DashDash? ==> EndsIn(s, "--"))
  }

  lemma RemembersStep(st: Lex, s: string, c: char)
    requires Remembers(st, s)
    ensures Remembers(Step(st, c), s + [c])
  {
    StateStep(st, c);
    EndsSnoc(s, [], c);
    assert [] + [c] == [c];
    if Step(st, c).DashDash? {
      if st.DashDash? {
        EndsShorter(s);
      }
      EndsSnoc(s, "-", c);
      assert "-" + [c] == "--";
    }
  }

  lemma {:induction false} StateEnds(s: string)
    ensures Remembers(Run(Code, s), s)
    decreases |s|
  {
    if s != [] {
      var n := |s| - 1;
      StateEnds(s[..n]);
      RunSnoc(Code, s[..n], s[n]);
      RemembersStep(Run(Code, s[..n]), s[..n], s[n]);
      assert s == s[..n] + [s[n]];
    }
  }

  lemma TokenCloses(before: string, t: Token)
    requires Closed(Code, before) && TokenFits(before, t)
    ensures Closed(Code, before + TokenText(t))
  {
    var st := Run(Code, before);
    match t {
      case Plain(c) =>
        StateEnds(before);
        OneChar(st, c);
      case Quotation(q, items) => QuotationCloses(st, q, items);
      case Hash(s) => LineCloses(st, s);
      case Dashes(s) => LineCloses(st, s);
      case Comment(s) => CommentCloses(st, s);
    }
    RunConcat(Code, before, TokenText(t));
    NoCutConcat(Code, before, TokenText(t));
  }

  lemma SentenceAt(tokens: seq<Token>, k: nat)
    requires Sentence(tokens) && k < |tokens|
    ensures TokenFits(TextOf(tokens[..k]), tokens[k])
  {
  }

  lemma SentenceInit(tokens: seq<Token>)
    requires Sentence(tokens) && tokens != []
    ensures Sentence(tokens[..|tokens| - 1])
  {
    var init := tokens[..|tokens| - 1];
    forall k | 0 <= k < |init| ensures TokenFits(TextOf(init[..k]), init[k]) {
      SentenceAt(tokens, k);
      assert init[..k] == tokens[..k];
    }
  }

  lemma {:induction false} SentenceCloses(tokens: seq<Token>)
    requires Sentence(tokens)
    ensures Closed(Code, TextOf(tokens))
    decreases |tokens|
  {
    if tokens != [] {
      var n := |tokens| - 1;
      SentenceInit(tokens);
      SentenceAt(tokens, n);
      SentenceCloses(tokens[..n]);
      TokenCloses(TextOf(tokens[..n]), tokens[n]);
    }
  }

  /** A line comment that the end of the text cuts short, or nothing. */
  predicate Trailing(s: string) {
    s == [] || s == "--" || (OneLine(s) && ("#" <= s || ("--" <= s && Spaced(s[2..]))))
  }

  lemma TrailingStays(st: Lex, s: string)
    requires Outside(st) && Trailing(s)
    ensures NoCut(st, s) && !Unfinished(Run(st, s))
  {
    if "#" <= s {
      assert s == "#" + s[1..];
      LineOpened(st, s[1..]);
    } else if s != [] {
      assert s == "--" + s[2..];
      TwoChars(st, '-', '-');
      LineOpened(st, s[2..]);
      assert s[2..] == [] ==> s == "--";
    }
  }

  predicate Sentences(script: seq<seq<Token>>) {
    script != [] && forall k :: 0 <= k < |script| ==> Sentence(script[k])
  }

  /** The texts of the statements; a last comment may follow. */
  function Texts(script: seq<seq<Token>>, comment: string): (r: seq<string>)
    requires script != []
    ensures |r| == |script|
    ensures forall k :: 0 <= k < |script| ==> r[k] == TextOf(script[k]) + if k == |script| - 1 then comment else []
  {
    seq(|script|, k requires 0 <= k < |script| => TextOf(script[k]) + if k == |script| - 1 then comment else [])
  }

  lemma TextsAreCut(script: seq<seq<Token>>, comment: string)
    requires Sentences(script) && Trailing(comment)
    ensures CutExactly(Texts(script, comment)) && !Unfinished(Run(Code, Texts(script, comment)[|script| - 1]))
  {
    var texts := Texts(script, comment);
    forall k | 0 <= k < |script|
      ensures NoCut(Code, texts[k]) && !Unfinished(Run(Code, texts[k]))
      ensures k < |script| - 1 ==> Outside(Run(Code, texts[k]))
    {
      SentenceCloses(script[k]);
      if k == |script| - 1 {
        TrailingStays(Run(Code, TextOf(script[k])), comment);
        RunConcat(Code, TextOf(script[k]), comment);
        NoCutConcat(Code, TextOf(script[k]), comment);
      } else {
        assert TextOf(script[k]) + [] == TextOf(script[k]);
      }
    }
  }

  /** Statements made of such tokens, with ';' between them and perhaps a last comment, are split into exactly
      these statements, trimmed, without the empty ones; nothing inside a token is a cut. */
  lemma SplitsSentences(script: seq<seq<Token>>, comment: string)
    requires Sentences(script) && Trailing(comment)
    ensures Split(Join(Texts(script, comment), ";")) == Parts(Keep(Texts(script, comment)))
  {
    var texts := Texts(script, comment);
    TextsAreCut(script, comment);
    CutsAreUnique(texts);
    LastPieceState(texts);
  }

  lemma OpenQuotation(before: string, q: Quote, items: seq<Item>)
    requires Outside(Run(Code, before)) && ItemsFit(q, items)
    ensures Unfinished(Run(Code, before + [q] + ItemsText(q, items)))
  {
    OneChar(Run(Code, before), q);
    InsideQuotes(q, items);
    RunConcat(Code, before, [q]);
    RunConcat(Code, before + [q], ItemsText(q, items));
  }

  lemma OpenComment(before: string, s: string)
    requires Outside(Run(Code, before)) && TokenFits("", Comment(s))
    ensures Unfinished(Run(Code, before + "/*" + s))
  {
    TwoChars(Run(Code, before), '/', '*');
    InsideComment(s);
    RunConcat(Code, before, "/*");
    RunConcat(Code, before + "/*", s);
  }

  lemma ScriptEndsOutside(script: seq<seq<Token>>)
    requires Sentences(script)
    ensures Outside(Run(Code, Join(Texts(script, []), ";")))
  {
    TextsAreCut(script, []);
    LastPieceState(Texts(script, []));
    var last := TextOf(script[|script| - 1]);
    SentenceCloses(script[|script| - 1]);
    assert last + [] == last;
  }

  /** A quotation or a block comment that is not closed is reported. */
  lemma OpenIsReported(script: seq<seq<Token>>, q: char, items: seq<Item>, s: string)
    requires Sentences(script)
    requires (q == '\'' || q == '"' || q == '`') && ItemsFit(q, items) && TokenFits("", Comment(s))
    ensures Split(Join(Texts(script, []), ";") + [q] + ItemsText(q, items)) == Unterminated
    ensures Split(Join(Texts(script, []), ";") + "/*" + s) == Unterminated
  {
    ScriptEndsOutside(script);
    OpenQuotation(Join(Texts(script, []), ";"), q, items);
    OpenComment(Join(Texts(script, []), ";"), s);
  }
}
