/** The text of an undo statement (internal/rollback/generator.go) and its reading.

    An undo statement is a value of type `Stmt`; `Render` writes it the way the generator does.
    `Parse` reads such text by the lexical rules of the MySQL 8.0 Reference Manual, sections "String
    Literals", "Numeric Literals", "Hexadecimal Literals" and "Schema Object Names", with
    backslash escapes enabled. */
module Statements {
  import opened Text
  import opened Splitter

  type byte = x: int | 0 <= x < 256

  /** A literal: NULL, a number by its text, a quoted string, or a string of bytes in hexadecimal. */
  datatype Lit = Null | Num(text: string) | Str(s: string) | Hex(bytes: seq<byte>)

  predicate IsDigit(c: char) { '0' <= c <= '9' }

  /** How much of a number has been read: an optional sign; digits, with at most one point before,
      between or behind them; an optional exponent. */
  datatype NumState = Begin | Signed | Whole | Point | Fraction | Exponent | ExponentSigned | Power | NotNum

  function NumStep(st: NumState, c: char): NumState {
    match st
    case Begin => if c == '-' || c == '+' then Signed else if IsDigit(c) then Whole else if c
        == '.' then Point else NotNum
    case Signed => if IsDigit(c) then Whole else if c == '.' then Point else NotNum
    case Whole =>
      if IsDigit(c) then Whole else if c == '.' then Fraction else if c == 'e' || c == 'E' then Exponent else NotNum
    case Point => if IsDigit(c) then Fraction else NotNum
    case Fraction => if IsDigit(c) then Fraction else if c == 'e' || c == 'E' then Exponent else NotNum
    case Exponent => if c == '-' || c == '+' then ExponentSigned else if IsDigit(c) then Power else NotNum
    case ExponentSigned => if IsDigit(c) then Power else NotNum
    case Power => if IsDigit(c) then Power else NotNum
    case NotNum => NotNum
  }

  predicate NumEnds(st: NumState) { st.Whole? || st.Fraction? || st.Power? }

  function NumRun(st: NumState, t: string): NumState
    decreases |t|
  {
    if t == [] then st else NumRun(NumStep(st, t[0]), t[1..])
  }

  /** The text is a numeric literal. */
  predicate NumText(t: string) { NumEnds(NumRun(Begin, t)) }

  lemma {:induction false} NotNumStays(t: string)
    ensures NumRun(NotNum, t) == NotNum
  {
    if t != [] {
      NotNumStays(t[1..]);
    }
  }

  lemma {:induction false} DigitsRun(st: NumState, t: string)
    requires t != [] && (forall i :: 0 <= i < |t| ==> IsDigit(t[i])) && (st.Begin? || st.Signed? || st.Whole?)
    ensures NumRun(st, t) == Whole
    decreases |t|
  {
    if t[1..] != [] {
      DigitsRun(Whole, t[1..]);
    }
  }

  predicate SoundLit(l: Lit) { l.Num? ==> NumText(l.text) }

  datatype Assign = Assign(col: string, lit: Lit)
  datatype Cond = IsNull(col: string) | Eq(col: string, lit: Lit)

  datatype Stmt =
    | Insert(schema: string, table: string, cols: seq<string>, vals: seq<Lit>)
    | Delete(schema: string, table: string, where: seq<Cond>)
    | Update(schema: string, table: string, sets: seq<Assign>, where: seq<Cond>)

  predicate SoundCond(c: Cond) { c.Eq? ==> SoundLit(c.lit) }

  /** Statements the generator can emit: no empty list, and numbers that look like numbers. */
  predicate Sound(s: Stmt) {
    match s
    case Insert(_, _, cols, vals) =>
      cols != [] && vals != [] && forall i :: 0 <= i < |vals| ==> SoundLit(vals[i])
    case Delete(_, _, where) =>
      where != [] && forall i :: 0 <= i < |where| ==> SoundCond(where[i])
    case Update(_, _, sets, where) =>
      sets != [] && where != [] && (forall i :: 0 <= i < |sets| ==> SoundLit(sets[i].lit))
      && forall i :: 0 <= i < |where| ==> SoundCond(where[i])
  }

  // ---------------------------------------------------------------- writing

  /** strings.ReplaceAll(s, c, cc) */
  function Double(s: string, c: char): string {
    if s == [] then [] else (if s[0] == c then [c, c] else [s[0]]) + Double(s[1..], c)
  }

  function QuoteIdent(v: string): string { "`" + Double(v, '`') + "`" }

  function QuoteString(v: string): string { "'" + Double(Double(v, '\\'), '\'') + "'" }

  function HexDigit(d: nat): char
    requires d < 16
  {
    if d < 10 then '0' + d as char else 'A' + (d - 10) as char
  }

  function HexText(b: seq<byte>): string {
    if b == [] then [] else [HexDigit(b[0] / 16), HexDigit(b[0] % 16)] + HexText(b[1..])
  }

  function LitText(l: Lit): string {
    match l
    case Null => "NULL"
    case Num(t) => t
    case Str(s) => QuoteString(s)
    case Hex(b) => "X'" + HexText(b) + "'"
  }

  function AssignText(a: Assign): string { QuoteIdent(a.col) + "=" + LitText(a.lit) }

  function CondText(c: Cond): string {
    match c
    case IsNull(col) => QuoteIdent(col) + " IS NULL"
    case Eq(col, lit) => QuoteIdent(col) + "=" + LitText(lit)
  }

  function JoinMap<T>(f: T -> string, xs: seq<T>, sep: string): string {
    if xs == [] then [] else if |xs| == 1 then f(xs[0]) else f(xs[0]) + sep + JoinMap(f, xs[1..], sep)
  }

  function Target(schema: string, table: string): string { QuoteIdent(schema) + "." + QuoteIdent(table) }

  /** The statement without its final ';'. */
  function Body(s: Stmt): string {
    match s
    case Insert(schema, table, cols, vals) =>
      "INSERT INTO " + Target(schema, table) + " (" + JoinMap(QuoteIdent, cols, ",") + ") VALUES ("
      + JoinMap(LitText, vals, ",") + ")"
    case Delete(schema, table, where) =>
      "DELETE FROM " + Target(schema, table) + " WHERE " + JoinMap(CondText, where, " AND ") + " LIMIT 1"
    case Update(schema, table, sets, where) =>
      "UPDATE " + Target(schema, table) + " SET " + JoinMap(AssignText, sets, ",") + " WHERE "
      + JoinMap(CondText, where, " AND ") + " LIMIT 1"
  }

  function Render(s: Stmt): string { Body(s) + ";" }

  // ---------------------------------------------------------------- reading

  datatype Parsed<+T> = Got(value: T, rest: string) | Bad

  /** The characters a backslash escape stands for. */
  function Unescape(c: char): string {
    match c
    case '0' => "\0"
    case 'b' => "\U{0008}"
    case 'n' => "\n"
    case 'r' => "\r"
    case 't' => "\t"
    case 'Z' => "\U{001A}"
    case '%' => "\\%"
    case '_' => "\\_"
    case _ => [c]
  }

  /** The text up to the closing quote `q`, the opening one having been read. */
  function ReadQuoted(s: string, q: char, acc: string): (r: Parsed<string>)
    decreases |s|
    ensures r.Got? ==> |r.rest| < |s|
  {
    if s == [] then Bad
    else if s[0] == '\\' && q != '`' then
      if |s| < 2 then Bad else ReadQuoted(s[2..], q, acc + Unescape(s[1]))
    else if s[0] == q then
      if |s| >= 2 && s[1] == q then ReadQuoted(s[2..], q, acc + [q]) else Got(acc, s[1..])
    else ReadQuoted(s[1..], q, acc + [s[0]])
  }

  function ReadIdent(s: string): (r: Parsed<string>) {
    if s != [] && s[0] == '`' then ReadQuoted(s[1..], '`', []) else Bad
  }

  function HexValue(c: char): int {
    if '0' <= c <= '9' then (c - '0') as int else if 'A' <= c <= 'F' then (c - 'A') as int + 10 else -1
  }

  function ReadHex(s: string, acc: seq<byte>): Parsed<seq<byte>>
    decreases |s|
  {
    if s == [] then Bad
    else if s[0] == '\'' then Got(acc, s[1..])
    else if |s| < 2 || HexValue(s[0]) < 0 || HexValue(s[1]) < 0 then Bad
    else ReadHex(s[2..], acc + [HexValue(s[0]) * 16 + HexValue(s[1])])
  }

  /** As much text as continues a number. */
  function ReadNum(st: NumState, s: string, acc: string): Parsed<string>
    decreases |s|
  {
    if s != [] && !NumStep(st, s[0]).NotNum? then ReadNum(NumStep(st, s[0]), s[1..], acc + [s[0]])
    else if NumEnds(st) then Got(acc, s)
    else Bad
  }

  function ReadLit(s: string): Parsed<Lit> {
    if "NULL" <= s then Got(Null, s[4..])
    else if "X'" <= s then
      match ReadHex(s[2..], []) case Got(b, rest) => Got(Hex(b), rest) case Bad => Bad
    else if s != [] && s[0] == '\'' then
      match ReadQuoted(s[1..], '\'', []) case Got(v, rest) => Got(Str(v), rest) case Bad => Bad
    else
      match ReadNum(Begin, s, []) case Got(t, rest) => Got(Num(t), rest) case Bad => Bad
  }

  function ReadAssign(s: string): Parsed<Assign> {
    match ReadIdent(s)
    case Bad => Bad
    case Got(col, rest) =>
      if "=" <= rest then
        match ReadLit(rest[1..]) case Got(l, after) => Got(Assign(col, l), after) case Bad => Bad
      else Bad
  }

  function ReadCond(s: string): Parsed<Cond> {
    match ReadIdent(s)
    case Bad => Bad
    case Got(col, rest) =>
      if " IS NULL" <= rest then Got(IsNull(col), rest[8..])
      else if "=" <= rest then
        match ReadLit(rest[1..]) case Got(l, after) => Got(Eq(col, l), after) case Bad => Bad
      else Bad
  }

  function ReadList<T>(read: string -> Parsed<T>, sep: string, s: string): Parsed<seq<T>>
    decreases |s|
  {
    match read(s)
    case Bad => Bad
    case Got(x, rest) =>
      if sep <= rest && |rest[|sep|..]| < |s| then
        match ReadList(read, sep, rest[|sep|..]) case Got(xs, after) => Got([x] + xs, after) case Bad => Bad
      else Got([x], rest)
  }

  /** What follows `k` at the start of `s`. */
  function Eat(k: string, s: string): Parsed<()> {
    if k <= s then Got((), s[|k|..]) else Bad
  }

  /** The keyword `k`, then a quoted name */
  function ReadName(k: string, s: string): Parsed<string> {
    match Eat(k, s) case Bad => Bad case Got(_, rest) => ReadIdent(rest)
  }

  /** schema.table, preceded by the keyword `k` */
  function ReadTarget(k: string, s: string): Parsed<(string, string)> {
    match ReadName(k, s)
    case Bad => Bad
    case Got(schema, rest) =>
      match ReadName(".", rest) case Got(table, after) => Got((schema, table), after) case Bad => Bad
  }

  /** The keyword `k`, then a list */
  function ReadAfter<T>(k: string, read: string -> Parsed<T>, sep: string, s: string): Parsed<seq<T>> {
    match Eat(k, s) case Bad => Bad case Got(_, rest) => ReadList(read, sep, rest)
  }

  function ParseInsert(s: string): Parsed<Stmt> {
    match ReadTarget("INSERT INTO ", s)
    case Bad => Bad
    case Got(t, s1) =>
      match ReadAfter(" (", ReadIdent, ",", s1)
      case Bad => Bad
      case Got(cols, s2) =>
        match ReadAfter(") VALUES (", ReadLit, ",", s2)
        case Bad => Bad
        case Got(vals, s3) =>
          if s3 == ");" then Got(Insert(t.0, t.1, cols, vals), []) else Bad
  }

  function ParseDelete(s: string): Parsed<Stmt> {
    match ReadTarget("DELETE FROM ", s)
    case Bad => Bad
    case Got(t, s1) =>
      match ReadAfter(" WHERE ", ReadCond, " AND ", s1)
      case Bad => Bad
      case Got(where, s2) => if s2 == " LIMIT 1;" then Got(Delete(t.0, t.1, where), []) else Bad
  }

  function ParseUpdate(s: string): Parsed<Stmt> {
    match ReadTarget("UPDATE ", s)
    case Bad => Bad
    case Got(t, s1) =>
      match ReadAfter(" SET ", ReadAssign, ",", s1)
      case Bad => Bad
      case Got(sets, s2) =>
        match ReadAfter(" WHERE ", ReadCond, " AND ", s2)
        case Bad => Bad
        case Got(where, s3) => if s3 == " LIMIT 1;" then Got(Update(t.0, t.1, sets, where), []) else Bad
  }

  function Parse(s: string): Parsed<Stmt> {
    if s == [] then Bad
    else if s[0] == 'I' then ParseInsert(s)
    else if s[0] == 'D' then ParseDelete(s)
    else ParseUpdate(s)
  }

  // ---------------------------------------------------------------- reading what was written

  lemma {:induction false} ReadsDoubled(v: string, acc: string, rest: string)
    requires rest == [] || rest[0] != '`'
    ensures ReadQuoted(Double(v, '`') + "`" + rest, '`', acc) == Got(acc + v, rest)
    decreases |v|
  {
    var s := Double(v, '`') + "`" + rest;
    if v == [] {
      assert s == "`" + rest && s[1..] == rest && acc + v == acc;
    } else {
      var d := Double(v[1..], '`') + "`" + rest;
      assert acc + [v[0]] + v[1..] == acc + v;
      ReadsDoubled(v[1..], acc + [v[0]], rest);
      if v[0] == '`' {
        assert s == ['`', '`'] + d && s[2..] == d;
      } else {
        assert s == [v[0]] + d && s[1..] == d;
      }
    }
  }

  lemma ReadsIdent(v: string, rest: string)
    requires rest == [] || rest[0] != '`'
    ensures ReadIdent(QuoteIdent(v) + rest) == Got(v, rest)
  {
    ReadsDoubled(v, [], rest);
    var s := QuoteIdent(v) + rest;
    assert s[1..] == Double(v, '`') + "`" + rest;
    assert [] + v == v;
  }

  lemma DoubleConcat(a: string, b: string, c: char)
    ensures Double(a + b, c) == Double(a, c) + Double(b, c)
  {
    if a == [] {
      assert a + b == b;
    } else {
      assert (a + b)[1..] == a[1..] + b;
      DoubleConcat(a[1..], b, c);
    }
  }

  function EscapedChar(c: char): string { if c == '\\' then "\\\\" else if c == '\'' then "''" else [c] }

  /** The two replacements, one after the other, act on each character alone. */
  lemma EscapeFirst(v: string)
    requires v != []
    ensures Double(Double(v, '\\'), '\'')
         == EscapedChar(v[0]) + Double(Double(v[1..], '\\'), '\'')
  {
    var first := if v[0] == '\\' then ['\\', '\\'] else [v[0]];
    DoubleConcat(first, Double(v[1..], '\\'), '\'');
    assert Double([v[0]], '\'') == if v[0] == '\'' then "''" else [v[0]];
    if v[0] == '\\' {
      assert first[1..] == ['\\'];
      assert Double(first, '\'') == "\\\\";
    }
  }

  lemma EscapeStep(c: char, d: string, acc: string)
    ensures ReadQuoted(EscapedChar(c) + d, '\'', acc)
         == ReadQuoted(d, '\'', acc + [c])
  {
    var s := EscapedChar(c) + d;
    if c == '\\' || c == '\'' {
      assert s[0] == c && s[1] == c && s[2..] == d;
    } else {
      assert s[0] == c && s[1..] == d;
    }
  }

  lemma QuoteEnds(acc: string, rest: string)
    requires rest == [] || rest[0] != '\''
    ensures ReadQuoted("'" + rest, '\'', acc) == Got(acc, rest)
  {
    assert ("'" + rest)[1..] == rest;
  }

  lemma {:induction false} ReadsEscaped(v: string, acc: string, rest: string)
    requires rest == [] || rest[0] != '\''
    ensures ReadQuoted(Double(Double(v, '\\'), '\'') + "'" + rest, '\'', acc) == Got(acc + v, rest)
    decreases |v|
  {
    var s := Double(Double(v, '\\'), '\'') + "'" + rest;
    if v == [] {
      assert acc + v == acc && s == "'" + rest;
      QuoteEnds(acc, rest);
    } else {
      var d := Double(Double(v[1..], '\\'), '\'') + "'" + rest;
      assert s == EscapedChar(v[0]) + d by {
        EscapeFirst(v);
      }
      ReadsEscaped(v[1..], acc + [v[0]], rest);
      EscapeStep(v[0], d, acc);
      assert acc + [v[0]] + v[1..] == acc + v;
    }
  }

  lemma HexDigitValue(d: nat)
    requires d < 16
    ensures HexValue(HexDigit(d)) == d && HexDigit(d) != '\''
  {
  }

  lemma {:induction false} ReadsHex(b: seq<byte>, acc: seq<byte>, rest: string)
    ensures ReadHex(HexText(b) + "'" + rest, acc) == Got(acc + b, rest)
    decreases |b|
  {
    var s := HexText(b) + "'" + rest;
    if b == [] {
      assert s == "'" + rest && s[1..] == rest && acc + b == acc;
    } else {
      HexDigitValue(b[0] / 16);
      HexDigitValue(b[0] % 16);
      assert s[2..] == HexText(b[1..]) + "'" + rest;
      assert acc + [b[0]] + b[1..] == acc + b;
      ReadsHex(b[1..], acc + [b[0]], rest);
    }
  }

  /** What may follow an item of a list. */
  predicate Stops(rest: string) {
    rest == [] || rest[0] == ',' || rest[0] == ')' || rest[0] == ' '
  }

  lemma {:induction false} ReadsNumber(st: NumState, t: string, acc: string, rest: string)
    requires NumEnds(NumRun(st, t)) && Stops(rest)
    ensures ReadNum(st, t + rest, acc) == Got(acc + t, rest)
    decreases |t|
  {
    if t == [] {
      assert t + rest == rest && acc + t == acc;
    } else {
      NotNumStays(t[1..]);
      assert (t + rest)[0] == t[0] && (t + rest)[1..] == t[1..] + rest && acc + [t[0]] + t[1..] == acc + t;
      ReadsNumber(NumStep(st, t[0]), t[1..], acc + [t[0]], rest);
    }
  }

  lemma ReadsNum(t: string, rest: string)
    requires NumText(t) && Stops(rest)
    ensures ReadLit(t + rest) == Got(Num(t), rest)
  {
    NotNumStays(t[1..]);
    assert (t + rest)[0] == t[0] && !NumStep(Begin, t[0]).NotNum?;
    ReadsNumber(Begin, t, [], rest);
    assert [] + t == t;
  }

  lemma ReadsStr(v: string, rest: string)
    requires Stops(rest)
    ensures ReadLit(QuoteString(v) + rest) == Got(Str(v), rest)
  {
    var s := QuoteString(v) + rest;
    var body := Double(Double(v, '\\'), '\'') + "'" + rest;
    assert s[0] == '\'' && s[1..] == body;
    assert !("NULL" <= s) && !("X'" <= s);
    ReadsEscaped(v, [], rest);
    assert [] + v == v;
  }

  lemma ReadsLit(l: Lit, rest: string)
    requires SoundLit(l) && Stops(rest)
    ensures ReadLit(LitText(l) + rest) == Got(l, rest)
  {
    match l
    case Null =>
      var s := "NULL" + rest;
      assert s[4..] == rest && "NULL" <= s;
    case Num(t) => ReadsNum(t, rest);
    case Str(v) => ReadsStr(v, rest);
    case Hex(b) =>
      var s := "X'" + HexText(b) + "'" + rest;
      assert s[2..] == HexText(b) + "'" + rest && "X'" <= s && s[0] == 'X';
      ReadsHex(b, [], rest);
      assert [] + b == b;
  }

  lemma ReadsAssign(a: Assign, rest: string)
    requires SoundLit(a.lit) && Stops(rest)
    ensures ReadAssign(AssignText(a) + rest) == Got(a, rest)
  {
    var tail := "=" + LitText(a.lit) + rest;
    assert AssignText(a) + rest == QuoteIdent(a.col) + tail;
    ReadsIdent(a.col, tail);
    assert tail[1..] == LitText(a.lit) + rest;
    ReadsLit(a.lit, rest);
  }

  lemma ReadsCond(c: Cond, rest: string)
    requires SoundCond(c) && Stops(rest)
    ensures ReadCond(CondText(c) + rest) == Got(c, rest)
  {
    if c.IsNull? {
      var tail := " IS NULL" + rest;
      assert CondText(c) + rest == QuoteIdent(c.col) + tail;
      ReadsIdent(c.col, tail);
      assert tail[8..] == rest;
    } else {
      ReadsEq(c.col, c.lit, rest);
    }
  }

  lemma ReadsEq(col: string, lit: Lit, rest: string)
    requires SoundLit(lit) && Stops(rest)
    ensures ReadCond(QuoteIdent(col) + "=" + LitText(lit) + rest) == Got(Eq(col, lit), rest)
  {
    var tail := "=" + (LitText(lit) + rest);
    assert QuoteIdent(col) + "=" + LitText(lit) + rest == QuoteIdent(col) + tail;
    ReadsIdent(col, tail);
    assert tail[0] == '=' && tail[1..] == LitText(lit) + rest;
    ReadsLit(lit, rest);
  }

  /** `read` undoes `write` on every element of `xs`, whatever follows it in the text. */
  ghost predicate Inverse<T>(write: T -> string, read: string -> Parsed<T>, xs: seq<T>) {
    forall i, rest :: 0 <= i < |xs| && Stops(rest) ==> read(write(xs[i]) + rest) == Got(xs[i], rest)
  }

  lemma {:induction false} ReadsList<T>(write: T -> string, read: string -> Parsed<T>, sep: string, xs: seq<T>,
                                        rest: string)
    requires xs != [] && Inverse(write, read, xs)
    requires sep != [] && Stops(sep) && Stops(rest) && !(sep <= rest)
    ensures ReadList(read, sep, JoinMap(write, xs, sep) + rest) == Got(xs, rest)
    decreases |xs|
  {
    var s := JoinMap(write, xs, sep) + rest;
    if |xs| == 1 {
      assert read(write(xs[0]) + rest) == Got(xs[0], rest);
      assert [xs[0]] == xs;
    } else {
      var more := JoinMap(write, xs[1..], sep) + rest;
      var tail := sep + more;
      assert s == write(xs[0]) + tail;
      assert Stops(tail);
      assert read(write(xs[0]) + tail) == Got(xs[0], tail);
      assert tail[|sep|..] == more;
      forall i, r | 0 <= i < |xs[1..]| && Stops(r) ensures read(write(xs[1..][i]) + r) == Got(xs[1..][i], r) {
        assert xs[1..][i] == xs[i + 1];
      }
      ReadsList(write, read, sep, xs[1..], rest);
      assert [xs[0]] + xs[1..] == xs;
    }
  }

  lemma ReadsAfter<T>(k: string, write: T -> string, read: string -> Parsed<T>, sep: string, xs: seq<T>, rest: string)
    requires xs != [] && Inverse(write, read, xs)
    requires sep != [] && Stops(sep) && Stops(rest) && !(sep <= rest)
    ensures ReadAfter(k, read, sep, k + JoinMap(write, xs, sep) + rest) == Got(xs, rest)
  {
    var s := JoinMap(write, xs, sep) + rest;
    assert k + JoinMap(write, xs, sep) + rest == k + s && (k + s)[|k|..] == s;
    ReadsList(write, read, sep, xs, rest);
  }

  lemma ReadsName(k: string, v: string, rest: string)
    requires rest == [] || rest[0] != '`'
    ensures ReadName(k, k + QuoteIdent(v) + rest) == Got(v, rest)
  {
    var s := QuoteIdent(v) + rest;
    assert k + QuoteIdent(v) + rest == k + s && (k + s)[|k|..] == s;
    ReadsIdent(v, rest);
  }

  lemma ReadsTarget(k: string, schema: string, table: string, rest: string)
    requires rest == [] || rest[0] != '`'
    ensures ReadTarget(k, k + Target(schema, table) + rest) == Got((schema, table), rest)
  {
    var tail := "." + QuoteIdent(table) + rest;
    assert k + Target(schema, table) + rest == k + QuoteIdent(schema) + tail;
    ReadsName(k, schema, tail);
    ReadsName(".", table, rest);
  }

  lemma IdentsInverse(cols: seq<string>)
    ensures Inverse(QuoteIdent, ReadIdent, cols)
  {
    forall i, rest | 0 <= i < |cols| && Stops(rest) ensures ReadIdent(QuoteIdent(cols[i]) + rest)
        == Got(cols[i], rest) {
      ReadsIdent(cols[i], rest);
    }
  }

  lemma LitsInverse(vals: seq<Lit>)
    requires forall i :: 0 <= i < |vals| ==> SoundLit(vals[i])
    ensures Inverse(LitText, ReadLit, vals)
  {
    forall i, rest | 0 <= i < |vals| && Stops(rest) ensures ReadLit(LitText(vals[i]) + rest) == Got(vals[i], rest) {
      ReadsLit(vals[i], rest);
    }
  }

  lemma AssignsInverse(sets: seq<Assign>)
    requires forall i :: 0 <= i < |sets| ==> SoundLit(sets[i].lit)
    ensures Inverse(AssignText, ReadAssign, sets)
  {
    forall i, rest | 0 <= i < |sets| && Stops(rest) ensures ReadAssign(AssignText(sets[i]) + rest)
        == Got(sets[i], rest) {
      ReadsAssign(sets[i], rest);
    }
  }

  lemma CondsInverse(where: seq<Cond>)
    requires forall i :: 0 <= i < |where| ==> SoundCond(where[i])
    ensures Inverse(CondText, ReadCond, where)
  {
    forall i, rest | 0 <= i < |where| && Stops(rest) ensures ReadCond(CondText(where[i]) + rest)
        == Got(where[i], rest) {
      ReadsCond(where[i], rest);
    }
  }

  // The text that remains to be read after each part of a statement.
  function InsertVals(s: Stmt): string requires s.Insert? { ") VALUES (" + JoinMap(LitText, s.vals, ",") + ");" }
  function InsertCols(s: Stmt): string requires s.Insert? { " (" + JoinMap(QuoteIdent, s.cols, ",") + InsertVals(s) }
  function WhereTail(where: seq<Cond>): string { " WHERE " + JoinMap(CondText, where, " AND ") + " LIMIT 1;" }
  function UpdateSets(s: Stmt): string
    requires s.Update?
  {
    " SET " + JoinMap(AssignText, s.sets, ",") + WhereTail(s.where)
  }

  lemma RenderInsert(s: Stmt)
    requires s.Insert?
    ensures Render(s) == "INSERT INTO " + Target(s.schema, s.table) + InsertCols(s)
  {
  }

  lemma RenderDelete(s: Stmt)
    requires s.Delete?
    ensures Render(s) == "DELETE FROM " + Target(s.schema, s.table) + WhereTail(s.where)
  {
  }

  lemma RenderUpdate(s: Stmt)
    requires s.Update?
    ensures Render(s) == "UPDATE " + Target(s.schema, s.table) + UpdateSets(s)
  {
  }

  lemma ReadsWhere(where: seq<Cond>)
    requires where != [] && forall i :: 0 <= i < |where| ==> SoundCond(where[i])
    ensures ReadAfter(" WHERE ", ReadCond, " AND ", WhereTail(where)) == Got(where, " LIMIT 1;")
  {
    CondsInverse(where);
    assert " LIMIT 1;"[1] != " AND "[1];
    ReadsAfter(" WHERE ", CondText, ReadCond, " AND ", where, " LIMIT 1;");
  }

  lemma ReadsCols(s: Stmt)
    requires s.Insert? && s.cols != []
    ensures ReadAfter(" (", ReadIdent, ",", InsertCols(s)) == Got(s.cols, InsertVals(s))
  {
    IdentsInverse(s.cols);
    assert InsertVals(s)[0] == ')';
    ReadsAfter(" (", QuoteIdent, ReadIdent, ",", s.cols, InsertVals(s));
  }

  lemma ReadsVals(s: Stmt)
    requires s.Insert? && Sound(s)
    ensures ReadAfter(") VALUES (", ReadLit, ",", InsertVals(s)) == Got(s.vals, ");")
  {
    LitsInverse(s.vals);
    ReadsAfter(") VALUES (", LitText, ReadLit, ",", s.vals, ");");
  }

  lemma ReadsSets(s: Stmt)
    requires s.Update? && Sound(s)
    ensures ReadAfter(" SET ", ReadAssign, ",", UpdateSets(s)) == Got(s.sets, WhereTail(s.where))
  {
    AssignsInverse(s.sets);
    assert WhereTail(s.where)[0] == ' ';
    ReadsAfter(" SET ", AssignText, ReadAssign, ",", s.sets, WhereTail(s.where));
  }

  lemma ReadsInsert(s: Stmt)
    requires s.Insert? && Sound(s)
    ensures ParseInsert(Render(s)) == Got(s, [])
  {
    RenderInsert(s);
    assert InsertCols(s)[0] == ' ';
    ReadsTarget("INSERT INTO ", s.schema, s.table, InsertCols(s));
    ReadsCols(s);
    ReadsVals(s);
  }

  lemma ReadsDelete(s: Stmt)
    requires s.Delete? && Sound(s)
    ensures ParseDelete(Render(s)) == Got(s, [])
  {
    RenderDelete(s);
    assert WhereTail(s.where)[0] == ' ';
    ReadsTarget("DELETE FROM ", s.schema, s.table, WhereTail(s.where));
    ReadsWhere(s.where);
  }

  lemma ReadsUpdate(s: Stmt)
    requires s.Update? && Sound(s)
    ensures ParseUpdate(Render(s)) == Got(s, [])
  {
    RenderUpdate(s);
    assert UpdateSets(s)[0] == ' ';
    ReadsTarget("UPDATE ", s.schema, s.table, UpdateSets(s));
    ReadsSets(s);
    ReadsWhere(s.where);
  }

  /** Reading a rendered undo gives back the statement it was rendered from: every name and
      every value, whatever quotes, backslashes, backticks or comment marks they hold. */
  lemma ParseRender(s: Stmt)
    requires Sound(s)
    ensures Parse(Render(s)) == Got(s, [])
  {
    match s
    case Insert(_, _, _, _) => ReadsInsert(s); assert Render(s)[0] == 'I';
    case Delete(_, _, _) => ReadsDelete(s); assert Render(s)[0] == 'D';
    case Update(_, _, _, _) => ReadsUpdate(s); assert Render(s)[0] == 'U';
  }

  // ---------------------------------------------------------------- one statement

  /** Characters that leave a reader in code and are not a cut. */
  predicate PlainChar(c: char) {
    c != '/' && c != '-' && c != '#' && c != ';' && !IsQuote(c)
  }

  predicate Plain(t: string) {
    forall i :: 0 <= i < |t| ==> PlainChar(t[i])
  }

  /** Text that holds no cut and leaves the reader in code, or just behind a closing quote. */
  ghost predicate Tidy(t: string) {
    NoCut(Code, t) && (Run(Code, t).Code? || Run(Code, t).Closing?)
  }

  /** Tidy text that leaves the reader in plain code, so that anything tidy may follow. */
  ghost predicate Flat(t: string) {
    NoCut(Code, t) && Run(Code, t).Code?
  }

  lemma NoCutConcat(st: Lex, a: string, b: string)
    requires NoCut(st, a) && NoCut(Run(st, a), b)
    ensures NoCut(st, a + b)
  {
    var s := a + b;
    forall i | 0 <= i < |s| && s[i] == ';' ensures !Outside(Run(st, s[..i])) {
      if i < |a| {
        assert s[..i] == a[..i] && a[i] == ';';
      } else {
        assert s[..i] == a + b[..i - |a|] && b[i - |a|] == ';';
        RunConcat(st, a, b[..i - |a|]);
      }
    }
  }

  lemma {:induction false} PlainRuns(st: Lex, t: string)
    requires st.Code? || st.Closing?
    requires Plain(t) && t != []
    ensures Run(st, t) == Code && NoCut(st, t)
    decreases |t|
  {
    assert t == [t[0]] + t[1..];
    if t[1..] != [] {
      PlainRuns(Code, t[1..]);
    } else {
      assert NoCut(Code, []);
    }
    NoCutCons(st, t[0], t[1..]);
  }

  lemma ThenPlain(a: string, t: string)
    requires Tidy(a) && Plain(t) && t != []
    ensures Flat(a + t)
  {
    PlainRuns(Run(Code, a), t);
    RunConcat(Code, a, t);
    NoCutConcat(Code, a, t);
  }

  lemma ThenTidy(a: string, b: string)
    requires Flat(a) && Tidy(b)
    ensures Tidy(a + b) && (Flat(b) ==> Flat(a + b))
  {
    RunConcat(Code, a, b);
    NoCutConcat(Code, a, b);
  }

  lemma {:induction false} IdentRuns(v: string)
    ensures Run(Quoted('`'), Double(v, '`')) == Quoted('`') && NoCut(Quoted('`'), Double(v, '`'))
  {
    if v != [] {
      var d := Double(v[1..], '`');
      IdentRuns(v[1..]);
      if v[0] == '`' {
        NoCutCons(Closing('`'), '`', d);
        NoCutCons(Quoted('`'), '`', ['`'] + d);
        assert Double(v, '`') == ['`'] + (['`'] + d);
        assert (['`'] + (['`'] + d))[1..] == ['`'] + d && (['`'] + d)[1..] == d;
      } else {
        NoCutCons(Quoted('`'), v[0], d);
        assert ([v[0]] + d)[1..] == d;
      }
    }
  }

  lemma EscapedCharRuns(c: char, d: string)
    requires Run(Quoted('\''), d) == Quoted('\'') && NoCut(Quoted('\''), d)
    ensures Run(Quoted('\''), EscapedChar(c) + d) == Quoted('\'') && NoCut(Quoted('\''), EscapedChar(c) + d)
  {
    var q := Quoted('\'');
    if c == '\\' || c == '\'' {
      var mid := if c == '\\' then Escaped('\'') else Closing('\'');
      NoCutCons(mid, c, d);
      NoCutCons(q, c, [c] + d);
      assert [c, c] + d == [c] + ([c] + d);
      assert ([c] + ([c] + d))[1..] == [c] + d && ([c] + d)[1..] == d;
    } else {
      NoCutCons(q, c, d);
      assert ([c] + d)[1..] == d;
    }
  }

  lemma {:induction false} StringRuns(v: string)
    ensures var d := Double(Double(v, '\\'), '\'');
            Run(Quoted('\''), d) == Quoted('\'') && NoCut(Quoted('\''), d)
  {
    if v != [] {
      StringRuns(v[1..]);
      EscapeFirst(v);
      EscapedCharRuns(v[0], Double(Double(v[1..], '\\'), '\''));
    }
  }

  /** A quote, a body that stays inside it, and the closing quote. */
  lemma QuotedIsTidy(q: Quote, d: string)
    requires Run(Quoted(q), d) == Quoted(q) && NoCut(Quoted(q), d)
    ensures Tidy([q] + d + [q])
  {
    assert [q] + d + [q] == [q] + (d + [q]);
    RunSnoc(Quoted(q), d, q);
    NoCutCons(Quoted(q), q, []);
    assert [q] + [] == [q];
    NoCutConcat(Quoted(q), d, [q]);
    NoCutCons(Code, q, d + [q]);
    assert ([q] + (d + [q]))[1..] == d + [q];
  }

  lemma IdentIsTidy(v: string)
    ensures Tidy(QuoteIdent(v))
  {
    IdentRuns(v);
    QuotedIsTidy('`', Double(v, '`'));
  }

  lemma PlainInQuotes(t: string)
    requires forall i :: 0 <= i < |t| ==> t[i] != '\'' && t[i] != '\\'
    ensures Run(Quoted('\''), t) == Quoted('\'') && NoCut(Quoted('\''), t)
  {
    if t != [] {
      PlainInQuotes(t[1..]);
      assert t == [t[0]] + t[1..];
      NoCutCons(Quoted('\''), t[0], t[1..]);
    }
  }

  lemma HexHasNoQuotes(b: seq<byte>)
    ensures forall i :: 0 <= i < |HexText(b)| ==> HexText(b)[i] != '\'' && HexText(b)[i] != '\\'
  {
    if b != [] {
      HexHasNoQuotes(b[1..]);
    }
  }

  /** A sign is followed by a digit or a point, so that no number opens a comment. */
  lemma {:induction false} NumRuns(st: NumState, lex: Lex, t: string)
    requires NumEnds(NumRun(st, t))
    requires lex == Code || (lex == Dash && (st.Signed? || st.ExponentSigned?))
    ensures Run(lex, t) == Code && NoCut(lex, t)
    decreases |t|
  {
    if t != [] {
      NotNumStays(t[1..]);
      assert t == [t[0]] + t[1..];
      NumRuns(NumStep(st, t[0]), Step(lex, t[0]), t[1..]);
      NoCutCons(lex, t[0], t[1..]);
    }
  }

  lemma NumIsTidy(t: string)
    requires NumText(t)
    ensures Tidy(t)
  {
    NumRuns(Begin, Code, t);
  }

  lemma LitIsTidy(l: Lit)
    requires SoundLit(l)
    ensures Tidy(LitText(l))
  {
    match l
    case Null => PlainRuns(Code, "NULL");
    case Num(t) => NumIsTidy(t);
    case Str(v) =>
      StringRuns(v);
      QuotedIsTidy('\'', Double(Double(v, '\\'), '\''));
    case Hex(b) =>
      HexHasNoQuotes(b);
      PlainInQuotes(HexText(b));
      QuotedIsTidy('\'', HexText(b));
      PlainRuns(Code, "X");
      ThenTidy("X", "'" + HexText(b) + "'");
      assert "X" + ("'" + HexText(b) + "'") == LitText(l);
  }

  lemma PairIsTidy(col: string, l: Lit)
    requires SoundLit(l)
    ensures Tidy(QuoteIdent(col) + "=" + LitText(l))
  {
    IdentIsTidy(col);
    ThenPlain(QuoteIdent(col), "=");
    LitIsTidy(l);
    ThenTidy(QuoteIdent(col) + "=", LitText(l));
  }

  lemma CondIsTidy(c: Cond)
    requires SoundCond(c)
    ensures Tidy(CondText(c))
  {
    if c.IsNull? {
      IdentIsTidy(c.col);
      ThenPlain(QuoteIdent(c.col), " IS NULL");
    } else {
      PairIsTidy(c.col, c.lit);
    }
  }

  lemma {:induction false} ListIsTidy<T>(write: T -> string, xs: seq<T>, sep: string)
    requires forall i :: 0 <= i < |xs| ==> Tidy(write(xs[i]))
    requires xs != [] && Plain(sep) && sep != []
    ensures Tidy(JoinMap(write, xs, sep))
  {
    if |xs| > 1 {
      ThenPlain(write(xs[0]), sep);
      ListIsTidy(write, xs[1..], sep);
      ThenTidy(write(xs[0]) + sep, JoinMap(write, xs[1..], sep));
    }
  }

  /** `head`, something tidy, then plain text again. */
  lemma Frame(head: string, t: string, tail: string)
    requires Flat(head) && Tidy(t) && Plain(tail) && tail != []
    ensures Flat(head + t + tail)
  {
    ThenTidy(head, t);
    ThenPlain(head + t, tail);
  }

  lemma TargetIsTidy(k: string, schema: string, table: string, tail: string)
    requires Plain(k) && k != [] && Plain(tail) && tail != []
    ensures Flat(k + Target(schema, table) + tail)
  {
    PlainRuns(Code, k);
    IdentIsTidy(schema);
    IdentIsTidy(table);
    Frame(k, QuoteIdent(schema), ".");
    Frame(k + QuoteIdent(schema) + ".", QuoteIdent(table), tail);
    assert k + QuoteIdent(schema) + "." + QuoteIdent(table) + tail == k + Target(schema, table) + tail;
  }

  lemma InsertIsTidy(s: Stmt)
    requires s.Insert? && Sound(s)
    ensures Tidy(Body(s))
  {
    var cols, vals := s.cols, s.vals;
    var head := "INSERT INTO " + Target(s.schema, s.table) + " (";
    TargetIsTidy("INSERT INTO ", s.schema, s.table, " (");
    forall i | 0 <= i < |cols| ensures Tidy(QuoteIdent(cols[i])) { IdentIsTidy(cols[i]); }
    forall i | 0 <= i < |vals| ensures Tidy(LitText(vals[i])) { LitIsTidy(vals[i]); }
    ListIsTidy(QuoteIdent, cols, ",");
    ListIsTidy(LitText, vals, ",");
    Frame(head, JoinMap(QuoteIdent, cols, ","), ") VALUES (");
    Frame(head + JoinMap(QuoteIdent, cols, ",") + ") VALUES (", JoinMap(LitText, vals, ","), ")");
  }

  lemma UpdateIsTidy(s: Stmt)
    requires s.Update? && Sound(s)
    ensures Tidy(Body(s))
  {
    var sets := s.sets;
    var head := "UPDATE " + Target(s.schema, s.table) + " SET ";
    TargetIsTidy("UPDATE ", s.schema, s.table, " SET ");
    forall i | 0 <= i < |sets| ensures Tidy(AssignText(sets[i])) { PairIsTidy(sets[i].col, sets[i].lit); }
    ListIsTidy(AssignText, sets, ",");
    Frame(head, JoinMap(AssignText, sets, ","), " WHERE ");
    WhereIsTidy(head + JoinMap(AssignText, sets, ",") + " WHERE ", s.where, " AND ", " LIMIT 1");
  }

  lemma BodyIsTidy(s: Stmt)
    requires Sound(s)
    ensures Tidy(Body(s))
  {
    match s
    case Insert(_, _, _, _) => InsertIsTidy(s);
    case Delete(schema, table, where) =>
      TargetIsTidy("DELETE FROM ", schema, table, " WHERE ");
      WhereIsTidy("DELETE FROM " + Target(schema, table) + " WHERE ", where, " AND ", " LIMIT 1");
    case Update(_, _, _, _) => UpdateIsTidy(s);
  }

  lemma CondsAreTidy(where: seq<Cond>, sep: string)
    requires where != [] && forall i :: 0 <= i < |where| ==> SoundCond(where[i])
    requires Plain(sep) && sep != []
    ensures Tidy(JoinMap(CondText, where, sep))
  {
    forall i | 0 <= i < |where| ensures Tidy(CondText(where[i])) { CondIsTidy(where[i]); }
    ListIsTidy(CondText, where, sep);
  }

  lemma WhereIsTidy(head: string, where: seq<Cond>, sep: string, tail: string)
    requires Flat(head) && where != [] && forall i :: 0 <= i < |where| ==> SoundCond(where[i])
    requires Plain(sep) && sep != [] && Plain(tail) && tail != []
    ensures Tidy(head + JoinMap(CondText, where, sep) + tail)
  {
    CondsAreTidy(where, sep);
    Frame(head, JoinMap(CondText, where, sep), tail);
  }

  lemma BodyIsTrimmed(s: Stmt)
    ensures Trimmed(Body(s))
  {
    match s
    case Insert(_, _, _, _) => assert Body(s)[0] == 'I' && Body(s)[|Body(s)| - 1] == ')';
    case Delete(_, _, _) => assert Body(s)[0] == 'D' && Body(s)[|Body(s)| - 1] == '1';
    case Update(_, _, _, _) => assert Body(s)[0] == 'U' && Body(s)[|Body(s)| - 1] == '1';
  }

  /** The splitter takes a rendered undo for exactly one statement, and any list of rendered
      undos for exactly that list. */
  lemma RenderedIsOneStatement(s: Stmt)
    requires Sound(s)
    ensures Split(Render(s)) == Parts([Body(s)])
  {
    BodyIsTidy(s);
    BodyIsTrimmed(s);
    RoundTrip([Body(s)]);
  }

  lemma RenderedScript(stmts: seq<Stmt>)
    requires forall i :: 0 <= i < |stmts| ==> Sound(stmts[i])
    ensures var bodies := seq(|stmts|, i requires 0 <= i < |stmts| => Body(stmts[i]));
            Split(Rejoin(bodies)) == Parts(bodies)
  {
    var bodies := seq(|stmts|, i requires 0 <= i < |stmts| => Body(stmts[i]));
    forall i | 0 <= i < |bodies| ensures Trimmed(bodies[i]) && Atomic(bodies[i]) {
      BodyIsTidy(stmts[i]);
      BodyIsTrimmed(stmts[i]);
    }
    RoundTrip(bodies);
  }
}
