/** The value that a literal gives a column, and that the literals written for captured values give
    back those values (internal/rollback/generator.go, literal and literalColumn).

    What the server takes a literal for follows the MySQL 8.0 Reference Manual, sections "Literal Values"
    and "Data Types"; nothing here refers to how literals are chosen. */
module Meaning {
  import opened Text
  import opened Catalog
  import opened Statements
  import opened Generator

  // ---------------------------------------------------------------- numbers

  /** What has been read of a number: its sign, its digits, how many of them stand behind the point,
      and its exponent with the sign of that. */
  datatype Reading = Reading(negative: bool, digits: nat, scale: nat, down: bool, power: nat)

  function DigitOf(c: char): nat { if IsDigit(c) then (c - '0') as int else 0 }

  function Take(st: NumState, c: char, r: Reading): Reading {
    match NumStep(st, c)
    case Signed => r.(negative := c == '-')
    case Whole => r.(digits := 10 * r.digits + DigitOf(c))
    case Fraction => if IsDigit(c) then r.(digits := 10 * r.digits + DigitOf(c), scale := r.scale + 1) else r
    case ExponentSigned => r.(down := c == '-')
    case Power => r.(power := 10 * r.power + DigitOf(c))
    case _ => r
  }

  function TakeAll(st: NumState, t: string, r: Reading): Reading
    decreases |t|
  {
    if t == [] then r else TakeAll(NumStep(st, t[0]), t[1..], Take(st, t[0], r))
  }

  function Power10(k: nat): (p: real)
    ensures p > 0.0
  {
    if k == 0 then 1.0 else 10.0 * Power10(k - 1)
  }

  function ValueOf(r: Reading): real {
    var whole := (if r.negative then -1.0 else 1.0) * r.digits as real / Power10(r.scale);
    if r.down then whole / Power10(r.power) else whole * Power10(r.power)
  }

  /** The number that a numeric literal stands for. */
  function NumValue(t: string): real { ValueOf(TakeAll(Begin, t, Reading(false, 0, 0, false, 0))) }

  lemma {:induction false} TakeSnoc(st: NumState, t: string, c: char, r: Reading)
    ensures NumRun(st, t + [c]) == NumStep(NumRun(st, t), c)
    ensures TakeAll(st, t + [c], r) == Take(NumRun(st, t), c, TakeAll(st, t, r))
    decreases |t|
  {
    var all := t + [c];
    if t == [] {
      assert all[1..] == [];
    } else {
      assert all[0] == t[0] && all[1..] == t[1..] + [c];
      TakeSnoc(NumStep(st, t[0]), t[1..], c, Take(st, t[0], r));
    }
  }

  predicate AllDigits(t: string) { forall i :: 0 <= i < |t| ==> '0' <= t[i] <= '9' }

  lemma TakesDigit(st: NumState, c: char, r: Reading)
    requires '0' <= c <= '9' && (st.Whole? || ((st.Begin? || st.Signed?) && r.digits == 0))
    ensures Take(st, c, r) == r.(digits := 10 * r.digits + (c - '0') as int)
  {
  }

  lemma NatValueSnoc(t: string, c: char)
    requires AllDigits(t) && '0' <= c <= '9'
    ensures NatValue(t + [c]) == 10 * NatValue(t) + (c - '0') as int
  {
    assert (t + [c])[..|t|] == t;
  }

  /** A run of digits is read as a decimal numeral. */
  lemma {:induction false} TakesDigits(st: NumState, t: string, r: Reading)
    requires AllDigits(t) && t != [] && (st.Begin? || st.Signed?) && r.digits == 0
    ensures TakeAll(st, t, r) == r.(digits := NatValue(t))
    decreases |t|
  {
    var n := |t| - 1;
    var init, c := t[..n], t[n];
    assert t == init + [c];
    TakeSnoc(st, init, c, r);
    NatValueSnoc(init, c);
    if init == [] {
      TakesDigit(st, c, r);
    } else {
      DigitsRun(st, init);
      TakesDigits(st, init, r);
      TakesDigit(Whole, c, r.(digits := NatValue(init)));
    }
  }

  lemma {:induction false} TakesFraction(a: string, b: string, r: Reading)
    requires AllDigits(a) && a != [] && AllDigits(b) && r.digits == 0
    ensures NumRun(Begin, a + "." + b) == Fraction
    ensures TakeAll(Begin, a + "." + b, r) == r.(digits := NatValue(a + b), scale := r.scale + |b|)
    decreases |b|
  {
    if b == [] {
      TakeSnoc(Begin, a, '.', r);
      DigitsRun(Begin, a);
      TakesDigits(Begin, a, r);
      assert a + "." + b == a + ['.'] && a + b == a;
    } else {
      var n := |b| - 1;
      var init, c := b[..n], b[n];
      TakesFraction(a, init, r);
      TakeSnoc(Begin, a + "." + init, c, r);
      assert a + "." + b == a + "." + init + [c] && (a + b)[..|a + b| - 1] == a + init;
    }
  }

  lemma Signed(c: char, t: string, r: Reading)
    requires c == '-' && t != []
    ensures NumRun(Begin, [c] + t) == NumRun(NumState.Signed, t)
    ensures TakeAll(Begin, [c] + t, r) == TakeAll(NumState.Signed, t, r.(negative := true))
  {
    var all := [c] + t;
    assert all[0] == c && all[1..] == t;
    assert NumStep(Begin, c) == NumState.Signed && Take(Begin, c, r) == r.(negative := true);
  }

  lemma PlainValue(negative: bool, digits: nat, scale: nat)
    ensures var p := digits as real / Power10(scale);
            ValueOf(Reading(negative, digits, scale, false, 0)) == if negative then -p else p
  {
    assert Power10(0) == 1.0;
  }

  /** An integer stands for itself. */
  lemma IntTextMeans(n: int)
    ensures NumValue(IntText(n)) == n as real
  {
    var start := Reading(false, 0, 0, false, 0);
    if n < 0 {
      NatTextValue(-n);
      Signed('-', NatText(-n), start);
      TakesDigits(NumState.Signed, NatText(-n), start.(negative := true));
      PlainValue(true, -n, 0);
    } else {
      NatTextValue(n);
      TakesDigits(Begin, NatText(n), start);
      PlainValue(false, n, 0);
    }
  }

  lemma SignedDigit(t: string, r: Reading)
    requires t != [] && IsDigit(t[0])
    ensures NumRun(NumState.Signed, t) == NumRun(Begin, t) && TakeAll(NumState.Signed, t, r) == TakeAll(Begin, t, r)
  {
    assert NumStep(NumState.Signed, t[0]) == NumStep(Begin, t[0]) == Whole;
    assert Take(NumState.Signed, t[0], r) == Take(Begin, t[0], r);
  }

  /** Digits, a point and digits stand for the numeral of all of them, divided by a power of ten. */
  lemma DecimalMeans(a: string, b: string)
    requires AllDigits(a) && a != [] && AllDigits(b)
    ensures NumText(a + "." + b) && NumValue(a + "." + b) == NatValue(a + b) as real / Power10(|b|)
    ensures NumText("-" + (a + "." + b))
    ensures NumValue("-" + (a + "." + b)) == -(NatValue(a + b) as real / Power10(|b|))
  {
    var start, t := Reading(false, 0, 0, false, 0), a + "." + b;
    TakesFraction(a, b, start);
    TakesFraction(a, b, start.(negative := true));
    assert t[0] == a[0];
    Signed('-', t, start);
    SignedDigit(t, start.(negative := true));
    PlainValue(false, NatValue(a + b), |b|);
    PlainValue(true, NatValue(a + b), |b|);
  }

  // ---------------------------------------------------------------- types of columns

  /** What a column holds: bytes, numbers, or text. */
  datatype Kind = Raw | Numeric | Textual

  function RawTypes(): seq<string> {
    ["binary", "varbinary", "tinyblob", "blob", "mediumblob", "longblob", "bit"]
  }

  function ExactTypes(): seq<string> { ["decimal", "numeric"] }

  function ApproximateTypes(): seq<string> { ["float", "double"] }

  function WholeTypes(): seq<string> { ["tinyint", "smallint", "mediumint", "int", "bigint", "year"] }

  function TextTypes(): seq<string> {
    ["char", "varchar", "tinytext", "text", "mediumtext", "longtext", "date", "time", "datetime", "timestamp",
     "json", "enum", "set"]
  }

  predicate IsLetter(c: char) { 'a' <= c <= 'z' }

  /** The letters that a text begins with. */
  function FirstWord(s: string): (w: string)
    ensures w <= s && (forall i :: 0 <= i < |w| ==> IsLetter(w[i])) && (|w| < |s| ==> !IsLetter(s[|w|]))
  {
    if s == [] || !IsLetter(s[0]) then [] else [s[0]] + FirstWord(s[1..])
  }

  /** The name of the type, without length, sign or members. */
  function TypeName(column: Column): string { FirstWord(Fold(column.columnType)) }

  function KindOf(column: Column): Kind {
    var name := TypeName(column);
    if name in RawTypes() then Raw
    else if name in ExactTypes() || name in ApproximateTypes() || name in WholeTypes() then Numeric
    else Textual
  }

  /** The type is one of those above, and what follows its name, such as "(10,2) unsigned zerofill", holds no
      'b', 'c' or 't'; the members of an ENUM or SET may. */
  predicate Regular(column: Column) {
    Known(TypeName(column)) && PlainRest(Fold(column.columnType), TypeName(column))
  }

  predicate Known(name: string) {
    name in RawTypes() || name in ExactTypes() || name in ApproximateTypes() || name in WholeTypes()
    || name in TextTypes()
  }

  predicate PlainRest(kind: string, name: string) {
    forall i :: |name| <= i < |kind| ==> kind[i] != 'b' && kind[i] != 'c' && kind[i] != 't'
  }

  lemma ContainedLetter(s: string, word: string, c: char)
    requires Contains(s, word) && c in word
    ensures c in s
  {
    var i :| 0 <= i <= |s| && word <= s[i..];
    var k :| 0 <= k < |word| && word[k] == c;
    assert s[i + k] == c;
  }

  lemma LettersEnd(kind: string, n: nat, i: nat, length: nat)
    requires i < n <= |kind| && i + length <= |kind| && (n < |kind| ==> !IsLetter(kind[n]))
    requires forall m :: i <= m < i + length ==> IsLetter(kind[m])
    ensures i + length <= n
  {
  }

  /** A word is contained in the name of the type or not at all, if some letter of it does not follow the name. */
  lemma ContainedInName(kind: string, name: string, word: string, c: char)
    requires name <= kind && c in word && (forall i :: 0 <= i < |word| ==> IsLetter(word[i]))
    requires |name| < |kind| ==> !IsLetter(kind[|name|])
    requires forall i :: |name| <= i < |kind| ==> kind[i] != c
    ensures Contains(kind, word) <==> Contains(name, word)
  {
    if i :| 0 <= i <= |name| && word <= name[i..] {
      assert word <= kind[i..];
    }
    if i :| 0 <= i <= |kind| && word <= kind[i..] {
      var k :| 0 <= k < |word| && word[k] == c;
      assert kind[i + k] == c && i + k < |name|;
      forall m | i <= m < i + |word| ensures IsLetter(kind[m]) {
        assert kind[m] == word[m - i];
      }
      LettersEnd(kind, |name|, i, |word|);
      assert word <= name[i..];
    }
  }

  /** What the words of literalColumn say of the name of a type. */
  predicate SaysRaw(name: string) { Contains(name, "binary") || Contains(name, "blob") || "bit" <= name }

  predicate SaysExact(name: string) { Contains(name, "decimal") || Contains(name, "numeric") }

  predicate SaysApproximate(name: string) { Contains(name, "float") || Contains(name, "double") }

  lemma Lacks(s: string, word: string, c: char)
    requires c in word && c !in s
    ensures !Contains(s, word)
  {
    if Contains(s, word) {
      ContainedLetter(s, word, c);
    }
  }

  lemma NotBit(s: string, k: nat)
    requires k < 3 && (|s| <= k || s[k] != "bit"[k])
    ensures !("bit" <= s)
  {
  }

  lemma WithoutB(name: string)
    requires 'b' !in name && 'f' !in name && ('c' !in name || 'm' !in name)
    ensures !SaysRaw(name) && !SaysExact(name) && !SaysApproximate(name)
  {
    Lacks(name, "binary", 'b');
    Lacks(name, "blob", 'b');
    Lacks(name, "double", 'b');
    Lacks(name, "float", 'f');
    assert |name| > 0 ==> name[0] in name;
    NotBit(name, 0);
    var c := if 'c' !in name then 'c' else 'm';
    Lacks(name, "decimal", c);
    Lacks(name, "numeric", c);
  }

  lemma WordAt(s: string, word: string, i: nat)
    requires i <= |s| && s[i..] == word
    ensures Contains(s, word)
  {
  }

  lemma RawNames(name: string)
    requires name in RawTypes()
    ensures SaysRaw(name)
  {
    if name == "binary" || name == "varbinary" {
      WordAt(name, "binary", |name| - 6);
    } else if name != "bit" {
      WordAt(name, "blob", |name| - 4);
    }
  }

  lemma ExactNames(name: string)
    requires name in ExactTypes()
    ensures !SaysRaw(name) && SaysExact(name)
  {
    WordAt(name, name, 0);
    Lacks(name, "binary", 'b');
    Lacks(name, "blob", 'b');
    NotBit(name, 0);
  }

  lemma ExactIsNotApproximate(name: string)
    requires name in ExactTypes()
    ensures !SaysApproximate(name)
  {
    Lacks(name, "float", 'o');
    Lacks(name, "double", 'o');
  }

  lemma FloatName(name: string)
    requires name == "float"
    ensures !SaysRaw(name) && !SaysExact(name) && SaysApproximate(name)
  {
    WordAt(name, "float", 0);
    Lacks(name, "binary", 'b');
    Lacks(name, "blob", 'b');
    NotBit(name, 0);
    Lacks(name, "decimal", 'c');
    Lacks(name, "numeric", 'c');
  }

  /** Here every letter of "blob" occurs, but not in this order. */
  lemma DoubleHasNoBlob(name: string)
    requires name == "double"
    ensures !Contains(name, "blob")
  {
    assert name[0] == 'd' && name[1] == 'o' && name[2] == 'u';
    assert "blob"[0] == 'b' && |"blob"| == 4 && |name| == 6;
    assert forall i :: 0 <= i <= 6 ==> |name[i..]| == 6 - i && (i < 6 ==> name[i..][0] == name[i]);
  }

  lemma DoubleName(name: string)
    requires name == "double"
    ensures !SaysRaw(name) && !SaysExact(name) && SaysApproximate(name)
  {
    WordAt(name, "double", 0);
    Lacks(name, "binary", 'y');
    DoubleHasNoBlob(name);
    NotBit(name, 0);
    Lacks(name, "decimal", 'c');
    Lacks(name, "numeric", 'c');
  }

  lemma BigintName(name: string)
    requires name == "bigint"
    ensures !SaysRaw(name) && !SaysExact(name) && !SaysApproximate(name)
  {
    Lacks(name, "binary", 'y');
    Lacks(name, "blob", 'o');
    NotBit(name, 2);
    Lacks(name, "decimal", 'c');
    Lacks(name, "numeric", 'c');
    Lacks(name, "float", 'o');
    Lacks(name, "double", 'o');
  }

  predicate Without(name: string) { 'b' !in name && 'f' !in name && ('c' !in name || 'm' !in name) }

  lemma WholeNames(name: string)
    requires name in WholeTypes() && name != "bigint"
    ensures Without(name)
  {
  }

  lemma TextNames(name: string)
    requires name in TextTypes()
    ensures Without(name)
  {
  }

  lemma NamesApart(name: string)
    ensures name in WholeTypes() || name in TextTypes() ==>
              name !in RawTypes() && name !in ExactTypes() && name !in ApproximateTypes()
    ensures name in ExactTypes() || name in ApproximateTypes() ==> name !in RawTypes()
    ensures name in ExactTypes() ==> name !in ApproximateTypes()
  {
  }

  /** On the names of the types, the words tell what the column holds; what they say of numbers counts only
      where no bytes are found. */
  ghost predicate Told(name: string) {
    (SaysRaw(name) <==> name in RawTypes())
    && (!SaysRaw(name) ==> (SaysExact(name) <==> name in ExactTypes()))
    && (!SaysRaw(name) ==> (SaysApproximate(name) <==> name in ApproximateTypes()))
  }

  lemma NumberNames(name: string)
    requires name in ExactTypes() || name in ApproximateTypes()
    ensures Told(name)
  {
    NamesApart(name);
    if name in ExactTypes() {
      ExactNames(name);
      ExactIsNotApproximate(name);
    } else if name == "float" {
      FloatName(name);
    } else {
      DoubleName(name);
    }
  }

  lemma NameTells(name: string)
    requires Known(name)
    ensures Told(name)
  {
    NamesApart(name);
    if name in RawTypes() {
      RawNames(name);
    } else if name in ExactTypes() || name in ApproximateTypes() {
      NumberNames(name);
    } else if name == "bigint" {
      BigintName(name);
    } else {
      if name in WholeTypes() {
        WholeNames(name);
      } else {
        TextNames(name);
      }
      WithoutB(name);
    }
  }

  predicate IsWord(kind: string, name: string) {
    name != [] && name <= kind && (|name| < |kind| ==> !IsLetter(kind[|name|]))
  }

  lemma BitInName(kind: string, name: string)
    requires IsWord(kind, name)
    ensures "bit" <= kind <==> "bit" <= name
  {
    if "bit" <= kind {
      assert kind[0] == 'b' && kind[1] == 'i' && kind[2] == 't';
      LettersEnd(kind, |name|, 0, 3);
    }
  }

  lemma SameWords(kind: string, name: string)
    requires IsWord(kind, name) && PlainRest(kind, name)
    ensures SaysRaw(kind) <==> SaysRaw(name)
    ensures SaysExact(kind) <==> SaysExact(name)
    ensures SaysApproximate(kind) <==> SaysApproximate(name)
  {
    ContainedInName(kind, name, "binary", 'b');
    ContainedInName(kind, name, "blob", 'b');
    ContainedInName(kind, name, "decimal", 'c');
    ContainedInName(kind, name, "numeric", 'c');
    ContainedInName(kind, name, "float", 't');
    ContainedInName(kind, name, "double", 'b');
    BitInName(kind, name);
  }

  lemma WordsAre(column: Column)
    ensures IsBinary(column) <==> SaysRaw(Fold(column.columnType))
    ensures IsDecimal(column) <==> SaysExact(Fold(column.columnType))
    ensures IsFloat(column) <==> SaysApproximate(Fold(column.columnType))
  {
  }

  lemma KnownIsWord(column: Column)
    requires Known(TypeName(column))
    ensures IsWord(Fold(column.columnType), TypeName(column))
  {
    NotEmpty(TypeName(column));
  }

  lemma NotEmpty(name: string)
    requires Known(name)
    ensures name != []
  {
  }

  /** literalColumn tells the kinds of the regular types apart. */
  lemma KindIsTold(column: Column)
    requires Regular(column)
    ensures IsBinary(column) <==> KindOf(column) == Raw
    ensures !IsBinary(column) ==> (IsDecimal(column) <==> TypeName(column) in ExactTypes())
    ensures !IsBinary(column) ==> (IsFloat(column) <==> TypeName(column) in ApproximateTypes())
  {
    NameTells(TypeName(column));
    KnownIsWord(column);
    SameWords(Fold(column.columnType), TypeName(column));
    WordsAre(column);
  }

  // ---------------------------------------------------------------- literals and values

  /** What a field of a row holds: NULL, a number, text, or bytes. */
  datatype Cell = Absent | Number(n: real) | Characters(s: string) | Octets(b: seq<byte>)

  /** Text given to a column becomes bytes, a number, or itself. */
  function Taken(cs: Charset, kind: Kind, s: string): Cell {
    match kind
    case Raw => Octets(cs.encode(s))
    case Numeric => if NumText(s) then Number(NumValue(s)) else Characters(s)
    case Textual => Characters(s)
  }

  /** What a column holds when it is given a literal. */
  function Given(cs: Charset, column: Column, l: Lit): Cell {
    match l
    case Null => Absent
    case Num(t) => if NumText(t) then Number(NumValue(t)) else Characters(t)
    case Str(s) => Taken(cs, KindOf(column), s)
    case Hex(b) => if KindOf(column) == Raw then Octets(b) else Taken(cs, KindOf(column), cs.decode(b))
  }

  /** What a column holds when this value is captured from it. */
  function Held(cs: Charset, column: Column, v: Value): Cell {
    match v
    case Nil => Absent
    case Int(n) => Number(n as real)
    case Bool(yes) => Number(if yes then 1.0 else 0.0)
    case Chars(s) => Taken(cs, KindOf(column), s)
    case Bytes(b) => if KindOf(column) == Raw then Octets(b) else Taken(cs, KindOf(column), cs.decode(b))
  }

  /** The value can be captured from the column: its type is regular, unless the value is NULL or a number, as
      it is for ENUM and SET, and text of a number is the text of a number. */
  predicate Captured(cs: Charset, column: Column, v: Value) {
    Writable(cs, column, v) && (Regular(column) || v.Nil? || v.Int?)
  }

  lemma IntMeans(cs: Charset, column: Column, n: int, t: string)
    requires t == IntText(n)
    ensures Given(cs, column, Num(t)) == Number(n as real)
  {
    IntTextMeans(n);
    IntTextIsNumber(n);
  }

  lemma BitTexts()
    ensures IntText(1) == "1" && IntText(0) == "0"
  {
  }

  /** How text and bytes are written, by the kind of the column. */
  lemma TextLiteral(cs: Charset, column: Column, v: Value)
    requires Regular(column) && (v.Chars? || v.Bytes?)
    ensures var l := Literal(cs, column, v);
            if KindOf(column) == Raw then l == Hex(if v.Bytes? then v.b else cs.encode(v.s))
            else
              var s := if v.Bytes? then cs.decode(v.b) else v.s;
              l == Str(s) || (l == Num(s) && KindOf(column) == Numeric)
  {
    KindIsTold(column);
    NamesApart(TypeName(column));
  }

  lemma TextMeans(cs: Charset, column: Column, v: Value)
    requires Captured(cs, column, v) && (v.Chars? || v.Bytes?)
    ensures Given(cs, column, Literal(cs, column, v)) == Held(cs, column, v)
  {
    TextLiteral(cs, column, v);
    LiteralSound(cs, column, v);
  }

  /** The literal written for a captured value gives the column that value back. */
  lemma LiteralMeans(cs: Charset, column: Column, v: Value)
    requires Captured(cs, column, v)
    ensures Given(cs, column, Literal(cs, column, v)) == Held(cs, column, v)
  {
    match v
    case Nil =>
    case Int(n) => IntMeans(cs, column, n, IntText(n));
    case Bool(yes) =>
      BitTexts();
      IntMeans(cs, column, if yes then 1 else 0, if yes then "1" else "0");
    case _ => TextMeans(cs, column, v);
  }

  /** Only NULL gives NULL. */
  lemma GivenAbsent(cs: Charset, column: Column, l: Lit)
    ensures Given(cs, column, l).Absent? <==> l.Null?
  {
  }
}
