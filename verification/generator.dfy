/** From a captured row change to the statement that undoes it (internal/rollback/generator.go),
    and the audit's test that such a statement can be generated (internal/audit/rules/dml.go).

    The functions say what is generated, as a value of type `Stmt`; the methods are the loops of
    the source and produce the text. */
module Generator {
  import opened Text
  import opened Catalog
  import opened Statements
  import opened Seqs
  import Splitter

  /** The values of a row image. Times, floats and the fallback for other types are not modelled. */
  datatype Value = Nil | Int(n: int) | Bool(yes: bool) | Chars(s: string) | Bytes(b: seq<byte>)

  /** The conversion between bytes and text, string(b) and []byte(s). */
  datatype Charset = Charset(decode: seq<byte> -> string, encode: string -> seq<byte>)

  datatype ChangeKind = Inserted | Deleted | Updated

  datatype RowChange = RowChange(kind: ChangeKind, table: Table, before: seq<Value>, after: seq<Value>)

  // ---------------------------------------------------------------- literals

  predicate Contains(s: string, part: string) {
    exists i :: 0 <= i <= |s| && part <= s[i..]
  }

  predicate IsBinary(column: Column) {
    var kind := Fold(column.columnType);
    Contains(kind, "binary") || Contains(kind, "blob") || "bit" <= kind
  }

  predicate IsDecimal(column: Column) {
    var kind := Fold(column.columnType);
    Contains(kind, "decimal") || Contains(kind, "numeric")
  }

  predicate IsFloat(column: Column) {
    var kind := Fold(column.columnType);
    Contains(kind, "float") || Contains(kind, "double")
  }

  /** literalColumn: the literal written for a value of a column. */
  function Literal(cs: Charset, column: Column, v: Value): Lit {
    match v
    case Nil => Null
    case Bytes(b) =>
      if IsBinary(column) then Hex(b)
      else if IsDecimal(column) || IsFloat(column) then Num(cs.decode(b))
      else Str(cs.decode(b))
    case Chars(s) =>
      if IsBinary(column) then Hex(cs.encode(s))
      else if IsDecimal(column) then Num(s)
      else Str(s)
    case Int(n) => Num(IntText(n))
    case Bool(b) =>
      if IsDecimal(column) then Num(if b then "true" else "false") else Num(if b then "1" else "0")
  }

  /** Values whose text is written unquoted must look like a number. */
  predicate Writable(cs: Charset, column: Column, v: Value) {
    match v
    case Bytes(b) => !IsBinary(column) && (IsDecimal(column) || IsFloat(column)) ==> NumText(cs.decode(b))
    case Chars(s) => !IsBinary(column) && IsDecimal(column) ==> NumText(s)
    case Bool(_) => !IsDecimal(column)
    case _ => true
  }

  lemma IntTextIsNumber(n: int)
    ensures NumText(IntText(n))
  {
    NatTextValue(if n < 0 then -n else n);
    if n < 0 {
      assert IntText(n)[1..] == NatText(-n);
      DigitsRun(Signed, NatText(-n));
    } else {
      DigitsRun(Begin, NatText(n));
    }
  }

  /** The literal is one that reads back as written exactly when the value is writable. */
  lemma LiteralSound(cs: Charset, column: Column, v: Value)
    ensures SoundLit(Literal(cs, column, v)) <==> Writable(cs, column, v)
    ensures Literal(cs, column, v).Null? <==> v.Nil?
  {
    match v
    case Int(n) => IntTextIsNumber(n);
    case Bool(b) =>
      NotNumStays("true"[1..]);
      NotNumStays("false"[1..]);
      DigitsRun(Begin, "1");
      DigitsRun(Begin, "0");
    case _ =>
  }

  /** The literals of a whole row image. */
  function Image(cs: Charset, columns: seq<Column>, row: seq<Value>): (r: seq<Lit>)
    requires |row| == |columns|
    ensures |r| == |columns|
  {
    seq(|columns|, i requires 0 <= i < |columns| => Literal(cs, columns[i], row[i]))
  }

  // ---------------------------------------------------------------- the key

  /** Every column of the index exists and is declared NOT NULL. */
  predicate NonNull(columns: seq<Column>, index: Index) {
    index.columns != []
    && forall k :: 0 <= k < |index.columns| ==>
         var n := FindColumn(columns, index.columns[k]); n >= 0 && !columns[n].nullable
  }

  function FirstPrimary(indexes: seq<Index>): (r: Option<Index>)
    ensures r.None? <==> forall i :: 0 <= i < |indexes| ==> !indexes[i].primary
  {
    if indexes == [] then None
    else if indexes[0].primary then Some(indexes[0])
    else
      assert forall i :: 1 <= i < |indexes| ==> indexes[i] == indexes[1..][i - 1];
      FirstPrimary(indexes[1..])
  }

  function FirstUnique(columns: seq<Column>, indexes: seq<Index>): (r: Option<Index>)
    ensures r.None? <==> forall i :: 0 <= i < |indexes| ==> !(indexes[i].unique && NonNull(columns, indexes[i]))
    ensures r.Some? ==> NonNull(columns, r.value)
  {
    if indexes == [] then None
    else if indexes[0].unique && NonNull(columns, indexes[0]) then Some(indexes[0])
    else
      assert forall i :: 1 <= i < |indexes| ==> indexes[i] == indexes[1..][i - 1];
      FirstUnique(columns, indexes[1..])
  }

  /** The key that identifies a row: the first primary index, else the first unique one that is NOT NULL. */
  function Key(t: Table): Option<Index> {
    match FirstPrimary(t.indexes)
    case Some(k) => Some(k)
    case None => FirstUnique(t.columns, t.indexes)
  }

  function KeyCond(cs: Charset, t: Table, name: string, row: seq<Value>): Option<Cond> {
    var pos := FindColumn(t.columns, name);
    if pos < 0 || pos >= |row| then None
    else if row[pos].Nil? then Some(IsNull(name))
    else Some(Eq(name, Literal(cs, t.columns[pos], row[pos])))
  }

  function KeyConds(cs: Charset, t: Table, names: seq<string>, row: seq<Value>): (r: Option<seq<Cond>>)
    ensures r.Some? ==> |r.value| == |names|
                        && forall k :: 0 <= k < |names| ==> KeyCond(cs, t, names[k], row) == Some(r.value[k])
    ensures r.None? ==> exists k :: 0 <= k < |names| && KeyCond(cs, t, names[k], row).None?
  {
    if names == [] then Some([])
    else
      assert forall k :: 1 <= k < |names| ==> names[k] == names[1..][k - 1];
      match KeyCond(cs, t, names[0], row)
      case None => None
      case Some(c) =>
        match KeyConds(cs, t, names[1..], row) case Some(rest) => Some([c] + rest) case None => None
  }

  function KeyWhere(cs: Charset, t: Table, row: seq<Value>): Option<seq<Cond>> {
    match Key(t)
    case None => None
    case Some(k) => if k.columns == [] then None else KeyConds(cs, t, k.columns, row)
  }

  // ---------------------------------------------------------------- the undo

  function Names(columns: seq<Column>): (r: seq<string>)
    ensures |r| == |columns|
  {
    seq(|columns|, i requires 0 <= i < |columns| => columns[i].name)
  }

  function Sets(cs: Charset, columns: seq<Column>, row: seq<Value>): (r: seq<Assign>)
    requires |row| == |columns|
    ensures |r| == |columns|
  {
    seq(|columns|, i requires 0 <= i < |columns| => Assign(columns[i].name, Literal(cs, columns[i], row[i])))
  }

  /** The statement that undoes a change, if there is one. */
  function Undo(cs: Charset, c: RowChange): Option<Stmt> {
    var t := c.table;
    if t.columns == [] then None
    else match c.kind
      case Inserted =>
        (match KeyWhere(cs, t, c.after) case None => None case Some(w) => Some(Delete(t.schema, t.name, w)))
      case Deleted =>
        if |c.before| != |t.columns| then None
        else Some(Insert(t.schema, t.name, Names(t.columns), Image(cs, t.columns, c.before)))
      case Updated =>
        if |c.before| != |t.columns| || |c.after| != |t.columns| then None
        else match KeyWhere(cs, t, c.after)
          case None => None
          case Some(w) => Some(Update(t.schema, t.name, Sets(cs, t.columns, c.before), w))
  }

  function UndoText(cs: Charset, c: RowChange): Option<string> {
    match Undo(cs, c) case Some(s) => Some(Render(s)) case None => None
  }

  /** Both images hold writable values. */
  predicate WritableChange(cs: Charset, c: RowChange) {
    (forall i :: 0 <= i < |c.before| && i < |c.table.columns| ==> Writable(cs, c.table.columns[i], c.before[i]))
    && (forall i :: 0 <= i < |c.after| && i < |c.table.columns| ==> Writable(cs, c.table.columns[i], c.after[i]))
  }

  lemma KeyWhereSound(cs: Charset, t: Table, row: seq<Value>)
    requires forall i :: 0 <= i < |row| && i < |t.columns| ==> Writable(cs, t.columns[i], row[i])
    ensures var w := KeyWhere(cs, t, row);
            w.Some? ==> w.value != [] && forall k :: 0 <= k < |w.value| ==> SoundCond(w.value[k])
  {
    var w := KeyWhere(cs, t, row);
    if w.Some? {
      var names := Key(t).value.columns;
      forall k | 0 <= k < |w.value| ensures SoundCond(w.value[k]) {
        assert KeyCond(cs, t, names[k], row) == Some(w.value[k]);
        var pos := FindColumn(t.columns, names[k]);
        LiteralSound(cs, t.columns[pos], row[pos]);
      }
    }
  }

  /** Whatever is generated from writable values is one statement, and reads back as itself. */
  lemma UndoIsReadable(cs: Charset, c: RowChange)
    requires WritableChange(cs, c) && Undo(cs, c).Some?
    ensures Sound(Undo(cs, c).value)
    ensures Parse(UndoText(cs, c).value) == Got(Undo(cs, c).value, [])
    ensures Splitter.Split(UndoText(cs, c).value) == Splitter.Parts([Body(Undo(cs, c).value)])
  {
    var t := c.table;
    var s := Undo(cs, c).value;
    KeyWhereSound(cs, t, c.after);
    if s.Insert? {
      forall i | 0 <= i < |s.vals| ensures SoundLit(s.vals[i]) {
        LiteralSound(cs, t.columns[i], c.before[i]);
      }
    } else if s.Update? {
      forall i | 0 <= i < |s.sets| ensures SoundLit(s.sets[i].lit) {
        LiteralSound(cs, t.columns[i], c.before[i]);
      }
    }
    ParseRender(s);
    RenderedIsOneStatement(s);
  }

  // ---------------------------------------------------------------- admission

  /** What the backup-key rule asks of a table. */
  predicate Reliable(t: Table) {
    exists i :: 0 <= i < |t.indexes|
      && ((t.indexes[i].primary && t.indexes[i].columns != [])
          || (t.indexes[i].unique && NonNull(t.columns, t.indexes[i])))
  }

  /** The first primary index, if there is one, has columns and they all exist. */
  predicate PrimarySound(t: Table) {
    match FirstPrimary(t.indexes)
    case None => true
    case Some(k) => k.columns != [] && Present(t.columns, k.columns)
  }

  /** A condition on the key can be written for a full row image if and only if the rule admits
      the table and its primary index is sound. The rule alone does not look at the primary
      index's columns. */
  lemma AdmissionIsKeyWhere(cs: Charset, t: Table, row: seq<Value>)
    requires |row| == |t.columns|
    ensures KeyWhere(cs, t, row).Some? <==> Reliable(t) && PrimarySound(t)
  {
    var p := FirstPrimary(t.indexes);
    if p.Some? {
      PrimaryIsAnIndex(t.indexes);
      if PrimarySound(t) {
        var c := KeyConds(cs, t, p.value.columns, row);
        assert c.Some?;
      } else if p.value.columns != [] {
        var k :| 0 <= k < |p.value.columns| && FindColumn(t.columns, p.value.columns[k]) < 0;
        assert KeyCond(cs, t, p.value.columns[k], row).None?;
      }
    } else {
      var u := FirstUnique(t.columns, t.indexes);
      if u.Some? {
        var c := KeyConds(cs, t, u.value.columns, row);
        assert c.Some?;
      }
    }
  }

  lemma PrimaryIsAnIndex(indexes: seq<Index>)
    ensures var p := FirstPrimary(indexes);
            p.Some? ==> exists i :: 0 <= i < |indexes| && indexes[i] == p.value && p.value.primary
  {
    if indexes != [] && !indexes[0].primary {
      PrimaryIsAnIndex(indexes[1..]);
    }
  }

  /** Full row images of the kind the binlog delivers. */
  predicate FullImages(c: RowChange) {
    (c.kind != Deleted ==> |c.after| == |c.table.columns|) && (c.kind != Inserted ==> |c.before| == |c.table.columns|)
  }

  /** Generate succeeds on full images exactly when the change is a deletion or the table is
      admitted with a sound primary index. */
  lemma AdmissionIsGeneration(cs: Charset, c: RowChange)
    requires FullImages(c) && c.table.columns != []
    ensures Undo(cs, c).Some? <==> c.kind == Deleted || (Reliable(c.table) && PrimarySound(c.table))
  {
    if c.kind != Deleted {
      AdmissionIsKeyWhere(cs, c.table, c.after);
    }
  }

  /** An admitted table whose undo cannot be generated: the primary index names no column of it. */
  lemma AdmittedButNotGenerated(cs: Charset) returns (c: RowChange)
    ensures FullImages(c) && c.table.columns != [] && Reliable(c.table) && Undo(cs, c).None?
  {
    var col := Column("a", "int", false, None, "", "", "", "", "", false, false);
    var idx := Index("PRIMARY", ["b"], true, true, [], [], [], "", true);
    var t := Table("s", "t", "", [col], [idx], false, "", "", "", "", "", 0);
    c := RowChange(Inserted, t, [], [Int(1)]);
    assert t.indexes[0].primary;
    assert Fold("a")[0] == 'a' && Fold("b")[0] == 'b';
    assert FindColumn(t.columns, "b") < 0;
    assert FirstPrimary(t.indexes) == Some(idx);
    assert KeyCond(cs, t, idx.columns[0], [Int(1)]).None?;
  }

  /** The columns are the same as far as keys are concerned, and every index of the view is among those
      loaded from the server. */
  ghost predicate KeysLoaded(view: Table, live: Table) {
    |view.columns| == |live.columns|
    && (forall i :: 0 <= i < |view.columns| ==>
          view.columns[i].name == live.columns[i].name && view.columns[i].nullable == live.columns[i].nullable)
    && forall i :: i in view.indexes ==>
         exists j :: j in live.indexes && j.primary == i.primary && j.unique == i.unique && j.columns == i.columns
  }

  lemma KeysLoadedFind(view: Table, live: Table, name: string)
    requires KeysLoaded(view, live)
    ensures FindColumn(view.columns, name) == FindColumn(live.columns, name)
  {
  }

  /** Admission looks at the request's view of the table, generation at the table as it is loaded after
      the statement has run. The undo can be generated when the loaded table has the view's keys. */
  lemma AdmittedIsGenerated(cs: Charset, view: Table, c: RowChange)
    requires FullImages(c) && c.table.columns != [] && KeysLoaded(view, c.table)
    requires Reliable(view) && PrimarySound(c.table)
    ensures Undo(cs, c).Some?
  {
    var live := c.table;
    var k :| 0 <= k < |view.indexes| && ((view.indexes[k].primary && view.indexes[k].columns != [])
                                         || (view.indexes[k].unique && NonNull(view.columns, view.indexes[k])));
    var i := view.indexes[k];
    assert i in view.indexes;
    var j :| j in live.indexes && j.primary == i.primary && j.unique == i.unique && j.columns == i.columns;
    if NonNull(view.columns, i) {
      NonNullLoaded(view, live, i, j);
    }
    var n :| 0 <= n < |live.indexes| && live.indexes[n] == j;
    assert Reliable(live);
    AdmissionIsGeneration(cs, c);
  }

  lemma NonNullLoaded(view: Table, live: Table, i: Index, j: Index)
    requires KeysLoaded(view, live) && i.columns == j.columns && NonNull(view.columns, i)
    ensures NonNull(live.columns, j)
  {
    forall m | 0 <= m < |i.columns| ensures FindColumn(view.columns, i.columns[m])
        == FindColumn(live.columns, i.columns[m]) {
      KeysLoadedFind(view, live, i.columns[m]);
    }
  }

  /** The key columns of an index with expressions as they are loaded: an expression has no column name. */
  predicate LoadedParts(i: Index, parts: seq<string>) {
    Filter((p: string) => p != "", parts) == i.columns
  }

  /** A unique key made in the same request: the view keeps its columns and forgets its expressions, so it
      admits the table; the loaded key has an empty name for every expression. The undo is generated if
      and only if the key has no expression. */
  lemma ExpressionKey(cs: Charset, view: Table, i: Index, parts: seq<string>, c: RowChange)
    requires view.indexes == [i] && i.unique && !i.primary && NonNull(view.columns, i)
        && FindColumn(view.columns, "") < 0
    requires LoadedParts(i, parts) && c.table == view.(indexes := [i.(columns := parts)])
    requires c.kind != Deleted && FullImages(c) && view.columns != []
    ensures Reliable(view)
    ensures Undo(cs, c).Some? <==> "" !in parts
  {
    assert view.indexes[0] == i;
    var live := c.table;
    var j := live.indexes[0];
    assert live.indexes == [j] && [j][1..] == [];
    assert FirstPrimary(live.indexes).None?;
    if "" in parts {
      var k :| 0 <= k < |parts| && parts[k] == "";
      assert !NonNull(live.columns, j);
    } else {
      FilterAll((p: string) => p != "", parts);
      assert NonNull(live.columns, j);
    }
    assert Reliable(live) <==> NonNull(live.columns, j);
    AdmissionIsGeneration(cs, c);
  }

  // ---------------------------------------------------------------- the loops of the source

  lemma {:induction false} JoinIsJoinMap<T>(f: T -> string, xs: seq<T>, texts: seq<string>, sep: string)
    requires |texts| == |xs| && forall i :: 0 <= i < |xs| ==> texts[i] == f(xs[i])
    ensures Join(texts, sep) == JoinMap(f, xs, sep)
  {
    if |xs| > 1 {
      JoinIsJoinMap(f, xs[1..], texts[1..], sep);
    }
  }

  /** Find a column by name, as the inner loops of the generator do. */
  method Locate(columns: seq<Column>, name: string) returns (pos: int)
    ensures pos == FindColumn(columns, name)
  {
    pos := -1;
    for i := 0 to |columns|
      invariant forall j :: 0 <= j < i ==> !EqualFold(columns[j].name, name)
    {
      if EqualFold(columns[i].name, name) {
        return i;
      }
    }
  }

  method NonNullIndex(t: Table, index: Index) returns (ok: bool)
    ensures ok == NonNull(t.columns, index)
  {
    if |index.columns| == 0 {
      return false;
    }
    for k := 0 to |index.columns|
      invariant forall j :: 0 <= j < k ==>
        var n := FindColumn(t.columns, index.columns[j]); n >= 0 && !t.columns[n].nullable
    {
      var n := Locate(t.columns, index.columns[k]);
      if n < 0 || t.columns[n].nullable {
        return false;
      }
    }
    return true;
  }

  /** The two searches at the head of keyWhere. */
  method ChooseKey(t: Table) returns (key: Option<Index>)
    ensures key == Key(t)
  {
    for i := 0 to |t.indexes|
      invariant FirstPrimary(t.indexes) == FirstPrimary(t.indexes[i..])
    {
      assert t.indexes[i..][1..] == t.indexes[i + 1..];
      if t.indexes[i].primary {
        return Some(t.indexes[i]);
      }
    }
    for i := 0 to |t.indexes|
      invariant FirstUnique(t.columns, t.indexes) == FirstUnique(t.columns, t.indexes[i..])
    {
      assert t.indexes[i..][1..] == t.indexes[i + 1..];
      if t.indexes[i].unique {
        var ok := NonNullIndex(t, t.indexes[i]);
        if ok {
          return Some(t.indexes[i]);
        }
      }
    }
    return None;
  }

  function CondsText(w: Option<seq<Cond>>): Option<string> {
    match w case None => None case Some(c) => Some(JoinMap(CondText, c, " AND "))
  }

  method KeyWhereSQL(cs: Charset, t: Table, row: seq<Value>) returns (r: Option<string>)
    ensures r == CondsText(KeyWhere(cs, t, row))
  {
    var key := ChooseKey(t);
    if key.None? || key.value.columns == [] {
      return None;
    }
    var names := key.value.columns;
    var parts: seq<string> := [];
    ghost var conds: seq<Cond> := [];
    for k := 0 to |names|
      invariant |parts| == |conds| == k
      invariant forall j :: 0 <= j < k ==>
          KeyCond(cs, t, names[j], row) == Some(conds[j]) && parts[j] == CondText(conds[j])
    {
      var pos := Locate(t.columns, names[k]);
      if pos < 0 || pos >= |row| {
        assert KeyCond(cs, t, names[k], row).None?;
        return None;
      }
      ghost var cond := KeyCond(cs, t, names[k], row).value;
      if row[pos].Nil? {
        parts := parts + [QuoteIdent(names[k]) + " IS NULL"];
      } else {
        parts := parts + [QuoteIdent(names[k]) + "=" + LitText(Literal(cs, t.columns[pos], row[pos]))];
      }
      assert parts[k] == CondText(cond);
      conds := conds + [cond];
    }
    var w := KeyConds(cs, t, names, row);
    assert w.Some? && w.value == conds;
    JoinIsJoinMap(CondText, conds, parts, " AND ");
    return Some(Join(parts, " AND "));
  }

  method InsertSQL(cs: Charset, t: Table, row: seq<Value>) returns (r: Option<string>)
    ensures r == if |row| != |t.columns| then None
                 else Some(Render(Insert(t.schema, t.name, Names(t.columns), Image(cs, t.columns, row))))
  {
    if |row| != |t.columns| {
      return None;
    }
    var cols, vals: seq<string> := [], [];
    for i := 0 to |t.columns|
      invariant |cols| == |vals| == i
      invariant forall j :: 0 <= j < i ==> cols[j] == QuoteIdent(Names(t.columns)[j])
      invariant forall j :: 0 <= j < i ==> vals[j] == LitText(Image(cs, t.columns, row)[j])
    {
      cols := cols + [QuoteIdent(t.columns[i].name)];
      vals := vals + [LitText(Literal(cs, t.columns[i], row[i]))];
    }
    JoinIsJoinMap(QuoteIdent, Names(t.columns), cols, ",");
    JoinIsJoinMap(LitText, Image(cs, t.columns, row), vals, ",");
    return Some("INSERT INTO " + Target(t.schema, t.name) + " (" + Join(cols, ",") + ") VALUES (" + Join(vals, ",")
                + ")" + ";");
  }

  method UpdateSQL(cs: Charset, t: Table, before: seq<Value>, after: seq<Value>) returns (r: Option<string>)
    ensures r == if |before| != |t.columns| || |after| != |t.columns| || KeyWhere(cs, t, after).None? then None
                 else Some(Render(Update(t.schema, t.name, Sets(cs, t.columns, before), KeyWhere(cs, t, after).value)))
  {
    if |before| != |t.columns| || |after| != |t.columns| {
      return None;
    }
    var sets: seq<string> := [];
    for i := 0 to |t.columns|
      invariant |sets| == i
      invariant forall j :: 0 <= j < i ==> sets[j] == AssignText(Sets(cs, t.columns, before)[j])
    {
      sets := sets + [QuoteIdent(t.columns[i].name) + "=" + LitText(Literal(cs, t.columns[i], before[i]))];
    }
    JoinIsJoinMap(AssignText, Sets(cs, t.columns, before), sets, ",");
    var where := KeyWhereSQL(cs, t, after);
    if where.None? {
      return None;
    }
    return Some("UPDATE " + Target(t.schema, t.name) + " SET " + Join(sets, ",") + " WHERE " + where.value + " LIMIT 1"
                + ";");
  }

  /** Generate writes the text of exactly the statement that `Undo` describes. */
  method Generate(cs: Charset, change: RowChange) returns (r: Option<string>)
    ensures r == UndoText(cs, change)
  {
    var t := change.table;
    if |t.columns| == 0 {
      return None;
    }
    match change.kind {
      case Inserted =>
        var where := KeyWhereSQL(cs, t, change.after);
        if where.None? {
          return None;
        }
        return Some("DELETE FROM " + Target(t.schema, t.name) + " WHERE " + where.value + " LIMIT 1" + ";");
      case Deleted =>
        r := InsertSQL(cs, t, change.before);
      case Updated =>
        r := UpdateSQL(cs, t, change.before, change.after);
    }
  }

  /** The rule's loop over the indexes of a table. */
  method HasReliableKey(t: Table) returns (ok: bool)
    ensures ok == Reliable(t)
  {
    for i := 0 to |t.indexes|
      invariant forall j :: 0 <= j < i ==>
        !((t.indexes[j].primary && t.indexes[j].columns != [])
          || (t.indexes[j].unique && NonNull(t.columns, t.indexes[j])))
    {
      var index := t.indexes[i];
      if index.primary && |index.columns| > 0 {
        return true;
      }
      if !index.unique || |index.columns| == 0 {
        continue;
      }
      var reliable := true;
      for k := 0 to |index.columns|
        invariant reliable <==> forall j :: 0 <= j < k ==>
          var n := FindColumn(t.columns, index.columns[j]); n >= 0 && !t.columns[n].nullable
      {
        var n := Locate(t.columns, index.columns[k]);
        if n < 0 || t.columns[n].nullable {
          reliable := false;
        }
      }
      if reliable {
        return true;
      }
    }
    return false;
  }
}
