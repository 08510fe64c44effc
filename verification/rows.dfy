/** What an undo statement does to a table, and when running the undos backwards restores it.

    A table is a finite set of rows together with an integrity constraint that the server
    enforces after every row operation (all its unique keys and whatever else it checks).
    Comparison in WHERE goes through an arbitrary collation per column. A statement with
    LIMIT 1 may act on any one of the rows that match. A statement that gives a value to a
    generated column is refused, and an INSERT of 0 into an AUTO_INCREMENT column stores the next
    number instead, unless the SQL mode NO_AUTO_VALUE_ON_ZERO is set (MySQL 8.0 Reference Manual,
    sections "CREATE TABLE and Generated Columns" and "Using AUTO_INCREMENT"). */
module Rows {
  import opened Text
  import opened Catalog
  import opened Statements
  import opened Generator
  import opened Meaning
  import opened Seqs

  /** What the server holds: values, whatever literals they were given by. */
  type Row = seq<Cell>

  /** `charset` is the conversion between bytes and text of the connection, `keepsZero` its SQL mode
      NO_AUTO_VALUE_ON_ZERO. */
  datatype Relation = Relation(
    meta: Table, charset: Charset, collate: (nat, Cell) -> Cell, integrity: set<Row> -> bool, keepsZero: bool)

  /** What column p holds when it is given a literal. */
  function Put(rel: Relation, p: nat, l: Lit): Cell
    requires p < |rel.meta.columns|
  {
    Given(rel.charset, rel.meta.columns[p], l)
  }

  /** `a` and `b` compare equal in column `p`; NULL is the same as NULL only. */
  predicate SameCell(rel: Relation, p: nat, a: Cell, b: Cell) {
    if a.Absent? || b.Absent? then a == b else rel.collate(p, a) == rel.collate(p, b)
  }

  predicate Holds(rel: Relation, c: Cond, row: Row) {
    var p := FindColumn(rel.meta.columns, c.col);
    0 <= p < |row|
    && match c
       case IsNull(_) => row[p].Absent?
       case Eq(_, lit) => !lit.Null? && !row[p].Absent? && SameCell(rel, p, row[p], Put(rel, p, lit))
  }

  predicate Matches(rel: Relation, where: seq<Cond>, row: Row) {
    forall k :: 0 <= k < |where| ==> Holds(rel, where[k], row)
  }

  /** The first of the names, or -1. */
  function FindName(cols: seq<string>, name: string): (n: int)
    ensures -1 <= n < |cols|
    ensures n >= 0 ==> EqualFold(cols[n], name)
    ensures forall i :: 0 <= i < (if n < 0 then |cols| else n) ==> !EqualFold(cols[i], name)
  {
    FindFirst(cols, (c: string) => c, name)
  }

  /** The row an INSERT builds: every column takes the value listed under its name. */
  function Built(rel: Relation, cols: seq<string>, vals: seq<Lit>): Row {
    seq(|rel.meta.columns|, i requires 0 <= i < |rel.meta.columns| =>
      var k := FindName(cols, rel.meta.columns[i].name);
      if 0 <= k < |vals| then Put(rel, i, vals[k]) else Absent)
  }

  /** The row after SET, assignments taking effect from left to right. */
  function Assigned(rel: Relation, row: Row, sets: seq<Assign>): (r: Row)
    ensures |r| == |row|
    decreases |sets|
  {
    if sets == [] then row
    else
      var p := FindColumn(rel.meta.columns, sets[0].col);
      Assigned(rel, if 0 <= p < |row| then row[p := Put(rel, p, sets[0].lit)] else row, sets[1..])
  }

  predicate Generated(columns: seq<Column>, name: string) {
    var p := FindColumn(columns, name);
    p >= 0 && columns[p].generationExpression != ""
  }

  /** In place of this value an INSERT stores the next number of column `p`. */
  predicate Renumbered(rel: Relation, p: nat, v: Cell) {
    p < |rel.meta.columns| && rel.meta.columns[p].autoIncrement
    && (v.Absent? || (!rel.keepsZero && v == Number(0.0)))
  }

  predicate Renumbers(rel: Relation, row: Row) { exists p :: 0 <= p < |row| && Renumbered(rel, p, row[p]) }

  /** A number that AUTO_INCREMENT may generate: which one is not said. */
  ghost predicate NextNumber(v: Cell) { exists n: nat :: n > 0 && v == WholeNumber(n) }

  function WholeNumber(n: int): Cell { Number(n as real) }

  /** `row` is what the server may store for `built`. */
  ghost predicate Stored(rel: Relation, built: Row, row: Row) {
    |row| == |built|
    && forall p :: 0 <= p < |row| ==> if Renumbered(rel, p, built[p]) then NextNumber(row[p]) else row[p] == built[p]
  }

  /** `t` is a possible outcome of running `stmt` on the rows `s`; a refused statement has none. */
  ghost predicate Exec(rel: Relation, stmt: Stmt, s: set<Row>, t: set<Row>) {
    rel.integrity(t)
    && match stmt
       case Insert(_, _, cols, vals) =>
         (forall k :: 0 <= k < |cols| ==> !Generated(rel.meta.columns, cols[k])) && |cols| == |vals|
         && exists row :: Stored(rel, Built(rel, cols, vals), row) && row !in s && t == s + {row}
       case Delete(_, _, where) =>
         if forall r :: r in s ==> !Matches(rel, where, r) then t == s
         else exists r :: r in s && Matches(rel, where, r) && t == s - {r}
       case Update(_, _, sets, where) =>
         (forall k :: 0 <= k < |sets| ==> !Generated(rel.meta.columns, sets[k].col)) &&
         if forall r :: r in s ==> !Matches(rel, where, r) then t == s
         else exists r :: r in s && Matches(rel, where, r) && Assigned(rel, r, sets) !in s - {r}
                          && t == s - {r} + {Assigned(rel, r, sets)}
  }

  ghost function ExecOn(rel: Relation): (Stmt, set<Row>, set<Row>) -> bool {
    (stmt: Stmt, s: set<Row>, t: set<Row>) => Exec(rel, stmt, s, t)
  }

  /** Some way of running the statements in order leads from `s` to `t`. */
  ghost predicate RunAll(rel: Relation, stmts: seq<Stmt>, s: set<Row>, t: set<Row>) { Runs(ExecOn(rel), stmts, s, t) }

  // ---------------------------------------------------------------- captured changes

  predicate AgreeOn(rel: Relation, names: seq<string>, a: Row, b: Row) {
    forall k :: 0 <= k < |names| ==>
      var p := FindColumn(rel.meta.columns, names[k]); 0 <= p < |a| && p < |b| && SameCell(rel, p, a[p], b[p])
  }

  /** Rows that agree on every one of these columns and hold no NULL there are the same row. */
  ghost predicate UniqueOn(rel: Relation, names: seq<string>, s: set<Row>) {
    forall a, b :: a in s && b in s && AgreeOn(rel, names, a, b) && NoNull(rel, names, a) ==> a == b
  }

  predicate NoNull(rel: Relation, names: seq<string>, a: Row) {
    forall k :: 0 <= k < |names| ==>
      var p := FindColumn(rel.meta.columns, names[k]); 0 <= p < |a| ==> !a[p].Absent?
  }

  /** A row of the table: NULL stands in nullable columns only, and not in a primary key. */
  predicate RowOf(rel: Relation, r: Row) {
    |r| == |rel.meta.columns|
    && (forall p :: 0 <= p < |r| && r[p].Absent? ==> rel.meta.columns[p].nullable)
    && forall i :: i in rel.meta.indexes && i.primary ==> NoNull(rel, i.columns, r)
  }

  /** A state of the table between two row operations, as the server keeps it: every unique index, the primary
      ones included, is unique. */
  ghost predicate Settled(rel: Relation, s: set<Row>) {
    rel.integrity(s) && (forall r :: r in s ==> RowOf(rel, r))
    && forall i :: i in rel.meta.indexes && (i.primary || i.unique) ==> UniqueOn(rel, i.columns, s)
  }

  /** The values of a captured row image. */
  function Cells(cs: Charset, columns: seq<Column>, row: seq<Value>): (r: Row)
    requires |row| == |columns|
    ensures |r| == |columns|
  {
    seq(|columns|, i requires 0 <= i < |columns| => Held(cs, columns[i], row[i]))
  }

  predicate CapturedRow(cs: Charset, columns: seq<Column>, row: seq<Value>) {
    forall i :: 0 <= i < |row| && i < |columns| ==> Captured(cs, columns[i], row[i])
  }

  predicate CapturedChange(cs: Charset, c: RowChange) {
    CapturedRow(cs, c.table.columns, c.before) && CapturedRow(cs, c.table.columns, c.after)
  }

  /** The change `c`, with its row images, led from `s` to `t`. */
  ghost predicate Changed(cs: Charset, rel: Relation, c: RowChange, s: set<Row>, t: set<Row>) {
    c.table == rel.meta && cs == rel.charset && FullImages(c) && CapturedChange(cs, c)
    && match c.kind
       case Inserted =>
         var a := Cells(cs, rel.meta.columns, c.after); a !in s && t == s + {a}
       case Deleted =>
         var b := Cells(cs, rel.meta.columns, c.before); b in s && t == s - {b}
       case Updated =>
         var a, b := Cells(cs, rel.meta.columns, c.after), Cells(cs, rel.meta.columns, c.before);
         b in s && a !in s - {b} && t == s - {b} + {a}
  }

  // ---------------------------------------------------------------- one undo

  /** One condition of the WHERE holds of a row exactly when the row agrees there with the image. */
  lemma CondAgrees(cs: Charset, rel: Relation, name: string, row: seq<Value>, c: Cond, r: Row)
    requires cs == rel.charset && CapturedRow(cs, rel.meta.columns, row)
    requires |row| == |r| == |rel.meta.columns| && KeyCond(cs, rel.meta, name, row) == Some(c)
    ensures var p := FindColumn(rel.meta.columns, name);
            p >= 0 && (Holds(rel, c, r) <==> SameCell(rel, p, r[p], Cells(cs, rel.meta.columns, row)[p]))
  {
    var p := FindColumn(rel.meta.columns, name);
    LiteralMeans(cs, rel.meta.columns[p], row[p]);
    LiteralSound(cs, rel.meta.columns[p], row[p]);
  }

  lemma WhereAgrees(cs: Charset, rel: Relation, row: seq<Value>, r: Row)
    requires cs == rel.charset && CapturedRow(cs, rel.meta.columns, row)
    requires |row| == |r| == |rel.meta.columns| && KeyWhere(cs, rel.meta, row).Some?
    ensures Matches(rel, KeyWhere(cs, rel.meta, row).value, r)
       <==> AgreeOn(rel, Key(rel.meta).value.columns, r, Cells(cs, rel.meta.columns, row))
  {
    var where := KeyWhere(cs, rel.meta, row).value;
    var names := Key(rel.meta).value.columns;
    var me := Cells(cs, rel.meta.columns, row);
    forall k | 0 <= k < |names|
      ensures var p := FindColumn(rel.meta.columns, names[k]);
              p >= 0 && (Holds(rel, where[k], r) <==> SameCell(rel, p, r[p], me[p]))
    {
      CondAgrees(cs, rel, names[k], row, where[k], r);
    }
  }

  lemma FirstIsAmong(t: Table)
    requires Key(t).Some?
    ensures var k := Key(t).value; k in t.indexes && (k.primary || (k.unique && NonNull(t.columns, k)))
  {
    PrimaryIsAnIndex(t.indexes);
    UniqueIsAnIndex(t.columns, t.indexes);
  }

  lemma UniqueIsAnIndex(columns: seq<Column>, indexes: seq<Index>)
    ensures var u := FirstUnique(columns, indexes); u.Some? ==> u.value in indexes && u.value.unique
  {
  }

  /** Whichever index was chosen as the key, its columns tell the rows apart. */
  lemma KeyTells(rel: Relation, s: set<Row>, a: Row, b: Row)
    requires Settled(rel, s) && a in s && b in s && Key(rel.meta).Some?
    requires AgreeOn(rel, Key(rel.meta).value.columns, a, b)
    ensures a == b
  {
    var k := Key(rel.meta).value;
    FirstIsAmong(rel.meta);
    assert RowOf(rel, a) && UniqueOn(rel, k.columns, s);
    assert NoNull(rel, k.columns, a);
  }

  /** Of the rows of a table, the WHERE clause picks out exactly the row of the image. */
  lemma KeyFindsTheRow(cs: Charset, rel: Relation, row: seq<Value>, s: set<Row>)
    requires cs == rel.charset && CapturedRow(cs, rel.meta.columns, row)
    requires |row| == |rel.meta.columns| && KeyWhere(cs, rel.meta, row).Some?
    requires Settled(rel, s) && Cells(cs, rel.meta.columns, row) in s
    ensures forall r :: r in s ==>
              (Matches(rel, KeyWhere(cs, rel.meta, row).value, r) <==> r == Cells(cs, rel.meta.columns, row))
  {
    var me := Cells(cs, rel.meta.columns, row);
    forall r | r in s
      ensures Matches(rel, KeyWhere(cs, rel.meta, row).value, r) <==> r == me
    {
      assert RowOf(rel, r);
      WhereAgrees(cs, rel, row, r);
      if r == me {
        ImageAgrees(cs, rel, row);
      } else if AgreeOn(rel, Key(rel.meta).value.columns, r, me) {
        KeyTells(rel, s, r, me);
      }
    }
  }

  lemma ImageAgrees(cs: Charset, rel: Relation, row: seq<Value>)
    requires |row| == |rel.meta.columns| && KeyWhere(cs, rel.meta, row).Some?
    ensures var me := Cells(cs, rel.meta.columns, row); AgreeOn(rel, Key(rel.meta).value.columns, me, me)
  {
    var names := Key(rel.meta).value.columns;
    forall k | 0 <= k < |names| ensures 0 <= FindColumn(rel.meta.columns, names[k]) {
      assert KeyCond(cs, rel.meta, names[k], row).Some?;
    }
  }

  lemma FindsItself(columns: seq<Column>, i: nat)
    requires DistinctColumns(columns) && i < |columns|
    ensures FindColumn(columns, columns[i].name) == i
  {
    assert EqualFold(columns[i].name, columns[i].name);
  }

  lemma BuildsTheImage(cs: Charset, rel: Relation, row: seq<Value>)
    requires cs == rel.charset && CapturedRow(cs, rel.meta.columns, row)
    requires |row| == |rel.meta.columns| && DistinctColumns(rel.meta.columns)
    ensures Built(rel, Names(rel.meta.columns), Image(cs, rel.meta.columns, row)) == Cells(cs, rel.meta.columns, row)
  {
    var columns := rel.meta.columns;
    var names := Names(columns);
    forall i | 0 <= i < |columns| ensures FindName(names, columns[i].name) == i {
      var n := FindName(names, columns[i].name);
      assert names[i] == columns[i].name;
      assert forall k :: 0 <= k < |names| ==> names[k] == columns[k].name;
    }
    forall i | 0 <= i < |columns| ensures Put(rel, i, Image(cs, columns, row)[i]) == Cells(cs, columns, row)[i] {
      LiteralMeans(cs, columns[i], row[i]);
    }
  }

  /** Assigning the first `n` columns of an image makes the row agree with it there. */
  lemma {:induction false} AssignsThePrefix(rel: Relation, row: Row, sets: seq<Assign>, at: nat, goal: Row)
    requires DistinctColumns(rel.meta.columns) && |row| == |goal| == |rel.meta.columns| && at + |sets| == |row|
    requires forall i :: 0 <= i < |sets| ==>
        sets[i].col == rel.meta.columns[at + i].name && Put(rel, at + i, sets[i].lit) == goal[at + i]
    requires row[..at] == goal[..at]
    ensures Assigned(rel, row, sets) == goal
    decreases |sets|
  {
    if sets == [] {
      assert row == row[..at] && goal == goal[..at];
    } else {
      FindsItself(rel.meta.columns, at);
      assert sets[0].col == rel.meta.columns[at + 0].name && Put(rel, at + 0, sets[0].lit) == goal[at + 0];
      var row' := row[at := goal[at]];
      assert row'[..at + 1] == row[..at] + [goal[at]] && goal[..at + 1] == goal[..at] + [goal[at]];
      forall i | 0 <= i < |sets[1..]|
        ensures sets[1..][i].col == rel.meta.columns[at + 1 + i].name
        ensures Put(rel, at + 1 + i, sets[1..][i].lit) == goal[at + 1 + i]
      {
        assert sets[1..][i] == sets[i + 1] && at + (i + 1) == at + 1 + i;
      }
      AssignsThePrefix(rel, row', sets[1..], at + 1, goal);
    }
  }

  lemma AssignsTheImage(cs: Charset, rel: Relation, row: Row, before: seq<Value>)
    requires cs == rel.charset && CapturedRow(cs, rel.meta.columns, before)
    requires |row| == |before| == |rel.meta.columns| && DistinctColumns(rel.meta.columns)
    ensures Assigned(rel, row, Sets(cs, rel.meta.columns, before)) == Cells(cs, rel.meta.columns, before)
  {
    var columns, sets, goal := rel.meta.columns, Sets(cs, rel.meta.columns, before),
        Cells(cs, rel.meta.columns, before);
    forall i | 0 <= i < |sets|
      ensures sets[i].col == columns[0 + i].name && Put(rel, 0 + i, sets[i].lit) == goal[0 + i]
    {
      LiteralMeans(cs, columns[i], before[i]);
    }
    AssignsThePrefix(rel, row, sets, 0, goal);
  }

  /** A DELETE whose condition picks out one row removes that row. */
  lemma DeleteHits(rel: Relation, stmt: Stmt, s: set<Row>, me: Row, u: set<Row>)
    requires stmt.Delete? && me in s
    requires forall r :: r in s ==> (Matches(rel, stmt.where, r) <==> r == me)
    ensures Exec(rel, stmt, s, u) <==> rel.integrity(u) && u == s - {me}
  {
  }

  /** An UPDATE whose condition picks out one row rewrites that row. */
  lemma UpdateHits(rel: Relation, stmt: Stmt, s: set<Row>, me: Row, u: set<Row>)
    requires stmt.Update? && me in s
    requires forall r :: r in s ==> (Matches(rel, stmt.where, r) <==> r == me)
    ensures Exec(rel, stmt, s, u)
       <==> (forall k :: 0 <= k < |stmt.sets| ==> !Generated(rel.meta.columns, stmt.sets[k].col))
            && rel.integrity(u) && Assigned(rel, me, stmt.sets) !in s - {me}
                && u == s - {me} + {Assigned(rel, me, stmt.sets)}
  {
  }

  predicate HasGenerated(columns: seq<Column>) {
    exists i :: 0 <= i < |columns| && columns[i].generationExpression != ""
  }

  /** The undo of a delete or an update writes every column: the server refuses it on a table with a
      generated column. */
  predicate Refused(c: RowChange) { c.kind != Inserted && HasGenerated(c.table.columns) }

  /** The deleted row comes back with other numbers. */
  predicate ComesBackChanged(cs: Charset, rel: Relation, c: RowChange) {
    c.kind == Deleted && |c.before| == |c.table.columns| && Renumbers(rel, Cells(cs, c.table.columns, c.before))
  }

  /** The change can be undone: its undo is not refused, and if a row was deleted it held neither 0 nor
      NULL in an AUTO_INCREMENT column (0 does no harm when the SQL mode keeps it). */
  predicate Restorable(cs: Charset, rel: Relation, c: RowChange) { !Refused(c) && !ComesBackChanged(cs, rel, c) }

  lemma GeneratedByName(columns: seq<Column>)
    requires DistinctColumns(columns)
    ensures HasGenerated(columns) <==> exists i :: 0 <= i < |columns| && Generated(columns, columns[i].name)
  {
    forall i | 0 <= i < |columns|
      ensures Generated(columns, columns[i].name) <==> columns[i].generationExpression != ""
    {
      FindsItself(columns, i);
    }
  }

  /** What an undo writes is every column. */
  lemma WritesGenerated(cs: Charset, columns: seq<Column>, row: seq<Value>)
    requires DistinctColumns(columns) && |row| == |columns|
    ensures (forall k :: 0 <= k < |columns| ==> !Generated(columns, Names(columns)[k])) <==> !HasGenerated(columns)
    ensures (forall k :: 0 <= k < |columns| ==> !Generated(columns, Sets(cs, columns, row)[k].col)) <==>
        !HasGenerated(columns)
  {
    GeneratedByName(columns);
    assert forall i :: 0 <= i < |columns| ==> Names(columns)[i] == columns[i].name;
    assert forall i :: 0 <= i < |columns| ==> Sets(cs, columns, row)[i].col == columns[i].name;
  }

  /** A row is stored as it was built exactly when no number of it is generated, and then in no other way. */
  lemma StoredAsBuilt(rel: Relation, built: Row, row: Row)
    ensures Renumbers(rel, built) && Stored(rel, built, row) ==> row != built
    ensures !Renumbers(rel, built) ==> (Stored(rel, built, row) <==> row == built)
  {
    if p :| 0 <= p < |built| && Renumbered(rel, p, built[p]) {
      assert Stored(rel, built, row) ==> NextNumber(row[p]);
    }
  }

  lemma UndoInserted(cs: Charset, rel: Relation, c: RowChange, s: set<Row>, t: set<Row>, u: set<Row>)
    requires c.kind == Inserted && Changed(cs, rel, c, s, t) && Settled(rel, s) && Settled(rel, t)
    requires Undo(cs, c).Some?
    ensures Exec(rel, Undo(cs, c).value, t, u) <==> u == s
  {
    var me := Cells(cs, rel.meta.columns, c.after);
    KeyFindsTheRow(cs, rel, c.after, t);
    DeleteHits(rel, Undo(cs, c).value, t, me, u);
    assert t - {me} == s;
  }

  /** Putting a deleted row back. */
  lemma Reinserted(rel: Relation, me: Row, s: set<Row>, u: set<Row>)
    requires me in s
    ensures var possible := exists row :: Stored(rel, me, row) && row !in s - {me} && u == s - {me} + {row};
            if Renumbers(rel, me) then possible ==> u != s else possible <==> u == s
  {
    var t := s - {me};
    assert t + {me} == s;
    forall row ensures Renumbers(rel, me) && Stored(rel, me, row) ==> row != me {
      StoredAsBuilt(rel, me, row);
    }
    forall row ensures !Renumbers(rel, me) ==> (Stored(rel, me, row) <==> row == me) {
      StoredAsBuilt(rel, me, row);
    }
    if row :| Stored(rel, me, row) && row !in t && u == t + {row} {
      assert row in u;
    }
  }

  lemma UndoDeleted(cs: Charset, rel: Relation, c: RowChange, s: set<Row>, t: set<Row>, u: set<Row>)
    requires c.kind == Deleted && Changed(cs, rel, c, s, t) && Settled(rel, s) && DistinctColumns(rel.meta.columns)
    requires Undo(cs, c).Some?
    ensures if Restorable(cs, rel, c) then Exec(rel, Undo(cs, c).value, t, u) <==> u == s
            else Exec(rel, Undo(cs, c).value, t, u) ==> u != s
  {
    BuildsTheImage(cs, rel, c.before);
    WritesGenerated(cs, rel.meta.columns, c.before);
    Reinserted(rel, Cells(cs, rel.meta.columns, c.before), s, u);
  }

  lemma UndoUpdated(cs: Charset, rel: Relation, c: RowChange, s: set<Row>, t: set<Row>, u: set<Row>)
    requires c.kind == Updated && Changed(cs, rel, c, s, t) && Settled(rel, s) && Settled(rel, t)
    requires DistinctColumns(rel.meta.columns) && Undo(cs, c).Some?
    ensures Exec(rel, Undo(cs, c).value, t, u) <==> u == s && !Refused(c)
  {
    var a, b := Cells(cs, rel.meta.columns, c.after), Cells(cs, rel.meta.columns, c.before);
    KeyFindsTheRow(cs, rel, c.after, t);
    AssignsTheImage(cs, rel, a, c.before);
    WritesGenerated(cs, rel.meta.columns, c.before);
    UpdateHits(rel, Undo(cs, c).value, t, a, u);
    assert t - {a} == s - {b} && t - {a} + {b} == s;
  }

  /** Run after the change, its undo leads to the rows as they were before, and nowhere else, if the change
      can be undone; if not, it leads elsewhere or nowhere. */
  lemma UndoOne(cs: Charset, rel: Relation, c: RowChange, s: set<Row>, t: set<Row>, u: set<Row>)
    requires Changed(cs, rel, c, s, t) && Settled(rel, s) && Settled(rel, t)
    requires DistinctColumns(rel.meta.columns) && Undo(cs, c).Some?
    ensures if Restorable(cs, rel, c) then Exec(rel, Undo(cs, c).value, t, u) <==> u == s
            else Exec(rel, Undo(cs, c).value, t, u) ==> u != s
  {
    match c.kind
    case Inserted => UndoInserted(cs, rel, c, s, t, u);
    case Deleted => UndoDeleted(cs, rel, c, s, t, u);
    case Updated => UndoUpdated(cs, rel, c, s, t, u);
  }

  /** On a table with a generated column the undo of a delete or an update leads nowhere. */
  lemma GeneratedIsRefused(cs: Charset, rel: Relation, c: RowChange, t: set<Row>, u: set<Row>)
    requires rel.meta == c.table && DistinctColumns(c.table.columns) && Undo(cs, c).Some? && Refused(c)
    ensures !Exec(rel, Undo(cs, c).value, t, u)
  {
    WritesGenerated(cs, c.table.columns, c.before);
  }

  /** A table with a generated column, a row deleted from it, and the undo that is generated all the same. */
  lemma GeneratedButRefused(cs: Charset) returns (c: RowChange)
    ensures FullImages(c) && DistinctColumns(c.table.columns) && Reliable(c.table) && Undo(cs, c).Some? && Refused(c)
  {
    var a := Column("a", "int", false, None, "", "", "", "", "", false, false);
    var b := Column("b", "int", true, None, "VIRTUAL GENERATED", "", "", "", "(`a` + 1)", false, false);
    var key := Index("PRIMARY", ["a"], true, true, [], [], [], "", true);
    var table := Table("s", "t", "", [a, b], [key], false, "", "", "", "", "", 0);
    c := RowChange(Deleted, table, [Int(1), Int(2)], []);
    assert Fold("a")[0] == 'a' && Fold("b")[0] == 'b';
    assert table.indexes[0].primary && table.columns[1].generationExpression != "";
  }

  // ---------------------------------------------------------------- a run of changes on one table

  /** `states` is the history of the table while `changes` happened: one state before each
      change and one after the last. */
  ghost predicate History(cs: Charset, rel: Relation, changes: seq<RowChange>, states: seq<set<Row>>) {
    |states| == |changes| + 1
    && (forall i :: 0 <= i < |states| ==> Settled(rel, states[i]))
    && (forall i {:trigger changes[i]} :: 0 <= i < |changes| ==> Changed(cs, rel, changes[i], states[i], states[i + 1]))
  }

  /** `stmts` holds the undos of `changes`, the last change first. */
  ghost predicate Backwards(cs: Charset, changes: seq<RowChange>, stmts: seq<Stmt>) {
    |stmts| == |changes|
    && forall n {:trigger changes[n]} :: 0 <= n < |changes| ==> Undo(cs, changes[n]) == Some(stmts[|changes| - 1 - n])
  }

  predicate AllRestorable(cs: Charset, rel: Relation, changes: seq<RowChange>) {
    forall c :: c in changes ==> Restorable(cs, rel, c)
  }

  predicate SomeRefused(changes: seq<RowChange>) { exists c :: c in changes && Refused(c) }

  lemma UndoLeads(cs: Charset, rel: Relation, c: RowChange, s: set<Row>, t: set<Row>)
    requires Changed(cs, rel, c, s, t) && Settled(rel, s) && Settled(rel, t)
    requires DistinctColumns(rel.meta.columns) && Undo(cs, c).Some?
    ensures Leads(ExecOn(rel), Undo(cs, c).value, t, s, Restorable(cs, rel, c))
  {
    var stmt, good := Undo(cs, c).value, Restorable(cs, rel, c);
    forall u ensures if good then Exec(rel, stmt, t, u) <==> u == s else Exec(rel, stmt, t, u) ==> u != s {
      UndoOne(cs, rel, c, s, t, u);
    }
  }

  lemma HistoryAt(cs: Charset, rel: Relation, changes: seq<RowChange>, states: seq<set<Row>>, stmts: seq<Stmt>, n: nat)
    requires History(cs, rel, changes, states) && Backwards(cs, changes, stmts) && n < |changes|
    ensures Settled(rel, states[n]) && Settled(rel, states[n + 1])
    ensures Changed(cs, rel, changes[n], states[n], states[n + 1])
    ensures Undo(cs, changes[n]) == Some(stmts[|changes| - 1 - n])
  {
  }

  /** Where the undo of a change leads, counted from the end. */
  lemma UndoneFrom(cs: Charset, rel: Relation, changes: seq<RowChange>, states: seq<set<Row>>, stmts: seq<Stmt>, n: nat)
    requires History(cs, rel, changes, states) && DistinctColumns(rel.meta.columns)
    requires Backwards(cs, changes, stmts) && n < |changes|
    ensures Leads(ExecOn(rel), stmts[|changes| - 1 - n], states[n + 1], states[n], Restorable(cs, rel, changes[n]))
  {
    HistoryAt(cs, rel, changes, states, stmts, n);
    UndoLeads(cs, rel, changes[n], states[n], states[n + 1]);
  }

  /** It leads back from state n + 1 to state n, if change n can be undone. */
  ghost predicate LeadsBackAt(cs: Charset, rel: Relation, changes: seq<RowChange>, states: seq<set<Row>>,
                              stmts: seq<Stmt>, n: nat)
    requires |states| == |changes| + 1 && |stmts| == |changes| && n < |changes|
  {
    Leads(ExecOn(rel), stmts[|changes| - 1 - n], states[n + 1], states[n], Restorable(cs, rel, changes[n]))
  }

  lemma RefusedStops(cs: Charset, rel: Relation, changes: seq<RowChange>, stmts: seq<Stmt>, s: set<Row>, t: set<Row>)
    requires Backwards(cs, changes, stmts) && DistinctColumns(rel.meta.columns)
    requires SomeRefused(changes) && forall c :: c in changes ==> c.table == rel.meta
    ensures !RunAll(rel, stmts, s, t)
  {
    var n :| 0 <= n < |changes| && Refused(changes[n]);
    var k := |changes| - 1 - n;
    assert Undo(cs, changes[n]) == Some(stmts[k]) && changes[n].table == rel.meta;
    forall a, b ensures !ExecOn(rel)(stmts[k], a, b) {
      GeneratedIsRefused(cs, rel, changes[n], a, b);
    }
    RunsInto(ExecOn(rel), stmts, k, s, t);
  }

  /** Which of the changes can be undone. */
  function CanBeUndone(cs: Charset, rel: Relation, changes: seq<RowChange>): seq<bool> {
    Map((c: RowChange) => Restorable(cs, rel, c), changes)
  }

  /** `good` tells which of the changes can be undone. */
  ghost predicate Tells(cs: Charset, rel: Relation, changes: seq<RowChange>, good: seq<bool>) {
    |good| == |changes| && forall n :: 0 <= n < |good| ==> (good[n] <==> Restorable(cs, rel, changes[n]))
  }

  lemma AllCanBeUndone(cs: Charset, rel: Relation, changes: seq<RowChange>)
    ensures Tells(cs, rel, changes, CanBeUndone(cs, rel, changes))
    ensures AllRestorable(cs, rel, changes) <==> AllTrue(CanBeUndone(cs, rel, changes))
  {
    var good := CanBeUndone(cs, rel, changes);
    assert forall n :: 0 <= n < |changes| ==> (good[n] <==> Restorable(cs, rel, changes[n]));
  }

  lemma EachUndoLeads(cs: Charset, rel: Relation, changes: seq<RowChange>, states: seq<set<Row>>, stmts: seq<Stmt>)
    requires History(cs, rel, changes, states) && DistinctColumns(rel.meta.columns)
    requires Backwards(cs, changes, stmts)
    ensures forall n :: 0 <= n < |changes| ==> LeadsBackAt(cs, rel, changes, states, stmts, n)
  {
    forall n | 0 <= n < |changes| ensures LeadsBackAt(cs, rel, changes, states, stmts, n) {
      UndoneFrom(cs, rel, changes, states, stmts, n);
    }
  }

  lemma AllLead(cs: Charset, rel: Relation, changes: seq<RowChange>, states: seq<set<Row>>, stmts: seq<Stmt>,
                good: seq<bool>)
    requires |states| == |changes| + 1 && |stmts| == |changes| && Tells(cs, rel, changes, good)
    requires forall n :: 0 <= n < |changes| ==> LeadsBackAt(cs, rel, changes, states, stmts, n)
    ensures LeadBack(ExecOn(rel), stmts, states, good)
  {
    forall n | 0 <= n < |changes| ensures LeadsNth(ExecOn(rel), stmts, states, good, n) {
      assert LeadsBackAt(cs, rel, changes, states, stmts, n);
    }
  }

  lemma GoesBack(cs: Charset, rel: Relation, changes: seq<RowChange>, states: seq<set<Row>>, stmts: seq<Stmt>)
    requires History(cs, rel, changes, states) && DistinctColumns(rel.meta.columns)
    requires Backwards(cs, changes, stmts)
    ensures Follows(ExecOn(rel), stmts, Reverse(states)) <==> AllRestorable(cs, rel, changes)
  {
    var good := CanBeUndone(cs, rel, changes);
    AllCanBeUndone(cs, rel, changes);
    EachUndoLeads(cs, rel, changes, states, stmts);
    AllLead(cs, rel, changes, states, stmts, good);
    FollowsBack(ExecOn(rel), stmts, states, good);
  }

  /** For every run of inserts, deletes and updates whose states keep the key unique: the generated
      statements, run backwards, go back through the states of the run, one by one, and can do nothing
      else, if and only if every change can be undone; they then restore the initial rows. If one of them
      is refused they lead nowhere. */
  lemma UndoRestores(cs: Charset, rel: Relation, changes: seq<RowChange>, states: seq<set<Row>>,
                     stmts: seq<Stmt>, u: set<Row>)
    requires History(cs, rel, changes, states) && DistinctColumns(rel.meta.columns)
    requires Backwards(cs, changes, stmts)
    ensures Follows(ExecOn(rel), stmts, Reverse(states)) <==> AllRestorable(cs, rel, changes)
    ensures AllRestorable(cs, rel, changes) ==> (RunAll(rel, stmts, states[|changes|], u) <==> u == states[0])
    ensures SomeRefused(changes) ==> !RunAll(rel, stmts, states[|changes|], u)
  {
    GoesBack(cs, rel, changes, states, stmts);
    if AllRestorable(cs, rel, changes) {
      FollowsToTheEnd(ExecOn(rel), stmts, Reverse(states), u);
    }
    if SomeRefused(changes) {
      forall c | c in changes ensures c.table == rel.meta {
        var m :| 0 <= m < |changes| && changes[m] == c;
        assert Changed(cs, rel, changes[m], states[m], states[m + 1]);
      }
      RefusedStops(cs, rel, changes, stmts, states[|changes|], u);
    }
  }

  // ---------------------------------------------------------------- 0 in an AUTO_INCREMENT column

  function AutoColumn(name: string): Column {
    Column(name, "bigint", false, None, "auto_increment", "", "", "", "", true, false)
  }

  function PrimaryOn(column: string): Index { Index("PRIMARY", [column], true, true, [], [], [], "", true) }

  function TableOf(columns: seq<Column>, key: Index): Table {
    Table("s", "t", "", columns, [key], false, "", "", "", "", "", 0)
  }

  /** A server without the mode, with values compared as they are and no other constraint. */
  ghost function DefaultServer(cs: Charset, t: Table): Relation {
    Relation(t, cs, (p: nat, v: Cell) => v, (s: set<Row>) => true, false)
  }

  lemma OnlyColumn(c: Column)
    ensures FindColumn([c], c.name) == 0
  {
    assert [c][0] == c && EqualFold(c.name, c.name);
  }

  lemma KeyOf(t: Table, key: Index)
    requires t.indexes == [key] && key.primary
    ensures Key(t) == Some(key)
  {
  }

  lemma SmallNumbers()
    ensures IntText(0) == "0" && IntText(5) == "5"
  {
  }

  lemma SmallNumber(n: int, t: string)
    requires t == IntText(n)
    ensures NumText(t) && NumValue(t) == n as real
  {
    IntTextIsNumber(n);
    IntTextMeans(n);
  }

  function IdRow(n: int): Row { [WholeNumber(n)] }

  /** The rows of the example, and the only column of its key. */
  lemma ExampleCells(cs: Charset, id: string, n: int)
    ensures Image(cs, [AutoColumn(id)], [Int(n)]) == [Num(IntText(n))]
    ensures Cells(cs, [AutoColumn(id)], [Int(n)]) == IdRow(n)
    ensures CapturedRow(cs, [AutoColumn(id)], [Int(n)])
  {
  }

  lemma ExampleWhere(cs: Charset, id: string, t: Table)
    requires t == TableOf([AutoColumn(id)], PrimaryOn(id))
    ensures KeyWhere(cs, t, [Int(0)]) == Some([Eq(id, Num("0"))])
  {
    OnlyColumn(AutoColumn(id));
    SmallNumbers();
    KeyOf(t, PrimaryOn(id));
    var names := PrimaryOn(id).columns;
    assert names == [id] && names[1..] == [];
    assert KeyCond(cs, t, id, [Int(0)]) == Some(Eq(id, Num("0")));
    assert KeyConds(cs, t, names[1..], [Int(0)]) == Some([]);
    assert [Eq(id, Num("0"))] + [] == [Eq(id, Num("0"))];
  }

  lemma ExampleSettled(cs: Charset, id: string, t: Table, n: int)
    requires t == TableOf([AutoColumn(id)], PrimaryOn(id))
    ensures Settled(DefaultServer(cs, t), {IdRow(n)}) && Settled(DefaultServer(cs, t), {})
  {
  }

  lemma PutNumber(rel: Relation, p: nat, n: int, t: string)
    requires p < |rel.meta.columns| && t == IntText(n)
    ensures Put(rel, p, Num(t)) == WholeNumber(n)
  {
    SmallNumber(n, t);
  }

  lemma BuiltFromOne(rel: Relation, id: string, l: Lit)
    requires rel.meta.columns == [AutoColumn(id)]
    ensures Built(rel, [id], [l]) == [Put(rel, 0, l)]
  {
    assert FindName([id], id) == 0 by { assert EqualFold([id][0], id); }
    assert rel.meta.columns[0].name == id;
  }

  /** INSERT of 0 stores any other number. */
  lemma ExampleInsert(cs: Charset, id: string, rel: Relation, n: nat, zero: Lit)
    requires rel == DefaultServer(cs, TableOf([AutoColumn(id)], PrimaryOn(id))) && n > 0
    requires Put(rel, 0, zero) == WholeNumber(0)
    ensures Exec(rel, Insert("s", "t", [id], [zero]), {}, {IdRow(n)})
  {
    OnlyColumn(AutoColumn(id));
    BuiltFromOne(rel, id, zero);
    var row := IdRow(n);
    assert Renumbered(rel, 0, WholeNumber(0)) && NextNumber(row[0]);
    assert Stored(rel, [WholeNumber(0)], row);
    assert {} + {row} == {row} && [id][0] == id;
  }

  lemma ExampleMisses(cs: Charset, id: string, rel: Relation, n: nat, zero: Lit)
    requires rel == DefaultServer(cs, TableOf([AutoColumn(id)], PrimaryOn(id))) && n > 0
    requires Put(rel, 0, zero) == WholeNumber(0)
    ensures !Matches(rel, [Eq(id, zero)], IdRow(n))
  {
    OnlyColumn(AutoColumn(id));
    assert !Holds(rel, Eq(id, zero), IdRow(n));
    assert [Eq(id, zero)][0] == Eq(id, zero);
  }

  /** UPDATE where the number is 0 then finds nothing. */
  lemma ExampleUpdate(cs: Charset, id: string, rel: Relation, n: nat, zero: Lit, five: Lit)
    requires rel == DefaultServer(cs, TableOf([AutoColumn(id)], PrimaryOn(id))) && n > 0
    requires Put(rel, 0, zero) == WholeNumber(0)
    ensures Exec(rel, Update("s", "t", [Assign(id, five)], [Eq(id, zero)]), {IdRow(n)}, {IdRow(n)})
  {
    OnlyColumn(AutoColumn(id));
    ExampleMisses(cs, id, rel, n, zero);
    assert [Assign(id, five)][0].col == id;
  }

  lemma ExampleRuns(cs: Charset, id: string, rel: Relation, n: nat, zero: string, five: Lit)
    requires rel == DefaultServer(cs, TableOf([AutoColumn(id)], PrimaryOn(id))) && n > 0 && zero == IntText(0)
    ensures Exec(rel, Insert("s", "t", [id], [Num(zero)]), {}, {IdRow(n)})
    ensures Exec(rel, Update("s", "t", [Assign(id, five)], [Eq(id, Num(zero))]), {IdRow(n)}, {IdRow(n)})
  {
    PutNumber(rel, 0, 0, zero);
    ExampleInsert(cs, id, rel, n, Num(zero));
    ExampleUpdate(cs, id, rel, n, Num(zero), five);
  }

  lemma ExampleUndos(cs: Charset, id: string, t: Table)
    requires t == TableOf([AutoColumn(id)], PrimaryOn(id))
    ensures Undo(cs, RowChange(Deleted, t, [Int(0)], [])) == Some(Insert("s", "t", [id], [Num("0")]))
    ensures Undo(cs, RowChange(Updated, t, [Int(5)], [Int(0)]))
         == Some(Update("s", "t", [Assign(id, Num("5"))], [Eq(id, Num("0"))]))
  {
    SmallNumbers();
    ExampleCells(cs, id, 0);
    ExampleWhere(cs, id, t);
    assert Names(t.columns) == [id];
    assert Sets(cs, t.columns, [Int(5)]) == [Assign(id, Num("5"))];
  }

  lemma ExampleHistory(cs: Charset, id: string, t: Table)
    requires t == TableOf([AutoColumn(id)], PrimaryOn(id))
    ensures History(cs, DefaultServer(cs, t), [RowChange(Updated, t, [Int(5)], [Int(0)]),
                                               RowChange(Deleted, t, [Int(0)], [])], [{IdRow(5)}, {IdRow(0)}, {}])
  {
    ExampleCells(cs, id, 0);
    ExampleCells(cs, id, 5);
    ExampleSettled(cs, id, t, 5);
    ExampleSettled(cs, id, t, 0);
    assert {IdRow(5)} - {IdRow(5)} + {IdRow(0)} == {IdRow(0)};
  }

  /** UPDATE t SET id = 0 WHERE id = 5; DELETE FROM t WHERE id = 0: the undo of the delete may store any
      number, that of the update then finds no row, and what comes back is another row, without an error. */
  lemma ZeroComesBackChanged(cs: Charset, id: string, n: nat)
    returns (rel: Relation, changes: seq<RowChange>, states: seq<set<Row>>, stmts: seq<Stmt>)
    requires n > 0 && n != 5
    ensures History(cs, rel, changes, states) && DistinctColumns(rel.meta.columns) && Backwards(cs, changes, stmts)
    ensures RunAll(rel, stmts, states[|changes|], {IdRow(n)})
    ensures states[0] == {IdRow(5)} && {IdRow(n)} != states[0]
  {
    var t := TableOf([AutoColumn(id)], PrimaryOn(id));
    rel := DefaultServer(cs, t);
    changes := [RowChange(Updated, t, [Int(5)], [Int(0)]), RowChange(Deleted, t, [Int(0)], [])];
    states := [{IdRow(5)}, {IdRow(0)}, {}];
    stmts := [Insert("s", "t", [id], [Num("0")]),
              Update("s", "t", [Assign(id, Num("5"))], [Eq(id, Num("0"))])];
    ExampleHistory(cs, id, t);
    ExampleUndos(cs, id, t);
    SmallNumbers();
    ExampleRuns(cs, id, rel, n, "0", Num("5"));
    TwoSteps(ExecOn(rel), stmts[0], stmts[1], {}, {IdRow(n)}, {IdRow(n)});
    assert IdRow(5) in states[0] && IdRow(5)[0] != IdRow(n)[0];
    assert IdRow(5) !in {IdRow(n)};
  }

  lemma RepairedRun(cs: Charset, rel: Relation, row: seq<Value>, s: set<Row>, stored: Row)
    requires cs == rel.charset && CapturedRow(cs, rel.meta.columns, row)
    requires |row| == |rel.meta.columns| && KeyWhere(cs, rel.meta, row).Some? && !HasGenerated(rel.meta.columns)
    requires DistinctColumns(rel.meta.columns) && stored !in s && rel.integrity(s) && rel.integrity(s + {stored})
    requires Stored(rel, Cells(cs, rel.meta.columns, row), stored)
    requires AgreeOn(rel, Key(rel.meta).value.columns, stored, Cells(cs, rel.meta.columns, row))
    ensures var t := rel.meta;
            RunAll(rel, [Insert(t.schema, t.name, Names(t.columns), Image(cs, t.columns, row)),
                         Delete(t.schema, t.name, KeyWhere(cs, t, row).value)], s, s)
  {
    var t := rel.meta;
    var put, remove := Insert(t.schema, t.name, Names(t.columns), Image(cs, t.columns, row)),
        Delete(t.schema, t.name, KeyWhere(cs, t, row).value);
    BuildsTheImage(cs, rel, row);
    WritesGenerated(cs, t.columns, row);
    assert Exec(rel, put, s, s + {stored});
    WhereAgrees(cs, rel, row, stored);
    assert s + {stored} - {stored} == s && stored in s + {stored};
    assert Exec(rel, remove, s + {stored}, s);
    TwoSteps(ExecOn(rel), put, remove, s, s + {stored}, s);
  }

  lemma InsertedAndDeleted(cs: Charset, rel: Relation, row: seq<Value>, s: set<Row>)
    requires cs == rel.charset && CapturedRow(cs, rel.meta.columns, row)
    requires |row| == |rel.meta.columns| && Cells(cs, rel.meta.columns, row) !in s
    requires Settled(rel, s) && Settled(rel, s + {Cells(cs, rel.meta.columns, row)})
    ensures History(cs, rel, [RowChange(Inserted, rel.meta, [], row), RowChange(Deleted, rel.meta, row, [])],
                    [s, s + {Cells(cs, rel.meta.columns, row)}, s])
  {
    var me := Cells(cs, rel.meta.columns, row);
    assert s + {me} - {me} == s;
  }

  /** Where the run ends does not tell: a row that was inserted and deleted again comes back under
      another number, but the undo of its insertion finds it by a key that leaves the number out. */
  lemma RepairedLater(cs: Charset, rel: Relation, row: seq<Value>, s: set<Row>, stored: Row)
    returns (changes: seq<RowChange>, stmts: seq<Stmt>)
    requires cs == rel.charset && CapturedRow(cs, rel.meta.columns, row)
    requires |row| == |rel.meta.columns| && KeyWhere(cs, rel.meta, row).Some?
    requires DistinctColumns(rel.meta.columns) && !HasGenerated(rel.meta.columns)
    requires var me := Cells(cs, rel.meta.columns, row);
             Renumbers(rel, me) && Stored(rel, me, stored) && stored !in s && me !in s
             && AgreeOn(rel, Key(rel.meta).value.columns, stored, me) && Settled(rel, s + {me})
    requires Settled(rel, s) && Settled(rel, s + {stored})
    ensures History(cs, rel, changes, [s, s + {Cells(cs, rel.meta.columns, row)}, s]) && Backwards(cs, changes, stmts)
    ensures !AllRestorable(cs, rel, changes) && RunAll(rel, stmts, s, s)
  {
    var t, me := rel.meta, Cells(cs, rel.meta.columns, row);
    changes := [RowChange(Inserted, t, [], row), RowChange(Deleted, t, row, [])];
    stmts := [Insert(t.schema, t.name, Names(t.columns), Image(cs, t.columns, row)),
              Delete(t.schema, t.name, KeyWhere(cs, t, row).value)];
    RepairedRun(cs, rel, row, s, stored);
    InsertedAndDeleted(cs, rel, row, s);
    assert changes[1] in changes && !Restorable(cs, rel, changes[1]);
  }
}
