/** What the statements prepared to undo a DDL statement do to the view that the statement leaves
    (internal/execution/mysql/engine.go, prepareDDLRollback). Those of ALTER TABLE are in `AlterRestore`. */
module DDLEffect {
  import opened Text
  import opened Catalog
  import opened Seqs
  import opened Snapshot
  import opened Views
  import opened Lookup
  import opened ViewLaws
  import opened DDLUndo
  import D = DDLText

  /** Running DROP DATABASE, DROP TABLE or DROP INDEX. */
  function Run(lower: bool, v: View, u: D.UndoDDL): Option<View>
    requires u.DropDatabase? || u.DropTable? || u.DropIndexOn?
  {
    match u
    case DropDatabase(name) =>
      if Normal(lower, name) in v.schemas then Some(v.(schemas := v.schemas - {Normal(lower, name)})) else None
    case DropTable(t) =>
      var n := NameOf(lower, t.schema, t.name);
      if n in v.tables then Some(v.(tables := v.tables - {n})) else None
    case DropIndexOn(index, t) =>
      var n := NameOf(lower, t.schema, t.name);
      if n !in v.tables then None
      else match ApplyOp(v.tables[n], DropIndex(index))
        case None => None
        case Some(x) => Some(v.(tables := v.tables[n := x]))
  }

  /** CREATE DATABASE is undone if and only if the schema was not there before. */
  lemma CreateDatabaseUndone(lower: bool, v: View, d: DDL, creates: TableRef -> Option<string>)
    requires d.action.CreateDatabase? && d.fullyProjected && !d.noop
    ensures D.Prepared(d, creates).Some? && |D.Prepared(d, creates).value| == 1
    ensures var undo := D.Prepared(d, creates).value[0].undo;
            undo.DropDatabase? && After(lower, v, d).Some?
            && Run(lower, After(lower, v, d).value, undo).Some?
            && (Run(lower, After(lower, v, d).value, undo) == Some(v) <==> Normal(lower, d.schema) !in v.schemas)
  {
    var n := Normal(lower, d.schema);
    if n !in v.schemas {
      assert v.schemas + {n} - {n} == v.schemas;
    } else {
      assert n !in v.schemas + {n} - {n};
    }
  }

  /** CREATE TABLE is undone if the table was not there before. */
  lemma CreateTableUndone(lower: bool, v: View, d: DDL, creates: TableRef -> Option<string>)
    requires d.action.CreateTable? && d.fullyProjected && !d.noop && After(lower, v, d).Some?
    requires Look(lower, v, d.schema, d.table).None?
    ensures D.Prepared(d, creates).Some? && |D.Prepared(d, creates).value| == 1
    ensures var undo := D.Prepared(d, creates).value[0].undo;
            undo.DropTable? && Run(lower, After(lower, v, d).value, undo) == Some(v)
  {
    var n := NameOf(lower, d.schema, d.table);
    var u := After(lower, v, d).value;
    CreatedOn(lower, v, d);
    assert u.tables - {n} == v.tables;
  }

  /** CREATE INDEX is undone. */
  lemma CreateIndexUndone(lower: bool, v: View, d: DDL, creates: TableRef -> Option<string>, x: Table)
    requires d.action.CreateIndex? && d.fullyProjected && !d.noop && |d.indexes| == 1
    requires d.tables == [TableRef(d.schema, d.table)] && After(lower, v, d).Some?
    requires Look(lower, v, d.schema, d.table) == Some(x) && SameName(lower, d.schema, d.table, x.schema, x.name)
    ensures D.Prepared(d, creates).Some? && |D.Prepared(d, creates).value| == 1
    ensures var undo := D.Prepared(d, creates).value[0].undo;
            undo.DropIndexOn? && Run(lower, After(lower, v, d).value, undo) == Some(v)
  {
    var n, i := NameOf(lower, d.schema, d.table), d.indexes[0].(primary := false);
    var y := x.(indexes := x.indexes + [NewIndex(i)]);
    OneIndexAdded(d, x, i);
    IndexedView(lower, v, d, x);
    DropIndexOp(y, i.name);
    AddedLast(x.indexes, NewIndex(i), i.name);
    assert v.tables[n := y][n := x] == v.tables;
  }

  lemma OneIndexAdded(d: DDL, x: Table, i: IndexSpec)
    requires d.action.CreateIndex? && |d.indexes| == 1 && i == d.indexes[0].(primary := false)
    ensures ApplyOps(x, TableOps(d))
         == if FindIndex(x.indexes, i.name) >= 0 then None else Some(x.(indexes := x.indexes + [NewIndex(i)]))
  {
    assert TableOps(d) == [AddIndex(Some(i))] && [AddIndex(Some(i))][1..] == [];
    AddIndexOp(x, i);
    var y := x.(indexes := x.indexes + [NewIndex(i)]);
    assert ApplyOps(y, []) == Some(y);
  }

  lemma IndexedView(lower: bool, v: View, d: DDL, x: Table)
    requires d.action.CreateIndex? && d.fullyProjected && !d.noop && |d.indexes| == 1
    requires d.tables == [TableRef(d.schema, d.table)] && After(lower, v, d).Some?
    requires Look(lower, v, d.schema, d.table) == Some(x) && SameName(lower, d.schema, d.table, x.schema, x.name)
    ensures var i, n := d.indexes[0].(primary := false), NameOf(lower, d.schema, d.table);
            FindIndex(x.indexes, i.name) < 0
            && After(lower, v, d) == Some(v.(tables := v.tables[n := x.(indexes := x.indexes + [NewIndex(i)])]))
  {
    OneIndexAdded(d, x, d.indexes[0].(primary := false));
    NamesAgree(lower, d.schema, d.table, x.schema, x.name);
    assert !Missing(lower, v, d, d.tables[0]);
    PresentIsAccepted(lower, v, d);
  }

  lemma AddedLast(indexes: seq<Index>, i: Index, name: string)
    requires FindIndex(indexes, name) < 0 && i.name == name
    ensures FindIndex(indexes + [i], name) == |indexes| && Without(indexes + [i], |indexes|) == indexes
  {
    var all := indexes + [i];
    assert all[|indexes|] == i && forall k :: 0 <= k < |indexes| ==> all[k] == indexes[k];
    assert EqualFold(i.name, name);
  }

  /** The pairs of the prepared RENAME statements, in some order. */
  function PairsOf(items: seq<D.Item>, order: seq<nat>): seq<RenamePair>
    requires forall i :: 0 <= i < |order| ==> order[i] < |items|
    requires forall k :: 0 <= k < |items| ==> items[k].undo.RenameBack?
  {
    seq(|order|, i requires 0 <= i < |order| => RenamePair(items[order[i]].undo.from, items[order[i]].undo.to))
  }

  /** RENAME TABLE, with distinct sources and targets, is undone by the prepared statements in any order. */
  lemma RenameUndone(lower: bool, d: DDL, tables: map<Name, Table>, creates: TableRef -> Option<string>,
                     order: seq<nat>)
    requires d.action.RenameTable? && d.schema != "" && Renamable(lower, d, tables, d.pairs)
    requires forall i :: 0 <= i < |d.pairs| ==> d.pairs[i].from.schema != "" && d.pairs[i].to.schema != ""
    requires DistinctSources(lower, d, d.pairs) && DistinctTargets(lower, d, d.pairs)
    requires Permutation(order, |d.pairs|)
    ensures D.Prepared(d, creates).Some? && |D.Prepared(d, creates).value| == |d.pairs|
    ensures forall k :: 0 <= k < |d.pairs| ==> D.Prepared(d, creates).value[k].undo.RenameBack?
    ensures var after := RenameAll(lower, d, tables, d.pairs).tables;
            var back := RenameAll(lower, d, after, PairsOf(D.Prepared(d, creates).value, order));
            back.ok && SameTables(back.tables, tables)
  {
    var items := D.Prepared(d, creates).value;
    forall i | 0 <= i < |order| ensures PairsOf(items, order)[i] == UndoIn(d, d.pairs, order)[i] {
    }
    assert PairsOf(items, order) == UndoIn(d, d.pairs, order);
    RenameUndoRestores(lower, d, tables, d.pairs, order);
  }
}
