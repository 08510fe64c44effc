/** The operations of an ALTER TABLE seen through look-ups by name: what a reader of the view finds under a name
    after an operation (internal/metadata/snapshot.go, applyTableDDL). The attributes of columns and indexes are
    said one by one. */
module Lookup {
  import opened Text
  import opened Catalog
  import opened Seqs
  import opened Snapshot

  function ColumnNamed(t: Table, name: string): Option<Column> {
    var n := FindColumn(t.columns, name); if n < 0 then None else Some(t.columns[n])
  }

  function IndexNamed(t: Table, name: string): Option<Index> {
    var n := FindIndex(t.indexes, name); if n < 0 then None else Some(t.indexes[n])
  }

  // ---------------------------------------------------------------- attributes

  /** The column has everything that its definition says. */
  predicate Obeys(s: ColumnSpec, c: Column) {
    c.name == s.name && c.columnType == s.columnType && (c.nullable <==> s.nullable)
    && (c.autoIncrement <==> s.autoIncrement) && (c.unsigned <==> s.unsigned)
    && (s.hasDefault ==> c.default == Some(s.defaultExpression))
    && (s.characterSet != "" ==> c.characterSet == s.characterSet)
    && (s.collation != "" ==> c.collation == s.collation)
    && (s.hasComment ==> c.comment == "comment")
    && (s.onUpdate ==> c.extra == "on update")
    && (s.generated ==> c.generationExpression == "generated")
  }

  /** What the definition does not say is as before. */
  predicate KeepsTheRest(s: ColumnSpec, before: Column, c: Column) {
    (!s.hasDefault ==> c.default == before.default)
    && (s.characterSet == "" ==> c.characterSet == before.characterSet)
    && (s.collation == "" ==> c.collation == before.collation)
    && (!s.hasComment ==> c.comment == before.comment)
    && (!s.onUpdate ==> c.extra == before.extra)
    && (!s.generated ==> c.generationExpression == before.generationExpression)
  }

  /** A column of which only the definition is known. */
  predicate HasNothingElse(s: ColumnSpec, c: Column) {
    (!s.hasDefault ==> c.default == None) && (s.characterSet == "" ==> c.characterSet == "")
    && (s.collation == "" ==> c.collation == "") && (!s.hasComment ==> c.comment == "")
    && (!s.onUpdate ==> c.extra == "") && (!s.generated ==> c.generationExpression == "")
  }

  /** The definition gives every attribute. */
  predicate Complete(s: ColumnSpec) {
    s.hasDefault && s.characterSet != "" && s.collation != "" && s.hasComment && s.onUpdate && s.generated
  }

  /** Two columns that obey the same definition and agree on what it does not say are the same. */
  lemma ObeysTells(s: ColumnSpec, before: Column, c: Column, d: Column)
    requires Obeys(s, c) && Obeys(s, d) && KeepsTheRest(s, before, c) && KeepsTheRest(s, before, d)
    ensures c == d
  {
  }

  // ---------------------------------------------------------------- finding by name

  lemma FoundAt(columns: seq<Column>, k: nat, name: string)
    requires DistinctColumns(columns) && k < |columns| && EqualFold(columns[k].name, name)
    ensures FindColumn(columns, name) == k
  {
  }

  lemma FoundIndexAt(indexes: seq<Index>, k: nat, name: string)
    requires DistinctIndexes(indexes) && k < |indexes| && EqualFold(indexes[k].name, name)
    ensures FindIndex(indexes, name) == k
  {
  }

  lemma NotFound(columns: seq<Column>, name: string)
    requires forall k :: 0 <= k < |columns| ==> !EqualFold(columns[k].name, name)
    ensures FindColumn(columns, name) < 0
  {
  }

  lemma IndexNotFound(indexes: seq<Index>, name: string)
    requires forall k :: 0 <= k < |indexes| ==> !EqualFold(indexes[k].name, name)
    ensures FindIndex(indexes, name) < 0
  {
  }

  /** After a column was put behind the others. */
  lemma Appended(t: Table, c: Column, u: Table, x: string)
    requires FindColumn(t.columns, c.name) < 0 && u.columns == t.columns + [c]
    ensures ColumnNamed(u, x) == if EqualFold(x, c.name) then Some(c) else ColumnNamed(t, x)
  {
    var n := |t.columns|;
    assert u.columns[n] == c && forall k :: 0 <= k < n ==> u.columns[k] == t.columns[k];
    if EqualFold(x, c.name) {
      assert FindColumn(u.columns, x) == n;
    } else {
      assert FindColumn(u.columns, x) == FindColumn(t.columns, x);
    }
  }

  /** After column n was taken out. */
  lemma TakenOut(t: Table, n: nat, u: Table, x: string)
    requires DistinctColumns(t.columns) && n < |t.columns| && u.columns == Without(t.columns, n)
    ensures ColumnNamed(u, x) == if EqualFold(x, t.columns[n].name) then None else ColumnNamed(t, x)
  {
    var rest := u.columns;
    assert forall k :: 0 <= k < |rest| ==> rest[k] == t.columns[if k < n then k else k + 1];
    var k := FindColumn(t.columns, x);
    if EqualFold(x, t.columns[n].name) {
      NotFound(rest, x);
    } else if k >= 0 {
      assert DistinctColumns(rest);
      FoundAt(rest, if k < n then k else k - 1, x);
    } else {
      NotFound(rest, x);
    }
  }

  lemma IndexTakenOut(t: Table, n: nat, u: Table, x: string)
    requires DistinctIndexes(t.indexes) && n < |t.indexes| && u.indexes == Without(t.indexes, n)
    ensures IndexNamed(u, x) == if EqualFold(x, t.indexes[n].name) then None else IndexNamed(t, x)
  {
    var rest, k := u.indexes, FindIndex(t.indexes, x);
    IndexDropped(t.indexes, n);
    if EqualFold(x, t.indexes[n].name) {
      IndexNotFound(rest, x);
    } else if k >= 0 {
      FoundIndexAt(rest, if k < n then k else k - 1, x);
    } else {
      IndexNotFound(rest, x);
    }
  }

  /** After column n was replaced. */
  lemma Replaced(t: Table, n: nat, c: Column, u: Table, x: string)
    requires DistinctColumns(t.columns) && n < |t.columns| && u.columns == t.columns[n := c]
    requires FindColumn(t.columns, c.name) < 0 || FindColumn(t.columns, c.name) == n
    ensures DistinctColumns(u.columns)
    ensures ColumnNamed(u, x) == if EqualFold(x, c.name) then Some(c)
                                 else if EqualFold(x, t.columns[n].name) then None else ColumnNamed(t, x)
  {
    forall k | 0 <= k < |t.columns| && k != n ensures !EqualFold(t.columns[k].name, c.name) {
      if EqualFold(t.columns[k].name, c.name) {
        FoundAt(t.columns, k, c.name);
      }
    }
    if EqualFold(x, c.name) {
      FoundAt(u.columns, n, x);
    } else if !EqualFold(x, t.columns[n].name) && FindColumn(t.columns, x) >= 0 {
      FoundAt(u.columns, FindColumn(t.columns, x), x);
    } else {
      forall k | 0 <= k < |u.columns| ensures !EqualFold(u.columns[k].name, x) {
        assert k != n ==> u.columns[k] == t.columns[k];
      }
      NotFound(u.columns, x);
    }
  }

  /** After the name of index n was replaced by one that was free. */
  lemma IndexReplaced(t: Table, n: nat, name: string, u: Table, x: string)
    requires DistinctIndexes(t.indexes) && n < |t.indexes| && FindIndex(t.indexes, name) < 0
    requires u.indexes == t.indexes[n := t.indexes[n].(name := name)]
    ensures IndexNamed(u, x) == if EqualFold(x, name) then Some(t.indexes[n].(name := name))
                                else if EqualFold(x, t.indexes[n].name) then None else IndexNamed(t, x)
  {
    IndexRenamed(t.indexes, n, name);
    if EqualFold(x, name) {
      FoundIndexAt(u.indexes, n, x);
    } else if !EqualFold(x, t.indexes[n].name) && FindIndex(t.indexes, x) >= 0 {
      FoundIndexAt(u.indexes, FindIndex(t.indexes, x), x);
    } else {
      forall k | 0 <= k < |u.indexes| ensures !EqualFold(u.indexes[k].name, x) {
        assert k != n ==> u.indexes[k] == t.indexes[k];
      }
      IndexNotFound(u.indexes, x);
    }
  }

  // ---------------------------------------------------------------- columns

  lemma AddColumnOp(t: Table, s: ColumnSpec)
    ensures ApplyOp(t, AddColumns([s]))
         == if FindColumn(t.columns, s.name) >= 0 then None
            else Some(t.(columns := t.columns + [ColumnFromSpec(s)]))
  {
    assert [s][1..] == [];
    var u := t.(columns := t.columns + [ColumnFromSpec(s)]);
    assert AddColumnList(u, []) == Some(u);
  }

  lemma ModifyColumnOp(t: Table, s: ColumnSpec)
    ensures var n := FindColumn(t.columns, s.name);
            ApplyOp(t, ModifyColumn([s]))
            == if n < 0 then None else Some(t.(columns := t.columns[n := MergeColumnSpec(t.columns[n], s)]))
  {
  }

  lemma ChangeColumnOp(t: Table, name: string, s: ColumnSpec)
    ensures var n := FindColumn(t.columns, name);
            ApplyOp(t, ChangeColumn(name, [s]))
            == if n < 0 then None
               else Some(t.(columns := t.columns[n := MergeColumnSpec(t.columns[n], s)],
                            indexes := RenameInIndexes(t.indexes, t.columns[n].name, s.name)))
  {
  }

  /** ADD COLUMN. */
  lemma AddedColumn(t: Table, s: ColumnSpec, x: string)
    ensures var r := ApplyOp(t, AddColumns([s]));
            if ColumnNamed(t, s.name).Some? then r == None
            else
              r.Some? && r.value == t.(columns := r.value.columns)
              && match ColumnNamed(r.value, s.name)
                 case None => false
                 case Some(c) =>
                   Obeys(s, c) && HasNothingElse(s, c)
                   && ColumnNamed(r.value, x) == if EqualFold(x, s.name) then Some(c) else ColumnNamed(t, x)
  {
    AddColumnOp(t, s);
    if FindColumn(t.columns, s.name) < 0 {
      var c := ColumnFromSpec(s);
      Appended(t, c, t.(columns := t.columns + [c]), x);
      Appended(t, c, t.(columns := t.columns + [c]), s.name);
    }
  }

  /** After column n was merged with a definition. */
  lemma Merged(t: Table, n: nat, s: ColumnSpec, u: Table, x: string)
    requires DistinctColumns(t.columns) && n < |t.columns|
    requires u.columns == t.columns[n := MergeColumnSpec(t.columns[n], s)]
    requires FindColumn(t.columns, s.name) < 0 || FindColumn(t.columns, s.name) == n
    ensures ColumnNamed(u, s.name).Some?
    ensures var c := ColumnNamed(u, s.name).value;
            Obeys(s, c) && KeepsTheRest(s, t.columns[n], c)
            && ColumnNamed(u, x) == if EqualFold(x, s.name) then Some(c)
                                    else if EqualFold(x, t.columns[n].name) then None else ColumnNamed(t, x)
  {
    Replaced(t, n, u.columns[n], u, x);
    Replaced(t, n, u.columns[n], u, s.name);
  }

  /** MODIFY COLUMN. */
  lemma ModifiedColumn(t: Table, s: ColumnSpec, x: string)
    requires DistinctColumns(t.columns)
    ensures var r := ApplyOp(t, ModifyColumn([s]));
            match ColumnNamed(t, s.name)
            case None => r == None
            case Some(before) =>
              r.Some? && r.value == t.(columns := r.value.columns) && |r.value.columns| == |t.columns|
              && match ColumnNamed(r.value, s.name)
                 case None => false
                 case Some(c) =>
                   Obeys(s, c) && KeepsTheRest(s, before, c)
                   && ColumnNamed(r.value, x) == if EqualFold(x, s.name) then Some(c) else ColumnNamed(t, x)
  {
    ModifyColumnOp(t, s);
    var n := FindColumn(t.columns, s.name);
    if n >= 0 {
      Merged(t, n, s, ApplyOp(t, ModifyColumn([s])).value, x);
    }
  }

  /** The columns of the indexes are renamed, and nothing else of them. */
  predicate RenamedEverywhere(a: seq<Index>, b: seq<Index>, from: string, to: string) {
    |a| == |b|
    && forall k :: 0 <= k < |a| ==>
         b[k] == a[k].(columns := b[k].columns) && |b[k].columns| == |a[k].columns|
         && forall j :: 0 <= j < |a[k].columns| ==>
              b[k].columns[j] == if EqualFold(a[k].columns[j], from) then to else a[k].columns[j]
  }

  lemma RenamesEverywhere(indexes: seq<Index>, from: string, name: string, to: string)
    requires EqualFold(from, name)
    ensures RenamedEverywhere(indexes, RenameInIndexes(indexes, from, to), name, to)
  {
  }

  /** CHANGE COLUMN, to a name that is free or the column's own. */
  lemma ChangedColumn(t: Table, name: string, s: ColumnSpec, x: string)
    requires DistinctColumns(t.columns)
    requires FindColumn(t.columns, s.name) < 0 || FindColumn(t.columns, s.name) == FindColumn(t.columns, name)
    ensures var r := ApplyOp(t, ChangeColumn(name, [s]));
            match ColumnNamed(t, name)
            case None => r == None
            case Some(before) =>
              r.Some? && r.value == t.(columns := r.value.columns, indexes := r.value.indexes)
              && |r.value.columns| == |t.columns| && RenamedEverywhere(t.indexes, r.value.indexes, name, s.name)
              && match ColumnNamed(r.value, s.name)
                 case None => false
                 case Some(c) =>
                   Obeys(s, c) && KeepsTheRest(s, before, c)
                   && ColumnNamed(r.value, x) == if EqualFold(x, s.name) then Some(c)
                                                 else if EqualFold(x, name) then None else ColumnNamed(t, x)
  {
    ChangeColumnOp(t, name, s);
    var n := FindColumn(t.columns, name);
    if n >= 0 {
      RenamesEverywhere(t.indexes, t.columns[n].name, name, s.name);
      Merged(t, n, s, ApplyOp(t, ChangeColumn(name, [s])).value, x);
    }
  }

  /** RENAME COLUMN: only the name changes. */
  lemma RenamedColumn(t: Table, name: string, newName: string, x: string)
    requires DistinctColumns(t.columns)
    ensures var r := ApplyOp(t, RenameColumn(name, newName));
            if ColumnNamed(t, name).None? || ColumnNamed(t, newName).Some? then r == None
            else
              r.Some? && r.value == t.(columns := r.value.columns, indexes := r.value.indexes)
              && |r.value.columns| == |t.columns| && RenamedEverywhere(t.indexes, r.value.indexes, name, newName)
              && ColumnNamed(r.value, x)
                 == if EqualFold(x, newName) then Some(ColumnNamed(t, name).value.(name := newName))
                    else if EqualFold(x, name) then None else ColumnNamed(t, x)
  {
    RenameColumnOp(t, name, newName);
    var n := FindColumn(t.columns, name);
    if n >= 0 && FindColumn(t.columns, newName) < 0 {
      var c := t.columns[n].(name := newName);
      RenamesEverywhere(t.indexes, name, name, newName);
      Replaced(t, n, c, t.(columns := t.columns[n := c]), x);
    }
  }

  /** DROP COLUMN. */
  lemma DroppedColumn(t: Table, name: string, x: string)
    requires DistinctColumns(t.columns)
    ensures var r := ApplyOp(t, DropColumn(name));
            if ColumnNamed(t, name).None? then r == None
            else
              r.Some? && r.value == t.(columns := r.value.columns, indexes := r.value.indexes)
              && ColumnNamed(r.value, x) == if EqualFold(x, name) then None else ColumnNamed(t, x)
  {
    DropColumnOp(t, name);
    var n := FindColumn(t.columns, name);
    if n >= 0 {
      TakenOut(t, n, t.(columns := Without(t.columns, n)), x);
    }
  }

  // ---------------------------------------------------------------- indexes

  /** ADD INDEX: the view keeps the name, the columns and the kind, and neither prefix lengths nor expressions. */
  lemma AddedIndex(t: Table, i: IndexSpec, x: string)
    ensures var r := ApplyOp(t, AddIndex(Some(i)));
            if IndexNamed(t, i.name).Some? then r == None
            else
              r.Some? && r.value == t.(indexes := r.value.indexes)
              && match IndexNamed(r.value, i.name)
                 case None => false
                 case Some(l) =>
                   l.name == i.name && l.columns == i.columns && (l.unique <==> i.unique) && (l.primary <==> i.primary)
                   && l.visible && l.prefixLengths == [] && l.expressions == []
                   && IndexNamed(r.value, x) == if EqualFold(x, i.name) then Some(l) else IndexNamed(t, x)
  {
    AddIndexOp(t, i);
    if FindIndex(t.indexes, i.name) < 0 {
      var n, u := |t.indexes|, t.indexes + [NewIndex(i)];
      assert u[n].name == i.name && EqualFold(i.name, i.name);
      assert forall k :: 0 <= k < n ==> u[k] == t.indexes[k];
      assert FindIndex(u, i.name) == n;
      if EqualFold(x, i.name) {
        assert FindIndex(u, x) == n;
      } else {
        assert FindIndex(u, x) == FindIndex(t.indexes, x);
      }
    }
  }

  /** DROP INDEX. */
  lemma DroppedIndex(t: Table, name: string, x: string)
    requires DistinctIndexes(t.indexes)
    ensures var r := ApplyOp(t, DropIndex(name));
            if IndexNamed(t, name).None? then r == None
            else
              r.Some? && r.value == t.(indexes := r.value.indexes)
              && IndexNamed(r.value, x) == if EqualFold(x, name) then None else IndexNamed(t, x)
  {
    DropIndexOp(t, name);
    var n := FindIndex(t.indexes, name);
    if n >= 0 {
      IndexTakenOut(t, n, t.(indexes := Without(t.indexes, n)), x);
    }
  }

  /** RENAME INDEX: only the name changes. */
  lemma RenamedIndex(t: Table, name: string, newName: string, x: string)
    requires DistinctIndexes(t.indexes)
    ensures var r := ApplyOp(t, RenameIndex(name, newName));
            if IndexNamed(t, name).None? || IndexNamed(t, newName).Some? then r == None
            else
              r.Some? && r.value == t.(indexes := r.value.indexes)
              && IndexNamed(r.value, x)
                 == if EqualFold(x, newName) then Some(IndexNamed(t, name).value.(name := newName))
                    else if EqualFold(x, name) then None else IndexNamed(t, x)
  {
    RenameIndexOp(t, name, newName);
    var n := FindIndex(t.indexes, name);
    if n >= 0 && FindIndex(t.indexes, newName) < 0 {
      IndexReplaced(t, n, newName, t.(indexes := t.indexes[n := t.indexes[n].(name := newName)]), x);
    }
  }

  // ---------------------------------------------------------------- the table itself

  /** RENAME TO: columns, indexes and options stay; a target without a schema is in the table's own. */
  lemma RenamedTable(t: Table, to: TableRef)
    ensures var r := ApplyOp(t, RenameTo(Some(to)));
            r.Some? && r.value == t.(schema := r.value.schema, name := to.name)
            && r.value.schema == (if to.schema == "" then t.schema else to.schema)
  {
  }

  /** Table options: each one changes if and only if it is given. */
  lemma GivenOptions(t: Table, engine: Option<string>, characterSet: Option<string>, collation: Option<string>)
    ensures var r := ApplyOp(t, TableOptions(engine, characterSet, collation));
            r.Some?
            && r.value == t.(engine := r.value.engine, characterSet := r.value.characterSet,
                             collation := r.value.collation)
            && (engine.Some? ==> r.value.engine == engine.value) && (engine.None? ==> r.value.engine == t.engine)
            && (characterSet.Some? ==> r.value.characterSet == characterSet.value)
            && (characterSet.None? ==> r.value.characterSet == t.characterSet)
            && (collation.Some? ==> r.value.collation == collation.value)
            && (collation.None? ==> r.value.collation == t.collation)
  {
  }

  // ---------------------------------------------------------------- two operations

  /** A column that is added and modified by a definition of every attribute is as if added by that definition. */
  lemma AddThenModify(t: Table, a: ColumnSpec, b: ColumnSpec)
    requires a.name == b.name && Complete(b)
    ensures ApplyOps(t, [AddColumns([a]), ModifyColumn([b])]) == ApplyOp(t, AddColumns([b]))
  {
    TwoOps(t, AddColumns([a]), ModifyColumn([b]));
    AddColumnOp(t, a);
    AddColumnOp(t, b);
    FindAlike(t.columns, a.name, b.name);
    if FindColumn(t.columns, a.name) < 0 {
      var n := |t.columns|;
      var u := t.(columns := t.columns + [ColumnFromSpec(a)]);
      FoundBehind(t.columns, ColumnFromSpec(a), b.name);
      ModifyColumnOp(u, b);
      var c, d := MergeColumnSpec(u.columns[n], b), ColumnFromSpec(b);
      ObeysTells(b, d, c, d);
      assert u.columns[n := c] == t.columns + [d];
    }
  }

  lemma FindAlike(columns: seq<Column>, a: string, b: string)
    requires EqualFold(a, b)
    ensures FindColumn(columns, a) < 0 <==> FindColumn(columns, b) < 0
  {
  }

  lemma FoundBehind(columns: seq<Column>, c: Column, name: string)
    requires FindColumn(columns, name) < 0 && EqualFold(c.name, name)
    ensures FindColumn(columns + [c], name) == |columns|
  {
    var all := columns + [c];
    assert all[|columns|] == c && forall k :: 0 <= k < |columns| ==> all[k] == columns[k];
  }

  /** MODIFY COLUMN of a column that has just been given the name of the definition. */
  lemma ModifiesRenamed(t: Table, n: nat, s: ColumnSpec, u: Table)
    requires DistinctColumns(t.columns) && n < |t.columns| && FindColumn(t.columns, s.name) < 0
    requires u.columns == t.columns[n := t.columns[n].(name := s.name)]
    ensures ApplyOp(u, ModifyColumn([s]))
         == Some(u.(columns := t.columns[n := MergeColumnSpec(t.columns[n], s)]))
  {
    var c := t.columns[n].(name := s.name);
    Replaced(t, n, c, u, s.name);
    FoundAt(u.columns, n, s.name);
    ModifyColumnOp(u, s);
    var merged, direct := MergeColumnSpec(c, s), MergeColumnSpec(t.columns[n], s);
    ObeysTells(s, t.columns[n], merged, direct);
    assert u.columns[n := merged] == t.columns[n := direct];
  }

  lemma TwoOps(t: Table, a: AlterOp, b: AlterOp)
    ensures ApplyOps(t, [a, b]) == match ApplyOp(t, a) case None => None case Some(u) => ApplyOp(u, b)
  {
    assert [a, b][1..] == [b] && [b][1..] == [];
    if ApplyOp(t, a).Some? && ApplyOp(ApplyOp(t, a).value, b).Some? {
      var v := ApplyOp(ApplyOp(t, a).value, b).value;
      assert ApplyOps(v, []) == Some(v);
    }
  }

  /** CHANGE COLUMN to a free name is RENAME COLUMN and then MODIFY COLUMN. */
  lemma ChangeIsRenameAndModify(t: Table, name: string, s: ColumnSpec)
    requires DistinctColumns(t.columns) && FindColumn(t.columns, s.name) < 0
    ensures ApplyOps(t, [RenameColumn(name, s.name), ModifyColumn([s])]) == ApplyOp(t, ChangeColumn(name, [s]))
  {
    TwoOps(t, RenameColumn(name, s.name), ModifyColumn([s]));
    RenameColumnOp(t, name, s.name);
    ChangeColumnOp(t, name, s);
    var n := FindColumn(t.columns, name);
    if n >= 0 {
      ModifiesRenamed(t, n, s, ApplyOp(t, RenameColumn(name, s.name)).value);
      SameRenaming(t.indexes, t.columns[n].name, name, s.name);
    }
  }

  lemma SameRenaming(indexes: seq<Index>, a: string, b: string, to: string)
    requires EqualFold(a, b)
    ensures RenameInIndexes(indexes, a, to) == RenameInIndexes(indexes, b, to)
  {
    forall k | 0 <= k < |indexes| ensures RenameInIndex(indexes[k], a, to) == RenameInIndex(indexes[k], b, to) {
      assert Map(Renamed(a, to), indexes[k].columns) == Map(Renamed(b, to), indexes[k].columns);
    }
  }
}
