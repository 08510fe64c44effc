/** How the request-local snapshot evolves under CREATE TABLE, ALTER TABLE and index DDL
    (internal/metadata/snapshot.go), as functions on table values. The module `HeapTable` holds
    the loops that edit the slices in place and refine these functions. */
module Snapshot {
  import opened Text
  import opened Catalog
  import opened Seqs

  datatype TableRef = TableRef(schema: string, name: string)

  datatype ColumnSpec = ColumnSpec(
    name: string, columnType: string, nullable: bool, hasComment: bool, primaryKey: bool, autoIncrement: bool,
    unsigned: bool, hasDefault: bool, generated: bool, characterSet: string, collation: string,
    defaultExpression: string, onUpdate: bool)

  datatype IndexSpec = IndexSpec(
    name: string, columns: seq<string>, unique: bool, primary: bool, prefixLengths: seq<int>, expressions: seq<string>)

  datatype AlterOp =
    | AddColumns(columns: seq<ColumnSpec>)
    | DropColumn(name: string)
    | ModifyColumn(columns: seq<ColumnSpec>)
    | ChangeColumn(name: string, columns: seq<ColumnSpec>)
    | RenameColumn(name: string, newName: string)
    | AddIndex(index: Option<IndexSpec>)
    | DropIndex(name: string)
    | RenameIndex(name: string, newName: string)
    | RenameTo(table: Option<TableRef>)
    | TableOptions(engine: Option<string>, characterSet: Option<string>, collation: Option<string>)

  // ---------------------------------------------------------------- columns

  function ColumnFromSpec(c: ColumnSpec): Column {
    Column(c.name, c.columnType, c.nullable, if c.hasDefault then Some(c.defaultExpression) else None,
           if c.onUpdate then "on update" else "", c.characterSet, c.collation,
           if c.hasComment then "comment" else "", if c.generated then "generated" else "",
           c.autoIncrement, c.unsigned)
  }

  function MergeColumnSpec(c: Column, s: ColumnSpec): Column {
    Column(s.name, s.columnType, s.nullable, if s.hasDefault then Some(s.defaultExpression) else c.default,
           if s.onUpdate then "on update" else c.extra,
           if s.characterSet != "" then s.characterSet else c.characterSet,
           if s.collation != "" then s.collation else c.collation,
           if s.hasComment then "comment" else c.comment,
           if s.generated then "generated" else c.generationExpression,
           s.autoIncrement, s.unsigned)
  }

  // ---------------------------------------------------------------- indexes

  function Renamed(from: string, to: string): string -> string {
    (c: string) => if EqualFold(c, from) then to else c
  }

  function RenameInIndex(i: Index, from: string, to: string): Index {
    i.(columns := Map(Renamed(from, to), i.columns))
  }

  function RenameInIndexes(indexes: seq<Index>, from: string, to: string): (r: seq<Index>)
    ensures |r| == |indexes|
  {
    Map((i: Index) => RenameInIndex(i, from, to), indexes)
  }

  function KeepColumns(columns: seq<string>, column: string): seq<string> {
    if columns == [] then []
    else (if EqualFold(columns[0], column) then [] else [columns[0]]) + KeepColumns(columns[1..], column)
  }

  /** The prefix lengths that belong to the columns kept. */
  function KeepPrefixes(columns: seq<string>, prefixes: seq<int>, column: string): seq<int> {
    if columns == [] || prefixes == [] then []
    else
      (if EqualFold(columns[0], column) then [] else [prefixes[0]])
      + KeepPrefixes(columns[1..], prefixes[1..], column)
  }

  function DropFromIndex(i: Index, column: string): Index {
    i.(columns := KeepColumns(i.columns, column), prefixLengths := KeepPrefixes(i.columns, i.prefixLengths, column))
  }

  predicate HasParts(i: Index) { i.columns != [] || i.expressions != [] }

  function DropFromIndexes(indexes: seq<Index>, column: string): seq<Index> {
    if indexes == [] then []
    else
      var i := DropFromIndex(indexes[0], column);
      (if HasParts(i) then [i] else []) + DropFromIndexes(indexes[1..], column)
  }

  /** A surviving column keeps its own prefix length: it moves to the place given by the number of
      survivors before it, and its prefix length moves to the same place. */
  lemma {:induction false} PrefixStaysPaired(columns: seq<string>, prefixes: seq<int>, column: string, p: nat)
    requires p < |columns| && !EqualFold(columns[p], column)
    ensures var q := |KeepColumns(columns[..p], column)|;
            q < |KeepColumns(columns, column)| && KeepColumns(columns, column)[q] == columns[p]
            && (p < |prefixes| ==> q < |KeepPrefixes(columns, prefixes, column)|
                                   && KeepPrefixes(columns, prefixes, column)[q] == prefixes[p])
    decreases p
  {
    if p == 0 {
      assert columns[..0] == [];
    } else {
      assert columns[..p][1..] == columns[1..][..p - 1];
      PrefixStaysPaired(columns[1..], if prefixes == [] then [] else prefixes[1..], column, p - 1);
    }
  }

  /** Exactly the columns with another name survive, in order. */
  lemma {:induction false} KeptColumns(columns: seq<string>, column: string)
    ensures forall c :: c in KeepColumns(columns, column) <==> c in columns && !EqualFold(c, column)
  {
    if columns != [] {
      KeptColumns(columns[1..], column);
      assert columns == [columns[0]] + columns[1..];
    }
  }

  // ---------------------------------------------------------------- ALTER and index DDL

  function AddColumnList(t: Table, columns: seq<ColumnSpec>): Option<Table>
    decreases |columns|
  {
    if columns == [] then Some(t)
    else if FindColumn(t.columns, columns[0].name) >= 0 then None
    else AddColumnList(t.(columns := t.columns + [ColumnFromSpec(columns[0])]), columns[1..])
  }

  function NewIndex(i: IndexSpec): Index {
    Index(i.name, i.columns, i.unique, i.primary, [], [], [], "", true)
  }

  function Without<T>(s: seq<T>, n: nat): seq<T>
    requires n < |s|
  {
    s[..n] + s[n + 1..]
  }

  /** One operation of an ALTER TABLE, or nothing if it is refused. */
  function ApplyOp(t: Table, op: AlterOp): Option<Table> {
    match op
    case AddColumns(columns) => AddColumnList(t, columns)
    case DropColumn(name) =>
      var n := FindColumn(t.columns, name);
      if n < 0 then None
      else Some(t.(columns := Without(t.columns, n), indexes := DropFromIndexes(t.indexes, name)))
    case ModifyColumn(columns) =>
      if |columns| != 1 then None
      else
        var n := FindColumn(t.columns, columns[0].name);
        if n < 0 then None else Some(t.(columns := t.columns[n := MergeColumnSpec(t.columns[n], columns[0])]))
    case ChangeColumn(name, columns) =>
      if |columns| != 1 then None
      else
        var n := FindColumn(t.columns, name);
        if n < 0 then None
        else Some(t.(columns := t.columns[n := MergeColumnSpec(t.columns[n], columns[0])],
                     indexes := RenameInIndexes(t.indexes, t.columns[n].name, columns[0].name)))
    case RenameColumn(name, newName) =>
      var n := FindColumn(t.columns, name);
      if n < 0 || FindColumn(t.columns, newName) >= 0 then None
      else Some(t.(columns := t.columns[n := t.columns[n].(name := newName)],
                   indexes := RenameInIndexes(t.indexes, name, newName)))
    case AddIndex(index) =>
      if index.None? || FindIndex(t.indexes, index.value.name) >= 0 then None
      else Some(t.(indexes := t.indexes + [NewIndex(index.value)]))
    case DropIndex(name) =>
      var n := FindIndex(t.indexes, name);
      if n < 0 then None else Some(t.(indexes := Without(t.indexes, n)))
    case RenameIndex(name, newName) =>
      var n := FindIndex(t.indexes, name);
      if n < 0 || FindIndex(t.indexes, newName) >= 0 then None
      else Some(t.(indexes := t.indexes[n := t.indexes[n].(name := newName)]))
    case RenameTo(table) =>
      if table.None? then None
      else Some(t.(schema := if table.value.schema
                   == "" then t.schema else table.value.schema, name := table.value.name))
    case TableOptions(engine, characterSet, collation) =>
      Some(t.(engine := if engine.Some? then engine.value else t.engine,
              characterSet := if characterSet.Some? then characterSet.value else t.characterSet,
              collation := if collation.Some? then collation.value else t.collation))
  }

  function ApplyOps(t: Table, ops: seq<AlterOp>): Option<Table>
    decreases |ops|
  {
    if ops == [] then Some(t)
    else match ApplyOp(t, ops[0]) case None => None case Some(u) => ApplyOps(u, ops[1..])
  }

  // The operations one by one.

  lemma DropColumnOp(t: Table, name: string)
    ensures var n := FindColumn(t.columns, name);
            ApplyOp(t, DropColumn(name))
            == if n < 0 then None
               else Some(t.(columns := Without(t.columns, n), indexes := DropFromIndexes(t.indexes, name)))
  {
  }

  lemma RenameColumnOp(t: Table, name: string, newName: string)
    ensures var n := FindColumn(t.columns, name);
            ApplyOp(t, RenameColumn(name, newName))
            == if n < 0 || FindColumn(t.columns, newName) >= 0 then None
               else Some(t.(columns := t.columns[n := t.columns[n].(name := newName)],
                            indexes := RenameInIndexes(t.indexes, name, newName)))
  {
  }

  lemma AddIndexOp(t: Table, index: IndexSpec)
    ensures ApplyOp(t, AddIndex(Some(index)))
         == if FindIndex(t.indexes, index.name) >= 0 then None else Some(t.(indexes := t.indexes + [NewIndex(index)]))
  {
  }

  lemma DropIndexOp(t: Table, name: string)
    ensures ApplyOp(t, DropIndex(name))
         == if FindIndex(t.indexes, name) < 0 then None
            else Some(t.(indexes := Without(t.indexes, FindIndex(t.indexes, name))))
  {
  }

  lemma RenameIndexOp(t: Table, name: string, newName: string)
    ensures var n := FindIndex(t.indexes, name);
            ApplyOp(t, RenameIndex(name, newName))
            == if n < 0 || FindIndex(t.indexes, newName) >= 0 then None
               else Some(t.(indexes := t.indexes[n := t.indexes[n].(name := newName)]))
  {
  }

  // ---------------------------------------------------------------- well-formed tables

  predicate IndexColumnsExist(t: Table) {
    forall i :: 0 <= i < |t.indexes| ==> Present(t.columns, t.indexes[i].columns)
  }

  /** Names are distinct up to letter case and every index column names a column. */
  predicate WellFormed(t: Table) {
    DistinctColumns(t.columns) && DistinctIndexes(t.indexes) && IndexColumnsExist(t)
  }

  /** What the code leaves unchecked: the columns of an added index must exist, and CHANGE COLUMN
      must not give a column the name of another. */
  predicate Safe(t: Table, op: AlterOp) {
    match op
    case AddIndex(index) => index.Some? ==> Present(t.columns, index.value.columns)
    case ChangeColumn(name, columns) =>
      |columns| == 1 ==>
        var m := FindColumn(t.columns, columns[0].name); m < 0 || m == FindColumn(t.columns, name)
    case _ => true
  }

  /** `a` has every name that `b` has. */
  ghost predicate Covers(a: seq<Column>, b: seq<Column>) {
    forall i :: 0 <= i < |b| ==> FindColumn(a, b[i].name) >= 0
  }

  lemma StillPresent(a: seq<Column>, b: seq<Column>, names: seq<string>)
    requires Present(b, names) && Covers(a, b)
    ensures Present(a, names)
  {
    forall k | 0 <= k < |names| ensures FindColumn(a, names[k]) >= 0 {
      var n := FindColumn(b, names[k]);
      assert FindColumn(a, b[n].name) >= 0;
    }
  }

  lemma StillWellFormed(t: Table, columns: seq<Column>)
    requires WellFormed(t) && DistinctColumns(columns) && Covers(columns, t.columns)
    ensures WellFormed(t.(columns := columns))
  {
    forall i | 0 <= i < |t.indexes| ensures Present(columns, t.indexes[i].columns) {
      StillPresent(columns, t.columns, t.indexes[i].columns);
    }
  }

  lemma {:induction false} AddColumnsWellFormed(t: Table, columns: seq<ColumnSpec>)
    requires WellFormed(t)
    ensures AddColumnList(t, columns).Some? ==> WellFormed(AddColumnList(t, columns).value)
    ensures AddColumnList(t, columns).Some? ==> AddColumnList(t, columns).value.indexes == t.indexes
    decreases |columns|
  {
    if columns != [] && FindColumn(t.columns, columns[0].name) < 0 {
      var more := t.columns + [ColumnFromSpec(columns[0])];
      forall i | 0 <= i < |t.columns| ensures FindColumn(more, t.columns[i].name) >= 0 {
        assert EqualFold(more[i].name, t.columns[i].name);
      }
      StillWellFormed(t, more);
      AddColumnsWellFormed(t.(columns := more), columns[1..]);
    }
  }

  /** Where each index left by DropFromIndexes comes from. */
  lemma {:induction false} DroppedFrom(indexes: seq<Index>, column: string, k: nat) returns (j: nat)
    requires k < |DropFromIndexes(indexes, column)|
    ensures k <= j < |indexes| && DropFromIndexes(indexes, column)[k] == DropFromIndex(indexes[j], column)
  {
    var first := if HasParts(DropFromIndex(indexes[0], column)) then 1 else 0;
    if k < first {
      j := 0;
    } else {
      var m := DroppedFrom(indexes[1..], column, k - first);
      j := m + 1;
    }
  }

  lemma {:induction false} DropFromDistinct(indexes: seq<Index>, column: string)
    requires DistinctIndexes(indexes)
    ensures DistinctIndexes(DropFromIndexes(indexes, column))
  {
    if indexes != [] {
      var rest := DropFromIndexes(indexes[1..], column);
      forall i, j | 0 <= i < j < |indexes[1..]| ensures !EqualFold(indexes[1..][i].name, indexes[1..][j].name) {
        assert indexes[1..][i] == indexes[i + 1] && indexes[1..][j] == indexes[j + 1];
      }
      DropFromDistinct(indexes[1..], column);
      forall k | 0 <= k < |rest| ensures !EqualFold(indexes[0].name, rest[k].name) {
        var j := DroppedFrom(indexes[1..], column, k);
        assert indexes[1..][j] == indexes[j + 1];
      }
    }
  }

  lemma DropColumnWellFormed(t: Table, name: string)
    requires WellFormed(t) && FindColumn(t.columns, name) >= 0
    ensures WellFormed(ApplyOp(t, DropColumn(name)).value)
  {
    var n := FindColumn(t.columns, name);
    var u := ApplyOp(t, DropColumn(name)).value;
    DropFromDistinct(t.indexes, name);
    forall i | 0 <= i < |u.indexes| ensures Present(u.columns, u.indexes[i].columns) {
      var j := DroppedFrom(t.indexes, name, i);
      KeptColumns(t.indexes[j].columns, name);
      StaysWithout(t.columns, n, name, t.indexes[j].columns, u.indexes[i].columns);
    }
  }

  lemma StaysWithout(columns: seq<Column>, n: nat, name: string, names: seq<string>, kept: seq<string>)
    requires n < |columns| && EqualFold(columns[n].name, name) && Present(columns, names)
    requires forall c :: c in kept ==> c in names && !EqualFold(c, name)
    ensures Present(Without(columns, n), kept)
  {
    var rest := Without(columns, n);
    forall k | 0 <= k < |kept| ensures FindColumn(rest, kept[k]) >= 0 {
      assert kept[k] in kept;
      var p :| 0 <= p < |names| && names[p] == kept[k];
      var m := FindColumn(columns, names[p]);
      assert rest[if m < n then m else m - 1] == columns[m];
    }
  }

  /** Giving column n a new name, and renaming it in the indexes, keeps the table well-formed
      unless another column already has that name. */
  lemma RenamingWellFormed(t: Table, n: nat, column: Column, from: string)
    requires WellFormed(t) && n < |t.columns| && EqualFold(t.columns[n].name, from)
    ensures WellFormed(t.(columns := t.columns[n := column], indexes := RenameInIndexes(t.indexes, from, column.name)))
       <==> (FindColumn(t.columns, column.name) < 0 || FindColumn(t.columns, column.name) == n)
  {
    var m := FindColumn(t.columns, column.name);
    var columns, indexes := t.columns[n := column], RenameInIndexes(t.indexes, from, column.name);
    if m >= 0 && m != n {
      assert EqualFold(columns[m].name, columns[n].name);
    } else {
      RenamedPresent(t, n, column, from);
    }
  }

  lemma RenamedPresent(t: Table, n: nat, column: Column, from: string)
    requires WellFormed(t) && n < |t.columns| && EqualFold(t.columns[n].name, from)
    requires FindColumn(t.columns, column.name) < 0 || FindColumn(t.columns, column.name) == n
    ensures DistinctColumns(t.columns[n := column])
    ensures forall i :: 0 <= i < |t.indexes| ==>
              Present(t.columns[n := column], RenameInIndexes(t.indexes, from, column.name)[i].columns)
  {
    var columns := t.columns[n := column];
    forall i | 0 <= i < |t.indexes| ensures Present(columns, RenameInIndexes(t.indexes, from, column.name)[i].columns) {
      var names := t.indexes[i].columns;
      var now := Map(Renamed(from, column.name), names);
      forall k | 0 <= k < |now| ensures FindColumn(columns, now[k]) >= 0 {
        assert columns[n].name == column.name;
        var m := FindColumn(t.columns, names[k]);
        assert m != n ==> columns[m] == t.columns[m];
      }
    }
  }

  lemma ModifyWellFormed(t: Table, n: nat, column: Column)
    requires WellFormed(t) && n < |t.columns| && EqualFold(t.columns[n].name, column.name)
    ensures WellFormed(t.(columns := t.columns[n := column]))
  {
    var columns := t.columns[n := column];
    forall i | 0 <= i < |t.columns| ensures FindColumn(columns, t.columns[i].name) >= 0 {
      assert EqualFold(columns[i].name, t.columns[i].name);
    }
    StillWellFormed(t, columns);
  }

  /** Every ALTER operation that is applied keeps the table well-formed, if and only if it is safe. */
  lemma OpKeepsWellFormed(t: Table, op: AlterOp)
    requires WellFormed(t) && ApplyOp(t, op).Some?
    ensures WellFormed(ApplyOp(t, op).value) <==> Safe(t, op)
  {
    match op
    case AddColumns(columns) => AddColumnsWellFormed(t, columns);
    case DropColumn(name) => DropColumnWellFormed(t, name);
    case ModifyColumn(columns) =>
      var n := FindColumn(t.columns, columns[0].name);
      ModifyWellFormed(t, n, MergeColumnSpec(t.columns[n], columns[0]));
    case ChangeColumn(name, columns) =>
      var n := FindColumn(t.columns, name);
      RenamingWellFormed(t, n, MergeColumnSpec(t.columns[n], columns[0]), t.columns[n].name);
    case RenameColumn(name, newName) =>
      var n := FindColumn(t.columns, name);
      RenamingWellFormed(t, n, t.columns[n].(name := newName), name);
    case AddIndex(index) =>
      AddIndexOp(t, index.value);
      AddIndexWellFormed(t, index.value);
    case DropIndex(name) =>
      DropIndexOp(t, name);
      IndexDropped(t.indexes, FindIndex(t.indexes, name));
    case RenameIndex(name, newName) =>
      RenameIndexOp(t, name, newName);
      IndexRenamed(t.indexes, FindIndex(t.indexes, name), newName);
    case _ =>
  }

  lemma IndexDropped(indexes: seq<Index>, n: nat)
    requires DistinctIndexes(indexes) && n < |indexes|
    ensures DistinctIndexes(Without(indexes, n))
    ensures forall i :: 0 <= i < |indexes| - 1 ==> Without(indexes, n)[i] == indexes[if i < n then i else i + 1]
  {
  }

  lemma IndexRenamed(indexes: seq<Index>, n: nat, newName: string)
    requires DistinctIndexes(indexes) && n < |indexes| && FindIndex(indexes, newName) < 0
    ensures DistinctIndexes(indexes[n := indexes[n].(name := newName)])
  {
  }

  lemma AddIndexWellFormed(t: Table, index: IndexSpec)
    requires WellFormed(t) && FindIndex(t.indexes, index.name) < 0
    ensures WellFormed(t.(indexes := t.indexes + [NewIndex(index)])) <==> Present(t.columns, index.columns)
  {
    var indexes := t.indexes + [NewIndex(index)];
    assert indexes[|t.indexes|] == NewIndex(index);
  }

  /** Index names stay distinct whether or not the operation is safe. */
  lemma OpKeepsIndexNames(t: Table, op: AlterOp)
    requires DistinctIndexes(t.indexes) && ApplyOp(t, op).Some?
    ensures DistinctIndexes(ApplyOp(t, op).value.indexes)
  {
    match op
    case AddColumns(columns) => AddColumnsKeepIndexes(t, columns);
    case DropColumn(name) => DropFromDistinct(t.indexes, name);
    case AddIndex(index) =>
      AddIndexOp(t, index.value);
      IndexAdded(t.indexes, NewIndex(index.value));
    case DropIndex(name) =>
      DropIndexOp(t, name);
      IndexDropped(t.indexes, FindIndex(t.indexes, name));
    case RenameIndex(name, newName) =>
      RenameIndexOp(t, name, newName);
      IndexRenamed(t.indexes, FindIndex(t.indexes, name), newName);
    case _ =>
  }

  lemma IndexAdded(indexes: seq<Index>, i: Index)
    requires DistinctIndexes(indexes) && FindIndex(indexes, i.name) < 0
    ensures DistinctIndexes(indexes + [i])
  {
  }

  lemma {:induction false} AddColumnsKeepIndexes(t: Table, columns: seq<ColumnSpec>)
    ensures AddColumnList(t, columns).Some? ==> AddColumnList(t, columns).value.indexes == t.indexes
    decreases |columns|
  {
    if columns != [] && FindColumn(t.columns, columns[0].name) < 0 {
      AddColumnsKeepIndexes(t.(columns := t.columns + [ColumnFromSpec(columns[0])]), columns[1..]);
    }
  }

  /** Every operation is safe where it is applied. */
  predicate AllSafe(t: Table, ops: seq<AlterOp>)
    decreases |ops|
  {
    ops == [] || (Safe(t, ops[0]) && (ApplyOp(t, ops[0]).Some? ==> AllSafe(ApplyOp(t, ops[0]).value, ops[1..])))
  }

  /** A whole ALTER of safe operations keeps the table well-formed. */
  lemma {:induction false} AlterKeepsWellFormed(t: Table, ops: seq<AlterOp>)
    requires WellFormed(t) && AllSafe(t, ops) && ApplyOps(t, ops).Some?
    ensures WellFormed(ApplyOps(t, ops).value)
    decreases |ops|
  {
    if ops != [] {
      OpKeepsWellFormed(t, ops[0]);
      AlterKeepsWellFormed(ApplyOp(t, ops[0]).value, ops[1..]);
    }
  }

  lemma {:induction false} AlterKeepsIndexNames(t: Table, ops: seq<AlterOp>)
    requires DistinctIndexes(t.indexes) && ApplyOps(t, ops).Some?
    ensures DistinctIndexes(ApplyOps(t, ops).value.indexes)
    decreases |ops|
  {
    if ops != [] {
      OpKeepsIndexNames(t, ops[0]);
      AlterKeepsIndexNames(ApplyOp(t, ops[0]).value, ops[1..]);
    }
  }
}
