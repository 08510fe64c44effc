/** What a later statement of the batch finds after a DDL statement (internal/metadata/snapshot.go, PrepareDDL and
    ApplyDDL): for each kind of statement, when it is refused, and which table stands under which name after it. */
module ViewLaws {
  import opened Text
  import opened Catalog
  import opened Seqs
  import opened Snapshot
  import opened Create
  import opened Views
  import opened Lookup

  /** The view after a statement that is accepted and carried out. */
  function After(lower: bool, v: View, d: DDL): Option<View> {
    match PrepareOn(lower, v, d)
    case Rejected => None
    case Accepted(p) => match ApplyOn(lower, v, p) case Done(u) => Some(u) case Error(_) => None
  }

  function Look(lower: bool, v: View, schema: string, table: string): Option<Table> {
    var n := NameOf(lower, schema, table); if n in v.tables then Some(v.tables[n]) else None
  }

  /** Whether two names are those of one table: up to letter case if the server folds names. */
  predicate SameName(lower: bool, s: string, t: string, s': string, t': string) {
    if lower then EqualFold(s, s') && EqualFold(t, t') else s == s' && t == t'
  }

  lemma NamesAgree(lower: bool, s: string, t: string, s': string, t': string)
    ensures NameOf(lower, s, t) == NameOf(lower, s', t') <==> SameName(lower, s, t, s', t')
  {
  }

  /** A table reference stands in its own schema or in that of the statement. */
  predicate Names(lower: bool, d: DDL, r: TableRef, s: string, t: string) {
    SameName(lower, if r.schema != "" then r.schema else d.schema, r.name, s, t)
  }

  predicate Missing(lower: bool, v: View, d: DDL, r: TableRef) {
    Look(lower, v, if r.schema != "" then r.schema else d.schema, r.name).None?
  }

  /** Under the name of `d` there is this table now, and under every other name what was there. */
  ghost predicate OnlyChanged(lower: bool, v: View, d: DDL, x: Table, u: View) {
    u.schemas == v.schemas
    && forall s, t :: Look(lower, u, s, t) == if SameName(lower, d.schema, d.table, s, t) then Some(x)
                                              else Look(lower, v, s, t)
  }

  lemma PutChanges(lower: bool, v: View, d: DDL, x: Table)
    ensures OnlyChanged(lower, v, d, x, v.(tables := v.tables[NameOf(lower, d.schema, d.table) := x]))
  {
    var u := v.(tables := v.tables[NameOf(lower, d.schema, d.table) := x]);
    forall s, t ensures Look(lower, u, s, t) == if SameName(lower, d.schema, d.table, s, t) then Some(x)
                                                else Look(lower, v, s, t)
    {
      NamesAgree(lower, d.schema, d.table, s, t);
    }
  }

  // ---------------------------------------------------------------- CREATE

  /** The table that CREATE TABLE makes, attribute by attribute. */
  predicate MadeBy(d: DDL, x: Table) {
    x.schema == d.schema && x.name == d.table && !x.isView && x.engine == d.create.engine
    && x.characterSet == d.create.characterSet && x.collation == d.create.collation
    && |x.columns| == |d.create.columns|
    && forall k :: 0 <= k < |x.columns| ==> ColumnMade(d.create.columns[k], x.columns[k])
  }

  /** A column of CREATE TABLE has its name, type, nullability and number attributes and its character set. */
  predicate ColumnMade(s: ColumnSpec, c: Column) {
    c.name == s.name && c.columnType == s.columnType && (c.nullable <==> s.nullable)
    && (c.autoIncrement <==> s.autoIncrement) && (c.unsigned <==> s.unsigned) && c.characterSet == s.characterSet
  }

  /** An index of CREATE TABLE has everything that is said of it. */
  predicate IndexMade(i: IndexSpec, l: Index) {
    l.name == i.name && l.columns == i.columns && (l.unique <==> i.unique) && (l.primary <==> i.primary)
    && l.prefixLengths == i.prefixLengths && l.expressions == i.expressions && l.visible
  }

  lemma {:induction false} UpsertOthers(indexes: seq<Index>, specs: seq<IndexSpec>, name: string)
    requires forall k :: 0 <= k < |specs| ==> !EqualFold(specs[k].name, name)
    ensures var n := FindIndex(indexes, name);
            var m := FindIndex(UpsertAll(indexes, specs), name);
            (m < 0 <==> n < 0) && (n >= 0 ==> UpsertAll(indexes, specs)[m] == indexes[n])
    decreases |specs|
  {
    if specs != [] {
      var next := Upsert(indexes, IndexFromSpec(specs[0]));
      UpsertFindsOthers(indexes, specs[0], name);
      assert forall k :: 0 <= k < |specs[1..]| ==> specs[1..][k] == specs[k + 1];
      UpsertOthers(next, specs[1..], name);
    }
  }

  lemma UpsertFindsOthers(indexes: seq<Index>, i: IndexSpec, name: string)
    requires !EqualFold(i.name, name)
    ensures var next := Upsert(indexes, IndexFromSpec(i));
            var n, m := FindIndex(indexes, name), FindIndex(next, name);
            (m < 0 <==> n < 0) && (n >= 0 ==> next[m] == indexes[n])
  {
    var next, p := Upsert(indexes, IndexFromSpec(i)), FindIndex(indexes, i.name);
    assert forall k :: 0 <= k < |indexes| && k != p ==> next[k] == indexes[k];
    assert p < 0 ==> next[|indexes|].name == i.name;
  }

  /** Each index of the statement is there under its name as it was said, the last one if a name is repeated; a
      column declared PRIMARY KEY gives one too. */
  lemma {:induction false} UpsertFinds(indexes: seq<Index>, specs: seq<IndexSpec>, k: nat)
    requires k < |specs| && forall j :: k < j < |specs| ==> !EqualFold(specs[j].name, specs[k].name)
    ensures var m := FindIndex(UpsertAll(indexes, specs), specs[k].name);
            m >= 0 && IndexMade(specs[k], UpsertAll(indexes, specs)[m])
    decreases |specs|
  {
    var next := Upsert(indexes, IndexFromSpec(specs[0]));
    assert forall j :: 0 <= j < |specs[1..]| ==> specs[1..][j] == specs[j + 1];
    if k > 0 {
      UpsertFinds(next, specs[1..], k - 1);
    } else {
      UpsertIsThere(indexes, specs[0]);
      UpsertOthers(next, specs[1..], specs[0].name);
    }
  }

  lemma UpsertIsThere(indexes: seq<Index>, i: IndexSpec)
    ensures var next := Upsert(indexes, IndexFromSpec(i));
            FindIndex(next, i.name) >= 0 && next[FindIndex(next, i.name)] == IndexFromSpec(i)
  {
    var next, p := Upsert(indexes, IndexFromSpec(i)), FindIndex(indexes, i.name);
    if p < 0 {
      assert next[|indexes|] == IndexFromSpec(i) && EqualFold(next[|indexes|].name, i.name);
      assert forall k :: 0 <= k < |indexes| ==> next[k] == indexes[k];
      assert FindIndex(next, i.name) == |indexes|;
    } else {
      assert next[p] == IndexFromSpec(i) && forall k :: 0 <= k < p ==> next[k] == indexes[k];
      assert FindIndex(next, i.name) == p;
    }
  }

  lemma {:induction false} InlineKeyAt(columns: seq<ColumnSpec>, k: nat)
    requires k < |columns| && columns[k].primaryKey && forall j :: 0 <= j < k ==> !columns[j].primaryKey
    ensures InlineKey(columns) == [PrimaryOn(columns[k].name)]
  {
    if k > 0 {
      assert forall j :: 0 <= j < k - 1 ==> columns[1..][j] == columns[j + 1];
      InlineKeyAt(columns[1..], k - 1);
    }
  }

  /** The indexes of a created table. */
  lemma CreatedIndexes(d: CreateSpec, k: nat)
    ensures k < |d.indexes| && (forall j :: k < j < |d.indexes| ==>
                                !EqualFold(d.indexes[j].name, d.indexes[k].name)) ==>
              IndexNamed(FromSpec(d), d.indexes[k].name).Some?
              && IndexMade(d.indexes[k], IndexNamed(FromSpec(d), d.indexes[k].name).value)
    ensures k < |d.columns| && d.columns[k].primaryKey && (forall j :: 0 <= j < k ==> !d.columns[j].primaryKey)
            && (forall j :: 0 <= j < |d.indexes| ==> !EqualFold(d.indexes[j].name, "PRIMARY")) ==>
              IndexNamed(FromSpec(d), "PRIMARY").Some?
              && var l := IndexNamed(FromSpec(d), "PRIMARY").value;
                 l.primary && l.unique && l.columns == [d.columns[k].name]
  {
    if k < |d.indexes| && forall j :: k < j < |d.indexes| ==> !EqualFold(d.indexes[j].name, d.indexes[k].name) {
      UpsertFinds(InlineKey(d.columns), d.indexes, k);
    }
    if k < |d.columns| && d.columns[k].primaryKey && (forall j :: 0 <= j < k ==> !d.columns[j].primaryKey)
       && (forall j :: 0 <= j < |d.indexes| ==> !EqualFold(d.indexes[j].name, "PRIMARY")) {
      InlineKeyAt(d.columns, k);
      var key := PrimaryOn(d.columns[k].name);
      assert [key][0] == key && FindIndex([key], "PRIMARY") == 0;
      UpsertOthers([key], d.indexes, "PRIMARY");
    }
  }

  /** CREATE TABLE with its columns: refused if the name is taken, unless IF NOT EXISTS; otherwise the table is as
      the statement says, and nothing else changes. */
  lemma CreatesATable(lower: bool, v: View, d: DDL)
    requires d.action.CreateTable? && d.fullyProjected && !d.noop && d.reference.None?
    ensures var r := After(lower, v, d);
            if Look(lower, v, d.schema, d.table).Some? then r == if d.ifNotExists then Some(v) else None
            else
              r.Some?
              && match Look(lower, r.value, d.schema, d.table)
                 case None => false
                 case Some(x) => MadeBy(d, x) && OnlyChanged(lower, v, d, x, r.value)
  {
    PutChanges(lower, v, d, NewTable(d));
  }

  /** CREATE TABLE ... LIKE: refused if there is no such table; otherwise the columns and indexes are those of that
      table as the view has it. */
  lemma CreatesALikeTable(lower: bool, v: View, d: DDL)
    requires d.action.CreateTable? && d.fullyProjected && !d.noop && d.reference.Some?
    requires Look(lower, v, d.schema, d.table).None?
    requires forall n :: n in v.tables ==> DistinctIndexes(v.tables[n].indexes)
    ensures var r, like := After(lower, v, d), d.reference.value;
            match Look(lower, v, if like.schema != "" then like.schema else d.schema, like.name)
            case None => r == None
            case Some(original) =>
              r.Some?
              && match Look(lower, r.value, d.schema, d.table)
                 case None => false
                 case Some(x) =>
                   OnlyChanged(lower, v, d, x, r.value)
                   && |x.columns| == |original.columns| && |x.indexes| == |original.indexes|
                   && (forall i :: 0 <= i < |x.columns| ==> SameColumn(x.columns[i], original.columns[i]))
                   && forall i :: 0 <= i < |x.indexes| ==> SameIndex(x.indexes[i], original.indexes[i])
  {
    var n := LikeName(lower, d);
    if n in v.tables {
      var spec := LikeSpec(d.create, v.tables[n]);
      LikeCopies(d.create.(schema := d.schema, table := d.table), v.tables[n]);
      PutChanges(lower, v, d, NewTable(d.(create := spec)));
    }
  }

  /** CREATE VIEW: the view is there, without columns or keys. */
  lemma CreatesAView(lower: bool, v: View, d: DDL)
    requires d.action.CreateView? && d.fullyProjected && !d.noop && d.reference.None?
    requires Look(lower, v, d.schema, d.table).None?
    ensures var r := After(lower, v, d);
            r.Some?
            && match Look(lower, r.value, d.schema, d.table)
               case None => false
               case Some(x) =>
                 x.isView && x.schema == d.schema && x.name == d.table && x.columns == [] && x.indexes == []
                 && OnlyChanged(lower, v, d, x, r.value)
  {
    PutChanges(lower, v, d, CreatedView(d));
  }

  /** CREATE DATABASE and DROP DATABASE: the schema is there, or not, and every table stays. */
  lemma Databases(lower: bool, v: View, d: DDL, s: string)
    requires d.fullyProjected && !d.noop && (d.action.CreateDatabase? || d.action.DropDatabase?)
    ensures var r := After(lower, v, d);
            r.Some? && r.value.tables == v.tables
            && (Normal(lower, s) in r.value.schemas
                <==> if (if lower then EqualFold(s, d.schema) else s == d.schema) then d.action.CreateDatabase?
                     else Normal(lower, s) in v.schemas)
  {
  }

  // ---------------------------------------------------------------- statements on tables that must be there

  /** The tables that a statement names must be there, unless IF EXISTS. */
  predicate NeedsTables(a: Action) {
    a.AlterTable? || a.TruncateTable? || a.CreateIndex? || a.DropIndexes? || a.DropTable? || a.DropView?
  }

  lemma MissingIsRefused(lower: bool, v: View, d: DDL, i: nat)
    requires d.fullyProjected && NeedsTables(d.action) && i < |d.tables|
    ensures Missing(lower, v, d, d.tables[i]) && !d.ifExists ==> After(lower, v, d) == None
  {
    assert Affected(d)[i] == d.tables[i];
  }

  lemma PresentIsAccepted(lower: bool, v: View, d: DDL)
    requires d.fullyProjected && NeedsTables(d.action)
    requires d.ifExists || forall i :: 0 <= i < |d.tables| ==> !Missing(lower, v, d, d.tables[i])
    ensures PrepareOn(lower, v, d) == Accepted(d)
  {
    forall i | 0 <= i < |Affected(d)| ensures d.ifExists || RefName(lower, d, Affected(d)[i]) in v.tables {
      assert !d.ifExists ==> !Missing(lower, v, d, d.tables[i]);
    }
  }

  lemma {:induction false} DroppedFromList(lower: bool, d: DDL, tables: map<Name, Table>, refs: seq<TableRef>, n: Name)
    ensures var after := DropAll(lower, d, tables, refs);
            (n in after <==> n in tables && forall i :: 0 <= i < |refs| ==> RefName(lower, d, refs[i]) != n)
            && (n in after ==> after[n] == tables[n])
    decreases |refs|
  {
    if refs != [] {
      var k := |refs| - 1;
      DroppedFromList(lower, d, tables, refs[..k], n);
      assert forall i :: 0 <= i < k ==> refs[..k][i] == refs[i];
    }
  }

  /** DROP TABLE and DROP VIEW: no name of the list is there any more, and the rest is as it was. */
  lemma DropsTables(lower: bool, v: View, d: DDL, s: string, t: string)
    requires d.fullyProjected && !d.noop && (d.action.DropTable? || d.action.DropView?)
    requires d.ifExists || forall i :: 0 <= i < |d.tables| ==> !Missing(lower, v, d, d.tables[i])
    ensures var r := After(lower, v, d);
            r.Some? && r.value.schemas == v.schemas
            && Look(lower, r.value, s, t)
               == if exists i :: 0 <= i < |d.tables| && Names(lower, d, d.tables[i], s, t) then None
                  else Look(lower, v, s, t)
  {
    PresentIsAccepted(lower, v, d);
    DroppedFromList(lower, d, v.tables, d.tables, NameOf(lower, s, t));
    forall i | 0 <= i < |d.tables|
      ensures RefName(lower, d, d.tables[i]) == NameOf(lower, s, t) <==> Names(lower, d, d.tables[i], s, t)
    {
      NamesAgree(lower, if d.tables[i].schema != "" then d.tables[i].schema else d.schema, d.tables[i].name, s, t);
    }
  }

  /** TRUNCATE, and whatever the parser does not project: nothing changes. */
  lemma ChangesNothing(lower: bool, v: View, d: DDL)
    requires !d.fullyProjected
             || (d.action.TruncateTable? && forall i :: 0 <= i < |d.tables| ==> !Missing(lower, v, d, d.tables[i]))
    ensures After(lower, v, d) == Some(v)
  {
    if d.fullyProjected {
      PresentIsAccepted(lower, v, d);
    }
  }

  /** The operations of a statement on one table: CREATE INDEX adds its indexes, none of them primary, and DROP INDEX
      drops them. */
  lemma OperationsOf(d: DDL, k: nat)
    ensures d.action.AlterTable? ==> TableOps(d) == d.ops
    ensures d.action.CreateIndex? || d.action.DropIndexes? ==> |TableOps(d)| == |d.indexes|
    ensures k < |d.indexes| && d.action.DropIndexes? ==> TableOps(d)[k] == DropIndex(d.indexes[k].name)
    ensures k < |d.indexes| && d.action.CreateIndex? ==>
              TableOps(d)[k].AddIndex? && TableOps(d)[k].index.Some?
              && var i := TableOps(d)[k].index.value;
                 i.name == d.indexes[k].name && i.columns == d.indexes[k].columns
                 && (i.unique <==> d.indexes[k].unique) && !i.primary
  {
  }

  /** ALTER TABLE, CREATE INDEX and DROP INDEX on a table that keeps its name: refused if an operation is; otherwise
      the table under that name is what the operations make of it. */
  lemma AltersATable(lower: bool, v: View, d: DDL, x: Table)
    requires d.fullyProjected && !d.noop && EditsOneTable(d) && d.tables == [TableRef(d.schema, d.table)]
    requires Look(lower, v, d.schema, d.table) == Some(x)
    requires ApplyOps(x, TableOps(d)).Some? ==>
               var y := ApplyOps(x, TableOps(d)).value;
               y.schema == x.schema && y.name == x.name && SameName(lower, d.schema, d.table, x.schema, x.name)
    ensures After(lower, v, d).Some? <==> ApplyOps(x, TableOps(d)).Some?
    ensures After(lower, v, d).Some? ==>
              OnlyChanged(lower, v, d, ApplyOps(x, TableOps(d)).value, After(lower, v, d).value)
  {
    assert !Missing(lower, v, d, d.tables[0]);
    PresentIsAccepted(lower, v, d);
    if ApplyOps(x, TableOps(d)).Some? {
      NamesAgree(lower, d.schema, d.table, x.schema, x.name);
      PutChanges(lower, v, d, ApplyOps(x, TableOps(d)).value);
    }
  }

  /** ALTER TABLE ... RENAME TO: the table stands under its new name, and no longer under the old one. */
  lemma AltersTheName(lower: bool, v: View, d: DDL, x: Table, s: string, t: string)
    requires d.fullyProjected && !d.noop && EditsOneTable(d) && d.tables == [TableRef(d.schema, d.table)]
    requires Look(lower, v, d.schema, d.table) == Some(x) && SameName(lower, d.schema, d.table, x.schema, x.name)
    requires ApplyOps(x, TableOps(d)).Some?
    ensures var y := ApplyOps(x, TableOps(d)).value;
            var r := After(lower, v, d);
            r.Some? && r.value.schemas == v.schemas
            && Look(lower, r.value, s, t) == if SameName(lower, y.schema, y.name, s, t) then Some(y)
                                             else if SameName(lower, d.schema, d.table, s, t) then None
                                             else Look(lower, v, s, t)
  {
    assert !Missing(lower, v, d, d.tables[0]);
    PresentIsAccepted(lower, v, d);
    var y := ApplyOps(x, TableOps(d)).value;
    NamesAgree(lower, d.schema, d.table, x.schema, x.name);
    NamesAgree(lower, y.schema, y.name, s, t);
    NamesAgree(lower, d.schema, d.table, s, t);
  }

  // ---------------------------------------------------------------- RENAME TABLE

  /** RENAME TABLE of one table: refused if it is not there or the new name is taken; otherwise the table stands
      under its new name, with that name, and no longer under the old one. */
  lemma RenamesATable(lower: bool, v: View, d: DDL, from: TableRef, to: TableRef, s: string, t: string)
    requires d.action.RenameTable? && d.fullyProjected && !d.noop && !d.ifExists && d.pairs == [RenamePair(from, to)]
    requires from.schema != "" && to.schema != ""
    ensures var r := After(lower, v, d);
            match Look(lower, v, from.schema, from.name)
            case None => r == None
            case Some(x) =>
              if Look(lower, v, to.schema, to.name).Some? then r == None
              else
                r.Some? && r.value.schemas == v.schemas
                && Look(lower, r.value, s, t)
                   == if SameName(lower, to.schema, to.name, s, t) then Some(x.(schema := to.schema, name := to.name))
                      else if SameName(lower, from.schema, from.name, s, t) then None
                      else Look(lower, v, s, t)
  {
    var p := RenamePair(from, to);
    assert d.pairs[0] == p && Affected(d) == [from] && Affected(d)[0] == from;
    assert d.pairs[..0] == [] && RenameAll(lower, d, v.tables, []) == Renaming(true, v.tables);
    NamesAgree(lower, to.schema, to.name, s, t);
    NamesAgree(lower, from.schema, from.name, s, t);
    assert TargetName(lower, d, p) == NameOf(lower, to.schema, to.name);
    assert SourceName(lower, d, p) == NameOf(lower, from.schema, from.name);
    if Look(lower, v, to.schema, to.name).Some? {
      assert AnyTarget(lower, v, d);
    }
    if Look(lower, v, from.schema, from.name).None? {
      assert RefName(lower, d, Affected(d)[0]) !in v.tables && AnyMissing(lower, v, d);
    }
  }
}
