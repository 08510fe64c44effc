/** What holds of every table in every schema view that a batch goes through. */
module WholeBatch {
  import opened Catalog
  import opened Snapshot
  import opened Create
  import opened Views
  import S = Session
  import E = Engine

  ghost predicate IndexNamesDistinct(v: View) {
    forall n :: n in v.tables ==> DistinctIndexes(v.tables[n].indexes)
  }

  ghost predicate AllWellFormed(v: View) {
    forall n :: n in v.tables ==> WellFormed(v.tables[n])
  }

  /** Every table of `after` has the columns and indexes of a table of `before`. */
  ghost predicate Inherited(before: map<Name, Table>, after: map<Name, Table>) {
    forall n :: n in after ==> InheritedFrom(before, after[n])
  }

  ghost predicate InheritedFrom(before: map<Name, Table>, t: Table) {
    exists m :: m in before && before[m].columns == t.columns && before[m].indexes == t.indexes
  }

  lemma {:induction false} RenamesInherit(lower: bool, d: DDL, tables: map<Name, Table>, pairs: seq<RenamePair>)
    ensures Inherited(tables, RenameAll(lower, d, tables, pairs).tables)
    decreases |pairs|
  {
    if pairs != [] {
      var n := |pairs| - 1;
      RenamesInherit(lower, d, tables, pairs[..n]);
      var before := RenameAll(lower, d, tables, pairs[..n]);
      var src := SourceName(lower, d, pairs[n]);
      if before.ok && src in before.tables {
        assert InheritedFrom(tables, before.tables[src]);
        assert InheritedFrom(tables, Moved(d, before.tables[src], pairs[n]));
      }
    }
  }

  lemma {:induction false} DropsInherit(lower: bool, d: DDL, tables: map<Name, Table>, refs: seq<TableRef>)
    ensures Inherited(tables, DropAll(lower, d, tables, refs))
    decreases |refs|
  {
    if refs != [] {
      DropsInherit(lower, d, tables, refs[..|refs| - 1]);
    }
  }

  /** Whatever the statement, accepted or refused half-way, index names stay distinct up to letter case. */
  lemma ApplyKeepsIndexNames(lower: bool, v: View, d: DDL)
    requires IndexNamesDistinct(v)
    ensures IndexNamesDistinct(ApplyOn(lower, v, d).view)
  {
    match d.action
    case RenameTable => RenamesInherit(lower, d, v.tables, d.pairs);
    case DropTable => DropsInherit(lower, d, v.tables, d.tables);
    case DropView => DropsInherit(lower, d, v.tables, d.tables);
    case CreateTable => CreatedTable(d.create.(schema := d.schema, table := d.table));
    case CreateIndex => EditKeepsIndexNames(lower, v, d);
    case DropIndexes => EditKeepsIndexNames(lower, v, d);
    case AlterTable => EditKeepsIndexNames(lower, v, d);
    case _ =>
  }

  lemma EditKeepsIndexNames(lower: bool, v: View, d: DDL)
    requires IndexNamesDistinct(v)
    ensures IndexNamesDistinct(AlterOn(lower, v, d).view)
  {
    var n := NameOf(lower, d.schema, d.table);
    if n in v.tables && ApplyOps(v.tables[n], TableOps(d)).Some? {
      AlterKeepsIndexNames(v.tables[n], TableOps(d));
    }
  }

  /** CREATE passes the duplicate and missing-column checks of the audit; an edit is made of safe operations. */
  predicate SafeDDL(lower: bool, v: View, d: DDL) {
    (d.action.CreateTable? ==>
       DistinctSpecs(d.create.columns)
       && forall i :: 0 <= i < |d.create.indexes| ==> AllNamed(d.create.columns, d.create.indexes[i].columns))
    && (EditsOneTable(d) && NameOf(lower, d.schema, d.table) in v.tables ==>
          AllSafe(v.tables[NameOf(lower, d.schema, d.table)], TableOps(d)))
  }

  lemma ApplyKeepsWellFormed(lower: bool, v: View, d: DDL)
    requires AllWellFormed(v) && SafeDDL(lower, v, d)
    ensures AllWellFormed(ApplyOn(lower, v, d).view)
  {
    match d.action
    case RenameTable => RenamesInherit(lower, d, v.tables, d.pairs);
    case DropTable => DropsInherit(lower, d, v.tables, d.tables);
    case DropView => DropsInherit(lower, d, v.tables, d.tables);
    case CreateTable => CreatedTable(d.create.(schema := d.schema, table := d.table));
    case CreateIndex => EditKeepsWellFormed(lower, v, d);
    case DropIndexes => EditKeepsWellFormed(lower, v, d);
    case AlterTable => EditKeepsWellFormed(lower, v, d);
    case _ =>
  }

  lemma EditKeepsWellFormed(lower: bool, v: View, d: DDL)
    requires AllWellFormed(v) && EditsOneTable(d) && SafeDDL(lower, v, d)
    ensures AllWellFormed(AlterOn(lower, v, d).view)
  {
    var n := NameOf(lower, d.schema, d.table);
    if n in v.tables && ApplyOps(v.tables[n], TableOps(d)).Some? {
      AlterKeepsWellFormed(v.tables[n], TableOps(d));
    }
  }

  // ---------------------------------------------------------------- over a batch

  /** In every view of every batch, whatever the statements and whatever the rules and the servers
      answer, index names are distinct up to letter case, if they are so on the server. */
  lemma {:induction false} BatchKeepsIndexNames(lower: bool, source: View, database: string,
                                                statements: seq<E.Statement>,
                                                records: seq<S.Record>, trail: seq<S.Moment>, i: nat)
    requires S.Trail(lower, source, database, statements, records, trail) && i < |trail| && IndexNamesDistinct(source)
    ensures IndexNamesDistinct(trail[i].view) && IndexNamesDistinct(trail[i].after)
  {
    if i > 0 {
      BatchKeepsIndexNames(lower, source, database, statements, records, trail, i - 1);
      S.NextMoment(lower, source, database, statements, records, trail, i - 1);
    } else {
      S.FirstMoment(lower, source, database, statements, records, trail);
    }
    MomentKeepsIndexNames(lower, statements[i], records[i], trail[i]);
  }

  lemma MomentKeepsIndexNames(lower: bool, s: E.Statement, r: S.Record, m: S.Moment)
    requires S.RightRecord(lower, s, r, m) && IndexNamesDistinct(m.view)
    ensures IndexNamesDistinct(m.after)
  {
    var d := S.DDLOf(s, m.database);
    if m.admitted && d.Some? {
      ApplyKeepsIndexNames(lower, m.view, PrepareOn(lower, m.view, d.value).ddl);
    }
  }

  /** What the audit admits to the schema view is safe. */
  predicate SafeMoment(lower: bool, s: E.Statement, m: S.Moment) {
    var d := S.DDLOf(s, m.database);
    m.admitted && d.Some? ==>
      match PrepareOn(lower, m.view, d.value)
      case Accepted(p) => SafeDDL(lower, m.view, p)
      case Rejected => true
  }

  /** In every view of a batch of safe statements every table is well-formed, if they are so on the server. */
  lemma {:induction false} BatchKeepsWellFormed(lower: bool, source: View, database: string,
                                                statements: seq<E.Statement>,
                                                records: seq<S.Record>, trail: seq<S.Moment>, i: nat)
    requires S.Trail(lower, source, database, statements, records, trail) && i < |trail| && AllWellFormed(source)
    requires forall k :: 0 <= k <= i ==> SafeMoment(lower, statements[k], trail[k])
    ensures AllWellFormed(trail[i].view) && AllWellFormed(trail[i].after)
  {
    if i > 0 {
      BatchKeepsWellFormed(lower, source, database, statements, records, trail, i - 1);
      S.NextMoment(lower, source, database, statements, records, trail, i - 1);
    } else {
      S.FirstMoment(lower, source, database, statements, records, trail);
    }
    MomentKeepsWellFormed(lower, statements[i], records[i], trail[i]);
  }

  lemma MomentKeepsWellFormed(lower: bool, s: E.Statement, r: S.Record, m: S.Moment)
    requires S.RightRecord(lower, s, r, m) && AllWellFormed(m.view) && SafeMoment(lower, s, m)
    ensures AllWellFormed(m.after)
  {
    var d := S.DDLOf(s, m.database);
    if m.admitted && d.Some? {
      ApplyKeepsWellFormed(lower, m.view, PrepareOn(lower, m.view, d.value).ddl);
    }
  }

  /** CREATE TABLE ... LIKE a well-formed table is safe without any check. */
  lemma LikeIsSafe(lower: bool, v: View, d: DDL)
    requires AllWellFormed(v) && d.action.CreateTable? && d.fullyProjected && d.reference.Some?
    requires NameOf(lower, d.schema, d.table) !in v.tables && LikeName(lower, d) in v.tables
    ensures PrepareOn(lower, v, d).Accepted?
    ensures AllWellFormed(ApplyOn(lower, v, PrepareOn(lower, v, d).ddl).view)
  {
    var t := v.tables[LikeName(lower, d)];
    LikeWellFormed(d.create.(schema := d.schema, table := d.table), t);
  }
}
