/** What the audit sees of the schema, and what a DDL statement does to it: PrepareDDL and
    ApplyDDL of internal/metadata/snapshot.go as functions on plain maps. The module `Provider`
    refines them with the cache. */
module Views {
  import opened Text
  import opened Catalog
  import opened Seqs
  import opened Snapshot
  import opened Create

  /** A schema-qualified name, normalised for the case mode. */
  type Name = (string, string)

  datatype View = View(schemas: set<string>, tables: map<Name, Table>)

  datatype RenamePair = RenamePair(from: TableRef, to: TableRef)

  datatype Action =
    | CreateDatabase | DropDatabase | CreateTable | CreateView | DropTable | DropView | RenameTable
    | TruncateTable | CreateIndex | DropIndexes | AlterTable | OtherAction

  datatype DDL = DDL(
    action: Action, schema: string, table: string, tables: seq<TableRef>, reference: Option<TableRef>,
    pairs: seq<RenamePair>, ops: seq<AlterOp>, create: CreateSpec, indexes: seq<IndexSpec>,
    fullyProjected: bool, ifExists: bool, ifNotExists: bool, noop: bool)

  /** normalize: names fold in lower-case mode. */
  function Normal(lower: bool, s: string): string { if lower then Fold(s) else s }

  function NameOf(lower: bool, schema: string, table: string): Name { (Normal(lower, schema), Normal(lower, table)) }

  function DefaultSchema(v: string, f: string): string { if v == "" then f else v }

  function RefName(lower: bool, d: DDL, r: TableRef): Name { NameOf(lower, DefaultSchema(r.schema, d.schema), r.name) }

  function SourceName(lower: bool, d: DDL, p: RenamePair): Name { RefName(lower, d, p.from) }

  function TargetSchema(d: DDL, p: RenamePair): string {
    DefaultSchema(p.to.schema, DefaultSchema(p.from.schema, d.schema))
  }

  function TargetName(lower: bool, d: DDL, p: RenamePair): Name { NameOf(lower, TargetSchema(d, p), p.to.name) }

  // ---------------------------------------------------------------- PrepareDDL

  datatype Prepared = Accepted(ddl: DDL) | Rejected

  /** affectedTables */
  function Affected(d: DDL): seq<TableRef> {
    match d.action
    case AlterTable => d.tables
    case TruncateTable => d.tables
    case CreateIndex => d.tables
    case DropIndexes => d.tables
    case DropTable => d.tables
    case DropView => d.tables
    case RenameTable => Map((p: RenamePair) => p.from, d.pairs)
    case _ => []
  }

  predicate EditsOneTable(d: DDL) { d.action == CreateIndex || d.action == DropIndexes || d.action == AlterTable }

  predicate Creates(d: DDL) { d.action == CreateTable || d.action == CreateView }

  /** The schema of the table a CREATE ... LIKE refers to. */
  function LikeName(lower: bool, d: DDL): Name
    requires d.reference.Some?
  {
    RefName(lower, d, d.reference.value)
  }

  /** The target of some pair exists. */
  predicate AnyTarget(lower: bool, v: View, d: DDL) {
    exists i :: 0 <= i < |d.pairs| && TargetName(lower, d, d.pairs[i]) in v.tables
  }

  /** Some affected table does not exist. */
  predicate AnyMissing(lower: bool, v: View, d: DDL) {
    exists i :: 0 <= i < |Affected(d)| && RefName(lower, d, Affected(d)[i]) !in v.tables
  }

  function PrepareOn(lower: bool, v: View, d: DDL): Prepared {
    if !d.fullyProjected then Accepted(d)
    else if Creates(d) then
      if NameOf(lower, d.schema, d.table) in v.tables then
        if d.ifNotExists then Accepted(d.(noop := true)) else Rejected
      else if d.reference.Some? then
        if LikeName(lower, d) in v.tables then Accepted(d.(create := LikeSpec(d.create, v.tables[LikeName(lower, d)])))
        else Rejected
      else Accepted(d)
    else if d.action == RenameTable && AnyTarget(lower, v, d) then Rejected
    else if !d.ifExists && AnyMissing(lower, v, d) then Rejected
    else Accepted(d)
  }

  // ---------------------------------------------------------------- ApplyDDL

  /** The view after a DDL statement. A refused statement may have changed it: `Error` tells how far. */
  datatype Applied = Done(view: View) | Error(view: View)

  function CreatedView(d: DDL): Table {
    Table(d.schema, d.table, "", [], [], true, "", "", "", "VIEW", "", 0)
  }

  function NewTable(d: DDL): Table { FromSpec(d.create.(schema := d.schema, table := d.table)) }

  function DropAll(lower: bool, d: DDL, tables: map<Name, Table>, refs: seq<TableRef>): map<Name, Table> {
    if refs == [] then tables
    else DropAll(lower, d, tables, refs[..|refs| - 1]) - {RefName(lower, d, refs[|refs| - 1])}
  }

  /** renameLoaded */
  function RenameOne(lower: bool, d: DDL, tables: map<Name, Table>, p: RenamePair): Option<map<Name, Table>> {
    var src := SourceName(lower, d, p);
    if src !in tables then None
    else
      var t := tables[src].(schema := TargetSchema(d, p), name := p.to.name);
      Some((tables - {src})[TargetName(lower, d, p) := t])
  }

  datatype Renaming = Renaming(ok: bool, tables: map<Name, Table>)

  /** The loop over the pairs, which stops at the first that fails. */
  function RenameAll(lower: bool, d: DDL, tables: map<Name, Table>, pairs: seq<RenamePair>): Renaming {
    if pairs == [] then Renaming(true, tables)
    else
      var n := |pairs| - 1;
      var before := RenameAll(lower, d, tables, pairs[..n]);
      if !before.ok then before
      else match RenameOne(lower, d, before.tables, pairs[n])
        case None => Renaming(false, before.tables)
        case Some(after) => Renaming(true, after)
  }

  /** CREATE INDEX, DROP INDEX and ALTER TABLE as operations on one table. */
  function TableOps(d: DDL): seq<AlterOp> {
    match d.action
    case CreateIndex => Map((i: IndexSpec) => AddIndex(Some(i.(primary := false))), d.indexes)
    case DropIndexes => Map((i: IndexSpec) => DropIndex(i.name), d.indexes)
    case _ => d.ops
  }

  function AlterOn(lower: bool, v: View, d: DDL): Applied {
    var n := NameOf(lower, d.schema, d.table);
    if n !in v.tables then Error(v)
    else match ApplyOps(v.tables[n], TableOps(d))
      case None => Error(v)
      case Some(u) =>
        var t := v.tables[n];
        var cleared := if t.schema != u.schema || t.name != u.name
                       then v.tables - {NameOf(lower, t.schema, t.name)} else v.tables;
        Done(v.(tables := cleared[NameOf(lower, u.schema, u.name) := u]))
  }

  function ApplyOn(lower: bool, v: View, d: DDL): Applied {
    if !d.fullyProjected || d.noop then Done(v)
    else match d.action
      case CreateDatabase => Done(v.(schemas := v.schemas + {Normal(lower, d.schema)}))
      case DropDatabase => Done(v.(schemas := v.schemas - {Normal(lower, d.schema)}))
      case CreateTable => Done(v.(tables := v.tables[NameOf(lower, d.schema, d.table) := NewTable(d)]))
      case CreateView => Done(v.(tables := v.tables[NameOf(lower, d.schema, d.table) := CreatedView(d)]))
      case DropTable => Done(v.(tables := DropAll(lower, d, v.tables, d.tables)))
      case DropView => Done(v.(tables := DropAll(lower, d, v.tables, d.tables)))
      case RenameTable =>
        var r := RenameAll(lower, d, v.tables, d.pairs);
        if r.ok then Done(v.(tables := r.tables)) else Error(v.(tables := r.tables))
      case CreateIndex => AlterOn(lower, v, d)
      case DropIndexes => AlterOn(lower, v, d)
      case AlterTable => AlterOn(lower, v, d)
      case _ => Done(v)
  }

  // ---------------------------------------------------------------- RENAME TABLE is simultaneous

  predicate DistinctSources(lower: bool, d: DDL, pairs: seq<RenamePair>) {
    forall i, j :: 0 <= i < j < |pairs| ==> SourceName(lower, d, pairs[i]) != SourceName(lower, d, pairs[j])
  }

  predicate IsSource(lower: bool, d: DDL, pairs: seq<RenamePair>, n: Name) {
    exists i :: 0 <= i < |pairs| && SourceName(lower, d, pairs[i]) == n
  }

  /** The last pair that renames to n, or -1. */
  function LastTo(lower: bool, d: DDL, pairs: seq<RenamePair>, n: Name): (r: int)
    ensures -1 <= r < |pairs|
    ensures r >= 0 ==> TargetName(lower, d, pairs[r]) == n
    ensures forall i :: r < i < |pairs| ==> TargetName(lower, d, pairs[i]) != n
  {
    if pairs == [] then -1
    else if TargetName(lower, d, pairs[|pairs| - 1]) == n then |pairs| - 1
    else LastTo(lower, d, pairs[..|pairs| - 1], n)
  }

  function Moved(d: DDL, t: Table, p: RenamePair): Table { t.(schema := TargetSchema(d, p), name := p.to.name) }

  /** What PrepareDDL has established: the sources exist and the targets do not. */
  ghost predicate Renamable(lower: bool, d: DDL, tables: map<Name, Table>, pairs: seq<RenamePair>) {
    forall i :: 0 <= i < |pairs| ==>
        SourceName(lower, d, pairs[i]) in tables && TargetName(lower, d, pairs[i]) !in tables
  }

  /** `after` is `tables` with all the pairs carried out at once. */
  ghost predicate Simultaneous(lower: bool, d: DDL, tables: map<Name, Table>, pairs: seq<RenamePair>, after: map<Name,
                               Table>)
    requires Renamable(lower, d, tables, pairs)
  {
    forall n :: SubstitutedAt(lower, d, tables, pairs, after, n)
  }

  /** Under one name: a target holds the table it was last given, a source is gone, the rest is as before. */
  ghost predicate SubstitutedAt(lower: bool, d: DDL, tables: map<Name, Table>, pairs: seq<RenamePair>, after: map<Name,
                                Table>, n: Name)
    requires Renamable(lower, d, tables, pairs)
  {
    var j := LastTo(lower, d, pairs, n);
    if j >= 0 then n in after && after[n] == Moved(d, tables[SourceName(lower, d, pairs[j])], pairs[j])
    else if IsSource(lower, d, pairs, n) then n !in after
    else (n in after <==> n in tables) && (n in tables ==> after[n] == tables[n])
  }

  /** After PrepareDDL accepted the list, the sequential renames succeed if and only if no table is
      renamed twice; then they amount to one simultaneous substitution. */
  lemma {:induction false} RenameIsSimultaneous(lower: bool, d: DDL, tables: map<Name, Table>, pairs: seq<RenamePair>)
    requires Renamable(lower, d, tables, pairs)
    ensures RenameAll(lower, d, tables, pairs).ok <==> DistinctSources(lower, d, pairs)
    ensures DistinctSources(lower, d, pairs) ==>
              Simultaneous(lower, d, tables, pairs, RenameAll(lower, d, tables, pairs).tables)
    decreases |pairs|
  {
    if pairs != [] {
      var n := |pairs| - 1;
      var init := pairs[..n];
      RenameIsSimultaneous(lower, d, tables, init);
      DistinctSplits(lower, d, pairs);
      if DistinctSources(lower, d, init) {
        var before := RenameAll(lower, d, tables, init).tables;
        var src := SourceName(lower, d, pairs[n]);
        SourceStillThere(lower, d, tables, init, before, src);
        if !IsSource(lower, d, init, src) {
          RenameStep(lower, d, tables, pairs, before);
        }
      }
    }
  }

  lemma DistinctSplits(lower: bool, d: DDL, pairs: seq<RenamePair>)
    requires pairs != []
    ensures DistinctSources(lower, d, pairs)
       <==> DistinctSources(lower, d, pairs[..|pairs| - 1])
            && !IsSource(lower, d, pairs[..|pairs| - 1], SourceName(lower, d, pairs[|pairs| - 1]))
  {
    var n := |pairs| - 1;
    var init := pairs[..n];
    if DistinctSources(lower, d, pairs) {
      forall i | 0 <= i < |init| ensures SourceName(lower, d, init[i]) != SourceName(lower, d, pairs[n]) {
        assert init[i] == pairs[i];
      }
      forall i, j | 0 <= i < j < |init| ensures SourceName(lower, d, init[i]) != SourceName(lower, d, init[j]) {
        assert init[i] == pairs[i] && init[j] == pairs[j];
      }
    }
    if DistinctSources(lower, d, init) && !IsSource(lower, d, init, SourceName(lower, d, pairs[n])) {
      forall i, j | 0 <= i < j < |pairs| ensures SourceName(lower, d, pairs[i]) != SourceName(lower, d, pairs[j]) {
        assert pairs[i] == init[i];
        assert j < n ==> pairs[j] == init[j];
      }
    }
  }

  /** A source that no earlier pair has taken is still there, with its first value. */
  lemma SourceStillThere(lower: bool, d: DDL, tables: map<Name, Table>, pairs: seq<RenamePair>, after: map<Name,
                         Table>, src: Name)
    requires Renamable(lower, d, tables, pairs) && src in tables && Simultaneous(lower, d, tables, pairs, after)
    ensures src in after <==> !IsSource(lower, d, pairs, src)
    ensures src in after ==> after[src] == tables[src]
  {
    assert SubstitutedAt(lower, d, tables, pairs, after, src);
    var j := LastTo(lower, d, pairs, src);
    assert j < 0;
  }

  lemma LastToSnoc(lower: bool, d: DDL, pairs: seq<RenamePair>, n: Name)
    requires pairs != []
    ensures LastTo(lower, d, pairs, n)
         == if TargetName(lower, d, pairs[|pairs| - 1])
             == n then |pairs| - 1 else LastTo(lower, d, pairs[..|pairs| - 1], n)
  {
  }

  lemma IsSourceSnoc(lower: bool, d: DDL, pairs: seq<RenamePair>, n: Name)
    requires pairs != []
    ensures IsSource(lower, d, pairs, n)
       <==> IsSource(lower, d, pairs[..|pairs| - 1], n) || SourceName(lower, d, pairs[|pairs| - 1]) == n
  {
    var init := pairs[..|pairs| - 1];
    if IsSource(lower, d, init, n) {
      var i :| 0 <= i < |init| && SourceName(lower, d, init[i]) == n;
      assert pairs[i] == init[i];
    }
    if IsSource(lower, d, pairs, n) && SourceName(lower, d, pairs[|pairs| - 1]) != n {
      var i :| 0 <= i < |pairs| && SourceName(lower, d, pairs[i]) == n;
      assert pairs[i] == init[i];
    }
  }

  lemma RenameStep(lower: bool, d: DDL, tables: map<Name, Table>, pairs: seq<RenamePair>, before: map<Name, Table>)
    requires pairs != [] && Renamable(lower, d, tables, pairs) && Renamable(lower, d, tables, pairs[..|pairs| - 1])
    requires Simultaneous(lower, d, tables, pairs[..|pairs| - 1], before)
    requires !IsSource(lower, d, pairs[..|pairs| - 1], SourceName(lower, d, pairs[|pairs| - 1]))
    ensures RenameOne(lower, d, before, pairs[|pairs| - 1]).Some?
    ensures Simultaneous(lower, d, tables, pairs, RenameOne(lower, d, before, pairs[|pairs| - 1]).value)
  {
    var k := |pairs| - 1;
    var init, p := pairs[..k], pairs[k];
    var src := SourceName(lower, d, p);
    SourceStillThere(lower, d, tables, init, before, src);
    var after := RenameOne(lower, d, before, p).value;
    forall n ensures SubstitutedAt(lower, d, tables, pairs, after, n) {
      assert SubstitutedAt(lower, d, tables, init, before, n);
      RenameStepAt(lower, d, tables, pairs, before, n);
    }
  }

  lemma RenameStepAt(lower: bool, d: DDL, tables: map<Name, Table>, pairs: seq<RenamePair>, before: map<Name, Table>,
                     n: Name)
    requires pairs != [] && Renamable(lower, d, tables, pairs) && Renamable(lower, d, tables, pairs[..|pairs| - 1])
    requires SubstitutedAt(lower, d, tables, pairs[..|pairs| - 1], before, n)
    requires var src := SourceName(lower, d, pairs[|pairs| - 1]);
             src in before && src in tables && before[src] == tables[src]
    ensures SubstitutedAt(lower, d, tables, pairs, RenameOne(lower, d, before, pairs[|pairs| - 1]).value, n)
  {
    LastToSnoc(lower, d, pairs, n);
    IsSourceSnoc(lower, d, pairs, n);
    var i := LastTo(lower, d, pairs[..|pairs| - 1], n);
    assert i >= 0 ==> pairs[..|pairs| - 1][i] == pairs[i];
  }

  /** A list that takes the same table twice fails half-way, with the first rename done. */
  lemma RenameTwiceFails(lower: bool, d: DDL, tables: map<Name, Table>, a: RenamePair, b: RenamePair)
    requires Renamable(lower, d, tables, [a, b]) && SourceName(lower, d, a) == SourceName(lower, d, b)
    ensures var r := RenameAll(lower, d, tables, [a, b]);
            !r.ok && SourceName(lower, d, a) !in r.tables && TargetName(lower, d, a) in r.tables
  {
    var pairs := [a, b];
    assert pairs[..1] == [a] && [a][..0] == [];
    assert pairs[0] == a && pairs[1] == b;
    RenameIsSimultaneous(lower, d, tables, pairs);
    assert RenameAll(lower, d, tables, []) == Renaming(true, tables);
    assert [a][0] == a;
    assert RenameOne(lower, d, tables, a).Some?;
    assert TargetName(lower, d, a) != SourceName(lower, d, a);
  }

  /** The first table of the list is gone whatever becomes of the rest. */
  lemma {:induction false} FirstSourceGone(lower: bool, d: DDL, tables: map<Name, Table>, pairs: seq<RenamePair>)
    requires pairs != [] && Renamable(lower, d, tables, pairs)
    ensures SourceName(lower, d, pairs[0]) !in RenameAll(lower, d, tables, pairs).tables
    decreases |pairs|
  {
    var n := |pairs| - 1;
    var init := pairs[..n];
    if n > 0 {
      assert init[0] == pairs[0];
      FirstSourceGone(lower, d, tables, init);
    } else {
      assert RenameAll(lower, d, tables, init) == Renaming(true, tables);
    }
  }

  lemma AcceptedRenameIsRenamable(lower: bool, v: View, d: DDL)
    requires d.action.RenameTable? && d.fullyProjected && !d.ifExists && PrepareOn(lower, v, d).Accepted?
    ensures Renamable(lower, d, v.tables, d.pairs)
  {
    forall i | 0 <= i < |d.pairs|
      ensures SourceName(lower, d, d.pairs[i]) in v.tables && TargetName(lower, d, d.pairs[i]) !in v.tables
    {
      assert Affected(d)[i] == d.pairs[i].from;
    }
  }

  /** A RENAME TABLE that has been accepted is refused later, and then with a trace, if and only if it
      takes a table twice. */
  lemma RenameRefusalLeavesTrace(lower: bool, v: View, d: DDL)
    requires d.action.RenameTable? && d.fullyProjected && !d.ifExists && !d.noop && PrepareOn(lower, v, d).Accepted?
    ensures ApplyOn(lower, v, d).Error? <==> !DistinctSources(lower, d, d.pairs)
    ensures ApplyOn(lower, v, d).Error? ==> ApplyOn(lower, v, d).view != v
  {
    AcceptedRenameIsRenamable(lower, v, d);
    RenameIsSimultaneous(lower, d, v.tables, d.pairs);
    if !DistinctSources(lower, d, d.pairs) {
      FirstSourceGone(lower, d, v.tables, d.pairs);
      assert SourceName(lower, d, d.pairs[0]) in v.tables;
    }
  }

  // ---------------------------------------------------------------- tables that get lost

  predicate DistinctTargets(lower: bool, d: DDL, pairs: seq<RenamePair>) {
    forall i, j :: 0 <= i < j < |pairs| ==> TargetName(lower, d, pairs[i]) != TargetName(lower, d, pairs[j])
  }

  lemma TargetsSplit(lower: bool, d: DDL, pairs: seq<RenamePair>)
    requires pairs != []
    ensures var n := |pairs| - 1;
            DistinctTargets(lower, d, pairs)
            <==>
            DistinctTargets(lower, d, pairs[..n]) && LastTo(lower, d, pairs[..n], TargetName(lower, d, pairs[n])) < 0
  {
    var n := |pairs| - 1;
    var init := pairs[..n];
    assert forall i :: 0 <= i < n ==> init[i] == pairs[i];
  }

  /** A list that renames no table twice keeps all tables if and only if its targets are distinct; if two
      tables are given one name, the first is lost without an error. */
  lemma {:induction false} RenameLosesNoTable(lower: bool, d: DDL, tables: map<Name, Table>, pairs: seq<RenamePair>)
    requires Renamable(lower, d, tables, pairs) && DistinctSources(lower, d, pairs)
    ensures var after := RenameAll(lower, d, tables, pairs);
            after.ok && |after.tables| <= |tables| && (|after.tables| == |tables| <==> DistinctTargets(lower, d, pairs))
    decreases |pairs|
  {
    if pairs != [] {
      var n := |pairs| - 1;
      var init, p := pairs[..n], pairs[n];
      DistinctSplits(lower, d, pairs);
      RenameLosesNoTable(lower, d, tables, init);
      RenameIsSimultaneous(lower, d, tables, init);
      var before := RenameAll(lower, d, tables, init).tables;
      SourceStillThere(lower, d, tables, init, before, SourceName(lower, d, p));
      assert SubstitutedAt(lower, d, tables, init, before, TargetName(lower, d, p));
      TargetsSplit(lower, d, pairs);
      Resized(before, SourceName(lower, d, p), TargetName(lower, d, p), Moved(d, tables[SourceName(lower, d, p)], p));
    }
  }

  lemma Resized(tables: map<Name, Table>, src: Name, dst: Name, t: Table)
    requires src in tables && src != dst
    ensures |(tables - {src})[dst := t]| == if dst in tables then |tables| - 1 else |tables|
  {
    var rest := tables - {src};
    assert tables.Keys == rest.Keys + {src};
    assert |tables| == |tables.Keys| && |rest| == |rest.Keys|;
    assert rest[dst := t].Keys == rest.Keys + {dst};
    assert |rest[dst := t]| == |rest[dst := t].Keys|;
  }

  /** An ALTER keeps all tables if and only if the name it leaves the table with is the table's own or
      was free; ALTER ... RENAME TO a name that is taken loses the table that had it, without an error. */
  lemma AlterLosesNoTable(lower: bool, v: View, d: DDL)
    requires var n := NameOf(lower, d.schema, d.table);
             n in v.tables && NameOf(lower, v.tables[n].schema, v.tables[n].name) == n
    requires AlterOn(lower, v, d).Done?
    ensures var n := NameOf(lower, d.schema, d.table);
            var u := ApplyOps(v.tables[n], TableOps(d)).value;
            |AlterOn(lower, v, d).view.tables| == |v.tables|
            <==> NameOf(lower, u.schema, u.name) == n || NameOf(lower, u.schema, u.name) !in v.tables
  {
    var n := NameOf(lower, d.schema, d.table);
    var u := ApplyOps(v.tables[n], TableOps(d)).value;
    var n' := NameOf(lower, u.schema, u.name);
    var after := AlterOn(lower, v, d).view.tables;
    if n' != n {
      assert after == (v.tables - {n})[n' := u];
      Resized(v.tables, n, n', u);
    } else {
      assert after.Keys == v.tables.Keys;
      assert |after| == |after.Keys| && |v.tables| == |v.tables.Keys|;
    }
  }
}
