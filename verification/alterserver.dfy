/** Undoing an ALTER TABLE on the server. The audit reads an ALTER as its snapshot does
    (internal/metadata/snapshot.go), and the rollback is written from that reading. The server differs in
    three ways (MySQL 8.0 Reference Manual, sections "CREATE TABLE Statement" and "ALTER TABLE Statement"):
    a primary key is called PRIMARY whatever name it is given, and its columns become NOT NULL; an index
    without a name gets one from the server; and the operations of one ALTER are taken together, so that a
    column is renamed by the name it had before, once, and indexes are added last, over the columns as they
    will be. */
module AlterServer {
  import opened Text
  import opened Catalog
  import opened Seqs
  import opened Snapshot
  import opened AlterUndo
  import opened AlterOrder

  /** How the server names an index that has no name. */
  type Namer = (Table, IndexSpec) -> string

  function ServerName(namer: Namer, t: Table, i: IndexSpec): string {
    if i.primary then "PRIMARY" else if i.name == "" then namer(t, i) else i.name
  }

  predicate HasName(names: seq<string>, name: string) {
    exists k :: 0 <= k < |names| && EqualFold(names[k], name)
  }

  function NotNull(names: seq<string>): Column -> Column {
    (c: Column) => if HasName(names, c.name) then c.(nullable := false) else c
  }

  /** The index as the server keeps it, with its expressions. */
  function ServerIndex(i: IndexSpec, name: string): Index { NewIndex(i).(name := name, expressions := i.expressions) }

  /** ADD INDEX on the server. */
  function ServerAdd(namer: Namer, t: Table, i: IndexSpec): Option<Table> {
    var name := ServerName(namer, t, i);
    if (!i.primary && EqualFold(i.name, "PRIMARY")) || FindIndex(t.indexes, name) >= 0 then None
    else if (i.columns == [] && i.expressions == []) || !Present(t.columns, i.columns) then None
    else
      Some(t.(columns := if i.primary then Map(NotNull(i.columns), t.columns) else t.columns,
              indexes := t.indexes + [ServerIndex(i, name)]))
  }

  function ServerAddAll(namer: Namer, t: Table, specs: seq<IndexSpec>): Option<Table>
    decreases |specs|
  {
    if specs == [] then Some(t)
    else match ServerAdd(namer, t, specs[0]) case None => None case Some(u) => ServerAddAll(namer, u, specs[1..])
  }

  function IsColumnOp(): AlterOp -> bool { (op: AlterOp) => !op.AddIndex? && !op.DropIndex? }

  /** The operations on columns, in order. */
  function ColumnOps(ops: seq<AlterOp>): seq<AlterOp> { Filter(IsColumnOp(), ops) }

  /** The indexes that are added, in order. */
  function Specs(ops: seq<AlterOp>): seq<IndexSpec> {
    if ops == [] then []
    else (if ops[0].AddIndex? && ops[0].index.Some? then [ops[0].index.value] else []) + Specs(ops[1..])
  }

  /** Every renamed column is there by that name. */
  predicate StillThere(t: Table, ops: seq<AlterOp>) {
    forall op :: op in ops && op.RenameColumn? ==> FindColumn(t.columns, op.name) >= 0
  }

  /** No column is renamed twice. */
  predicate TakenOnce(ops: seq<AlterOp>) {
    forall i, j :: 0 <= i < j < |ops| && ops[i].RenameColumn? && ops[j].RenameColumn? ==>
      !EqualFold(ops[i].name, ops[j].name)
  }

  /** A whole ALTER that adds and renames columns and adds indexes, on the server. */
  function ServerAlter(namer: Namer, t: Table, ops: seq<AlterOp>): Option<Table> {
    if !StillThere(t, ops) || !TakenOnce(ops) then None
    else match ApplyOps(t, ColumnOps(ops)) case None => None case Some(u) => ServerAddAll(namer, u, Specs(ops))
  }

  /** The statements of a rollback, one ALTER each: no index is dropped by an empty name. */
  function ServerUndo(t: Table, undos: seq<AlterOp>): Option<Table>
    decreases |undos|
  {
    if undos == [] then Some(t)
    else if undos[0] == DropIndex("") then None
    else match ApplyOp(t, undos[0]) case None => None case Some(u) => ServerUndo(u, undos[1..])
  }

  /** The audit has admitted the ALTER, a rollback is stored for it, and the server has run it. */
  ghost predicate HasRun(namer: Namer, t: Table, ops: seq<AlterOp>) {
    SoundTable(t) && ApplyOps(t, ops).Some? && Rollback(ops).Some? && ServerAlter(namer, t, ops).Some?
  }

  // ---------------------------------------------------------------- what undoing asks of an ALTER

  /** The name of an index is the one it has on the server. */
  predicate ProperName(i: IndexSpec) { i.name != "" && (i.primary ==> EqualFold(i.name, "PRIMARY")) }

  predicate AllProper(specs: seq<IndexSpec>) { forall k :: 0 <= k < |specs| ==> ProperName(specs[k]) }

  predicate Keyed(specs: seq<IndexSpec>, name: string) {
    exists i :: 0 <= i < |specs| && specs[i].primary && HasName(specs[i].columns, name)
  }

  /** No primary key is added over a column of the table that may be NULL. In the table with the columns of
      the ALTER those that it had come first. */
  predicate KeepsNullable(t: Table, ops: seq<AlterOp>) {
    match ApplyOps(t, ColumnOps(ops))
    case None => true
    case Some(after) =>
      forall k :: 0 <= k < |t.columns| && k < |after.columns| && Keyed(Specs(ops), after.columns[k].name) ==>
        !t.columns[k].nullable
  }

  predicate Adds(a: AlterOp, name: string) {
    a.AddColumns? && a.columns != [] && EqualFold(a.columns[0].name, name)
  }

  predicate IsIndex(a: AlterOp) { a.AddIndex? && a.index.Some? }

  predicate NotEarlier(atoms: seq<AlterOp>, j: nat, name: string)
    requires j <= |atoms|
  {
    forall q :: 0 <= q < j ==> !Adds(atoms[q], name)
  }

  predicate NotLater(atoms: seq<AlterOp>, j: nat, name: string) {
    forall q :: j < q < |atoms| ==> !Adds(atoms[q], name)
  }

  /** The index at place j has an expression, or a column that no later atom adds. */
  predicate RootLate(atoms: seq<AlterOp>, j: nat)
    requires j < |atoms| && IsIndex(atoms[j])
  {
    var i := atoms[j].index.value;
    i.expressions != [] || exists k :: 0 <= k < |i.columns| && NotLater(atoms, j, i.columns[k])
  }

  /** It has an expression, or a column that no earlier atom adds. */
  predicate RootEarly(atoms: seq<AlterOp>, j: nat)
    requires j < |atoms| && IsIndex(atoms[j])
  {
    var i := atoms[j].index.value;
    i.expressions != [] || exists k :: 0 <= k < |i.columns| && NotEarlier(atoms, j, i.columns[k])
  }

  predicate RootedLate(atoms: seq<AlterOp>) {
    forall j :: 0 <= j < |atoms| && IsIndex(atoms[j]) ==> RootLate(atoms, j)
  }

  predicate RootedEarly(atoms: seq<AlterOp>) {
    forall j :: 0 <= j < |atoms| && IsIndex(atoms[j]) ==> RootEarly(atoms, j)
  }
}
