/** The rollback records that prepareDDLRollback writes for a DDL statement before it is run
    (internal/execution/mysql/engine.go): the statements as values, their text, and its reading. What the
    statements do is in `DDLUndo` and `AlterRestore`. */
module DDLText {
  import opened Text
  import opened Catalog
  import opened Seqs
  import opened Snapshot
  import opened Statements
  import opened AlterUndo
  import V = Views
  import B = Store

  datatype UndoDDL =
    | DropDatabase(name: string)
    | DropTable(table: TableRef)
    | Recreate(sql: string)
    | RenameBack(from: TableRef, to: TableRef)
    | DropIndexOn(index: string, table: TableRef)
    | AlterBack(table: TableRef, op: AlterOp)

  // ---------------------------------------------------------------- writing

  function Qualified(t: TableRef): string {
    if t.schema == "" then QuoteIdent(t.name) else QuoteIdent(t.schema) + "." + QuoteIdent(t.name)
  }

  function AlterText(op: AlterOp): string
    requires Undoing(op)
  {
    match op
    case DropColumn(name) => " DROP COLUMN " + QuoteIdent(name) + ";"
    case DropIndex(name) => " DROP INDEX " + QuoteIdent(name) + ";"
    case RenameColumn(name, newName) => " RENAME COLUMN " + QuoteIdent(name) + " TO " + QuoteIdent(newName) + ";"
  }

  predicate Writes(u: UndoDDL) { u.AlterBack? ==> Undoing(u.op) }

  function UndoText(u: UndoDDL): string
    requires Writes(u)
  {
    match u
    case DropDatabase(name) => "DROP DATABASE " + QuoteIdent(name) + ";"
    case DropTable(t) => "DROP TABLE " + Qualified(t) + ";"
    case Recreate(sql) => sql + ";"
    case RenameBack(from, to) => "RENAME TABLE " + Qualified(from) + " TO " + Qualified(to) + ";"
    case DropIndexOn(index, t) => "DROP INDEX " + QuoteIdent(index) + " ON " + Qualified(t) + ";"
    case AlterBack(t, op) => "ALTER TABLE " + Qualified(t) + AlterText(op)
  }

  // ---------------------------------------------------------------- reading

  /** The keyword k, then a table with or without its schema. */
  function ReadTable(k: string, s: string): Parsed<TableRef> {
    match ReadName(k, s)
    case Bad => Bad
    case Got(first, rest) =>
      match ReadName(".", rest)
      case Bad => Got(TableRef("", first), rest)
      case Got(second, after) => Got(TableRef(first, second), after)
  }

  function Ends<T>(value: T, rest: string): Parsed<T> { if rest == ";" then Got(value, []) else Bad }

  function ReadTwo<A, B>(a: Parsed<A>, then_: string -> Parsed<B>): Parsed<(A, B)> {
    match a
    case Bad => Bad
    case Got(x, rest) => match then_(rest) case Bad => Bad case Got(y, after) => Got((x, y), after)
  }

  function ReadAlter(s: string): Parsed<AlterOp> {
    match ReadName(" DROP COLUMN ", s)
    case Got(name, rest) => Ends(DropColumn(name), rest)
    case Bad =>
      match ReadName(" DROP INDEX ", s)
      case Got(name, rest) => Ends(DropIndex(name), rest)
      case Bad =>
        match ReadTwo(ReadName(" RENAME COLUMN ", s), r => ReadName(" TO ", r))
        case Got(names, rest) => Ends(RenameColumn(names.0, names.1), rest)
        case Bad => Bad
  }

  function ReadDrop(s: string): Parsed<UndoDDL> {
    match ReadName("DROP DATABASE ", s)
    case Got(name, rest) => Ends(DropDatabase(name), rest)
    case Bad =>
      match ReadTable("DROP TABLE ", s)
      case Got(t, rest) => Ends(DropTable(t), rest)
      case Bad =>
        match ReadTwo(ReadName("DROP INDEX ", s), r => ReadTable(" ON ", r))
        case Got(parts, rest) => Ends(DropIndexOn(parts.0, parts.1), rest)
        case Bad => Bad
  }

  /** A statement other than one that comes from SHOW CREATE TABLE. */
  function ReadUndo(s: string): Parsed<UndoDDL> {
    if s == [] then Bad
    else if s[0] == 'D' then ReadDrop(s)
    else if s[0] == 'R' then
      match ReadTwo(ReadTable("RENAME TABLE ", s), r => ReadTable(" TO ", r))
      case Got(parts, rest) => Ends(RenameBack(parts.0, parts.1), rest)
      case Bad => Bad
    else
      match ReadTwo(ReadTable("ALTER TABLE ", s), ReadAlter)
      case Got(parts, rest) => Got(AlterBack(parts.0, parts.1), rest)
      case Bad => Bad
  }

  // ---------------------------------------------------------------- reading what was written

  lemma EatsPrefix(k: string, rest: string)
    ensures Eat(k, k + rest) == Got((), rest)
  {
  }

  lemma ReadsName(k: string, v: string, rest: string)
    requires rest == [] || rest[0] != '`'
    ensures ReadName(k, k + (QuoteIdent(v) + rest)) == Got(v, rest)
  {
    EatsPrefix(k, QuoteIdent(v) + rest);
    ReadsIdent(v, rest);
  }

  lemma ReadsTable(k: string, t: TableRef, rest: string)
    requires rest != [] && rest[0] != '`' && rest[0] != '.'
    ensures ReadTable(k, k + (Qualified(t) + rest)) == Got(t, rest)
  {
    if t.schema == "" {
      ReadsName(k, t.name, rest);
      assert Eat(".", rest) == Bad;
    } else {
      var tail := "." + (QuoteIdent(t.name) + rest);
      assert Qualified(t) + rest == QuoteIdent(t.schema) + tail;
      assert tail[0] == '.';
      ReadsName(k, t.schema, tail);
      ReadsName(".", t.name, rest);
    }
  }

  lemma NotThatWord(k: string, s: string, i: nat)
    requires i < |k| && i < |s| && k[i] != s[i]
    ensures ReadName(k, s) == Bad && ReadTable(k, s) == Bad
  {
  }

  lemma ReadsAlter(op: AlterOp)
    requires Undoing(op)
    ensures ReadAlter(AlterText(op)) == Got(op, [])
  {
    var s := AlterText(op);
    match op
    case DropColumn(name) =>
      assert s == " DROP COLUMN " + (QuoteIdent(name) + ";");
      ReadsName(" DROP COLUMN ", name, ";");
    case DropIndex(name) =>
      assert s == " DROP INDEX " + (QuoteIdent(name) + ";");
      NotThatWord(" DROP COLUMN ", s, 6);
      ReadsName(" DROP INDEX ", name, ";");
    case RenameColumn(name, newName) =>
      var tail := " TO " + (QuoteIdent(newName) + ";");
      assert s == " RENAME COLUMN " + (QuoteIdent(name) + tail);
      NotThatWord(" DROP COLUMN ", s, 1);
      NotThatWord(" DROP INDEX ", s, 1);
      ReadsName(" RENAME COLUMN ", name, tail);
      ReadsName(" TO ", newName, ";");
  }

  lemma ReadsDropDatabase(name: string)
    ensures ReadDrop("DROP DATABASE " + (QuoteIdent(name) + ";")) == Got(DropDatabase(name), [])
  {
    ReadsName("DROP DATABASE ", name, ";");
  }

  lemma ReadsDropTable(t: TableRef)
    ensures ReadDrop("DROP TABLE " + (Qualified(t) + ";")) == Got(DropTable(t), [])
  {
    var s := "DROP TABLE " + (Qualified(t) + ";");
    NotThatWord("DROP DATABASE ", s, 5);
    ReadsTable("DROP TABLE ", t, ";");
  }

  lemma ReadsDropIndex(index: string, t: TableRef)
    ensures ReadDrop("DROP INDEX " + (QuoteIdent(index) + (" ON " + (Qualified(t) + ";"))))
         == Got(DropIndexOn(index, t), [])
  {
    var tail := " ON " + (Qualified(t) + ";");
    var s := "DROP INDEX " + (QuoteIdent(index) + tail);
    NotThatWord("DROP DATABASE ", s, 5);
    NotThatWord("DROP TABLE ", s, 5);
    ReadsName("DROP INDEX ", index, tail);
    ReadsTable(" ON ", t, ";");
  }

  /** Put together from the right, as it is read. */
  lemma DropTexts(name: string, t: TableRef)
    ensures UndoText(DropDatabase(name)) == "DROP DATABASE " + (QuoteIdent(name) + ";")
    ensures UndoText(DropTable(t)) == "DROP TABLE " + (Qualified(t) + ";")
    ensures UndoText(DropIndexOn(name, t)) == "DROP INDEX " + (QuoteIdent(name) + (" ON " + (Qualified(t) + ";")))
  {
  }

  lemma ReadsDrop(u: UndoDDL)
    requires u.DropDatabase? || u.DropTable? || u.DropIndexOn?
    ensures ReadDrop(UndoText(u)) == Got(u, [])
  {
    if u.DropDatabase? {
      DropTexts(u.name, TableRef("", ""));
      ReadsDropDatabase(u.name);
    } else if u.DropTable? {
      DropTexts("", u.table);
      ReadsDropTable(u.table);
    } else {
      DropTexts(u.index, u.table);
      ReadsDropIndex(u.index, u.table);
    }
  }

  lemma ReadsRenameText(from: TableRef, to: TableRef)
    ensures ReadUndo("RENAME TABLE " + (Qualified(from) + (" TO " + (Qualified(to) + ";"))))
         == Got(RenameBack(from, to), [])
  {
    var tail := " TO " + (Qualified(to) + ";");
    ReadsTable("RENAME TABLE ", from, tail);
    ReadsTable(" TO ", to, ";");
  }

  lemma ReadsRename(from: TableRef, to: TableRef)
    ensures ReadUndo(UndoText(RenameBack(from, to))) == Got(RenameBack(from, to), [])
  {
    assert UndoText(RenameBack(from, to)) == "RENAME TABLE " + (Qualified(from) + (" TO " + (Qualified(to) + ";")));
    ReadsRenameText(from, to);
  }

  lemma AlterTextBegins(op: AlterOp)
    requires Undoing(op)
    ensures AlterText(op) != [] && AlterText(op)[0] == ' '
  {
  }

  lemma ReadsAlterParts(t: TableRef, op: AlterOp)
    requires Undoing(op)
    ensures ReadTwo(ReadTable("ALTER TABLE ", "ALTER TABLE " + (Qualified(t) + AlterText(op))), ReadAlter)
         == Got((t, op), [])
  {
    AlterTextBegins(op);
    ReadsTable("ALTER TABLE ", t, AlterText(op));
    ReadsAlter(op);
  }

  /** How an ALTER TABLE is read. */
  lemma ReadUndoAlters(s: string)
    requires s != [] && s[0] == 'A'
    ensures ReadUndo(s) == match ReadTwo(ReadTable("ALTER TABLE ", s), ReadAlter)
                           case Got(parts, rest) => Got(AlterBack(parts.0, parts.1), rest)
                           case Bad => Bad
  {
  }

  lemma AlterTableText(t: TableRef, op: AlterOp)
    requires Undoing(op)
    ensures UndoText(AlterBack(t, op)) == "ALTER TABLE " + (Qualified(t) + AlterText(op))
    ensures UndoText(AlterBack(t, op)) != [] && UndoText(AlterBack(t, op))[0] == 'A'
  {
  }

  lemma ReadsAlterTable(t: TableRef, op: AlterOp)
    requires Undoing(op)
    ensures ReadUndo(UndoText(AlterBack(t, op))) == Got(AlterBack(t, op), [])
  {
    AlterTableText(t, op);
    ReadsAlterParts(t, op);
    ReadUndoAlters(UndoText(AlterBack(t, op)));
  }

  lemma DropsBegin(u: UndoDDL)
    requires u.DropDatabase? || u.DropTable? || u.DropIndexOn?
    ensures UndoText(u) != [] && UndoText(u)[0] == 'D'
  {
  }

  /** Decoding the names of a statement gives the statement back, whatever backticks, dots, spaces or ';' they
      hold. */
  lemma ReadsUndo(u: UndoDDL)
    requires Writes(u) && !u.Recreate?
    ensures ReadUndo(UndoText(u)) == Got(u, [])
  {
    match u {
      case RenameBack(from, to) => ReadsRename(from, to);
      case AlterBack(t, op) => ReadsAlterTable(t, op);
      case _ =>
        DropsBegin(u);
        ReadsDrop(u);
    }
  }

  // ---------------------------------------------------------------- what is prepared

  datatype Item = Item(schema: string, table: string, undo: UndoDDL)

  /** SHOW CREATE TABLE for the tables of a DROP TABLE, if all are answered. */
  function Recreated(d: V.DDL, tables: seq<TableRef>, creates: TableRef -> Option<string>): Option<seq<Item>> {
    if tables == [] then Some([])
    else
      var schema := V.DefaultSchema(tables[0].schema, d.schema);
      match (creates(TableRef(schema, tables[0].name)), Recreated(d, tables[1..], creates))
      case (Some(sql), Some(more)) => Some([Item(schema, tables[0].name, Recreate(sql))] + more)
      case _ => None
  }

  /** The records for a DDL statement, as values; none for what cannot be undone. The parser gives a CREATE INDEX
      its index. */
  function Prepared(d: V.DDL, creates: TableRef -> Option<string>): Option<seq<Item>> {
    var t := TableRef(d.schema, d.table);
    match d.action
    case CreateDatabase => Some([Item(d.schema, "database", DropDatabase(d.schema))])
    case CreateTable => Some([Item(d.schema, d.table, DropTable(t))])
    case DropTable => Recreated(d, d.tables, creates)
    case RenameTable =>
      Some(Map((p: V.RenamePair) => Item(p.to.schema, p.to.name, RenameBack(p.to, p.from)), d.pairs))
    case CreateIndex =>
      if d.indexes == [] then None else Some([Item(d.schema, d.table, DropIndexOn(d.indexes[0].name, t))])
    case AlterTable =>
      (match Rollback(d.ops)
       case None => None
       case Some(undos) => Some(Map((op: AlterOp) => Item(d.schema, d.table, AlterBack(t, op)), undos)))
    case _ => None
  }

  /** What is stored of a record. */
  function Written(i: Item): B.Rollback {
    B.Rollback(i.schema, i.table, if Writes(i.undo) then UndoText(i.undo) else "")
  }

  function PreparedRecords(d: V.DDL, creates: TableRef -> Option<string>): Option<seq<B.Rollback>> {
    match Prepared(d, creates) case None => None case Some(items) => Some(Map(Written, items))
  }

  /** Whatever the server answers, these are refused. */
  predicate Irreversible(d: V.DDL) {
    match d.action
    case CreateDatabase => false
    case CreateTable => false
    case DropTable => false
    case RenameTable => false
    case CreateIndex => d.indexes == []
    case AlterTable => exists i :: 0 <= i < |d.ops| && !Reversible(d.ops[i])
    case _ => true
  }

  lemma {:induction false} RecreatedIs(d: V.DDL, tables: seq<TableRef>, creates: TableRef -> Option<string>)
    ensures Recreated(d, tables, creates).Some?
       <==> forall i :: 0 <= i < |tables| ==>
              creates(TableRef(V.DefaultSchema(tables[i].schema, d.schema), tables[i].name)).Some?
    ensures Recreated(d, tables, creates).Some? ==>
              |Recreated(d, tables, creates).value| == |tables|
              && forall i :: 0 <= i < |tables| ==>
                   var t := TableRef(V.DefaultSchema(tables[i].schema, d.schema), tables[i].name);
                   creates(t).Some?
                   && Recreated(d, tables, creates).value[i] == Item(t.schema, t.name, Recreate(creates(t).value))
  {
    if tables != [] {
      RecreatedIs(d, tables[1..], creates);
      assert forall i :: 1 <= i < |tables| ==> tables[i] == tables[1..][i - 1];
    }
  }

  /** A rollback can be prepared, if the server answers, for exactly the statements that are not refused outright;
      only DROP TABLE asks the server. */
  lemma PreparedExists(d: V.DDL, creates: TableRef -> Option<string>)
    ensures Prepared(d, creates).Some?
       <==> !Irreversible(d)
            && (d.action.DropTable? ==>
                forall i :: 0 <= i < |d.tables| ==>
                  creates(TableRef(V.DefaultSchema(d.tables[i].schema, d.schema), d.tables[i].name)).Some?)
  {
    if d.action.DropTable? {
      RecreatedIs(d, d.tables, creates);
    } else if d.action.AlterTable? {
      RollbackExists(d.ops);
    }
  }

  lemma {:induction false} RollbackUndoes(ops: seq<AlterOp>)
    requires Rollback(ops).Some?
    ensures forall op :: op in Rollback(ops).value ==> Undoing(op)
  {
    if ops != [] {
      RollbackUndoes(ops[1..]);
      InverseIsUndoing(ops[0]);
      forall op | op in Rollback(ops).value ensures Undoing(op) {
        var undo: seq<AlterOp> := AlterUndo.Inverse(ops[0]);
        if op in undo {
          var k :| 0 <= k < |undo| && undo[k] == op;
        }
      }
    }
  }

  /** Every record other than those from SHOW CREATE TABLE reads back as the undo that was meant. */
  lemma PreparedReads(d: V.DDL, creates: TableRef -> Option<string>, k: nat)
    requires Prepared(d, creates).Some? && k < |Prepared(d, creates).value|
    ensures var i := Prepared(d, creates).value[k];
            Writes(i.undo) && Written(i).sql == UndoText(i.undo)
            && (!d.action.DropTable? ==> ReadUndo(Written(i).sql) == Got(i.undo, []))
            && (d.action.DropTable? ==> i.undo.Recreate? && Written(i).sql == i.undo.sql + ";")
  {
    var i := Prepared(d, creates).value[k];
    if d.action.DropTable? {
      RecreatedIs(d, d.tables, creates);
    } else {
      if d.action.AlterTable? {
        RollbackUndoes(d.ops);
        assert Rollback(d.ops).value[k] in Rollback(d.ops).value;
      }
      ReadsUndo(i.undo);
    }
  }

  // ---------------------------------------------------------------- the loops of the source

  function NameText(schema: string, table: string): string { Qualified(TableRef(schema, table)) }

  function ItemOf(d: V.DDL, op: AlterOp): Item { Item(d.schema, d.table, AlterBack(TableRef(d.schema, d.table), op)) }

  method AlterRecord(d: V.DDL, op: AlterOp) returns (r: B.Rollback)
    requires Undoing(op)
    ensures r == Written(ItemOf(d, op))
  {
    var change;
    match op {
      case DropColumn(name) => change := " DROP COLUMN " + QuoteIdent(name) + ";";
      case DropIndex(name) => change := " DROP INDEX " + QuoteIdent(name) + ";";
      case RenameColumn(name, newName) =>
        change := " RENAME COLUMN " + QuoteIdent(name) + " TO " + QuoteIdent(newName) + ";";
    }
    return B.Rollback(d.schema, d.table, "ALTER TABLE " + NameText(d.schema, d.table) + change);
  }

  /** The record of each statement of a rollback. */
  function RecordOf(d: V.DDL): AlterOp -> B.Rollback { (op: AlterOp) => Written(ItemOf(d, op)) }

  lemma AlterItems(d: V.DDL, creates: TableRef -> Option<string>)
    requires d.action.AlterTable?
    ensures PreparedRecords(d, creates)
         == match Rollback(d.ops) case None => None case Some(ops) => Some(Map(RecordOf(d), ops))
  {
    if Rollback(d.ops).Some? {
      assert Map(Written, Prepared(d, creates).value) == Map(RecordOf(d), Rollback(d.ops).value);
    }
  }

  method RecordsOfOps(d: V.DDL, ops: seq<AlterOp>, ghost f: AlterOp -> B.Rollback) returns (out: seq<B.Rollback>)
    requires f == RecordOf(d) && forall i :: 0 <= i < |ops| ==> Undoing(ops[i])
    ensures out == Map(f, ops)
  {
    out := [];
    for i := 0 to |ops|
      invariant out == Map(f, ops[..i])
    {
      var one := AlterRecord(d, ops[i]);
      out := out + [one];
      assert ops[..i + 1] == ops[..i] + [ops[i]];
    }
    assert ops[..|ops|] == ops;
  }

  /** The statements of an ALTER, one after another. */
  method AlterRecords(d: V.DDL, ghost creates: TableRef -> Option<string>) returns (r: Option<seq<B.Rollback>>)
    requires d.action.AlterTable?
    ensures r == PreparedRecords(d, creates)
  {
    AlterItems(d, creates);
    var undos := PrepareRollback(d.ops);
    if undos.None? {
      return None;
    }
    RollbackUndoes(d.ops);
    assert forall i :: 0 <= i < |undos.value| ==> undos.value[i] in undos.value;
    var out := RecordsOfOps(d, undos.value, RecordOf(d));
    return Some(out);
  }

  /** The tables of a DROP TABLE, as SHOW CREATE TABLE gives them. */
  method DropRecords(d: V.DDL, creates: TableRef -> Option<string>) returns (r: Option<seq<B.Rollback>>)
    requires d.action.DropTable?
    ensures r == PreparedRecords(d, creates)
  {
    RecreatedIs(d, d.tables, creates);
    var out: seq<B.Rollback> := [];
    for i := 0 to |d.tables|
      invariant |out| == i
      invariant forall j :: 0 <= j < i ==>
          var t := TableRef(V.DefaultSchema(d.tables[j].schema, d.schema), d.tables[j].name);
          creates(t).Some? && out[j] == Written(Item(t.schema, t.name, Recreate(creates(t).value)))
    {
      var schema := d.tables[i].schema;
      if schema == "" {
        schema := d.schema;
      }
      var create := creates(TableRef(schema, d.tables[i].name));
      if create.None? {
        return None;
      }
      out := out + [B.Rollback(schema, d.tables[i].name, create.value + ";")];
    }
    assert out == Map(Written, Prepared(d, creates).value);
    return Some(out);
  }

  method RenameRecords(d: V.DDL, ghost creates: TableRef -> Option<string>) returns (out: seq<B.Rollback>)
    requires d.action.RenameTable?
    ensures Some(out) == PreparedRecords(d, creates)
  {
    out := [];
    for i := 0 to |d.pairs|
      invariant |out| == i
      invariant forall j :: 0 <= j < i ==>
          out[j] == Written(Item(d.pairs[j].to.schema, d.pairs[j].to.name, RenameBack(d.pairs[j].to, d.pairs[j].from)))
    {
      var p := d.pairs[i];
      var text := "RENAME TABLE " + NameText(p.to.schema, p.to.name) + " TO " + NameText(p.from.schema, p.from.name)
          + ";";
      out := out + [B.Rollback(p.to.schema, p.to.name, text)];
    }
    assert out == Map(Written, Prepared(d, creates).value);
  }

  lemma OneRecord(i: Item)
    ensures Map(Written, [i]) == [Written(i)]
  {
  }

  method PrepareDDLRollback(d: V.DDL, creates: TableRef -> Option<string>) returns (r: Option<seq<B.Rollback>>)
    ensures r == PreparedRecords(d, creates)
  {
    match d.action {
      case CreateDatabase =>
        OneRecord(Item(d.schema, "database", DropDatabase(d.schema)));
        return Some([B.Rollback(d.schema, "database", "DROP DATABASE " + QuoteIdent(d.schema) + ";")]);
      case CreateTable =>
        OneRecord(Item(d.schema, d.table, DropTable(TableRef(d.schema, d.table))));
        return Some([B.Rollback(d.schema, d.table, "DROP TABLE " + NameText(d.schema, d.table) + ";")]);
      case DropTable => r := DropRecords(d, creates);
      case RenameTable =>
        var out := RenameRecords(d, creates);
        return Some(out);
      case CreateIndex =>
        if d.indexes == [] {
          return None;
        }
        OneRecord(Item(d.schema, d.table, DropIndexOn(d.indexes[0].name, TableRef(d.schema, d.table))));
        var text := "DROP INDEX " + QuoteIdent(d.indexes[0].name) + " ON " + NameText(d.schema, d.table) + ";";
        return Some([B.Rollback(d.schema, d.table, text)]);
      case AlterTable => r := AlterRecords(d, creates);
      case _ => return None;
    }
  }
}
