/** From a batch of captured changes, through the stored text, back to the initial database.

    Each statement of a batch is saved as one operation. To undo the batch the operations are
    taken last first; the backup databases of one operation in any order; the statements of one
    backup database by descending id (testcases/phase5-6/protocol_smoke.py). */
module EndToEnd {
  import opened Catalog
  import opened Statements
  import opened Generator
  import opened Rows
  import opened Seqs
  import opened Restore
  import opened Store

  /** One executed statement: its operation and the row changes captured for it. */
  datatype Executed = Executed(op: Operation, changes: seq<RowChange>)

  function TextOf(cs: Charset, c: RowChange): string {
    match UndoText(cs, c) case Some(t) => t case None => ""
  }

  function TextFn(cs: Charset): RowChange -> string { (c: RowChange) => TextOf(cs, c) }

  function RecordFn(cs: Charset): RowChange -> Rollback {
    (c: RowChange) => Rollback(c.table.schema, c.table.name, TextOf(cs, c))
  }

  ghost predicate Good(cs: Charset, c: RowChange) {
    Undo(cs, c).Some? && WritableChange(cs, c) && c.table.name != ""
  }

  /** The operation carries the generated undo of every change, in the order of capture. */
  ghost predicate Recorded(cs: Charset, e: Executed) {
    Undoable(cs, e.changes) && e.op.rollbacks == Map(RecordFn(cs), e.changes)
  }

  /** The same, with values that can be written and tables that have names. */
  ghost predicate Carries(cs: Charset, e: Executed) {
    Recorded(cs, e) && forall i :: 0 <= i < |e.changes| ==> Good(cs, e.changes[i])
  }

  /** The loop in Engine.Execute that turns captured changes into rollback records. */
  method CollectRollbacks(cs: Charset, changes: seq<RowChange>) returns (r: Option<seq<Rollback>>)
    ensures r.Some? <==> Undoable(cs, changes)
    ensures r.Some? ==> r.value == Map(RecordFn(cs), changes)
  {
    var out: seq<Rollback> := [];
    for i := 0 to |changes|
      invariant |out| == i && Undoable(cs, changes[..i]) && out == Map(RecordFn(cs), changes[..i])
    {
      assert changes[..i + 1] == changes[..i] + [changes[i]];
      var text := Generate(cs, changes[i]);
      if text.None? {
        assert Undo(cs, changes[i]).None?;
        return None;
      }
      out := out + [Rollback(changes[i].table.schema, changes[i].table.name, text.value)];
    }
    assert changes[..|changes|] == changes;
    return Some(out);
  }

  // ---------------------------------------------------------------- one operation

  function InDb(source: Source, db: string): RowChange -> bool {
    (c: RowChange) => BackupName(source, c.table.schema) == db
  }

  /** The changes whose undos went to one backup database, last first. */
  function Backward(source: Source, changes: seq<RowChange>, db: string): seq<RowChange> {
    Reverse(Filter(InDb(source, db), changes))
  }

  lemma TextIsThere(cs: Charset, c: RowChange)
    requires Undo(cs, c).Some?
    ensures TextOf(cs, c) != ""
  {
    var s := Undo(cs, c).value;
    assert Render(s)[|Render(s)| - 1] == ';';
  }

  /** The records of one backup database are those of its changes, and all of them hold text. */
  lemma GroupIsItsChanges(cs: Charset, source: Source, changes: seq<RowChange>, db: string)
    requires forall i :: 0 <= i < |changes| ==> Good(cs, changes[i])
    ensures Group(source, Map(RecordFn(cs), changes), db) == Map(RecordFn(cs), Filter(InDb(source, db), changes))
    ensures forall c :: c in Filter(InDb(source, db), changes) ==> Good(cs, c)
  {
    FilterMap(GoesTo(source, db), InDb(source, db), RecordFn(cs), changes);
    FilterMembers(InDb(source, db), changes);
  }

  lemma RecordsHaveText(cs: Charset, changes: seq<RowChange>)
    requires forall c :: c in changes ==> Good(cs, c)
    ensures Filter(HasText(), Map(RecordFn(cs), changes)) == Map(RecordFn(cs), changes)
    ensures Map((r: Rollback) => r.sql, Map(RecordFn(cs), changes)) == Map(TextFn(cs), changes)
  {
    var records := Map(RecordFn(cs), changes);
    forall i | 0 <= i < |records| ensures HasText()(records[i]) {
      assert changes[i] in changes;
      TextIsThere(cs, changes[i]);
    }
    FilterAll(HasText(), records);
  }

  /** What one backup database gives back for a group of records. */
  lemma RecordsReadBack(cs: Charset, opid: string, changes: seq<RowChange>, b: BackupDb)
    requires changes != [] && (forall c :: c in changes ==> Good(cs, c)) && NoRows(b, opid)
    requires SaveGroup(b, opid, Map(RecordFn(cs), changes)).Some?
    ensures ReadBack(SaveGroup(b, opid, Map(RecordFn(cs), changes)).value, opid) == Map(TextFn(cs), Reverse(changes))
  {
    assert changes[0] in changes;
    RecordsHaveText(cs, changes);
    SavedReadsBack(b, opid, Map(RecordFn(cs), changes));
    ReverseMap(TextFn(cs), changes);
  }

  lemma PlaceholderReadsBack(op: Operation, b: BackupDb, db: string)
    requires op.rollbacks == [] && NoRows(b, op.opid)
    requires db in Databases(op.source, Records(op)) && SaveGroup(b, op.opid, Records(op)).Some?
    ensures ReadBack(SaveGroup(b, op.opid, Records(op)).value, op.opid) == []
  {
    var records := Records(op);
    assert records == [Rollback(op.schema, op.table, "")] && records[1..] == [];
    SavedReadsBack(b, op.opid, records);
  }

  /** What one backup database gives back for an operation. */
  lemma GroupReadsBack(cs: Charset, e: Executed, b: BackupDb, db: string)
    requires Carries(cs, e) && NoRows(b, e.op.opid) && db in Databases(e.op.source, Records(e.op))
    requires Group(e.op.source, Records(e.op), db) != []
    requires SaveGroup(b, e.op.opid, Group(e.op.source, Records(e.op), db)).Some?
    ensures ReadBack(SaveGroup(b, e.op.opid, Group(e.op.source, Records(e.op), db)).value, e.op.opid)
         == Map(TextFn(cs), Backward(e.op.source, e.changes, db))
  {
    if e.changes == [] {
      assert e.op.rollbacks == [];
      FilterAll(GoesTo(e.op.source, db), Records(e.op));
      PlaceholderReadsBack(e.op, b, db);
      assert Backward(e.op.source, e.changes, db) == [];
    } else {
      GroupIsItsChanges(cs, e.op.source, e.changes, db);
      RecordsReadBack(cs, e.op.opid, Filter(InDb(e.op.source, db), e.changes), b);
    }
  }

  /** An order in which to visit the backup databases of an operation: each exactly once. */
  ghost predicate Visits(order: seq<string>, op: Operation) {
    (forall i, j :: 0 <= i < j < |order| ==> order[i] != order[j])
    && forall db :: db in order <==> db in Databases(op.source, Records(op))
  }

  /** The changes in the order in which the visit undoes them. */
  function VisitOrder(source: Source, changes: seq<RowChange>, order: seq<string>): seq<RowChange> {
    if order == [] then [] else Backward(source, changes, order[0]) + VisitOrder(source, changes, order[1..])
  }

  /** The text read back on the visit. */
  function VisitScript(c: Contents, opid: string, order: seq<string>): seq<string> {
    if order == [] then [] else ReadBack(At(c, order[0]), opid) + VisitScript(c, opid, order[1..])
  }

  lemma {:induction false} ScriptIsVisit(cs: Charset, e: Executed, c: Contents, order: seq<string>)
    requires forall i :: 0 <= i < |order| ==>
               ReadBack(At(c, order[i]), e.op.opid) == Map(TextFn(cs), Backward(e.op.source, e.changes, order[i]))
    ensures VisitScript(c, e.op.opid, order) == Map(TextFn(cs), VisitOrder(e.op.source, e.changes, order))
  {
    if order != [] {
      forall i | 0 <= i < |order[1..]|
        ensures ReadBack(At(c, order[1..][i]), e.op.opid)
            == Map(TextFn(cs), Backward(e.op.source, e.changes, order[1..][i]))
      {
        assert order[1..][i] == order[i + 1];
      }
      ScriptIsVisit(cs, e, c, order[1..]);
      MapConcat(TextFn(cs), Backward(e.op.source, e.changes, order[0]), VisitOrder(e.op.source, e.changes, order[1..]));
    }
  }

  function OfTable(id: TableId): RowChange -> bool { (c: RowChange) => Subject(c) == id }

  lemma OfIsFilter(changes: seq<RowChange>, id: TableId)
    ensures Of(changes, id) == Filter(OfTable(id), changes)
  {
    if changes != [] {
      OfIsFilter(changes[1..], id);
    }
  }

  /** One backup database holds all of a table's undos, or none of them. */
  lemma BackwardOf(source: Source, changes: seq<RowChange>, db: string, id: TableId)
    ensures Filter(OfTable(id), Backward(source, changes, db))
         == if BackupName(source, id.0) == db then Reverse(Filter(OfTable(id), changes)) else []
  {
    FilterReverse(OfTable(id), Filter(InDb(source, db), changes));
    FilterFilter(OfTable(id), InDb(source, db), changes);
    assert Reverse<RowChange>([]) == [];
  }

  lemma {:induction false} VisitOf(source: Source, changes: seq<RowChange>, order: seq<string>, id: TableId)
    requires forall i, j :: 0 <= i < j < |order| ==> order[i] != order[j]
    ensures Filter(OfTable(id), VisitOrder(source, changes, order))
         == if BackupName(source, id.0) in order then Reverse(Filter(OfTable(id), changes)) else []
  {
    if order != [] {
      var db, rest := order[0], order[1..];
      BackwardOf(source, changes, db, id);
      FilterConcat(OfTable(id), Backward(source, changes, db), VisitOrder(source, changes, rest));
      VisitOf(source, changes, rest, id);
      FirstIsNew(order);
      assert order == [db] + rest;
    }
  }

  lemma FirstIsNew(order: seq<string>)
    requires order != [] && forall i, j :: 0 <= i < j < |order| ==> order[i] != order[j]
    ensures order[0] !in order[1..]
  {
    forall j | 0 <= j < |order[1..]| ensures order[1..][j] != order[0] {
      assert order[1..][j] == order[j + 1];
    }
  }

  /** Any visit takes every table's changes backwards. */
  lemma VisitIsBackwards(cs: Charset, e: Executed, order: seq<string>, id: TableId)
    requires Carries(cs, e) && Visits(order, e.op)
    ensures Filter(OfTable(id), VisitOrder(e.op.source, e.changes, order)) == Reverse(Filter(OfTable(id), e.changes))
  {
    VisitOf(e.op.source, e.changes, order, id);
    if BackupName(e.op.source, id.0) !in order {
      forall c | c in e.changes ensures Subject(c) != id {
        var i :| 0 <= i < |e.changes| && e.changes[i] == c;
        var r := e.op.rollbacks[i];
        assert r == RecordFn(cs)(c) && r in Records(e.op);
        assert BackupName(e.op.source, r.schema) in Databases(e.op.source, Records(e.op));
      }
      NoneOf(e.changes, id);
      OfIsFilter(e.changes, id);
      assert Reverse<RowChange>([]) == [];
    }
  }

  // ---------------------------------------------------------------- a batch

  function AllChanges(batch: seq<Executed>): seq<RowChange> {
    if batch == [] then [] else batch[0].changes + AllChanges(batch[1..])
  }

  /** The whole undo: the last operation first, each by its own visit. */
  function BatchOrder(batch: seq<Executed>, orders: seq<seq<string>>): seq<RowChange>
    requires |orders| == |batch|
  {
    if batch == [] then []
    else BatchOrder(batch[1..], orders[1..]) + VisitOrder(batch[0].op.source, batch[0].changes, orders[0])
  }

  function BatchScript(c: Contents, batch: seq<Executed>, orders: seq<seq<string>>): seq<string>
    requires |orders| == |batch|
  {
    if batch == [] then []
    else BatchScript(c, batch[1..], orders[1..]) + VisitScript(c, batch[0].op.opid, orders[0])
  }

  ghost predicate Ready(cs: Charset, batch: seq<Executed>, orders: seq<seq<string>>) {
    |orders| == |batch|
    && forall k :: 0 <= k < |batch| ==> Carries(cs, batch[k]) && Visits(orders[k], batch[k].op)
  }

  lemma ReadyTail(cs: Charset, batch: seq<Executed>, orders: seq<seq<string>>)
    requires Ready(cs, batch, orders) && batch != []
    ensures Ready(cs, batch[1..], orders[1..])
  {
    forall k | 0 <= k < |batch[1..]| ensures Carries(cs, batch[1..][k]) && Visits(orders[1..][k], batch[1..][k].op) {
      assert batch[1..][k] == batch[k + 1] && orders[1..][k] == orders[k + 1];
    }
  }

  lemma {:induction false} BatchIsBackwards(cs: Charset, batch: seq<Executed>, orders: seq<seq<string>>, id: TableId)
    requires Ready(cs, batch, orders)
    ensures Filter(OfTable(id), BatchOrder(batch, orders)) == Reverse(Filter(OfTable(id), AllChanges(batch)))
  {
    if batch == [] {
      assert Reverse<RowChange>([]) == [];
    } else {
      var e := batch[0];
      ReadyTail(cs, batch, orders);
      BatchIsBackwards(cs, batch[1..], orders[1..], id);
      VisitIsBackwards(cs, e, orders[0], id);
      FilterConcat(OfTable(id), BatchOrder(batch[1..], orders[1..]), VisitOrder(e.op.source, e.changes, orders[0]));
      FilterConcat(OfTable(id), e.changes, AllChanges(batch[1..]));
      ReverseConcat(Filter(OfTable(id), e.changes), Filter(OfTable(id), AllChanges(batch[1..])));
    }
  }

  /** The operations were saved one after another: `store[k]` before operation k, `store[k + 1]` after
      it. Their ids differ, and the store held no row of any of them. */
  ghost predicate SavedInTurn(batch: seq<Executed>, store: seq<Contents>) {
    |store| == |batch| + 1
    && (forall k, m :: 0 <= k < m < |batch| ==> batch[k].op.opid != batch[m].op.opid)
    && (forall k, db :: 0 <= k < |batch| ==> NoRows(At(store[0], db), batch[k].op.opid))
    && forall k {:trigger batch[k]} :: 0 <= k < |batch| ==> Saved(store[k], batch[k].op, store[k + 1])
  }

  lemma SavedIsLeft(c: Contents, op: Operation, c': Contents, db: string)
    requires Saved(c, op, c')
    ensures LeftIn(At(c, db), op.opid, GroupOf(op, db), At(c', db))
  {
  }

  lemma OneSaveKeeps(c: Contents, op: Operation, c': Contents, db: string, other: string)
    requires Saved(c, op, c') && other != op.opid
    ensures ReadBack(At(c', db), other) == ReadBack(At(c, db), other)
    ensures NoRows(At(c, db), other) ==> NoRows(At(c', db), other)
  {
    SavedIsLeft(c, op, c', db);
    OthersReadBack(At(c, db), op.opid, GroupOf(op, db), At(c', db), other);
    if NoRows(At(c, db), other) {
      LeftKeepsNoRows(At(c, db), op.opid, GroupOf(op, db), At(c', db), other);
    }
  }

  /** Before an operation is saved, the store holds no row of it. */
  lemma {:induction false} StaysNew(batch: seq<Executed>, store: seq<Contents>, k: nat, m: nat, db: string)
    requires SavedInTurn(batch, store) && k <= m < |batch|
    ensures NoRows(At(store[k], db), batch[m].op.opid)
    decreases k
  {
    if k > 0 {
      StaysNew(batch, store, k - 1, m, db);
      OneSaveKeeps(store[k - 1], batch[k - 1].op, store[k], db, batch[m].op.opid);
    }
  }

  /** Whatever is saved later, an operation reads back as it did when it was saved. */
  lemma {:induction false} StaysReadable(batch: seq<Executed>, store: seq<Contents>, k: nat, m: nat, db: string)
    requires SavedInTurn(batch, store) && k < m <= |batch|
    ensures ReadBack(At(store[m], db), batch[k].op.opid) == ReadBack(At(store[k + 1], db), batch[k].op.opid)
    decreases m
  {
    if m > k + 1 {
      StaysReadable(batch, store, k, m - 1, db);
      OneSaveKeeps(store[m - 1], batch[m - 1].op, store[m], db, batch[k].op.opid);
    }
  }

  /** What is read back at once. */
  lemma JustSaved(cs: Charset, e: Executed, c: Contents, c': Contents, db: string)
    requires Carries(cs, e) && Saved(c, e.op, c') && NoRows(At(c, db), e.op.opid)
    requires db in Databases(e.op.source, Records(e.op))
    ensures ReadBack(At(c', db), e.op.opid) == Map(TextFn(cs), Backward(e.op.source, e.changes, db))
  {
    GroupIsEmpty(e.op.source, Records(e.op), db);
    GroupReadsBack(cs, e, At(c, db), db);
  }

  lemma OperationReadsBack(cs: Charset, batch: seq<Executed>, store: seq<Contents>, k: nat, db: string)
    requires SavedInTurn(batch, store) && k < |batch| && Carries(cs, batch[k])
    requires db in Databases(batch[k].op.source, Records(batch[k].op))
    ensures ReadBack(At(store[|batch|], db), batch[k].op.opid)
         == Map(TextFn(cs), Backward(batch[k].op.source, batch[k].changes, db))
  {
    StaysNew(batch, store, k, k, db);
    JustSaved(cs, batch[k], store[k], store[k + 1], db);
    StaysReadable(batch, store, k, |batch|, db);
  }

  lemma {:induction false} ScriptIsOrder(cs: Charset, batch: seq<Executed>, orders: seq<seq<string>>,
                                         store: seq<Contents>, from: nat)
    requires SavedInTurn(batch, store) && Ready(cs, batch, orders) && from <= |batch|
    ensures BatchScript(store[|batch|], batch[from..], orders[from..])
        == Map(TextFn(cs), BatchOrder(batch[from..], orders[from..]))
    decreases |batch| - from
  {
    var c := store[|batch|];
    if from < |batch| {
      var e, order := batch[from], orders[from];
      ScriptIsOrder(cs, batch, orders, store, from + 1);
      assert batch[from..][1..] == batch[from + 1..] && orders[from..][1..] == orders[from + 1..];
      assert Carries(cs, e) && Visits(order, e.op);
      forall i | 0 <= i < |order|
        ensures ReadBack(At(c, order[i]), e.op.opid) == Map(TextFn(cs), Backward(e.op.source, e.changes, order[i]))
      {
        assert order[i] in order;
        OperationReadsBack(cs, batch, store, from, order[i]);
      }
      ScriptIsVisit(cs, e, c, order);
      MapConcat(TextFn(cs), BatchOrder(batch[from + 1..], orders[from + 1..]),
                VisitOrder(e.op.source, e.changes, order));
    }
  }

  // ---------------------------------------------------------------- reading the script

  /** What the texts say, one after another, if all of them can be read. */
  function ReadEach<T>(read: string -> Parsed<T>, texts: seq<string>): Option<seq<T>> {
    if texts == [] then Some([])
    else match (read(texts[0]), ReadEach(read, texts[1..]))
      case (Got(s, rest), Some(more)) => if rest == [] then Some([s] + more) else None
      case _ => None
  }

  /** The statements a script consists of. */
  function ReadScript(texts: seq<string>): Option<seq<Stmt>> { ReadEach(Parse, texts) }

  lemma {:induction false} EachReads<T>(read: string -> Parsed<T>, texts: seq<string>, values: seq<T>)
    requires |texts| == |values| && forall i :: 0 <= i < |texts| ==> read(texts[i]) == Got(values[i], [])
    ensures ReadEach(read, texts) == Some(values)
  {
    if texts != [] {
      forall i | 0 <= i < |texts[1..]| ensures read(texts[1..][i]) == Got(values[1..][i], []) {
        assert texts[1..][i] == texts[i + 1] && values[1..][i] == values[i + 1];
      }
      EachReads(read, texts[1..], values[1..]);
      assert values == [values[0]] + values[1..];
    }
  }

  lemma OrderReads(cs: Charset, order: seq<RowChange>)
    requires forall i :: 0 <= i < |order| ==> Undo(cs, order[i]).Some?
    requires forall i :: 0 <= i < |order| ==> WritableChange(cs, order[i])
    ensures ReadScript(Map(TextFn(cs), order)) == Some(Undos(cs, order))
  {
    var texts, stmts := Map(TextFn(cs), order), Undos(cs, order);
    forall i | 0 <= i < |order| ensures Parse(texts[i]) == Got(stmts[i], []) {
      UndoIsReadable(cs, order[i]);
    }
    EachReads(Parse, texts, stmts);
  }

  lemma {:induction false} AllGood(cs: Charset, batch: seq<Executed>)
    requires forall k :: 0 <= k < |batch| ==> Carries(cs, batch[k])
    ensures forall c :: c in AllChanges(batch) ==> Good(cs, c)
  {
    if batch != [] {
      forall k | 0 <= k < |batch[1..]| ensures Carries(cs, batch[1..][k]) {
        assert batch[1..][k] == batch[k + 1];
      }
      AllGood(cs, batch[1..]);
      assert Carries(cs, batch[0]);
    }
  }

  lemma InOrder(changes: seq<RowChange>, order: seq<RowChange>)
    requires BackwardsPerTable(changes, order)
    ensures forall c :: c in order ==> c in changes
  {
    ForwardPerTable(changes, order);
    SameMembers(changes, Reverse(order));
    ReverseMembers(order);
  }

  /** Running the stored text brings the database from `db` to `db'`. */
  ghost predicate RunText(rels: Schema, texts: seq<string>, db: Db, db': Db) {
    ReadScript(texts).Some? && DbRun(rels, ReadScript(texts).value, db, db')
  }

  /** The order of a batch undo satisfies all that restoring needs. */
  lemma OrderIsSound(cs: Charset, batch: seq<Executed>, orders: seq<seq<string>>)
    requires Ready(cs, batch, orders)
    ensures forall i :: 0 <= i < |BatchOrder(batch, orders)| ==>
              BatchOrder(batch, orders)[i] in AllChanges(batch) && Good(cs, BatchOrder(batch, orders)[i])
    ensures BackwardsPerTable(AllChanges(batch), BatchOrder(batch, orders))
  {
    var changes, order := AllChanges(batch), BatchOrder(batch, orders);
    forall id ensures Filter(OfTable(id), order) == Reverse(Filter(OfTable(id), changes)) {
      BatchIsBackwards(cs, batch, orders, id);
    }
    forall id ensures Of(order, id) == Reverse(Of(changes, id)) {
      OfIsFilter(order, id);
      OfIsFilter(changes, id);
    }
    InOrder(changes, order);
    AllGood(cs, batch);
  }

  /** For every batch whose operations were all saved: the text read back from the store, whatever the
      order of the backup databases, holds statements that take the database back step by step, along
      states that it would have gone through had the changes been made in that order, and can do nothing
      else, if and only if every change can be undone; it then leads to the initial database. If the undo
      of a change is refused, it leads nowhere. */
  lemma BatchUndoRestores(cs: Charset, rels: Schema, batch: seq<Executed>, states: seq<Db>, store: seq<Contents>,
                          orders: seq<seq<string>>, db': Db)
    returns (path: seq<Db>)
    requires DbHistory(cs, rels, AllChanges(batch), states)
    requires forall id :: id in rels ==> DistinctColumns(rels[id].meta.columns)
    requires SavedInTurn(batch, store) && Ready(cs, batch, orders)
    ensures DbHistory(cs, rels, Reverse(BatchOrder(batch, orders)), Reverse(path))
    ensures path[0] == states[|states| - 1] && path[|path| - 1] == states[0]
    ensures ReadScript(BatchScript(store[|batch|], batch, orders)).Some?
    ensures Follows(DbExecOn(rels), ReadScript(BatchScript(store[|batch|], batch, orders)).value, path)
       <==> AllRestorableIn(cs, rels, AllChanges(batch))
    ensures AllRestorableIn(cs, rels, AllChanges(batch)) ==>
        (RunText(rels, BatchScript(store[|batch|], batch, orders), states[|states| - 1], db') <==> db' == states[0])
    ensures SomeRefused(AllChanges(batch)) ==>
        !RunText(rels, BatchScript(store[|batch|], batch, orders), states[|states| - 1], db')
  {
    var order := BatchOrder(batch, orders);
    ScriptIsOrder(cs, batch, orders, store, 0);
    assert batch[0..] == batch && orders[0..] == orders;
    OrderIsSound(cs, batch, orders);
    OrderReads(cs, order);
    path := RestoresEveryTable(cs, rels, AllChanges(batch), states, order, db');
  }
}
