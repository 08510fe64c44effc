/** Many tables: the undos of a run of changes restore every table, in whatever order the tables
    are taken, as long as the undos of one table run backwards. */
module Restore {
  import opened Catalog
  import opened Statements
  import opened Generator
  import opened Rows
  import opened Seqs

  type TableId = (string, string)
  type Schema = map<TableId, Relation>
  type Db = map<TableId, set<Row>>

  function Touches(stmt: Stmt): TableId { (stmt.schema, stmt.table) }

  function Subject(c: RowChange): TableId { (c.table.schema, c.table.name) }

  ghost predicate DbExec(rels: Schema, stmt: Stmt, db: Db, db': Db) {
    var id := Touches(stmt);
    id in rels && id in db && exists rows :: Exec(rels[id], stmt, db[id], rows) && db' == db[id := rows]
  }

  ghost function DbExecOn(rels: Schema): (Stmt, Db, Db) -> bool {
    (stmt: Stmt, db: Db, db': Db) => DbExec(rels, stmt, db, db')
  }

  ghost predicate DbRun(rels: Schema, stmts: seq<Stmt>, db: Db, db': Db) { Runs(DbExecOn(rels), stmts, db, db') }

  /** The statements that act on one table. */
  function On(stmts: seq<Stmt>, id: TableId): seq<Stmt> {
    Filter((s: Stmt) => Touches(s) == id, stmts)
  }

  /** The changes of one table. */
  function Of(changes: seq<RowChange>, id: TableId): seq<RowChange> {
    Filter((c: RowChange) => Subject(c) == id, changes)
  }

  lemma OnFirst(stmts: seq<Stmt>, id: TableId)
    requires stmts != []
    ensures Touches(stmts[0]) == id ==> On(stmts, id) == [stmts[0]] + On(stmts[1..], id)
    ensures Touches(stmts[0]) != id ==> On(stmts, id) == On(stmts[1..], id)
  {
  }

  ghost predicate RunsEach(rels: Schema, stmts: seq<Stmt>, db: Db, db': Db)
    requires db.Keys == db'.Keys == rels.Keys
  {
    forall id :: id in rels ==> RunAll(rels[id], On(stmts, id), db[id], db'[id])
  }

  /** Running a script on the database is running, table by table, the statements of that table. */
  lemma {:induction false} RunByTable(rels: Schema, stmts: seq<Stmt>, db: Db, db': Db)
    requires db.Keys == db'.Keys == rels.Keys
    requires forall i :: 0 <= i < |stmts| ==> Touches(stmts[i]) in rels
    ensures DbRun(rels, stmts, db, db') <==> RunsEach(rels, stmts, db, db')
    decreases |stmts|
  {
    if stmts == [] {
      assert db == db' <==> forall id :: id in rels ==> db[id] == db'[id];
    } else {
      if DbRun(rels, stmts, db, db') {
        var m :| DbExec(rels, stmts[0], db, m) && DbRun(rels, stmts[1..], m, db');
        RunByTable(rels, stmts[1..], m, db');
        RunsFirst(rels, stmts, db, m, db');
      }
      if RunsEach(rels, stmts, db, db') {
        var m := RunsSplit(rels, stmts, db, db');
        RunByTable(rels, stmts[1..], m, db');
      }
    }
  }

  lemma RunsFirst(rels: Schema, stmts: seq<Stmt>, db: Db, m: Db, db': Db)
    requires db.Keys == m.Keys == db'.Keys == rels.Keys && stmts != []
    requires DbExec(rels, stmts[0], db, m) && RunsEach(rels, stmts[1..], m, db')
    ensures RunsEach(rels, stmts, db, db')
  {
    forall id | id in rels ensures RunAll(rels[id], On(stmts, id), db[id], db'[id]) {
      OnFirst(stmts, id);
      assert RunAll(rels[id], On(stmts[1..], id), m[id], db'[id]);
      if Touches(stmts[0]) == id {
        assert On(stmts, id)[1..] == On(stmts[1..], id);
        assert Exec(rels[id], On(stmts, id)[0], db[id], m[id]);
      }
    }
  }

  lemma RunsSplit(rels: Schema, stmts: seq<Stmt>, db: Db, db': Db) returns (m: Db)
    requires db.Keys == db'.Keys == rels.Keys && stmts != [] && Touches(stmts[0]) in rels
    requires RunsEach(rels, stmts, db, db')
    ensures m.Keys == rels.Keys && DbExec(rels, stmts[0], db, m) && RunsEach(rels, stmts[1..], m, db')
  {
    var id0 := Touches(stmts[0]);
    OnFirst(stmts, id0);
    assert RunAll(rels[id0], On(stmts, id0), db[id0], db'[id0]);
    assert On(stmts, id0)[0] == stmts[0] && On(stmts, id0)[1..] == On(stmts[1..], id0);
    var rows :| Exec(rels[id0], stmts[0], db[id0], rows) && RunAll(rels[id0], On(stmts[1..], id0), rows, db'[id0]);
    m := db[id0 := rows];
    forall id | id in rels ensures RunAll(rels[id], On(stmts[1..], id), m[id], db'[id]) {
      OnFirst(stmts, id);
      assert RunAll(rels[id], On(stmts, id), db[id], db'[id]);
    }
  }

  // ---------------------------------------------------------------- a run over many tables

  /** One captured change, applied to its own table. */
  ghost predicate DbChanged(cs: Charset, rels: Schema, c: RowChange, db: Db, db': Db) {
    var id := Subject(c);
    id in rels && id in db && exists rows :: Changed(cs, rels[id], c, db[id], rows) && db' == db[id := rows]
  }

  ghost predicate DbSettled(rels: Schema, db: Db) {
    db.Keys == rels.Keys && forall id :: id in rels ==> Settled(rels[id], db[id])
  }

  /** `states` is the history of the database while `changes` happened. */
  ghost predicate DbHistory(cs: Charset, rels: Schema, changes: seq<RowChange>, states: seq<Db>) {
    |states| == |changes| + 1
    && (forall i :: 0 <= i < |states| ==> DbSettled(rels, states[i]))
    && (forall i {:trigger changes[i]} :: 0 <= i < |changes| ==>
        DbChanged(cs, rels, changes[i], states[i], states[i + 1]))
  }

  lemma ChangeSeen(cs: Charset, rels: Schema, c: RowChange, db: Db, db': Db, id: TableId)
    requires DbChanged(cs, rels, c, db, db') && id in db && id in rels
    ensures id in db' && if Subject(c) == id then Changed(cs, rels[id], c, db[id], db'[id]) else db'[id] == db[id]
  {
  }

  /** What one table saw of the run. */
  lemma TableHistory(cs: Charset, rels: Schema, changes: seq<RowChange>, states: seq<Db>, id: TableId)
    returns (seen: seq<set<Row>>)
    requires DbHistory(cs, rels, changes, states) && id in rels
    ensures id in states[0] && id in states[|changes|]
    ensures History(cs, rels[id], Of(changes, id), seen)
    ensures seen[0] == states[0][id] && seen[|seen| - 1] == states[|changes|][id]
  {
    assert DbSettled(rels, states[0]) && DbSettled(rels, states[|changes|]);
    var rel := rels[id];
    var see := (db: Db) => if id in db then db[id] else {};
    var sound := (db: Db) => DbSettled(rels, db);
    var step := (c: RowChange, db: Db, db': Db) => DbChanged(cs, rels, c, db, db');
    var soundT := (s: set<Row>) => Settled(rel, s);
    var stepT := (c: RowChange, s: set<Row>, t: set<Row>) => Changed(cs, rel, c, s, t);
    var mine := (c: RowChange) => Subject(c) == id;
    forall c, db, db' | step(c, db, db') && sound(db)
      ensures mine(c) ==> stepT(c, see(db), see(db'))
      ensures !mine(c) ==> see(db') == see(db)
    {
      ChangeSeen(cs, rels, c, db, db', id);
    }
    seen := ProjectChain(sound, step, see, mine, soundT, stepT, changes, states);
    assert Of(changes, id) == Filter(mine, changes);
  }

  // ---------------------------------------------------------------- the theorem

  ghost predicate Undoable(cs: Charset, changes: seq<RowChange>) {
    forall i :: 0 <= i < |changes| ==> Undo(cs, changes[i]).Some?
  }

  function Undos(cs: Charset, changes: seq<RowChange>): (r: seq<Stmt>)
    requires forall i :: 0 <= i < |changes| ==> Undo(cs, changes[i]).Some?
    ensures |r| == |changes|
  {
    seq(|changes|, i requires 0 <= i < |changes| => Undo(cs, changes[i]).value)
  }

  lemma UndoKeepsTheTable(cs: Charset, c: RowChange)
    requires Undo(cs, c).Some?
    ensures Touches(Undo(cs, c).value) == Subject(c)
  {
  }

  /** `order` takes the changes of every table backwards; different tables may mix freely. */
  ghost predicate BackwardsPerTable(changes: seq<RowChange>, order: seq<RowChange>) {
    forall id :: Of(order, id) == Reverse(Of(changes, id))
  }

  lemma {:induction false} NoneOf(changes: seq<RowChange>, id: TableId)
    requires forall c :: c in changes ==> Subject(c) != id
    ensures Of(changes, id) == []
  {
    if changes != [] {
      NoneOf(changes[1..], id);
    }
  }

  lemma ItsOwnTable(cs: Charset, rels: Schema, changes: seq<RowChange>, states: seq<Db>)
    requires DbHistory(cs, rels, changes, states)
    ensures forall c :: c in changes ==> Subject(c) in rels && rels[Subject(c)].meta == c.table
  {
    forall c | c in changes ensures Subject(c) in rels && rels[Subject(c)].meta == c.table {
      var i :| 0 <= i < |changes| && changes[i] == c;
      assert DbChanged(cs, rels, changes[i], states[i], states[i + 1]);
    }
  }

  lemma SameMembers(changes: seq<RowChange>, others: seq<RowChange>)
    requires forall id :: Of(others, id) == Of(changes, id)
    ensures forall c :: c in others <==> c in changes
  {
    forall c ensures c in others <==> c in changes {
      FilterMembers((d: RowChange) => Subject(d) == Subject(c), others);
      FilterMembers((d: RowChange) => Subject(d) == Subject(c), changes);
      assert c in Of(others, Subject(c)) <==> c in others;
      assert c in Of(changes, Subject(c)) <==> c in changes;
    }
  }

  /** What table `id` saw of the run. */
  ghost predicate SeenBy(cs: Charset, rels: Schema, changes: seq<RowChange>, states: seq<Db>, id: TableId,
                         seen: seq<set<Row>>)
    requires |states| == |changes| + 1 && id in rels
  {
    History(cs, rels[id], Of(changes, id), seen) && Spans(changes, states, id, seen)
  }

  /** It begins and ends with the run. */
  ghost predicate Spans(changes: seq<RowChange>, states: seq<Db>, id: TableId, seen: seq<set<Row>>)
    requires |states| == |changes| + 1
  {
    |seen| == |Of(changes, id)| + 1 && id in states[0] && id in states[|changes|]
    && seen[0] == states[0][id] && seen[|seen| - 1] == states[|changes|][id]
  }

  lemma SeenByOne(cs: Charset, rels: Schema, changes: seq<RowChange>, states: seq<Db>, id: TableId)
    requires DbHistory(cs, rels, changes, states) && id in rels
    ensures exists seen :: SeenBy(cs, rels, changes, states, id, seen)
  {
    var seen := TableHistory(cs, rels, changes, states, id);
    assert SeenBy(cs, rels, changes, states, id, seen);
  }

  lemma EveryTableSees(cs: Charset, rels: Schema, changes: seq<RowChange>, states: seq<Db>)
    returns (sight: map<TableId, seq<set<Row>>>)
    requires DbHistory(cs, rels, changes, states)
    ensures sight.Keys == rels.Keys
    ensures forall id :: id in rels ==> History(cs, rels[id], Of(changes, id), sight[id])
    ensures forall id :: id in rels ==> Spans(changes, states, id, sight[id])
  {
    var p := (id: TableId, seen: seq<set<Row>>) => id in rels && SeenBy(cs, rels, changes, states, id, seen);
    forall id | id in rels.Keys ensures exists seen :: p(id, seen) {
      SeenByOne(cs, rels, changes, states, id);
      var seen :| SeenBy(cs, rels, changes, states, id, seen);
      assert p(id, seen);
    }
    sight := ChooseEach(rels.Keys, p);
    forall id | id in rels
      ensures History(cs, rels[id], Of(changes, id), sight[id])
      ensures Spans(changes, states, id, sight[id])
    {
      assert p(id, sight[id]);
    }
  }

  lemma OfOneMore(changes: seq<RowChange>, k: nat, id: TableId)
    requires k < |changes|
    ensures Of(changes[..k + 1], id) == Of(changes[..k], id) + if Subject(changes[k]) == id then [changes[k]] else []
    ensures Of(changes[..k + 1], id) <= Of(changes, id)
  {
    var mine := (c: RowChange) => Subject(c) == id;
    assert changes[..k + 1] == changes[..k] + [changes[k]] && changes == changes[..k + 1] + changes[k + 1..];
    FilterConcat(mine, changes[..k], [changes[k]]);
    FilterConcat(mine, changes[..k + 1], changes[k + 1..]);
    assert [changes[k]][1..] == [];
  }

  /** How much of the changes of a table is among the first k. */
  function Done(changes: seq<RowChange>, k: nat, id: TableId): nat
    requires k <= |changes|
  {
    |Of(changes[..k], id)|
  }

  /** The database in which every table has seen its first changes up to place k of `others`. */
  function Mixed(sight: map<TableId, seq<set<Row>>>, others: seq<RowChange>, k: nat): Db
    requires k <= |others|
  {
    map id | id in sight :: var n := Done(others, k, id); if n < |sight[id]| then sight[id][n] else {}
  }

  lemma MixedEnds(ids: set<TableId>, changes: seq<RowChange>, states: seq<Db>,
                  sight: map<TableId, seq<set<Row>>>, others: seq<RowChange>)
    requires |states| == |changes| + 1 && sight.Keys == ids == states[0].Keys == states[|changes|].Keys
    requires forall id :: id in ids ==> Spans(changes, states, id, sight[id])
    requires forall id :: Of(others, id) == Of(changes, id)
    ensures Mixed(sight, others, 0) == states[0] && Mixed(sight, others, |others|) == states[|changes|]
  {
    assert others[..|others|] == others && others[..0] == [];
    forall id | id in ids
      ensures Mixed(sight, others, 0)[id] == states[0][id]
      ensures Mixed(sight, others, |others|)[id] == states[|changes|][id]
    {
      assert Spans(changes, states, id, sight[id]);
    }
  }

  lemma HistoryAt(cs: Charset, rel: Relation, changes: seq<RowChange>, states: seq<set<Row>>, n: nat)
    requires History(cs, rel, changes, states) && n < |states|
    ensures Settled(rel, states[n])
    ensures n < |changes| ==> Changed(cs, rel, changes[n], states[n], states[n + 1])
  {
  }

  lemma DoneWithin(others: seq<RowChange>, k: nat, id: TableId)
    requires k <= |others|
    ensures Done(others, k, id) <= |Of(others, id)|
  {
    if k < |others| {
      OfOneMore(others, k, id);
    } else {
      assert others[..k] == others;
    }
  }

  lemma MixedSettled(cs: Charset, rels: Schema, sight: map<TableId, seq<set<Row>>>, others: seq<RowChange>, k: nat)
    requires sight.Keys == rels.Keys && k <= |others|
    requires forall id :: id in rels ==> History(cs, rels[id], Of(others, id), sight[id])
    ensures DbSettled(rels, Mixed(sight, others, k))
  {
    forall id | id in rels ensures Settled(rels[id], Mixed(sight, others, k)[id]) {
      DoneWithin(others, k, id);
      assert |sight[id]| == |Of(others, id)| + 1;
      HistoryAt(cs, rels[id], Of(others, id), sight[id], Done(others, k, id));
    }
  }

  lemma MixedFrame(sight: map<TableId, seq<set<Row>>>, others: seq<RowChange>, k: nat)
    requires k < |others| && Subject(others[k]) in sight
    ensures var before, after, id := Mixed(sight, others, k), Mixed(sight, others, k + 1), Subject(others[k]);
            after == before[id := after[id]]
  {
    var before, after, id := Mixed(sight, others, k), Mixed(sight, others, k + 1), Subject(others[k]);
    forall other | other in sight && other != id ensures after[other] == before[other] {
      OfOneMore(others, k, other);
    }
  }

  /** The change at place k is the next one of its table. */
  lemma NextOf(others: seq<RowChange>, k: nat)
    requires k < |others|
    ensures var id := Subject(others[k]);
            var n := Done(others, k, id);
            n < |Of(others, id)| && Of(others, id)[n] == others[k] && Done(others, k + 1, id) == n + 1
  {
    var id := Subject(others[k]);
    OfOneMore(others, k, id);
    var n := Done(others, k, id);
    assert Of(others[..k + 1], id)[n] == others[k];
  }

  /** One change leads from one mixture to the next. */
  lemma MixedStep(cs: Charset, rels: Schema, sight: map<TableId, seq<set<Row>>>, others: seq<RowChange>, k: nat)
    requires sight.Keys == rels.Keys && k < |others| && Subject(others[k]) in rels
    requires History(cs, rels[Subject(others[k])], Of(others, Subject(others[k])), sight[Subject(others[k])])
    ensures DbChanged(cs, rels, others[k], Mixed(sight, others, k), Mixed(sight, others, k + 1))
  {
    var before, after, id := Mixed(sight, others, k), Mixed(sight, others, k + 1), Subject(others[k]);
    var n, mine, seen := Done(others, k, id), Of(others, id), sight[id];
    NextOf(others, k);
    HistoryAt(cs, rels[id], mine, seen, n);
    assert before[id] == seen[n] && after[id] == seen[n + 1];
    MixedFrame(sight, others, k);
  }

  lemma SettledKeys(cs: Charset, rels: Schema, changes: seq<RowChange>, states: seq<Db>)
    requires DbHistory(cs, rels, changes, states)
    ensures states[0].Keys == states[|changes|].Keys == rels.Keys
  {
    assert DbSettled(rels, states[0]) && DbSettled(rels, states[|changes|]);
  }

  function MixedPath(sight: map<TableId, seq<set<Row>>>, others: seq<RowChange>): (path: seq<Db>)
    ensures |path| == |others| + 1
  {
    seq(|others| + 1, k requires 0 <= k <= |others| => Mixed(sight, others, k))
  }

  lemma MixedHistory(cs: Charset, rels: Schema, sight: map<TableId, seq<set<Row>>>, others: seq<RowChange>)
    requires sight.Keys == rels.Keys && forall c :: c in others ==> Subject(c) in rels
    requires forall id :: id in rels ==> History(cs, rels[id], Of(others, id), sight[id])
    ensures DbHistory(cs, rels, others, MixedPath(sight, others))
  {
    var path := MixedPath(sight, others);
    forall k | 0 <= k < |path| ensures DbSettled(rels, path[k]) {
      MixedSettled(cs, rels, sight, others, k);
    }
    forall k {:trigger others[k]} | 0 <= k < |others| ensures DbChanged(cs, rels, others[k], path[k], path[k + 1]) {
      assert others[k] in others;
      MixedStep(cs, rels, sight, others, k);
    }
  }

  /** The changes of a run may be taken in any other order that keeps the order in each table: then, too,
      they lead from the first database to the last. */
  lemma Reordered(cs: Charset, rels: Schema, changes: seq<RowChange>, states: seq<Db>, others: seq<RowChange>)
    returns (path: seq<Db>)
    requires DbHistory(cs, rels, changes, states)
    requires forall id :: Of(others, id) == Of(changes, id)
    ensures DbHistory(cs, rels, others, path) && path[0] == states[0] && path[|others|] == states[|changes|]
  {
    var sight := EveryTableSees(cs, rels, changes, states);
    path := MixedPath(sight, others);
    SettledKeys(cs, rels, changes, states);
    SameMembers(changes, others);
    ItsOwnTable(cs, rels, changes, states);
    forall id | id in rels ensures History(cs, rels[id], Of(others, id), sight[id]) {
      assert Of(others, id) == Of(changes, id);
    }
    MixedHistory(cs, rels, sight, others);
    MixedEnds(rels.Keys, changes, states, sight, others);
  }

  // ---------------------------------------------------------------- undoing it

  lemma ExecInItsTable(rels: Schema, stmt: Stmt, from: Db, to: Db)
    requires Touches(stmt) in rels && Touches(stmt) in from && Touches(stmt) in to
    ensures DbExec(rels, stmt, from, to)
       <==> Exec(rels[Touches(stmt)], stmt, from[Touches(stmt)], to[Touches(stmt)])
            && to == from[Touches(stmt) := to[Touches(stmt)]]
  {
  }

  /** A statement leads on in the database as it does in its table. */
  lemma LeadsInItsTable(rels: Schema, stmt: Stmt, from: Db, to: Db, good: bool)
    requires Touches(stmt) in rels && Touches(stmt) in from && Touches(stmt) in to
    requires to == from[Touches(stmt) := to[Touches(stmt)]]
    requires Leads(ExecOn(rels[Touches(stmt)]), stmt, from[Touches(stmt)], to[Touches(stmt)], good)
    ensures Leads(DbExecOn(rels), stmt, from, to, good)
  {
    var id := Touches(stmt);
    ExecInItsTable(rels, stmt, from, to);
    if good {
      forall u: Db ensures DbExec(rels, stmt, from, u) <==> u == to {
        if DbExec(rels, stmt, from, u) {
          ExecInItsTable(rels, stmt, from, u);
          assert ExecOn(rels[id])(stmt, from[id], u[id]);
        }
        assert ExecOn(rels[id])(stmt, from[id], to[id]);
      }
    } else {
      assert !ExecOn(rels[id])(stmt, from[id], to[id]);
    }
  }

  lemma DbUndoLeads(cs: Charset, rels: Schema, c: RowChange, db: Db, db': Db)
    requires DbChanged(cs, rels, c, db, db') && DbSettled(rels, db) && DbSettled(rels, db')
    requires DistinctColumns(rels[Subject(c)].meta.columns) && Undo(cs, c).Some?
    ensures Leads(DbExecOn(rels), Undo(cs, c).value, db', db, Restorable(cs, rels[Subject(c)], c))
  {
    var stmt, id := Undo(cs, c).value, Subject(c);
    UndoKeepsTheTable(cs, c);
    UndoLeads(cs, rels[id], c, db[id], db'[id]);
    assert db == db'[id := db[id]];
    LeadsInItsTable(rels, stmt, db', db, Restorable(cs, rels[id], c));
  }

  predicate AllRestorableIn(cs: Charset, rels: Schema, changes: seq<RowChange>) {
    forall c :: c in changes && Subject(c) in rels ==> Restorable(cs, rels[Subject(c)], c)
  }

  lemma BackwardsUndos(cs: Charset, changes: seq<RowChange>)
    requires Undoable(cs, Reverse(changes))
    ensures Backwards(cs, changes, Undos(cs, Reverse(changes)))
  {
    var r := Reverse(changes);
    forall n | 0 <= n < |changes| ensures Undo(cs, changes[n]) == Some(Undos(cs, r)[|changes| - 1 - n]) {
      assert r[|changes| - 1 - n] == changes[n];
    }
  }

  lemma DbHistoryAt(cs: Charset, rels: Schema, changes: seq<RowChange>, states: seq<Db>, stmts: seq<Stmt>, n: nat)
    requires DbHistory(cs, rels, changes, states) && Backwards(cs, changes, stmts) && n < |changes|
    ensures DbSettled(rels, states[n]) && DbSettled(rels, states[n + 1])
    ensures DbChanged(cs, rels, changes[n], states[n], states[n + 1])
    ensures Undo(cs, changes[n]) == Some(stmts[|changes| - 1 - n])
  {
  }

  lemma DbUndoneFrom(cs: Charset, rels: Schema, changes: seq<RowChange>, states: seq<Db>, stmts: seq<Stmt>, n: nat)
    requires DbHistory(cs, rels, changes, states) && Backwards(cs, changes, stmts) && n < |changes|
    requires forall id :: id in rels ==> DistinctColumns(rels[id].meta.columns)
    ensures Subject(changes[n]) in rels
    ensures Leads(DbExecOn(rels), stmts[|changes| - 1 - n], states[n + 1], states[n],
                  Restorable(cs, rels[Subject(changes[n])], changes[n]))
  {
    DbHistoryAt(cs, rels, changes, states, stmts, n);
    DbUndoLeads(cs, rels, changes[n], states[n], states[n + 1]);
  }

  /** Which of the changes can be undone. */
  function CanBeUndoneIn(cs: Charset, rels: Schema, changes: seq<RowChange>): seq<bool> {
    Map((c: RowChange) => Subject(c) in rels ==> Restorable(cs, rels[Subject(c)], c), changes)
  }

  lemma AllCanBeUndoneIn(cs: Charset, rels: Schema, changes: seq<RowChange>)
    ensures AllRestorableIn(cs, rels, changes)
       <==> AllTrue(CanBeUndoneIn(cs, rels, changes))
  {
    var good := CanBeUndoneIn(cs, rels, changes);
    assert forall n :: 0 <= n < |changes| ==>
        (good[n] <==> (Subject(changes[n]) in rels ==> Restorable(cs, rels[Subject(changes[n])], changes[n])));
  }

  lemma DbLeadsAt(cs: Charset, rels: Schema, changes: seq<RowChange>, states: seq<Db>, stmts: seq<Stmt>, n: nat)
    requires DbHistory(cs, rels, changes, states) && Backwards(cs, changes, stmts) && n < |changes|
    requires forall id :: id in rels ==> DistinctColumns(rels[id].meta.columns)
    ensures LeadsNth(DbExecOn(rels), stmts, states, CanBeUndoneIn(cs, rels, changes), n)
  {
    DbUndoneFrom(cs, rels, changes, states, stmts, n);
    var id := Subject(changes[n]);
    assert CanBeUndoneIn(cs, rels, changes)[n] == (id in rels ==> Restorable(cs, rels[id], changes[n]));
  }

  lemma DbEachUndoLeads(cs: Charset, rels: Schema, changes: seq<RowChange>, states: seq<Db>, stmts: seq<Stmt>)
    requires DbHistory(cs, rels, changes, states) && Backwards(cs, changes, stmts)
    requires forall id :: id in rels ==> DistinctColumns(rels[id].meta.columns)
    ensures LeadBack(DbExecOn(rels), stmts, states, CanBeUndoneIn(cs, rels, changes))
  {
    var good := CanBeUndoneIn(cs, rels, changes);
    forall n | 0 <= n < |changes| ensures LeadsNth(DbExecOn(rels), stmts, states, good, n) {
      DbLeadsAt(cs, rels, changes, states, stmts, n);
    }
  }

  /** Back along a history. */
  lemma DbGoesBack(cs: Charset, rels: Schema, changes: seq<RowChange>, states: seq<Db>, stmts: seq<Stmt>)
    requires DbHistory(cs, rels, changes, states) && Backwards(cs, changes, stmts)
    requires forall id :: id in rels ==> DistinctColumns(rels[id].meta.columns)
    ensures Follows(DbExecOn(rels), stmts, Reverse(states)) <==> AllRestorableIn(cs, rels, changes)
  {
    DbEachUndoLeads(cs, rels, changes, states, stmts);
    FollowsBack(DbExecOn(rels), stmts, states, CanBeUndoneIn(cs, rels, changes));
    AllCanBeUndoneIn(cs, rels, changes);
  }

  lemma DbRefusedStops(cs: Charset, rels: Schema, order: seq<RowChange>, db: Db, db': Db)
    requires Undoable(cs, order) && SomeRefused(order)
    requires forall c :: c in order ==>
        Subject(c) in rels && rels[Subject(c)].meta == c.table && DistinctColumns(c.table.columns)
    ensures !DbRun(rels, Undos(cs, order), db, db')
  {
    var k :| 0 <= k < |order| && Refused(order[k]);
    var stmt := Undo(cs, order[k]).value;
    UndoKeepsTheTable(cs, order[k]);
    forall a, b ensures !DbExecOn(rels)(stmt, a, b) {
      if Subject(order[k]) in a {
        forall rows ensures !Exec(rels[Subject(order[k])], stmt, a[Subject(order[k])], rows) {
          GeneratedIsRefused(cs, rels[Subject(order[k])], order[k], a[Subject(order[k])], rows);
        }
      }
    }
    RunsInto(DbExecOn(rels), Undos(cs, order), k, db, db');
  }

  lemma ReverseTwice<T>(s: seq<T>)
    ensures Reverse(Reverse(s)) == s
  {
  }

  lemma ForwardPerTable(changes: seq<RowChange>, order: seq<RowChange>)
    requires BackwardsPerTable(changes, order)
    ensures forall id :: Of(Reverse(order), id) == Of(changes, id)
  {
    forall id ensures Of(Reverse(order), id) == Of(changes, id) {
      FilterReverse((c: RowChange) => Subject(c) == id, order);
      ReverseTwice(Of(changes, id));
    }
  }

  lemma ReverseMembers<T>(s: seq<T>)
    ensures forall x :: x in Reverse(s) <==> x in s
  {
    forall x | x in s ensures x in Reverse(s) {
      var i :| 0 <= i < |s| && s[i] == x;
      assert Reverse(s)[|s| - 1 - i] == x;
    }
  }

  /** Undoing in the order opposite to the one in which the changes were made. */
  lemma DbUndoes(cs: Charset, rels: Schema, order: seq<RowChange>, forward: seq<Db>, db': Db)
    requires DbHistory(cs, rels, Reverse(order), forward) && Undoable(cs, order)
    requires forall id :: id in rels ==> DistinctColumns(rels[id].meta.columns)
    ensures Follows(DbExecOn(rels), Undos(cs, order), Reverse(forward)) <==> AllRestorableIn(cs, rels, Reverse(order))
    ensures AllRestorableIn(cs, rels, Reverse(order)) ==>
        (DbRun(rels, Undos(cs, order), forward[|order|], db') <==> db' == forward[0])
  {
    ReverseTwice(order);
    BackwardsUndos(cs, Reverse(order));
    DbGoesBack(cs, rels, Reverse(order), forward, Undos(cs, order));
    if AllRestorableIn(cs, rels, Reverse(order)) {
      FollowsToTheEnd(DbExecOn(rels), Undos(cs, order), Reverse(forward), db');
    }
  }

  /** Undoing takes the tables back step by step, in whatever order their changes are mixed, along states
      that the database would have gone through had the changes been made in that order; it can do nothing
      else, if and only if every change can be undone. It then restores the database. If the undo of a
      change is refused, the statements lead nowhere. */
  lemma RestoresEveryTable(cs: Charset, rels: Schema, changes: seq<RowChange>, states: seq<Db>,
                           order: seq<RowChange>, db': Db)
    returns (path: seq<Db>)
    requires DbHistory(cs, rels, changes, states)
    requires forall id :: id in rels ==> DistinctColumns(rels[id].meta.columns)
    requires Undoable(cs, order) && BackwardsPerTable(changes, order)
    ensures DbHistory(cs, rels, Reverse(order), Reverse(path))
    ensures path[0] == states[|changes|] && path[|order|] == states[0]
    ensures Follows(DbExecOn(rels), Undos(cs, order), path) <==> AllRestorableIn(cs, rels, changes)
    ensures AllRestorableIn(cs, rels, changes) ==>
        (DbRun(rels, Undos(cs, order), states[|changes|], db') <==> db' == states[0])
    ensures SomeRefused(changes) ==> !DbRun(rels, Undos(cs, order), states[|changes|], db')
  {
    var others := Reverse(order);
    ForwardPerTable(changes, order);
    SameMembers(changes, others);
    var forward := Reordered(cs, rels, changes, states, others);
    path := Reverse(forward);
    ReverseTwice(forward);
    DbUndoes(cs, rels, order, forward, db');
    if SomeRefused(changes) {
      ReverseMembers(order);
      ItsOwnTable(cs, rels, changes, states);
      DbRefusedStops(cs, rels, order, states[|changes|], db');
    }
  }
}
