/** When a run succeeds: on servers that answer every call, with a binlog that shows what the statements changed
    and tables that were admitted, everything is run and backed up, and can be undone. */
module GoodRun {
  import opened Catalog
  import opened Engine
  import opened Recovery
  import opened Seqs
  import B = Store
  import C = Capture
  import D = DDLText
  import G = Generator
  import R = Restore
  import W = Rows
  import X = EndToEnd

  /** Both servers answer every call. */
  ghost predicate Answered(env: Env, statements: seq<Statement>) {
    env.refused.None? && env.ready
    && forall k :: 1 <= k <= |statements| ==>
         env.answers(k).start && env.answers(k).accepted && env.answers(k).end && env.answers(k).goesOn
         && forall db :: env.stops(k)(db) == B.Never
  }

  /** There is something to record for the statement, and every text has a table. */
  ghost predicate Recordable(env: Env, s: Statement) {
    PreparedOf(env, s).Some? && RecordsOf(env, s).Some?
    && forall r :: r in RecordsOf(env, s).value && r.sql != "" ==> r.table != ""
  }

  /** The store holds no id of the run yet. */
  ghost predicate FreshIds(env: Env, statements: seq<Statement>, store: B.Contents) {
    forall k, db :: 1 <= k <= |statements| ==>
      var id := IdAt(env, statements[k - 1], env.answers(k).time);
      id !in B.At(store, db).info && B.NoRows(B.At(store, db), id)
  }

  // ---------------------------------------------------------------- ids

  lemma FreshAt(env: Env, statements: seq<Statement>, store: B.Contents, k: nat, db: string)
    requires FreshIds(env, statements, store) && 1 <= k <= |statements|
    ensures var id := IdAt(env, statements[k - 1], env.answers(k).time);
            id !in B.At(store, db).info && B.NoRows(B.At(store, db), id)
  {
  }

  lemma SaveKeepsIds(c: B.Contents, op: B.Operation, c': B.Contents, db: string, id: string)
    requires B.Saved(c, op, c') && id != op.opid
    ensures id in B.At(c', db).info <==> id in B.At(c, db).info
  {
    assert B.SaveGroup(B.At(c, db), op.opid, B.GroupOf(op, db)) == Some(B.At(c', db));
  }

  /** The id of a statement that is not among the first j of the journal is not there before entry j. */
  lemma {:induction false} IdStaysFresh(env: Env, statements: seq<Statement>, results: seq<Result>,
                                        journal: seq<X.Executed>, stores: seq<B.Contents>, k: nat, j: nat, db: string)
    requires Numbered(statements) && InTurn(results) && Journal(env, statements, results, journal, stores)
    requires 1 <= k <= |statements| && j < |stores|
    requires IdAt(env, statements[k - 1], env.answers(k).time) !in B.At(stores[0], db).info
    requires forall i :: 0 <= i < j && i < |Completed(results)| ==> Completed(results)[i] != k
    ensures IdAt(env, statements[k - 1], env.answers(k).time) !in B.At(stores[j], db).info
    decreases j
  {
    if j > 0 {
      var ks, i := Completed(results), j - 1;
      IdStaysFresh(env, statements, results, journal, stores, k, i, db);
      assert Entered(env, statements, ks[i], journal[i], stores[i], stores[i + 1]);
      var id := IdAt(env, statements[k - 1], env.answers(k).time);
      assert IdOf(env, statements[k - 1], id);
      IdsTellStatements(env, statements[k - 1], statements[ks[i] - 1], id, journal[i].op.opid);
      SaveKeepsIds(stores[i], journal[i].op, stores[j], db, id);
    }
  }

  lemma {:induction false} HasATable(group: seq<B.Rollback>)
    requires Filter(B.HasText(), group) != [] && forall r :: r in group && r.sql != "" ==> r.table != ""
    ensures B.StorageTable(group) != ""
  {
    if group[0].table == "" {
      assert group[0] in group;
      forall r | r in group[1..] && r.sql != "" ensures r.table != "" {
        assert r in group;
      }
      HasATable(group[1..]);
    }
  }

  lemma MembersOfGroup(op: B.Operation, db: string)
    ensures forall r :: r in B.GroupOf(op, db) ==> r in B.Records(op)
  {
    FilterMembers(B.GoesTo(op.source, db), B.Records(op));
  }

  /** With a new id, on a server that answers, every group can be written. */
  lemma CanBeStored(c: B.Contents, op: B.Operation, stops: string -> B.Stop)
    requires forall db :: stops(db) == B.Never && op.opid !in B.At(c, db).info
    requires forall r :: r in op.rollbacks && r.sql != "" ==> r.table != ""
    ensures B.Storable(c, op, stops)
  {
    forall db | db in B.Databases(op.source, B.Records(op)) ensures B.Fits(c, op, stops, db) {
      var group := B.GroupOf(op, db);
      MembersOfGroup(op, db);
      B.WriteLeaves(B.At(c, db), op.opid, group, B.Never);
      if Filter(B.HasText(), group) != [] {
        forall r | r in group && r.sql != "" ensures r.table != "" {
          assert r in B.Records(op);
        }
        HasATable(group);
      }
      assert B.SaveGroup(B.At(c, db), op.opid, group).Some?;
    }
  }

  /** A statement that changed nothing leaves an empty operation: an information row under its id, with the table of
      its DDL part or the first table of its DML part, in the backup database of that table's schema only. */
  lemma NothingToUndo(env: Env, s: Statement, c: B.Contents, c': B.Contents, db: string)
    requires B.Saved(c, OperationOf(env, s, []), c')
    ensures var id := IdAt(env, s, env.answers(s.sequence).time);
            var schema := if s.ddl.Some? then s.ddl.value.schema
                          else if s.dml.Some? && s.dml.value.tables != [] then s.dml.value.tables[0].schema
                              else s.database;
            var table := if s.ddl.Some? then s.ddl.value.table
                         else if s.dml.Some? && s.dml.value.tables != [] then s.dml.value.tables[0].name
                         else "statement";
            if db == B.BackupName(env.source, schema) then
              B.At(c', db).info == B.At(c, db).info[id := B.Info(schema, table)]
              && forall t :: B.Existing(B.At(c', db), t) == B.Existing(B.At(c, db), t)
            else B.At(c', db) == B.At(c, db)
  {
    B.EmptyOperation(c, OperationOf(env, s, []), c', db);
  }

  // ---------------------------------------------------------------- nothing fails

  lemma {:induction false} CompletedPrefix(results: seq<Result>, k: nat)
    requires k <= |results|
    ensures Completed(results[..k]) <= Completed(results)
    decreases |results|
  {
    var n := |results| - 1;
    if k == |results| {
      assert results[..k] == results;
    } else {
      assert results[..n][..k] == results[..k];
      CompletedPrefix(results[..n], k);
    }
  }

  lemma OneSucceeds(env: Env, statements: seq<Statement>, results: seq<Result>, journal: seq<X.Executed>,
                    stores: seq<B.Contents>, k: nat)
    requires Numbered(statements) && PrefixRun(statements, true, results)
    requires Explained(env, statements, true, results, stores) && Journal(env, statements, results, journal, stores)
    requires Answered(env, statements) && FreshIds(env, statements, stores[0])
    requires k < |results| && (!Reads(statements[k]) ==> Recordable(env, statements[k]))
    ensures results[k].fault.None?
  {
    var s, j := statements[k], |Completed(results[..k])|;
    assert results[k] == ResultOf(env, s, true, stores[j]) && s.sequence == k + 1;
    if !Reads(s) {
      PrefixIsInTurn(statements, true, results);
      CompletedPrefix(results, k);
      CompletedIncrease(results[..k]);
      forall i | 0 <= i < j ensures Completed(results)[i] != k + 1 {
        assert Completed(results)[i] == Completed(results[..k])[i];
        assert Completed(results[..k])[i] in Completed(results[..k]);
      }
      var op := OperationOf(env, s, RecordsOf(env, s).value);
      forall db ensures env.stops(k + 1)(db) == B.Never && op.opid !in B.At(stores[j], db).info {
        FreshAt(env, statements, stores[0], k + 1, db);
        IdStaysFresh(env, statements, results, journal, stores, k + 1, j, db);
      }
      CanBeStored(stores[j], op, env.stops(k + 1));
    }
  }

  /** With backup on, nothing but USE and SELECT is run before its position is known and its rollback prepared. */
  lemma NothingRunsUnprepared(env: Env, statements: seq<Statement>, results: seq<Result>, stores: seq<B.Contents>,
                              k: nat)
    requires Numbered(statements) && Ran(env, statements, true, results, stores) && k < |results|
    requires results[k].executed
    ensures k < |statements| && env.answers(k + 1).accepted
    ensures !Reads(statements[k]) ==> env.answers(k + 1).start && PreparedOf(env, statements[k]).Some?
  {
    if env.refused.None? && env.ready {
      assert results[k] == ResultOf(env, statements[k], true, stores[|Completed(results[..k])|]);
    }
  }

  /** On such servers every statement is run, and none fails; every statement other than USE and SELECT is backed
      up. */
  lemma GoodRunSucceeds(env: Env, statements: seq<Statement>, results: seq<Result>, journal: seq<X.Executed>,
                        stores: seq<B.Contents>)
    requires Numbered(statements) && Ran(env, statements, true, results, stores)
    requires PrefixRun(statements, true, results) && Journal(env, statements, results, journal, stores)
    requires Answered(env, statements) && FreshIds(env, statements, stores[0])
    requires forall k :: 0 <= k < |statements| && !Reads(statements[k]) ==> Recordable(env, statements[k])
    ensures |results| == |statements| && NothingFailed(results)
    ensures forall k :: 0 <= k < |statements| ==>
              results[k].executed
              && (results[k].completed <==> statements[k].kind != Use && statements[k].kind != Select)
  {
    forall k | 0 <= k < |results| ensures results[k].fault.None? && Honest(statements[k], true, results[k]) {
      OneSucceeds(env, statements, results, journal, stores, k);
    }
    assert EndsForAReason(env, statements, results);
  }

  // ---------------------------------------------------------------- and everything can be undone

  /** The statement is DML; the binlog shows what it changed, up to exactly the end position; and every
      change is one whose undo can be generated and written. */
  ghost predicate GoodChange(env: Env, s: Statement, made: seq<G.RowChange>) {
    var k := s.sequence;
    s.dml.Some? && s.ddl.None?
    && C.Shown(env.meta, env.start(k), env.end(k), env.thread, env.affected(k), env.binlog(k), made)
    && forall c :: c in made ==> X.Good(env.cs, c)
  }

  lemma GoodIsRecordable(env: Env, s: Statement, made: seq<G.RowChange>)
    requires GoodChange(env, s, made)
    ensures Recordable(env, s) && RecordsOf(env, s) == Some(Map(X.RecordFn(env.cs), made))
  {
    var k := s.sequence;
    C.ShownIsCollected(env.meta, env.start(k), env.end(k), env.thread, env.affected(k), env.binlog(k), made);
    forall i | 0 <= i < |made| ensures X.Good(env.cs, made[i]) {
      assert made[i] in made;
    }
    assert R.Undoable(env.cs, made);
    var records := Map(X.RecordFn(env.cs), made);
    forall r | r in records ensures r.table != "" {
      var i :| 0 <= i < |records| && records[i] == r;
      assert X.Good(env.cs, made[i]);
    }
  }

  /** Every statement is USE, SELECT, which change no rows, or such DML. */
  ghost predicate GoodBatch(env: Env, statements: seq<Statement>, made: nat -> seq<G.RowChange>) {
    forall i {:trigger statements[i]} :: 0 <= i < |statements| ==>
      if Reads(statements[i]) then made(i + 1) == [] else GoodChange(env, statements[i], made(i + 1))
  }

  function AllNumbers(n: nat): seq<nat> { seq(n, i => i + 1) }

  lemma GoodAt(env: Env, statements: seq<Statement>, made: nat -> seq<G.RowChange>, i: nat)
    requires GoodBatch(env, statements, made) && i < |statements|
    ensures if Reads(statements[i]) then made(i + 1) == [] else GoodChange(env, statements[i], made(i + 1))
  {
  }

  /** What was recorded for such a statement. */
  lemma GoodEntry(env: Env, s: Statement, e: X.Executed, made: seq<G.RowChange>)
    requires GoodChange(env, s, made) && EntryOf(env, s, e)
    ensures e.changes == made && forall c :: c in e.changes ==> X.Good(env.cs, c)
  {
    var k := s.sequence;
    C.ShownIsCollected(env.meta, env.start(k), env.end(k), env.thread, env.affected(k), env.binlog(k), made);
  }

  lemma GoodEntries(env: Env, statements: seq<Statement>, results: seq<Result>, journal: seq<X.Executed>,
                    stores: seq<B.Contents>, made: nat -> seq<G.RowChange>, j: nat)
    requires Numbered(statements) && PrefixRun(statements, true, results)
    requires Journal(env, statements, results, journal, stores) && GoodBatch(env, statements, made)
    requires j < |journal|
    ensures 1 <= Completed(results)[j] <= |statements|
        && IdOf(env, statements[Completed(results)[j] - 1], journal[j].op.opid)
    ensures forall c :: c in journal[j].changes ==> X.Good(env.cs, c)
  {
    var k := Completed(results)[j];
    PrefixIsInTurn(statements, true, results);
    CompletedIncrease(results);
    assert k in Completed(results) && Entered(env, statements, k, journal[j], stores[j], stores[j + 1]);
    assert Honest(statements[k - 1], true, results[k - 1]);
    GoodAt(env, statements, made, k - 1);
    GoodEntry(env, statements[k - 1], journal[j], made(k));
  }

  lemma GoodJournal(env: Env, statements: seq<Statement>, results: seq<Result>, journal: seq<X.Executed>,
                    stores: seq<B.Contents>, made: nat -> seq<G.RowChange>)
    requires Numbered(statements) && PrefixRun(statements, true, results)
    requires Journal(env, statements, results, journal, stores) && GoodBatch(env, statements, made)
    requires FreshIds(env, statements, stores[0])
    ensures Clean(env, journal) && NewIds(stores[0], journal)
  {
    forall j | 0 <= j < |journal|
      ensures forall c :: c in journal[j].changes ==> X.Good(env.cs, c)
    {
      GoodEntries(env, statements, results, journal, stores, made, j);
    }
    forall j, db | 0 <= j < |journal| ensures B.NoRows(B.At(stores[0], db), journal[j].op.opid) {
      GoodEntries(env, statements, results, journal, stores, made, j);
      FreshAt(env, statements, stores[0], Completed(results)[j], db);
    }
  }

  lemma GoodOneIsLogged(env: Env, s: Statement, made: seq<G.RowChange>)
    requires GoodChange(env, s, made)
    ensures s.dml.Some? && IsLogged(env, s.sequence, made)
  {
  }

  lemma GoodIsLogged(env: Env, statements: seq<Statement>, results: seq<Result>, made: nat -> seq<G.RowChange>)
    requires Numbered(statements) && GoodBatch(env, statements, made)
    ensures ChangesByDML(statements, results) && AllLogged(env, statements, made)
  {
    forall i | 0 <= i < |statements|
      ensures if Reads(statements[i]) then made(i + 1) == [] else IsLogged(env, i + 1, made(i + 1))
      ensures !Reads(statements[i]) ==> statements[i].dml.Some?
    {
      GoodAt(env, statements, made, i);
      if !Reads(statements[i]) {
        GoodOneIsLogged(env, statements[i], made(i + 1));
      }
    }
  }

  /** A batch of such statements, on such servers, is run and backed up from the first to the last; and if every
      change can be undone, the text read back from the store leads to the database as it was before the run, and
      to no other. */
  lemma GoodRunCanBeUndone(env: Env, statements: seq<Statement>, results: seq<Result>, journal: seq<X.Executed>,
                           stores: seq<B.Contents>, after: B.Contents, rels: R.Schema, made: nat -> seq<G.RowChange>,
                           states: seq<R.Db>, orders: seq<seq<string>>, db': R.Db)
    requires Numbered(statements) && Ran(env, statements, true, results, stores)
    requires PrefixRun(statements, true, results) && Journal(env, statements, results, journal, stores)
        && StoreLeft(env, statements, results, stores[|journal|], after)
    requires Answered(env, statements) && FreshIds(env, statements, stores[0]) && GoodBatch(env, statements, made)
    requires |orders| == |journal| && forall j :: 0 <= j < |journal| ==> X.Visits(orders[j], journal[j].op)
    requires R.DbHistory(env.cs, rels, MadeBy(made, AllNumbers(|statements|)), states)
    requires forall id :: id in rels ==> DistinctColumns(rels[id].meta.columns)
    ensures |results| == |statements| && NothingFailed(results)
    ensures R.AllRestorableIn(env.cs, rels, MadeBy(made, AllNumbers(|statements|))) ==>
        (X.RunText(rels, X.BatchScript(after, journal, orders), states[|states| - 1], db') <==> db' == states[0])
  {
    forall k | 0 <= k < |statements| && !Reads(statements[k]) ensures Recordable(env, statements[k]) {
      GoodAt(env, statements, made, k);
      GoodIsRecordable(env, statements[k], made(k + 1));
    }
    GoodRunSucceeds(env, statements, results, journal, stores);
    GoodJournal(env, statements, results, journal, stores, made);
    GoodIsLogged(env, statements, results, made);
    ExecutedIsPrefix(statements, true, results);
    assert Executed(results) == AllNumbers(|statements|);
    var path := RunCanBeUndone(env, statements, results, journal, stores, after, rels, made, states, orders, db');
  }
}
