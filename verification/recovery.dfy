/** From what a run of the engine has recorded to what can be undone: the journal of a run gives the
    batch of saved operations that `EndToEnd` restores from. */
module Recovery {
  import opened Catalog
  import opened Engine
  import opened Seqs
  import B = Store
  import C = Capture
  import G = Generator
  import R = Restore
  import W = Rows
  import X = EndToEnd
  import S = Session

  /** The results are numbered as the statements, from 1. */
  predicate InTurn(results: seq<Result>) {
    forall i :: 0 <= i < |results| ==> results[i].sequence == i + 1
  }

  lemma PrefixIsInTurn(statements: seq<Statement>, backup: bool, results: seq<Result>)
    requires Numbered(statements) && PrefixRun(statements, backup, results)
    ensures InTurn(results)
  {
    forall i | 0 <= i < |results| ensures results[i].sequence == i + 1 {
      assert Honest(statements[i], backup, results[i]);
    }
  }

  /** The completed statements, in increasing order. */
  lemma {:induction false} CompletedIncrease(results: seq<Result>)
    requires InTurn(results)
    ensures forall k :: k in Completed(results) <==> 1 <= k <= |results| && results[k - 1].completed
    ensures forall i, j :: 0 <= i < j < |Completed(results)| ==> Completed(results)[i] < Completed(results)[j]
    decreases |results|
  {
    if results != [] {
      var n := |results| - 1;
      var init := results[..n];
      CompletedIncrease(init);
      forall k ensures k in Completed(results) <==> 1 <= k <= |results| && results[k - 1].completed {
        assert k in Completed(results) <==> k in Completed(init) || (results[n].completed && k == n + 1);
        assert 1 <= k <= n ==> init[k - 1] == results[k - 1];
      }
      forall i, j | 0 <= i < j < |Completed(results)| ensures Completed(results)[i] < Completed(results)[j] {
        assert Completed(init)[i] in Completed(init);
        assert j < |Completed(init)| || Completed(results)[j] == n + 1;
      }
    }
  }

  lemma IdsTellStatements(env: Env, s: Statement, t: Statement, a: string, b: string)
    requires s.sequence > 0 && t.sequence > 0 && s.sequence != t.sequence && IdOf(env, s, a) && IdOf(env, t, b)
    ensures a != b
  {
    if a == b {
      OpIdTellsStatements(env.answers(s.sequence).time, env.answers(t.sequence).time, env.thread, env.thread,
                          s.sequence - 1, t.sequence - 1);
    }
  }

  /** No row of the store carries an id of the journal. */
  ghost predicate NewIds(store: B.Contents, journal: seq<X.Executed>) {
    forall j, db :: 0 <= j < |journal| ==> B.NoRows(B.At(store, db), journal[j].op.opid)
  }

  /** A run saves its operations one after another, under different ids. */
  lemma JournalIsSavedInTurn(env: Env, statements: seq<Statement>, results: seq<Result>,
                             journal: seq<X.Executed>, stores: seq<B.Contents>)
    requires Numbered(statements) && InTurn(results) && Journal(env, statements, results, journal, stores)
    requires NewIds(stores[0], journal)
    ensures X.SavedInTurn(journal, stores)
  {
    var ks := Completed(results);
    CompletedIncrease(results);
    forall i, j | 0 <= i < j < |journal| ensures journal[i].op.opid != journal[j].op.opid {
      assert Entered(env, statements, ks[i], journal[i], stores[i], stores[i + 1]);
      assert Entered(env, statements, ks[j], journal[j], stores[j], stores[j + 1]);
      IdsTellStatements(env, statements[ks[i] - 1], statements[ks[j] - 1], journal[i].op.opid, journal[j].op.opid);
    }
    forall j | 0 <= j < |journal| ensures B.Saved(stores[j], journal[j].op, stores[j + 1]) {
      assert Entered(env, statements, ks[j], journal[j], stores[j], stores[j + 1]);
    }
  }

  /** What a failed Save of the last statement leaves in the store does not show when the operations
      before it are read back. */
  lemma LeftoversDoNotShow(env: Env, statements: seq<Statement>, results: seq<Result>, journal: seq<X.Executed>,
                           stores: seq<B.Contents>, after: B.Contents, j: nat, db: string)
    requires Numbered(statements) && InTurn(results) && Journal(env, statements, results, journal, stores)
        && j < |journal|
    requires StoreLeft(env, statements, results, stores[|journal|], after)
    requires forall i :: 0 <= i < |results| && results[i].completed ==> results[i].fault.None?
    ensures B.ReadBack(B.At(after, db), journal[j].op.opid)
        == B.ReadBack(B.At(stores[|journal|], db), journal[j].op.opid)
  {
    var before, ks := stores[|journal|], Completed(results);
    if after != before {
      var n := |results|;
      var op: B.Operation :| IdOf(env, statements[n - 1], op.opid) && B.FailedSave(before, op, after);
      CompletedIncrease(results);
      assert ks[j] in ks;
      assert Entered(env, statements, ks[j], journal[j], stores[j], stores[j + 1]);
      IdsTellStatements(env, statements[n - 1], statements[ks[j] - 1], op.opid, journal[j].op.opid);
      B.FailedSaveLeaves(before, op, after, db);
      B.OthersReadBack(B.At(before, db), op.opid, B.GroupOf(op, db), B.At(after, db), journal[j].op.opid);
    }
  }

  /** What the statement whose backup failed leaves in the store: in every backup database the whole of
      its group, nothing, or the first rows without an information row, which read back as nothing. */
  lemma FailedBackupLeaves(env: Env, statements: seq<Statement>, results: seq<Result>, before: B.Contents,
                           after: B.Contents)
    returns (op: B.Operation)
    requires StoreLeft(env, statements, results, before, after) && after != before
    ensures IdOf(env, statements[|results| - 1], op.opid)
    ensures forall db ::
              B.LeftIn(B.At(before, db), op.opid, B.GroupOf(op, db), B.At(after, db))
              && (op.opid !in B.At(before, db).info && op.opid !in B.At(after, db).info ==>
                  B.ReadBack(B.At(after, db), op.opid) == [])
  {
    op :| IdOf(env, statements[|results| - 1], op.opid) && B.FailedSave(before, op, after);
    forall db ensures B.LeftIn(B.At(before, db), op.opid, B.GroupOf(op, db), B.At(after, db)) {
      B.FailedSaveLeaves(before, op, after, db);
    }
  }

  /** For every DML statement whose backup was completed, whatever happened to the later ones, its
      operation reads back as the undo of its changes, backwards. */
  lemma CompletedReadsBack(env: Env, statements: seq<Statement>, results: seq<Result>, journal: seq<X.Executed>,
                           stores: seq<B.Contents>, after: B.Contents, j: nat, db: string)
    requires Numbered(statements) && InTurn(results) && Journal(env, statements, results, journal, stores)
        && j < |journal|
    requires StoreLeft(env, statements, results, stores[|journal|], after) && NewIds(stores[0], journal)
    requires forall i :: 0 <= i < |results| && results[i].completed ==> results[i].fault.None?
    requires X.Carries(env.cs, journal[j])
    requires db in B.Databases(env.source, B.Records(journal[j].op))
    ensures B.ReadBack(B.At(after, db), journal[j].op.opid)
         == Map(X.TextFn(env.cs), X.Backward(env.source, journal[j].changes, db))
  {
    var ks := Completed(results);
    assert Entered(env, statements, ks[j], journal[j], stores[j], stores[j + 1]);
    JournalIsSavedInTurn(env, statements, results, journal, stores);
    X.OperationReadsBack(env.cs, journal, stores, j, db);
    LeftoversDoNotShow(env, statements, results, journal, stores, after, j, db);
  }

  /** Whatever a statement's records are, they read back by descending id from every backup database where the
      first of them names its table, last written first, and whatever happened to later statements. */
  lemma EntryReadsBack(env: Env, statements: seq<Statement>, results: seq<Result>, journal: seq<X.Executed>,
                       stores: seq<B.Contents>, after: B.Contents, j: nat, db: string)
    requires Numbered(statements) && InTurn(results) && Journal(env, statements, results, journal, stores)
        && j < |journal|
    requires StoreLeft(env, statements, results, stores[|journal|], after) && NewIds(stores[0], journal)
    requires forall i :: 0 <= i < |results| && results[i].completed ==> results[i].fault.None?
    requires B.GroupOf(journal[j].op, db) != [] && B.GroupOf(journal[j].op, db)[0].table != ""
    ensures B.ReadBack(B.At(after, db), journal[j].op.opid)
         == Reverse(Map((r: B.Rollback) => r.sql, Filter(B.HasText(), B.GroupOf(journal[j].op, db))))
  {
    var op := journal[j].op;
    JournalIsSavedInTurn(env, statements, results, journal, stores);
    X.StaysNew(journal, stores, j, j, db);
    assert B.Saved(stores[j], journal[j].op, stores[j + 1]);
    B.SavedReadsBack(B.At(stores[j], db), op.opid, B.GroupOf(op, db));
    X.StaysReadable(journal, stores, j, |journal|, db);
    LeftoversDoNotShow(env, statements, results, journal, stores, after, j, db);
  }

  /** The values can be written as literals and the tables have names. */
  ghost predicate Clean(env: Env, journal: seq<X.Executed>) {
    forall j, c :: 0 <= j < |journal| && c in journal[j].changes ==> G.WritableChange(env.cs, c) && c.table.name != ""
  }

  lemma {:induction false} EntryIsCarried(env: Env, statements: seq<Statement>, results: seq<Result>,
                                          journal: seq<X.Executed>,
                       stores: seq<B.Contents>, j: nat)
    requires Journal(env, statements, results, journal, stores) && Clean(env, journal) && j < |journal|
    requires var k := Completed(results)[j]; 1 <= k <= |statements| ==> statements[k - 1].dml.Some?
    ensures X.Carries(env.cs, journal[j])
  {
    assert Entered(env, statements, Completed(results)[j], journal[j], stores[j], stores[j + 1]);
    var e := journal[j];
    forall i | 0 <= i < |e.changes| ensures X.Good(env.cs, e.changes[i]) {
      assert e.changes[i] in e.changes;
    }
  }

  /** With backup on, every statement other than USE and SELECT that took effect has an entry in the journal, but
      for the last one if its backup failed. */
  lemma {:induction false} EveryChangeIsRecorded(env: Env, statements: seq<Statement>, results: seq<Result>,
                              journal: seq<X.Executed>, stores: seq<B.Contents>, k: nat)
    requires Numbered(statements) && PrefixRun(statements, true, results)
    requires Journal(env, statements, results, journal, stores)
    requires k < |statements| && k + 1 in Executed(results)
    requires statements[k].kind != Use && statements[k].kind != Select
    ensures (exists j :: 0 <= j < |journal| && EntryOf(env, statements[k], journal[j]))
            || (k + 1 == |results| && results[k].fault == Some(BackupFailed) && !Irreversible(statements[k]))
  {
    PrefixIsInTurn(statements, true, results);
    CompletedIncrease(results);
    S.ExecutedAre(results, k);
    if results[k].completed {
      var j :| 0 <= j < |Completed(results)| && Completed(results)[j] == k + 1;
      assert Entered(env, statements, Completed(results)[j], journal[j], stores[j], stores[j + 1]);
    } else {
      AtMostOneUnsaved(statements, results, k);
    }
  }

  predicate NothingFailed(results: seq<Result>) {
    forall i :: 0 <= i < |results| ==> results[i].fault.None?
  }

  /** USE and SELECT. */
  predicate Reads(s: Statement) { s.kind == Use || s.kind == Select }

  /** Every other statement that has run is DML. */
  predicate ChangesByDML(statements: seq<Statement>, results: seq<Result>) {
    forall i :: 0 <= i < |results| && i < |statements| && !Reads(statements[i]) ==> statements[i].dml.Some?
  }

  lemma {:induction false} JournalIsReady(env: Env, statements: seq<Statement>, results: seq<Result>,
                                          journal: seq<X.Executed>,
                       stores: seq<B.Contents>, orders: seq<seq<string>>)
    requires Numbered(statements) && PrefixRun(statements, true, results) && NothingFailed(results)
    requires ChangesByDML(statements, results) && Clean(env, journal)
    requires Journal(env, statements, results, journal, stores)
    requires |orders| == |journal| && forall j :: 0 <= j < |journal| ==> X.Visits(orders[j], journal[j].op)
    ensures X.Ready(env.cs, journal, orders)
  {
    PrefixIsInTurn(statements, true, results);
    CompletedIncrease(results);
    forall j | 0 <= j < |journal| ensures X.Carries(env.cs, journal[j]) {
      var k := Completed(results)[j];
      assert k in Completed(results);
      assert Honest(statements[k - 1], true, results[k - 1]);
      EntryIsCarried(env, statements, results, journal, stores, j);
    }
  }

  /** What the statements `ks` have changed, one after another. */
  function MadeBy(made: nat -> seq<G.RowChange>, ks: seq<nat>): seq<G.RowChange> {
    if ks == [] then [] else made(ks[0]) + MadeBy(made, ks[1..])
  }

  /** The binlog shows what statement k changed: it is all that is there to read of its thread, or it comes first
      and leads to the end position. */
  ghost predicate IsLogged(env: Env, k: nat, made: seq<G.RowChange>) {
    C.Logged(env.meta, env.start(k), env.end(k), env.thread, env.affected(k), env.binlog(k), made)
    || C.Shown(env.meta, env.start(k), env.end(k), env.thread, env.affected(k), env.binlog(k), made)
  }

  /** USE and SELECT change no rows; for every other statement the binlog shows what it changed. */
  ghost predicate AllLogged(env: Env, statements: seq<Statement>, made: nat -> seq<G.RowChange>) {
    forall i {:trigger statements[i]} :: 0 <= i < |statements| ==>
      if Reads(statements[i]) then made(i + 1) == [] else IsLogged(env, i + 1, made(i + 1))
  }

  lemma {:induction false} MadeBySnoc(made: nat -> seq<G.RowChange>, ks: seq<nat>, k: nat)
    ensures MadeBy(made, ks + [k]) == MadeBy(made, ks) + made(k)
  {
    if ks == [] {
      assert ks + [k] == [k] && [k][1..] == [];
    } else {
      assert (ks + [k])[1..] == ks[1..] + [k];
      MadeBySnoc(made, ks[1..], k);
    }
  }

  /** What was backed up is all that was changed by the statements that ran. */
  lemma {:induction false} ExecutedIsCompleted(env: Env, statements: seq<Statement>, results: seq<Result>,
                                               made: nat -> seq<G.RowChange>)
    requires Numbered(statements) && PrefixRun(statements, true, results) && NothingFailed(results)
    requires AllLogged(env, statements, made)
    ensures MadeBy(made, Executed(results)) == MadeBy(made, Completed(results))
    decreases |results|
  {
    if results != [] {
      var n := |results| - 1;
      var init, r := results[..n], results[n];
      assert Honest(statements[n], true, r);
      ExecutedIsCompleted(env, statements, init, made);
      MadeBySnoc(made, Executed(init), r.sequence);
      MadeBySnoc(made, Completed(init), r.sequence);
      assert Executed(init) + [] == Executed(init) && Completed(init) + [] == Completed(init);
      assert Executed(results) == Executed(init) + [r.sequence];
      if Reads(statements[n]) {
        assert Completed(results) == Completed(init) && made(r.sequence) == [];
      } else {
        assert Completed(results) == Completed(init) + [r.sequence];
      }
    }
  }

  lemma {:induction false} MadeIsJournal(made: nat -> seq<G.RowChange>, ks: seq<nat>, journal: seq<X.Executed>)
    requires |ks| == |journal| && forall j :: 0 <= j < |ks| ==> journal[j].changes == made(ks[j])
    ensures X.AllChanges(journal) == MadeBy(made, ks)
    decreases |ks|
  {
    if ks != [] {
      MadeIsJournal(made, ks[1..], journal[1..]);
    }
  }

  lemma LoggedIsCollected(env: Env, k: nat, made: seq<G.RowChange>)
    requires IsLogged(env, k, made)
    ensures var r := C.Collected(env.meta, env.start(k), env.end(k), env.thread, env.affected(k), env.binlog(k));
            r.Some? ==> r.value == made
  {
    if C.Logged(env.meta, env.start(k), env.end(k), env.thread, env.affected(k), env.binlog(k), made) {
      C.CollectedIsMade(env.meta, env.start(k), env.end(k), env.thread, env.affected(k), env.binlog(k), made);
    } else {
      C.ShownIsCollected(env.meta, env.start(k), env.end(k), env.thread, env.affected(k), env.binlog(k), made);
    }
  }

  /** When the binlog shows what the statements have changed, the journal holds exactly that. */
  lemma JournalIsMade(env: Env, statements: seq<Statement>, results: seq<Result>, journal: seq<X.Executed>,
                      stores: seq<B.Contents>, made: nat -> seq<G.RowChange>)
    requires Numbered(statements) && PrefixRun(statements, true, results)
    requires ChangesByDML(statements, results) && Journal(env, statements, results, journal, stores)
    requires AllLogged(env, statements, made)
    ensures X.AllChanges(journal) == MadeBy(made, Completed(results))
  {
    var ks := Completed(results);
    PrefixIsInTurn(statements, true, results);
    CompletedIncrease(results);
    forall j | 0 <= j < |ks| ensures journal[j].changes == made(ks[j]) {
      var k := ks[j];
      assert k in ks && Entered(env, statements, k, journal[j], stores[j], stores[j + 1]);
      assert Honest(statements[k - 1], true, results[k - 1]);
      LoggedIsCollected(env, k, made(k));
    }
    MadeIsJournal(made, ks, journal);
  }

  /** A run with backup in which nothing failed and every statement but USE and SELECT was DML, on a server whose
      binlog shows what each statement has changed: the text read back from the store takes the database
      back step by step, and can do nothing else, if and only if every change can be undone; it then leads
      to the database as it was before the run. If the undo of a change is refused, it leads nowhere. */
  lemma RunCanBeUndone(env: Env, statements: seq<Statement>, results: seq<Result>, journal: seq<X.Executed>,
                       stores: seq<B.Contents>, after: B.Contents, rels: R.Schema, made: nat -> seq<G.RowChange>,
                       states: seq<R.Db>, orders: seq<seq<string>>, db': R.Db)
    returns (path: seq<R.Db>)
    requires Numbered(statements) && PrefixRun(statements, true, results)
    requires NothingFailed(results) && ChangesByDML(statements, results)
    requires Journal(env, statements, results, journal, stores)
        && StoreLeft(env, statements, results, stores[|journal|], after)
    requires NewIds(stores[0], journal) && Clean(env, journal)
    requires |orders| == |journal| && forall j :: 0 <= j < |journal| ==> X.Visits(orders[j], journal[j].op)
    requires AllLogged(env, statements, made)
    requires R.DbHistory(env.cs, rels, MadeBy(made, Executed(results)), states)
    requires forall id :: id in rels ==> DistinctColumns(rels[id].meta.columns)
    ensures R.DbHistory(env.cs, rels, Reverse(X.BatchOrder(journal, orders)), Reverse(path))
    ensures path[0] == states[|states| - 1] && path[|path| - 1] == states[0]
    ensures X.ReadScript(X.BatchScript(after, journal, orders)).Some?
    ensures Follows(R.DbExecOn(rels), X.ReadScript(X.BatchScript(after, journal, orders)).value, path)
       <==> R.AllRestorableIn(env.cs, rels, MadeBy(made, Executed(results)))
    ensures R.AllRestorableIn(env.cs, rels, MadeBy(made, Executed(results))) ==>
        (X.RunText(rels, X.BatchScript(after, journal, orders), states[|states| - 1], db') <==> db' == states[0])
    ensures W.SomeRefused(MadeBy(made, Executed(results))) ==>
        !X.RunText(rels, X.BatchScript(after, journal, orders), states[|states| - 1], db')
  {
    PrefixIsInTurn(statements, true, results);
    JournalIsReady(env, statements, results, journal, stores, orders);
    JournalIsSavedInTurn(env, statements, results, journal, stores);
    JournalIsMade(env, statements, results, journal, stores, made);
    ExecutedIsCompleted(env, statements, results, made);
    path := X.BatchUndoRestores(env.cs, rels, journal, states, stores, orders, db');
  }

  // ---------------------------------------------------------------- what the report promises

  lemma OutcomeIsInTurn(o: S.Options, statements: seq<Statement>, checked: seq<S.Record>, results: seq<Result>,
                        records: seq<S.Record>)
    requires Numbered(statements) && S.Outcome(o, statements, checked, results, records)
    ensures InTurn(results)
    ensures forall i :: 0 <= i < |results| && results[i].completed ==> results[i].fault.None?
  {
    if !SetUpFailure(results) {
      PrefixIsInTurn(statements, o.backup, results);
      forall i | 0 <= i < |results| && results[i].completed ensures results[i].fault.None? {
        assert Honest(statements[i], o.backup, results[i]);
      }
    }
  }

  /** A record that reports a completed backup of a DML statement can be relied on: the statement has an
      entry in the journal, and in every backup database the entry's operation reads back as the undo
      texts of the statement's captured changes, backwards. */
  lemma ReportedBackupReadsBack(env: Env, o: S.Options, statements: seq<Statement>, checked: seq<S.Record>,
                                results: seq<Result>,
                                records: seq<S.Record>, journal: seq<X.Executed>, stores: seq<B.Contents>,
                                    after: B.Contents, k: nat)
    returns (j: nat)
    requires Numbered(statements) && S.Outcome(o, statements, checked, results, records)
    requires forall i :: 0 <= i < |checked| ==> S.IsCheckRecord(checked[i])
    requires Journal(env, statements, results, journal, stores)
        && StoreLeft(env, statements, results, stores[|journal|], after)
    requires NewIds(stores[0], journal) && Clean(env, journal)
    requires k < |records| && records[k].status == S.BackupSuccessfully && statements[k].dml.Some?
    ensures j < |journal| && EntryOf(env, statements[k], journal[j])
    ensures forall db :: db in B.Databases(env.source, B.Records(journal[j].op)) ==>
              B.ReadBack(B.At(after, db), journal[j].op.opid)
                  == Map(X.TextFn(env.cs), X.Backward(env.source, journal[j].changes, db))
  {
    S.ReportIsTrue(o, statements, checked, results, records, k);
    OutcomeIsInTurn(o, statements, checked, results, records);
    j :| 0 <= j < |Completed(results)| && Completed(results)[j] == k + 1;
    assert Entered(env, statements, Completed(results)[j], journal[j], stores[j], stores[j + 1]);
    EntryIsCarried(env, statements, results, journal, stores, j);
    forall db | db in B.Databases(env.source, B.Records(journal[j].op))
      ensures B.ReadBack(B.At(after, db), journal[j].op.opid)
          == Map(X.TextFn(env.cs), X.Backward(env.source, journal[j].changes, db))
    {
      CompletedReadsBack(env, statements, results, journal, stores, after, j, db);
    }
  }
}
