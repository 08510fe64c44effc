/** The rollback of a DDL statement as it is read back from the store after a run. */
module DDLBack {
  import opened Catalog
  import opened Seqs
  import opened Snapshot
  import opened AlterUndo
  import opened DDLText
  import opened Engine
  import opened Recovery
  import S = Statements
  import B = Store
  import V = Views
  import X = EndToEnd

  /** The entry of a statement that is not DML holds what was prepared for it. */
  lemma {:induction false} EntryIsPrepared(env: Env, statements: seq<Statement>, results: seq<Result>,
                                           journal: seq<X.Executed>,
                        stores: seq<B.Contents>, j: nat)
    requires Numbered(statements) && InTurn(results) && Journal(env, statements, results, journal, stores)
    requires j < |journal|
    ensures 1 <= Completed(results)[j] <= |statements|
    ensures var s := statements[Completed(results)[j] - 1];
            s.dml.None? ==> PreparedOf(env, s) == Some(journal[j].op.rollbacks) && journal[j].op.source == env.source
  {
    assert Entered(env, statements, Completed(results)[j], journal[j], stores[j], stores[j + 1]);
  }

  /** The records of an ALTER: one for each statement of its rollback, all for one backup database. */
  lemma {:induction false} AlterRecordsAre(source: B.Source, d: V.DDL, creates: TableRef -> Option<string>,
                                           op: B.Operation)
    requires d.action.AlterTable? && Rollback(d.ops).Some? && Rollback(d.ops).value != []
    requires PreparedRecords(d, creates) == Some(op.rollbacks) && op.source == source
    ensures op.rollbacks == Map((a: AlterOp) => Written(ItemOf(d, a)), Rollback(d.ops).value)
    ensures B.GroupOf(op, B.BackupName(source, d.schema)) == op.rollbacks
    ensures Filter(B.HasText(), op.rollbacks) == op.rollbacks
  {
    var db, records := B.BackupName(source, d.schema), op.rollbacks;
    RollbackUndoes(d.ops);
    forall k | 0 <= k < |records|
      ensures records[k] == Written(ItemOf(d, Rollback(d.ops).value[k]))
      ensures B.GoesTo(source, db)(records[k]) && B.HasText()(records[k])
    {
      assert Rollback(d.ops).value[k] in Rollback(d.ops).value;
    }
    assert records == Map((a: AlterOp) => Written(ItemOf(d, a)), Rollback(d.ops).value);
    FilterAll(B.GoesTo(source, db), records);
    FilterAll(B.HasText(), records);
  }

  lemma {:induction false} TextReads(d: V.DDL, op: AlterOp)
    requires Undoing(op)
    ensures ReadUndo(Written(ItemOf(d, op)).sql) == S.Got(AlterBack(TableRef(d.schema, d.table), op), [])
  {
    ReadsUndo(AlterBack(TableRef(d.schema, d.table), op));
  }

  /** The texts of a rollback, read backwards. */
  lemma {:induction false} BackwardTexts(d: V.DDL, undos: seq<AlterOp>, read: seq<string>)
    requires forall op :: op in undos ==> Undoing(op)
    requires read == Reverse(Map((r: B.Rollback) => r.sql, Map((a: AlterOp) => Written(ItemOf(d, a)), undos)))
    ensures |read| == |undos|
    ensures forall i :: 0 <= i < |read| ==>
              ReadUndo(read[i]) == S.Got(AlterBack(TableRef(d.schema, d.table), Reverse(undos)[i]), [])
  {
    forall i | 0 <= i < |read|
      ensures ReadUndo(read[i]) == S.Got(AlterBack(TableRef(d.schema, d.table), Reverse(undos)[i]), [])
    {
      var op := Reverse(undos)[i];
      assert op == undos[|undos| - 1 - i] && op in undos;
      TextReads(d, op);
    }
  }

  /** An ALTER whose backup was completed reads back, by descending id, as the statements of its rollback, in the
      order opposite to that in which they were emitted. */
  lemma {:induction false} AlterReadsBack(env: Env, statements: seq<Statement>, results: seq<Result>,
                                          journal: seq<X.Executed>,
                       stores: seq<B.Contents>, after: B.Contents, j: nat, d: V.DDL)
    requires Numbered(statements) && InTurn(results) && Journal(env, statements, results, journal, stores)
        && j < |journal|
    requires StoreLeft(env, statements, results, stores[|journal|], after) && NewIds(stores[0], journal)
    requires forall i :: 0 <= i < |results| && results[i].completed ==> results[i].fault.None?
    requires var k := Completed(results)[j];
             1 <= k <= |statements| ==> statements[k - 1].dml.None? && statements[k - 1].ddl == Some(d)
    requires d.action.AlterTable? && d.table != ""
    ensures Rollback(d.ops).Some?
    ensures Rollback(d.ops).value != [] ==>
              var read := B.ReadBack(B.At(after, B.BackupName(env.source, d.schema)), journal[j].op.opid);
              |read| == |Rollback(d.ops).value|
              && forall i :: 0 <= i < |read| ==>
                   ReadUndo(read[i])
                   == S.Got(AlterBack(TableRef(d.schema, d.table), Reverse(Rollback(d.ops).value)[i]), [])
  {
    var op, db := journal[j].op, B.BackupName(env.source, d.schema);
    EntryIsPrepared(env, statements, results, journal, stores, j);
    var creates := env.answers(Completed(results)[j]).creates;
    PreparedExists(d, creates);
    RollbackExists(d.ops);
    var undos := Rollback(d.ops).value;
    if undos != [] {
      AlterRecordsAre(env.source, d, creates, op);
      EntryReadsBack(env, statements, results, journal, stores, after, j, db);
      RollbackUndoes(d.ops);
      BackwardTexts(d, undos, B.ReadBack(B.At(after, db), op.opid));
    }
  }
}
