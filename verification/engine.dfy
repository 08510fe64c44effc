/** Running a checked batch on the target server (internal/execution/mysql/engine.go). What the two
    servers answer is left open; what has taken effect on the target is recorded in `Target`, what has
    been stored is in the backup store, and the binlog is any stream of events. */
module Engine {
  import opened Text
  import opened Catalog
  import opened Seqs
  import opened Snapshot
  import V = Views
  import D = DDLText
  import C = Capture
  import G = Generator
  import B = Store
  import R = Restore
  import X = EndToEnd

  datatype Kind =
    | Unknown | Use | Select | Insert | Update | Delete | CreateDatabase | AlterDatabase | DropDatabase
    | CreateTable | AlterTable | DropTable | RenameTable | TruncateTable | CreateIndex | DropIndexes
    | CreateView | AlterView | DropView

  datatype DML = DML(tables: seq<TableRef>, valueRows: nat, insertSelect: bool)

  datatype Statement = Statement(
    sequence: nat, kind: Kind, database: string, ddl: Option<V.DDL>, dml: Option<DML>, supported: bool)

  /** Statements are numbered from 1 in the order of the batch. */
  predicate Numbered(statements: seq<Statement>) {
    forall i :: 0 <= i < |statements| ==> statements[i].sequence == i + 1
  }

  datatype Fault = NoRule | ExecutionFailed | BinlogPrereq | BackupFailed

  datatype Result = Result(sequence: nat, executed: bool, completed: bool, fault: Option<Fault>)

  /** The statements that took effect on the target. */
  class Target {
    var executed: seq<nat>

    constructor ()
      ensures executed == []
    {
      executed := [];
    }
  }

  /** What the servers answer while a statement is run: the second it is begun, whether the binlog position is
      known before and after it, SHOW CREATE TABLE, whether the target accepts it, and whether the pause after
      it is left to run out. */
  datatype Answers = Answers(
    time: nat, start: bool, creates: TableRef -> Option<string>, accepted: bool, end: bool, goesOn: bool)

  /** What a run finds: the character set, the tables as the target describes them, the server's name
      and the connection's thread; a fault if the connection or its variables fail, and whether the backup
      prerequisites are met. For statement k: the answers, the binlog positions before and after it, the number of
      rows that the server reports, the events that can be read from the binlog after it, and the call to
      the backup server that fails, if any, while it is saved. */
  datatype Env = Env(
    cs: G.Charset, meta: C.Metadata, source: B.Source, thread: nat, refused: Option<Fault>, ready: bool,
    answers: nat -> Answers, start: nat -> C.Position, end: nat -> C.Position, affected: nat -> nat,
    binlog: nat -> seq<C.Event>, stops: nat -> string -> B.Stop)

  /** Whether a statement is backed up. */
  predicate Changing(s: Statement) { s.kind != Use && s.kind != Select }

  /** prepareDDLRollback refuses these whatever the server answers. */
  predicate Irreversible(s: Statement) { s.ddl.Some? && D.Irreversible(s.ddl.value) }

  // ---------------------------------------------------------------- what a run amounts to

  /** A result that reports success says what happened; one that does not says how far it got. */
  predicate Honest(s: Statement, backup: bool, r: Result) {
    r.sequence == s.sequence
    && (r.fault.None? ==> r.executed && (r.completed <==> backup && Changing(s)))
    && (r.fault.Some? ==> !r.completed && (r.executed ==> backup && Changing(s) && r.fault == Some(BackupFailed)))
    && (r.executed && backup && Changing(s) ==> !Irreversible(s))
  }

  /** The results are those of a prefix of the batch, in which only the last can have failed. */
  predicate PrefixRun(statements: seq<Statement>, backup: bool, results: seq<Result>) {
    |results| <= |statements|
    && (forall i :: 0 <= i < |results| ==> Honest(statements[i], backup, results[i]))
    && (forall i :: 0 <= i < |results| - 1 ==> results[i].fault.None?)
  }

  function Executed(results: seq<Result>): seq<nat> {
    if results == [] then []
    else
      var r := results[|results| - 1];
      Executed(results[..|results| - 1]) + (if r.executed then [r.sequence] else [])
  }

  function Completed(results: seq<Result>): seq<nat> {
    if results == [] then []
    else
      var r := results[|results| - 1];
      Completed(results[..|results| - 1]) + (if r.completed then [r.sequence] else [])
  }

  /** The connection, the session variables or the backup prerequisites failed. */
  predicate SetUpFailure(results: seq<Result>) {
    |results| == 1 && results[0].sequence == 1 && !results[0].executed && !results[0].completed
        && results[0].fault.Some?
  }

  /** Nothing runs without its predecessors: what took effect is an initial part of the batch, up to
      the last result, which may or may not have taken effect. */
  lemma {:induction false} ExecutedIsPrefix(statements: seq<Statement>, backup: bool, results: seq<Result>)
    requires Numbered(statements) && PrefixRun(statements, backup, results)
    ensures Executed(results) == seq(|Executed(results)|, i => i + 1)
    ensures |Executed(results)| == |results| || (|Executed(results)| == |results| - 1
                                                 && results[|results| - 1].fault.Some?)
    decreases |results|
  {
    if results != [] {
      var init := results[..|results| - 1];
      ExecutedIsPrefix(statements, backup, init);
      assert init != [] ==> init[|init| - 1].fault.None?;
      assert Honest(statements[|init|], backup, results[|init|]);
    }
  }

  /** With backup on, at most one changing statement has run without a completed backup, and it is
      the last; it can be undone in kind. */
  lemma AtMostOneUnsaved(statements: seq<Statement>, results: seq<Result>, i: nat)
    requires PrefixRun(statements, true, results)
    requires i < |results| && results[i].executed && Changing(statements[i]) && !results[i].completed
    ensures i == |results| - 1 && results[i].fault == Some(BackupFailed) && !Irreversible(statements[i])
  {
    assert Honest(statements[i], true, results[i]);
  }

  /** Undo is stored for exactly the changing statements that have run, but for the last if it failed. */
  lemma {:induction false} SavedAreTheChanges(statements: seq<Statement>, results: seq<Result>, k: nat)
    requires Numbered(statements) && PrefixRun(statements, true, results)
    ensures k in Completed(results) <==>
        1 <= k <= |results| && statements[k - 1].kind != Use && statements[k - 1].kind != Select
        && results[k - 1].fault.None?
    decreases |results|
  {
    if results != [] {
      var n := |results| - 1;
      var init := results[..n];
      SavedAreTheChanges(statements, init, k);
      assert Honest(statements[n], true, results[n]);
      assert 1 <= k <= n ==> init[k - 1] == results[k - 1];
    }
  }

  // ---------------------------------------------------------------- operation ids

  function Zeros(n: nat): (r: string)
    ensures |r| == n
  {
    if n == 0 then [] else ['0'] + Zeros(n - 1)
  }

  /** The format %08d. */
  function Padded(n: nat): string {
    var t := NatText(n); if |t| < 8 then Zeros(8 - |t|) + t else t
  }

  /** The id of an operation: the second it was begun, the thread, and the number of the statement. */
  function OpId(time: nat, thread: nat, n: nat): string {
    NatText(time) + "_" + NatText(thread) + "_" + Padded(n)
  }

  lemma {:induction false} ZerosValue(n: nat, t: string)
    requires forall i :: 0 <= i < |t| ==> '0' <= t[i] <= '9'
    ensures forall i :: 0 <= i < n + |t| ==> '0' <= (Zeros(n) + t)[i] <= '9'
    ensures NatValue(Zeros(n) + t) == NatValue(t)
  {
    if n == 0 {
      assert Zeros(0) + t == t;
    } else {
      ZerosValue(n - 1, t);
      LeadingZero(Zeros(n - 1) + t);
      assert Zeros(n) + t == ['0'] + (Zeros(n - 1) + t);
    }
  }

  lemma {:induction false} LeadingZero(t: string)
    requires forall i :: 0 <= i < |t| ==> '0' <= t[i] <= '9'
    ensures NatValue(['0'] + t) == NatValue(t)
    decreases |t|
  {
    var u := ['0'] + t;
    if t != [] {
      LeadingZero(t[..|t| - 1]);
      assert u[..|u| - 1] == ['0'] + t[..|t| - 1];
    } else {
      assert u == ['0'] && u[..0] == [];
    }
  }

  lemma PaddedValue(n: nat)
    ensures forall i :: 0 <= i < |Padded(n)| ==> '0' <= Padded(n)[i] <= '9'
    ensures NatValue(Padded(n)) == n
  {
    var t := NatText(n);
    NatTextValue(n);
    if |t| < 8 {
      ZerosValue(8 - |t|, t);
    }
  }

  /** Digits behind the last underscore are where they are. */
  lemma LastPart(a: string, x: string, b: string, y: string)
    requires a + "_" + x == b + "_" + y
    requires (forall i :: 0 <= i < |x| ==> x[i] != '_') && (forall i :: 0 <= i < |y| ==> y[i] != '_')
    ensures x == y
  {
    var s := a + "_" + x;
    assert s[|a|] == '_' && s[|b|] == '_';
    assert forall i :: |a| < i < |s| ==> s[i] == x[i - |a| - 1];
    assert forall i :: |b| < i < |s| ==> s[i] == y[i - |b| - 1];
    assert |a| == |b|;
    assert x == s[|a| + 1..] && y == s[|b| + 1..];
  }

  /** Nothing in front of the last underscore is lost. */
  lemma FirstPart(a: string, x: string, b: string, y: string)
    requires a + "_" + x == b + "_" + y
    requires (forall i :: 0 <= i < |x| ==> x[i] != '_') && (forall i :: 0 <= i < |y| ==> y[i] != '_')
    ensures a == b
  {
    LastPart(a, x, b, y);
    var s := a + "_" + x;
    assert |a| == |b| && a == s[..|a|] && b == s[..|b|];
  }

  /** An id tells the second, the thread and the statement; so statements of one batch have different ids,
      however the clock goes. */
  lemma OpIdTellsStatements(time: nat, time': nat, thread: nat, thread': nat, m: nat, n: nat)
    requires OpId(time, thread, m) == OpId(time', thread', n)
    ensures m == n && thread == thread' && time == time'
  {
    PaddedValue(m);
    PaddedValue(n);
    var head, head' := NatText(time) + "_" + NatText(thread), NatText(time') + "_" + NatText(thread');
    LastPart(head, Padded(m), head', Padded(n));
    FirstPart(head, Padded(m), head', Padded(n));
    LastPart(NatText(time), NatText(thread), NatText(time'), NatText(thread'));
    FirstPart(NatText(time), NatText(thread), NatText(time'), NatText(thread'));
    NatTextValue(time);
    NatTextValue(time');
    NatTextValue(thread);
    NatTextValue(thread');
  }

  /** The three parts of an id are decimal numerals, the last of at least eight digits. */
  lemma OpIdForm(time: nat, thread: nat, n: nat) returns (a: string, b: string, c: string)
    ensures OpId(time, thread, n) == a + "_" + b + "_" + c && |c| >= 8 && (n >= 100_000_000 ==> c[0] != '0')
    ensures forall s :: s in {a, b, c} ==> forall i :: 0 <= i < |s| ==> '0' <= s[i] <= '9'
    ensures NatValue(a) == time && NatValue(b) == thread && NatValue(c) == n
  {
    a, b, c := NatText(time), NatText(thread), Padded(n);
    NatTextValue(time);
    NatTextValue(thread);
    PaddedValue(n);
    if n >= 100_000_000 {
      LongText(n, 8);
      FirstDigit(n);
    }
  }

  function Tens(k: nat): nat { if k == 0 then 1 else 10 * Tens(k - 1) }

  lemma {:induction false} LongText(n: nat, k: nat)
    requires n >= Tens(k)
    ensures |NatText(n)| > k
    decreases k
  {
    if k > 0 {
      LongText(n / 10, k - 1);
    }
  }

  lemma {:induction false} FirstDigit(n: nat)
    requires n > 0
    ensures NatText(n)[0] != '0'
  {
    if n >= 10 {
      FirstDigit(n / 10);
    }
  }

  // ---------------------------------------------------------------- what is recorded

  /** The changes are those collected for the statement. */
  ghost predicate Captured(env: Env, s: Statement, changes: seq<G.RowChange>) {
    var k := s.sequence;
    C.Collected(env.meta, env.start(k), env.end(k), env.thread, env.affected(k), env.binlog(k)) == Some(changes)
  }

  function IdAt(env: Env, s: Statement, time: nat): string {
    OpId(time, env.thread, if s.sequence > 0 then s.sequence - 1 else 0)
  }

  predicate IdOf(env: Env, s: Statement, opid: string) { opid == IdAt(env, s, env.answers(s.sequence).time) }

  /** The rollback records prepared for a statement before it is run. */
  function PreparedOf(env: Env, s: Statement): Option<seq<B.Rollback>> {
    if s.ddl.None? then Some([]) else D.PreparedRecords(s.ddl.value, env.answers(s.sequence).creates)
  }

  /** What is recorded for a statement: for DML the undo of every captured change, else what was prepared. */
  ghost predicate EntryOf(env: Env, s: Statement, e: X.Executed) {
    IdOf(env, s, e.op.opid) && e.op.source == env.source
    && if s.dml.Some? then Captured(env, s, e.changes) && X.Recorded(env.cs, e)
       else e.changes == [] && PreparedOf(env, s) == Some(e.op.rollbacks)
  }

  /** Statements ks were recorded in order: what was recorded for each, and the store before and after. */
  ghost predicate Entries(env: Env, statements: seq<Statement>, ks: seq<nat>, es: seq<X.Executed>,
                          ss: seq<B.Contents>) {
    Linked(EntryStep(env, statements), ks, es, ss)
  }

  ghost function EntryStep(env: Env, statements: seq<Statement>): (nat, X.Executed, B.Contents, B.Contents) -> bool {
    (k: nat, e: X.Executed, before: B.Contents, after: B.Contents) => Entered(env, statements, k, e, before, after)
  }

  /** The journal of a run has one entry for each completed statement. */
  ghost predicate Journal(env: Env, statements: seq<Statement>, results: seq<Result>,
                          journal: seq<X.Executed>, stores: seq<B.Contents>)
  {
    Entries(env, statements, Completed(results), journal, stores)
  }

  /** Statement k was recorded by `e`, which was saved. */
  ghost predicate Entered(env: Env, statements: seq<Statement>, k: nat, e: X.Executed, before: B.Contents,
                          after: B.Contents) {
    1 <= k <= |statements| && EntryOf(env, statements[k - 1], e) && B.Saved(before, e.op, after)
  }

  /** What the store is left with: what the journal says, or on top of that what a failed Save of the last
      statement has left. */
  ghost predicate StoreLeft(env: Env, statements: seq<Statement>, results: seq<Result>, before: B.Contents,
                            after: B.Contents) {
    after == before
    || (0 < |results| <= |statements|
        && results[|results| - 1].executed && results[|results| - 1].fault == Some(BackupFailed)
        && exists op: B.Operation :: IdOf(env, statements[|results| - 1], op.opid) && B.FailedSave(before, op, after))
  }

  // ---------------------------------------------------------------- what the answers lead to

  /** The records of a statement that has run, if there are any to be had. */
  ghost function RecordsOf(env: Env, s: Statement): Option<seq<B.Rollback>> {
    var k := s.sequence;
    if s.dml.None? then PreparedOf(env, s)
    else match C.Collected(env.meta, env.start(k), env.end(k), env.thread, env.affected(k), env.binlog(k))
      case None => None
      case Some(changes) => if R.Undoable(env.cs, changes) then Some(Map(X.RecordFn(env.cs), changes)) else None
  }

  function OperationOf(env: Env, s: Statement, rollbacks: seq<B.Rollback>): B.Operation {
    B.Operation(IdAt(env, s, env.answers(s.sequence).time), env.source, StatementObject(s).0, StatementObject(s).1,
                rollbacks)
  }

  /** The backup of a statement that has run can be completed. */
  ghost predicate CanRecord(env: Env, s: Statement, c: B.Contents) {
    env.answers(s.sequence).end && RecordsOf(env, s).Some?
    && B.Storable(c, OperationOf(env, s, RecordsOf(env, s).value), env.stops(s.sequence))
  }

  /** What becomes of a statement, when the store holds `c` before it. */
  ghost function ResultOf(env: Env, s: Statement, backup: bool, c: B.Contents): Result {
    var k, a := s.sequence, env.answers(s.sequence);
    if !backup || s.kind == Use || s.kind == Select then
      Result(k, a.accepted, false, if a.accepted then None else Some(NoRule))
    else if !a.start then Result(k, false, false, Some(BinlogPrereq))
    else if PreparedOf(env, s).None? then Result(k, false, false, Some(BackupFailed))
    else if !a.accepted then Result(k, false, false, Some(NoRule))
    else if CanRecord(env, s, c) then Result(k, true, true, None)
    else Result(k, true, false, Some(BackupFailed))
  }

  /** Every statement up to the end of the results has gone as the answers say, from what the store held when it
      was begun. */
  ghost predicate Explained(env: Env, statements: seq<Statement>, backup: bool, results: seq<Result>,
                            stores: seq<B.Contents>) {
    |results| <= |statements|
    && forall k :: 0 <= k < |results| ==>
         |Completed(results[..k])| < |stores|
         && results[k] == ResultOf(env, statements[k], backup, stores[|Completed(results[..k])|])
  }

  /** The run ended with the batch, with a fault, or with a pause that was cut short. */
  predicate EndsForAReason(env: Env, statements: seq<Statement>, results: seq<Result>) {
    |results| < |statements| ==>
      results != [] && (results[|results| - 1].fault.Some? || !env.answers(|results|).goesOn)
  }

  /** The whole run, as the answers say. */
  ghost predicate Ran(env: Env, statements: seq<Statement>, backup: bool, results: seq<Result>,
                      stores: seq<B.Contents>) {
    if env.refused.Some? then results == [Result(1, false, false, env.refused)]
    else if backup && !env.ready then results == [Result(1, false, false, Some(BinlogPrereq))]
    else Explained(env, statements, backup, results, stores) && EndsForAReason(env, statements, results)
  }

  // ---------------------------------------------------------------- the run

  /** One statement without backup, or one that changes nothing. */
  method RunPlain(env: Env, t: Target, s: Statement) returns (r: Result)
    modifies t
    ensures r == Result(s.sequence, r.executed, false, if r.executed then None else Some(NoRule))
    ensures r.executed == env.answers(s.sequence).accepted
    ensures Honest(s, false, r) && (!Changing(s) ==> Honest(s, true, r))
    ensures t.executed == old(t.executed) + if r.executed then [s.sequence] else []
  {
    if !env.answers(s.sequence).accepted {
      return Result(s.sequence, false, false, Some(NoRule));
    }
    t.executed := t.executed + [s.sequence];
    return Result(s.sequence, true, false, None);
  }

  /** statementObject */
  function StatementObject(s: Statement): (string, string) {
    if s.ddl.Some? then (s.ddl.value.schema, s.ddl.value.table)
    else if s.dml.Some? && s.dml.value.tables != [] then (s.dml.value.tables[0].schema, s.dml.value.tables[0].name)
    else (s.database, "statement")
  }

  /** The rollback records of a statement that has run: for DML, the binlog between the two positions is
      read and the undo of each change generated; for DDL they were prepared. */
  method Rollbacks(env: Env, s: Statement, prepared: seq<B.Rollback>)
    returns (r: Option<seq<B.Rollback>>, ghost changes: seq<G.RowChange>)
    requires PreparedOf(env, s) == Some(prepared)
    ensures r == RecordsOf(env, s)
    ensures r.Some? && s.dml.Some? ==> Captured(env, s, changes)
    ensures r.Some? && s.dml.Some? ==> R.Undoable(env.cs, changes) && r.value == Map(X.RecordFn(env.cs), changes)
    ensures s.dml.None? ==> r == Some(prepared) && changes == []
  {
    changes := [];
    if s.dml.None? {
      return Some(prepared), [];
    }
    var k := s.sequence;
    var captured := C.Collect(env.meta, env.start(k), env.end(k), env.thread, env.affected(k), env.binlog(k));
    if captured.None? {
      return None, [];
    }
    r := X.CollectRollbacks(env.cs, captured.value);
    changes := captured.value;
  }

  /** The end of the loop body: position, rollback records and the store. */
  method Record(env: Env, store: B.BackupStore, s: Statement, prepared: seq<B.Rollback>)
    returns (completed: bool, ghost e: X.Executed)
    requires s.sequence > 0 && PreparedOf(env, s) == Some(prepared)
    modifies store
    ensures completed == CanRecord(env, s, old(store.dbs))
    ensures completed ==> EntryOf(env, s, e) && B.Saved(old(store.dbs), e.op, store.dbs)
    ensures !completed ==>
              store.dbs == old(store.dbs) || (IdOf(env, s, e.op.opid) && B.FailedSave(old(store.dbs), e.op, store.dbs))
  {
    var subject, opid := StatementObject(s), IdAt(env, s, env.answers(s.sequence).time);
    e := X.Executed(B.Operation(opid, env.source, subject.0, subject.1, []), []);
    if !env.answers(s.sequence).end {
      return false, e;
    }
    var rollbacks;
    ghost var changes;
    rollbacks, changes := Rollbacks(env, s, prepared);
    if rollbacks.None? {
      return false, e;
    }
    var op := B.Operation(opid, env.source, subject.0, subject.1, rollbacks.value);
    e := X.Executed(op, changes);
    assert IdOf(env, s, op.opid);
    var first := store.Save(op, env.stops(s.sequence));
    return first.Some?, e;
  }

  /** One changing statement with backup: position, rollback of DDL, the statement itself, and the record. */
  method RunSaved(env: Env, t: Target, store: B.BackupStore, s: Statement) returns (r: Result, ghost e: X.Executed)
    requires Changing(s) && s.sequence > 0
    modifies t, store
    ensures r == ResultOf(env, s, true, old(store.dbs)) && Honest(s, true, r)
    ensures t.executed == old(t.executed) + if r.executed then [s.sequence] else []
    ensures r.completed ==> EntryOf(env, s, e) && B.Saved(old(store.dbs), e.op, store.dbs)
    ensures !r.completed ==>
              store.dbs == old(store.dbs)
              || (r.executed && IdOf(env, s, e.op.opid) && B.FailedSave(old(store.dbs), e.op, store.dbs))
  {
    var a := env.answers(s.sequence);
    e := X.Executed(B.Operation("", env.source, "", "", []), []);
    if !a.start {
      return Result(s.sequence, false, false, Some(BinlogPrereq)), e;
    }
    var prepared: Option<seq<B.Rollback>> := Some([]);
    if s.ddl.Some? {
      prepared := D.PrepareDDLRollback(s.ddl.value, a.creates);
      D.PreparedExists(s.ddl.value, a.creates);
    }
    if prepared.None? {
      return Result(s.sequence, false, false, Some(BackupFailed)), e;
    }
    if !a.accepted {
      return Result(s.sequence, false, false, Some(NoRule)), e;
    }
    t.executed := t.executed + [s.sequence];
    var completed;
    completed, e := Record(env, store, s, prepared.value);
    return Result(s.sequence, true, completed, if completed then None else Some(BackupFailed)), e;
  }

  method RunOne(env: Env, t: Target, store: B.BackupStore, s: Statement, backup: bool)
      returns (r: Result, ghost e: X.Executed)
    requires s.sequence > 0
    modifies t, store
    ensures OneDone(env, s, backup, r, e, old(store.dbs), store.dbs)
    ensures t.executed == old(t.executed) + if r.executed then [r.sequence] else []
  {
    e := X.Executed(B.Operation("", env.source, "", "", []), []);
    if !backup || !Changing(s) {
      r := RunPlain(env, t, s);
    } else {
      r, e := RunSaved(env, t, store, s);
    }
  }

  lemma ExplainedSnoc(env: Env, statements: seq<Statement>, backup: bool, results: seq<Result>,
                      stores: seq<B.Contents>, r: Result, after: seq<B.Contents>)
    requires Explained(env, statements, backup, results, stores) && |results| < |statements|
    requires |stores| == |Completed(results)| + 1
    requires r == ResultOf(env, statements[|results|], backup, stores[|stores| - 1])
    requires after == stores || (|after| == |stores| + 1 && after[..|stores|] == stores)
    ensures Explained(env, statements, backup, results + [r], after)
  {
    var all := results + [r];
    forall k | 0 <= k < |all|
      ensures |Completed(all[..k])| < |after|
      ensures all[k] == ResultOf(env, statements[k], backup, after[|Completed(all[..k])|])
    {
      assert all[..k] == results[..k] && (k == |results| ==> all[..k] == results);
    }
  }

  lemma OneMore(statements: seq<Statement>, backup: bool, results: seq<Result>, r: Result)
    requires |results| < |statements| && PrefixRun(statements, backup, results)
        && Honest(statements[|results|], backup, r)
    requires forall i :: 0 <= i < |results| ==> results[i].fault.None?
    ensures PrefixRun(statements, backup, results + [r])
    ensures Executed(results + [r]) == Executed(results) + if r.executed then [r.sequence] else []
    ensures Completed(results + [r]) == Completed(results) + if r.completed then [r.sequence] else []
  {
    assert (results + [r])[..|results|] == results;
  }

  lemma OneMoreEntry(env: Env, statements: seq<Statement>, results: seq<Result>, r: Result,
                     journal: seq<X.Executed>, stores: seq<B.Contents>, e: X.Executed, after: B.Contents)
    requires Numbered(statements) && |results| < |statements| && r.sequence == |results| + 1
    requires Journal(env, statements, results, journal, stores)
    requires r.completed ==> EntryOf(env, statements[|results|], e) && B.Saved(stores[|journal|], e.op, after)
    ensures if r.completed then Journal(env, statements, results + [r], journal + [e], stores + [after])
            else Journal(env, statements, results + [r], journal, stores)
  {
    assert (results + [r])[..|results|] == results;
    if r.completed {
      LinkedSnoc(EntryStep(env, statements), Completed(results), journal, stores, r.sequence, e, after);
    }
  }

  lemma AfterOne(env: Env, statements: seq<Statement>, backup: bool, results: seq<Result>, r: Result,
                 journal: seq<X.Executed>, stores: seq<B.Contents>, e: X.Executed, after: B.Contents)
    requires Numbered(statements) && |results| < |statements| && PrefixRun(statements, backup, results)
    requires Honest(statements[|results|], backup, r) && forall i :: 0 <= i < |results| ==> results[i].fault.None?
    requires Journal(env, statements, results, journal, stores)
    requires r.completed ==> EntryOf(env, statements[|results|], e) && B.Saved(stores[|journal|], e.op, after)
    requires !r.completed ==>
               after == stores[|journal|]
               || (r.executed && r.fault == Some(BackupFailed) && IdOf(env, statements[|results|], e.op.opid)
                   && B.FailedSave(stores[|journal|], e.op, after))
    ensures PrefixRun(statements, backup, results + [r])
    ensures Executed(results + [r]) == Executed(results) + if r.executed then [r.sequence] else []
    ensures if r.completed then Journal(env, statements, results + [r], journal + [e], stores + [after])
            else Journal(env, statements, results + [r], journal, stores)
    ensures StoreLeft(env, statements, results + [r], if r.completed then after else stores[|journal|], after)
    ensures r.fault.None? && !r.completed ==> after == stores[|journal|]
  {
    OneMore(statements, backup, results, r);
    OneMoreEntry(env, statements, results, r, journal, stores, e, after);
  }

  /** The run is under way: nothing has failed so far. */
  ghost predicate Going(env: Env, statements: seq<Statement>, backup: bool, results: seq<Result>,
                        journal: seq<X.Executed>, stores: seq<B.Contents>, now: B.Contents) {
    PrefixRun(statements, backup, results) && (forall j :: 0 <= j < |results| ==> results[j].fault.None?)
    && Journal(env, statements, results, journal, stores) && Explained(env, statements, backup, results, stores)
    && stores[|journal|] == now
  }

  /** The run is over. */
  ghost predicate Finished(env: Env, statements: seq<Statement>, backup: bool, results: seq<Result>,
                           journal: seq<X.Executed>, stores: seq<B.Contents>, now: B.Contents) {
    PrefixRun(statements, backup, results) && Journal(env, statements, results, journal, stores)
    && Explained(env, statements, backup, results, stores) && EndsForAReason(env, statements, results)
    && StoreLeft(env, statements, results, stores[|journal|], now)
  }

  lemma GoingEnds(env: Env, statements: seq<Statement>, backup: bool, results: seq<Result>,
                  journal: seq<X.Executed>, stores: seq<B.Contents>, now: B.Contents)
    requires Going(env, statements, backup, results, journal, stores, now) && |results| == |statements|
    ensures Finished(env, statements, backup, results, journal, stores, now)
  {
  }

  /** What one statement has done, to the results and to the store. */
  ghost predicate OneDone(env: Env, s: Statement, backup: bool, r: Result, e: X.Executed, before: B.Contents,
                          after: B.Contents) {
    Honest(s, backup, r) && r == ResultOf(env, s, backup, before)
    && (r.completed ==> EntryOf(env, s, e) && B.Saved(before, e.op, after))
    && (!r.completed ==>
        after == before
        || (r.executed && r.fault == Some(BackupFailed) && IdOf(env, s, e.op.opid)
            && B.FailedSave(before, e.op, after)))
  }

  lemma GoingAfter(env: Env, statements: seq<Statement>, backup: bool, results: seq<Result>, r: Result,
                   journal: seq<X.Executed>, stores: seq<B.Contents>, e: X.Executed, before: B.Contents,
                   after: B.Contents)
    requires Numbered(statements) && |results| < |statements|
    requires Going(env, statements, backup, results, journal, stores, before)
    requires OneDone(env, statements[|results|], backup, r, e, before, after)
    ensures var journal' := if r.completed then journal + [e] else journal;
            var stores' := if r.completed then stores + [after] else stores;
            stores'[0] == stores[0]
            && (r.fault.None? ==> Going(env, statements, backup, results + [r], journal', stores', after))
            && (r.fault.Some? || !env.answers(|results| + 1).goesOn ==>
                Finished(env, statements, backup, results + [r], journal', stores', after))
  {
    AfterOne(env, statements, backup, results, r, journal, stores, e, after);
    ExplainedSnoc(env, statements, backup, results, stores, r, if r.completed then stores + [after] else stores);
  }

  lemma ExecutedSnoc(results: seq<Result>, r: Result)
    ensures Executed(results + [r]) == Executed(results) + if r.executed then [r.sequence] else []
  {
    assert (results + [r])[..|results|] == results;
  }

  /** The loop over the statements. */
  method RunStatements(env: Env, t: Target, store: B.BackupStore, statements: seq<Statement>, backup: bool)
    returns (results: seq<Result>, ghost journal: seq<X.Executed>, ghost stores: seq<B.Contents>)
    requires Numbered(statements)
    modifies t, store
    ensures Finished(env, statements, backup, results, journal, stores, store.dbs)
    ensures t.executed == old(t.executed) + Executed(results)
    ensures |stores| > 0 && stores[0] == old(store.dbs)
  {
    results, journal, stores := [], [], [store.dbs];
    for i := 0 to |statements|
      invariant |results| == i && Going(env, statements, backup, results, journal, stores, store.dbs)
      invariant t.executed == old(t.executed) + Executed(results)
      invariant |stores| > 0 && stores[0] == old(store.dbs)
    {
      ghost var before := store.dbs;
      var r;
      ghost var e;
      r, e := RunOne(env, t, store, statements[i], backup);
      GoingAfter(env, statements, backup, results, r, journal, stores, e, before, store.dbs);
      ExecutedSnoc(results, r);
      results := results + [r];
      if r.completed {
        journal, stores := journal + [e], stores + [store.dbs];
      }
      if r.fault.Some? || !env.answers(i + 1).goesOn {
        return;
      }
    }
    GoingEnds(env, statements, backup, results, journal, stores, store.dbs);
  }

  /** Execute. Setting up touches neither server's data; then the statements run one by one, until
      one fails or the pause between two of them is interrupted. */
  method Execute(env: Env, t: Target, store: B.BackupStore, statements: seq<Statement>, backup: bool)
    returns (results: seq<Result>, ghost journal: seq<X.Executed>, ghost stores: seq<B.Contents>)
    requires Numbered(statements)
    modifies t, store
    ensures SetUpFailure(results) || PrefixRun(statements, backup, results)
    ensures Ran(env, statements, backup, results, stores)
    ensures t.executed == old(t.executed) + Executed(results)
    ensures Journal(env, statements, results, journal, stores) && stores[0] == old(store.dbs)
    ensures StoreLeft(env, statements, results, stores[|journal|], store.dbs)
  {
    if env.refused.Some? || (backup && !env.ready) {
      results, journal, stores := [Result(1, false, false, if env.refused.Some? then env.refused
                                          else Some(BinlogPrereq))],
          [], [store.dbs];
      return;
    }
    results, journal, stores := RunStatements(env, t, store, statements, backup);
  }
}
