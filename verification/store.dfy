/** The backup store (internal/backup/mysqlstore/store.go): the rollback statements of one
    operation are divided among backup databases, written to each row by row, and found again
    through the operation's row in the information table.

    Every group is written inside a transaction. CREATE TABLE ends it (MySQL 8.0 Reference Manual,
    section "Statements That Cause an Implicit Commit"), so once the storage table has been
    created or found, each INSERT takes effect by itself and ROLLBACK undoes nothing. */
module Store {
  import opened Text
  import opened Catalog
  import opened Seqs

  datatype Rollback = Rollback(schema: string, table: string, sql: string)

  datatype Source = Source(host: string, port: nat)

  datatype Operation = Operation(opid: string, source: Source, schema: string, table: string, rollbacks: seq<Rollback>)

  /** One row of a backup table. Its id is its position: ids are handed out in order. */
  datatype Stored = Stored(sql: string, opid: string)

  datatype Info = Info(dbname: string, tablename: string)

  datatype BackupDb = BackupDb(tables: map<string, seq<Stored>>, info: map<string, Info>)

  type Contents = map<string, BackupDb>

  const EMPTY := BackupDb(map[], map[])

  function At(c: Contents, db: string): BackupDb { if db in c then c[db] else EMPTY }

  /** backupDBName: host, port and schema with '-' and '.' replaced, cut to the last 64 bytes. */
  function BackupName(source: Source, schema: string): string {
    var v := source.host + "_" + NatText(source.port) + "_" + schema;
    var w := Map((c: char) => if c == '-' || c == '.' then '_' else c, v);
    if |w| > 64 then w[|w| - 64..] else w
  }

  predicate IsMark(c: char) { c == '-' || c == '.' || c == '_' }

  /** Host, port and schema, as much of the end as 64 characters hold. */
  function Kept(source: Source, schema: string): string {
    var v := source.host + "_" + NatText(source.port) + "_" + schema;
    if |v| <= 64 then v else v[|v| - 64..]
  }

  /** The name of a backup database is that, with '-' and '.' written as '_'. */
  lemma BackupNameIs(source: Source, schema: string)
    ensures var v, n := Kept(source, schema), BackupName(source, schema);
            |n| == |v| <= 64 && forall k :: 0 <= k < |v| ==> n[k] == if IsMark(v[k]) then '_' else v[k]
  {
  }

  /** Two schemas share a backup database if and only if what is kept of them agrees but for '-', '.' and '_'. */
  lemma SharedBackup(source: Source, a: string, b: string)
    ensures var v, w := Kept(source, a), Kept(source, b);
            BackupName(source, a) == BackupName(source, b)
            <==> |v| == |w| && forall k :: 0 <= k < |v| ==> v[k] == w[k] || (IsMark(v[k]) && IsMark(w[k]))
  {
    var v, w, m, n := Kept(source, a), Kept(source, b), BackupName(source, a), BackupName(source, b);
    BackupNameIs(source, a);
    BackupNameIs(source, b);
    if m == n {
      forall k | 0 <= k < |v| ensures v[k] == w[k] || (IsMark(v[k]) && IsMark(w[k])) {
        assert m[k] == n[k];
      }
    }
  }

  /** Save writes a placeholder when there is nothing to roll back. */
  function Records(op: Operation): (r: seq<Rollback>)
    ensures r != []
  {
    if op.rollbacks == [] then [Rollback(op.schema, op.table, "")] else op.rollbacks
  }

  function GoesTo(source: Source, db: string): Rollback -> bool {
    (r: Rollback) => BackupName(source, r.schema) == db
  }

  /** The records of one backup database, in the order they were generated. */
  function Group(source: Source, records: seq<Rollback>, db: string): seq<Rollback> {
    Filter(GoesTo(source, db), records)
  }

  function Databases(source: Source, records: seq<Rollback>): set<string> {
    set r | r in records :: BackupName(source, r.schema)
  }

  /** The table that holds the whole group: that of the first record that names one. */
  function StorageTable(records: seq<Rollback>): string {
    if records == [] then "" else if records[0].table != "" then records[0].table else StorageTable(records[1..])
  }

  function HasText(): Rollback -> bool { (r: Rollback) => r.sql != "" }

  /** The rows written for a group. */
  function RowsOf(records: seq<Rollback>, opid: string): seq<Stored> {
    Map((r: Rollback) => Stored(r.sql, opid), Filter(HasText(), records))
  }

  function Existing(b: BackupDb, table: string): seq<Stored> { if table in b.tables then b.tables[table] else [] }

  /** The database with rows added behind those of a table, which is created if need be. */
  function Inserted(b: BackupDb, table: string, rows: seq<Stored>): BackupDb {
    b.(tables := b.tables[table := Existing(b, table) + rows])
  }

  /** The database with the operation's row in the information table. */
  function Informed(b: BackupDb, opid: string, first: Rollback): BackupDb {
    b.(info := b.info[opid := Info(first.schema, first.table)])
  }

  /** The database with a whole group saved, or nothing if the group is refused. */
  function SaveGroup(b: BackupDb, opid: string, records: seq<Rollback>): Option<BackupDb> {
    var table := StorageTable(records);
    if records == [] then Some(b)
    else if opid in b.info || (table == "" && Filter(HasText(), records) != []) then None
    else Some(Informed(if table == "" then b else Inserted(b, table, RowsOf(records, opid)), opid, records[0]))
  }

  /** The statements that the rows hold for an operation. */
  function Texts(opid: string, rows: seq<Stored>): seq<string> {
    Map((r: Stored) => r.sql, Filter((r: Stored) => r.opid == opid, rows))
  }

  /** The statements of an operation in one backup database, latest id first. */
  function ReadBack(b: BackupDb, opid: string): seq<string> {
    if opid !in b.info then [] else Reverse(Texts(opid, Existing(b, b.info[opid].tablename)))
  }

  // ---------------------------------------------------------------- saving one operation

  lemma {:induction false} GroupIsEmpty(source: Source, records: seq<Rollback>, db: string)
    ensures Group(source, records, db) == [] <==> db !in Databases(source, records)
  {
    FilterMembers(GoesTo(source, db), records);
    if db in Databases(source, records) {
      var r :| r in records && BackupName(source, r.schema) == db;
      assert r in Group(source, records, db);
    }
    if Group(source, records, db) != [] {
      var r := Group(source, records, db)[0];
      assert r in Group(source, records, db);
    }
  }

  lemma GroupSnoc(source: Source, records: seq<Rollback>, r: Rollback, db: string)
    ensures Group(source, records + [r], db)
         == Group(source, records, db) + (if BackupName(source, r.schema) == db then [r] else [])
  {
    FilterConcat(GoesTo(source, db), records, [r]);
    assert [r][1..] == [];
  }

  lemma DatabasesSnoc(source: Source, records: seq<Rollback>, r: Rollback)
    ensures Databases(source, records + [r]) == Databases(source, records) + {BackupName(source, r.schema)}
  {
    forall db ensures db in Databases(source, records + [r]) <==>
        db in Databases(source, records) || db == BackupName(source, r.schema) {
      if db in Databases(source, records) {
        var x :| x in records && BackupName(source, x.schema) == db;
        assert x in records + [r];
      }
      assert r in records + [r];
    }
  }

  lemma SomeDatabase(op: Operation)
    ensures Databases(op.source, Records(op)) != {}
  {
    var r := Records(op)[0];
    assert BackupName(op.source, r.schema) in Databases(op.source, Records(op));
  }

  /** `byDB` holds the groups of the records seen so far. */
  ghost predicate Partitioned(source: Source, records: seq<Rollback>, byDB: map<string, seq<Rollback>>) {
    byDB.Keys == Databases(source, records) && forall db :: db in byDB ==> byDB[db] == Group(source, records, db)
  }

  lemma PartitionStep(source: Source, records: seq<Rollback>, byDB: map<string, seq<Rollback>>, r: Rollback)
    requires Partitioned(source, records, byDB)
    ensures var db := BackupName(source, r.schema);
            Partitioned(source, records + [r], byDB[db := (if db in byDB then byDB[db] else []) + [r]])
  {
    var db := BackupName(source, r.schema);
    DatabasesSnoc(source, records, r);
    GroupIsEmpty(source, records, db);
    forall d ensures Group(source, records + [r], d) == Group(source, records, d) + (if db == d then [r] else []) {
      GroupSnoc(source, records, r, d);
    }
  }

  // ---------------------------------------------------------------- how far a group gets

  /** The call to the backup server that fails, if one does. */
  datatype Stop = Never | AtSchema | AtBegin | AtCreate | AtInsert(row: nat) | AtInfo | AtCommit

  datatype Written = Written(ok: bool, db: BackupDb)

  /** What is in the database after one group, when the server fails at `stop`. */
  function Write(b: BackupDb, opid: string, group: seq<Rollback>, stop: Stop): Written {
    var table, rows := StorageTable(group), RowsOf(group, opid);
    if group == [] then Written(true, b)
    else if stop.AtSchema? || stop.AtBegin? then Written(false, b)
    else if table == "" then
      if rows != [] || opid in b.info || stop.AtInfo? || stop.AtCommit? then Written(false, b)
      else Written(true, Informed(b, opid, group[0]))
    else if stop.AtCreate? then Written(false, b)
    else if stop.AtInsert? && stop.row < |rows| then Written(false, Inserted(b, table, rows[..stop.row]))
    else if opid in b.info || stop.AtInfo? then Written(false, Inserted(b, table, rows))
    else Written(!stop.AtCommit?, Informed(Inserted(b, table, rows), opid, group[0]))
  }

  /** `b'` holds the whole group, or nothing of it, or its first rows without the information row. */
  ghost predicate LeftIn(b: BackupDb, opid: string, group: seq<Rollback>, b': BackupDb) {
    b' == b || SaveGroup(b, opid, group) == Some(b') || Orphaned(b, opid, group, b')
  }

  ghost predicate Orphaned(b: BackupDb, opid: string, group: seq<Rollback>, b': BackupDb) {
    StorageTable(group) != ""
    && exists k :: 0 <= k <= |RowsOf(group, opid)| && b' == Inserted(b, StorageTable(group), RowsOf(group, opid)[..k])
  }

  /** A group that is written succeeds as a whole; one that is not may leave its first rows behind. */
  lemma WriteLeaves(b: BackupDb, opid: string, group: seq<Rollback>, stop: Stop)
    ensures var w := Write(b, opid, group, stop);
            LeftIn(b, opid, group, w.db) && (w.ok ==> SaveGroup(b, opid, group) == Some(w.db))
    ensures Write(b, opid, group, Never).ok <==> SaveGroup(b, opid, group).Some?
  {
    var rows := RowsOf(group, opid);
    assert rows[..|rows|] == rows;
    var w := Write(b, opid, group, stop);
    if !w.ok && w.db != b && !(stop.AtCommit? && opid !in b.info) {
      var k := if stop.AtInsert? && stop.row < |rows| then stop.row else |rows|;
      assert w.db == Inserted(b, StorageTable(group), rows[..k]);
    }
  }

  ghost predicate SameRows(b: BackupDb, b': BackupDb) {
    b'.info == b.info && forall t :: Existing(b', t) == Existing(b, t)
  }

  /** The failure came before an INSERT had taken effect. */
  predicate BeforeFirstInsert(b: BackupDb, opid: string, group: seq<Rollback>, stop: Stop) {
    stop.AtSchema? || stop.AtBegin? || stop.AtCreate? || stop == AtInsert(0)
    || (RowsOf(group, opid) == [] && (stop.AtInfo? || opid in b.info))
  }

  /** A group that fails leaves nothing behind if and only if it names no table, so that the
      transaction is still open, or it failed before the first INSERT. */
  lemma FailureLeavesNothing(b: BackupDb, opid: string, group: seq<Rollback>, stop: Stop)
    requires !Write(b, opid, group, stop).ok
    ensures SameRows(b, Write(b, opid, group, stop).db)
       <==> StorageTable(group) == "" || BeforeFirstInsert(b, opid, group, stop)
  {
    var table, rows := StorageTable(group), RowsOf(group, opid);
    var after := Write(b, opid, group, stop).db;
    if table != "" && after != b {
      var k := if stop.AtInsert? && stop.row < |rows| then stop.row else |rows|;
      assert Existing(after, table) == Existing(b, table) + rows[..k];
      assert |Existing(after, table)| == |Existing(b, table)| + k;
      assert k == 0 ==> rows[..k] == [];
    }
  }

  /** Two rollback statements of a table, of which the second cannot be stored: the first stays, and
      no row of the information table tells of it. */
  lemma OrphanRow(table: string, one: string, two: string, opid: string)
    requires table != "" && one != "" && two != ""
    ensures var group := [Rollback("s", table, one), Rollback("s", table, two)];
            var w := Write(EMPTY, opid, group, AtInsert(1));
            !w.ok && Existing(w.db, table) == [Stored(one, opid)] && opid !in w.db.info
  {
    var group := [Rollback("s", table, one), Rollback("s", table, two)];
    assert group[1..] == [Rollback("s", table, two)] && group[1..][1..] == [];
    assert HasText()(group[0]) && HasText()(group[1]);
    FilterAll(HasText(), group);
    assert RowsOf(group, opid) == [Stored(one, opid), Stored(two, opid)];
  }

  // ---------------------------------------------------------------- a whole operation

  function GroupOf(op: Operation, db: string): seq<Rollback> { Group(op.source, Records(op), db) }

  /** `c'` is `c` with the whole operation saved. */
  ghost predicate Saved(c: Contents, op: Operation, c': Contents) {
    forall db :: SaveGroup(At(c, db), op.opid, GroupOf(op, db)) == Some(At(c', db))
  }

  /** `c'` is `c` with the groups of the databases in `done` saved. */
  ghost predicate SavedIn(c: Contents, op: Operation, c': Contents, done: set<string>) {
    forall db ::
      if db in done then SaveGroup(At(c, db), op.opid, GroupOf(op, db)) == Some(At(c', db))
      else At(c', db) == At(c, db)
  }

  /** Save failed: some groups had been saved, then one failed at `stop`, and the rest was not begun. */
  ghost predicate FailedAt(c: Contents, op: Operation, c': Contents, done: set<string>, db: string, stop: Stop) {
    db in Databases(op.source, Records(op)) && db !in done
    && !Write(At(c, db), op.opid, GroupOf(op, db), stop).ok
    && forall d :: if d == db then At(c', d) == Write(At(c, d), op.opid, GroupOf(op, d), stop).db
                   else if d in done then SaveGroup(At(c, d), op.opid, GroupOf(op, d)) == Some(At(c', d))
                   else At(c', d) == At(c, d)
  }

  /** Whether the group of one database is written, when the call that fails there is `stops(db)`. */
  predicate Fits(c: Contents, op: Operation, stops: string -> Stop, db: string) {
    Write(At(c, db), op.opid, GroupOf(op, db), stops(db)).ok
  }

  /** Whether every group is. */
  predicate Storable(c: Contents, op: Operation, stops: string -> Stop) {
    forall db :: db in Databases(op.source, Records(op)) ==> Fits(c, op, stops, db)
  }

  ghost predicate FailedSave(c: Contents, op: Operation, c': Contents) {
    exists done, db, stop :: FailedAt(c, op, c', done, db, stop)
  }

  /** What a failed Save leaves: in every backup database the whole group, nothing, or the first
      rows of the group without an information row. */
  lemma FailedSaveLeaves(c: Contents, op: Operation, c': Contents, db: string)
    requires FailedSave(c, op, c')
    ensures LeftIn(At(c, db), op.opid, GroupOf(op, db), At(c', db))
  {
    var done, at, stop :| FailedAt(c, op, c', done, at, stop);
    WriteLeaves(At(c, db), op.opid, GroupOf(op, db), stop);
  }

  lemma SavedStep(c: Contents, op: Operation, now: Contents, done: set<string>, db: string, next: Contents)
    requires SavedIn(c, op, now, done) && db !in done
    requires SaveGroup(At(now, db), op.opid, GroupOf(op, db)) == Some(At(next, db))
    requires forall d :: d != db ==> At(next, d) == At(now, d)
    ensures SavedIn(c, op, next, done + {db})
  {
  }

  lemma FailStep(c: Contents, op: Operation, now: Contents, done: set<string>, db: string, stop: Stop, next: Contents)
    requires SavedIn(c, op, now, done) && db !in done && db in Databases(op.source, Records(op))
    requires !Write(At(now, db), op.opid, GroupOf(op, db), stop).ok
    requires At(next, db) == Write(At(now, db), op.opid, GroupOf(op, db), stop).db
    requires forall d :: d != db ==> At(next, d) == At(now, d)
    ensures FailedSave(c, op, next)
  {
    assert FailedAt(c, op, next, done, db, stop);
  }

  lemma SavedAll(c: Contents, op: Operation, c': Contents)
    requires SavedIn(c, op, c', Databases(op.source, Records(op)))
    ensures Saved(c, op, c')
  {
    forall db ensures SaveGroup(At(c, db), op.opid, GroupOf(op, db)) == Some(At(c', db)) {
      GroupIsEmpty(op.source, Records(op), db);
    }
  }

  lemma InsertedTwice(b: BackupDb, table: string, x: seq<Stored>, y: seq<Stored>)
    ensures Inserted(Inserted(b, table, x), table, y) == Inserted(b, table, x + y)
    ensures Inserted(Inserted(b, table, []), table, x) == Inserted(b, table, x)
  {
    assert Existing(b, table) + (x + y) == Existing(b, table) + x + y;
    assert Existing(b, table) + [] + x == Existing(b, table) + x;
  }

  lemma RowsOfSnoc(group: seq<Rollback>, r: Rollback, opid: string)
    ensures RowsOf(group + [r], opid) == RowsOf(group, opid) + if r.sql != "" then [Stored(r.sql, opid)] else []
  {
    FilterConcat(HasText(), group, [r]);
    assert [r][1..] == [];
  }

  lemma RowsOfPrefix(group: seq<Rollback>, opid: string, i: nat)
    requires i <= |group|
    ensures |RowsOf(group[..i], opid)| <= |RowsOf(group, opid)|
    ensures RowsOf(group, opid)[..|RowsOf(group[..i], opid)|] == RowsOf(group[..i], opid)
    ensures i < |group| && group[i].sql != "" ==> |RowsOf(group[..i], opid)| < |RowsOf(group, opid)|
  {
    assert group == group[..i] + group[i..];
    FilterConcat(HasText(), group[..i], group[i..]);
    MapConcat((r: Rollback) => Stored(r.sql, opid), Filter(HasText(), group[..i]), Filter(HasText(), group[i..]));
  }

  class BackupStore {
    var dbs: Contents

    constructor ()
      ensures dbs == map[]
    {
      dbs := map[];
    }

    /** The map byDB of Save. */
    method Partition(source: Source, records: seq<Rollback>) returns (byDB: map<string, seq<Rollback>>)
      ensures Partitioned(source, records, byDB)
    {
      byDB := map[];
      for i := 0 to |records|
        invariant Partitioned(source, records[..i], byDB)
      {
        var r := records[i];
        var db := BackupName(source, r.schema);
        assert records[..i + 1] == records[..i] + [r];
        PartitionStep(source, records[..i], byDB, r);
        byDB := byDB[db := (if db in byDB then byDB[db] else []) + [r]];
      }
      assert records[..|records|] == records;
    }

    /** The INSERT loop of saveGroup. It stops when the server does, or at a record that holds text
        when there is no storage table. */
    method InsertRows(db: string, table: string, opid: string, group: seq<Rollback>, stop: Stop) returns (ok: bool)
      requires db in dbs && (table == "" || dbs[db] == Inserted(dbs[db], table, []))
      modifies this
      ensures db in dbs && forall d :: d != db ==> At(dbs, d) == At(old(dbs), d)
      ensures var rows := RowsOf(group, opid);
              if table == "" then ok == (rows == []) && dbs == old(dbs)
              else if stop.AtInsert? && stop.row < |rows| then !ok
                  && dbs[db] == Inserted(old(dbs)[db], table, rows[..stop.row])
              else ok && dbs[db] == Inserted(old(dbs)[db], table, rows)
    {
      ghost var b, rows := dbs[db], RowsOf(group, opid);
      var written := 0;
      for i := 0 to |group|
        invariant db in dbs && forall d :: d != db ==> At(dbs, d) == At(old(dbs), d)
        invariant written == |RowsOf(group[..i], opid)|
        invariant table == "" ==> written == 0 && dbs == old(dbs)
        invariant table != "" ==> dbs[db] == Inserted(b, table, RowsOf(group[..i], opid))
        invariant stop.AtInsert? ==> written <= stop.row
      {
        assert group[..i + 1] == group[..i] + [group[i]];
        RowsOfSnoc(group[..i], group[i], opid);
        RowsOfPrefix(group, opid, i);
        assert RowsOf(group[..i], opid) + [] == RowsOf(group[..i], opid);
        if group[i].sql != "" {
          if table == "" {
            return false;
          }
          if stop == AtInsert(written) {
            return false;
          }
          InsertedTwice(b, table, RowsOf(group[..i], opid), [Stored(group[i].sql, opid)]);
          dbs := dbs[db := Inserted(dbs[db], table, [Stored(group[i].sql, opid)])];
          written := written + 1;
        }
      }
      assert group[..|group|] == group;
      return true;
    }

    /** saveGroup. `open` tells whether the transaction is still open at the end: creating the storage
        table has ended it, whether or not the creation succeeds. */
    method WriteGroup(db: string, opid: string, group: seq<Rollback>, stop: Stop) returns (ok: bool, open: bool)
      requires db in dbs && group != [] && !stop.AtSchema? && !stop.AtBegin? && !stop.AtCommit?
      modifies this
      ensures db in dbs && forall d :: d != db ==> At(dbs, d) == At(old(dbs), d)
      ensures open == (StorageTable(group) == "")
      ensures var w := Write(old(dbs)[db], opid, group, stop); ok == w.ok && (ok || !open ==> dbs[db] == w.db)
    {
      var table := StorageTable(group);
      open := table == "";
      ghost var b := dbs[db];
      if table != "" {
        if stop.AtCreate? {
          return false, open;
        }
        InsertedTwice(b, table, [], []);
        InsertedTwice(b, table, RowsOf(group, opid), []);
        dbs := dbs[db := Inserted(dbs[db], table, [])];
        if stop.AtInsert? && stop.row < |RowsOf(group, opid)| {
          InsertedTwice(b, table, RowsOf(group, opid)[..stop.row], []);
        }
      }
      ghost var begun := dbs;
      assert forall d :: d != db ==> At(begun, d) == At(old(dbs), d);
      ok := InsertRows(db, table, opid, group, stop);
      assert forall d :: d != db ==> At(dbs, d) == At(begun, d);
      if !ok {
        return;
      }
      if stop.AtInfo? || opid in dbs[db].info {
        return false, open;
      }
      dbs := dbs[db := Informed(dbs[db], opid, group[0])];
    }

    /** The body of Save's loop: create the database, begin, write the group, commit or roll back. */
    method SaveOne(db: string, opid: string, group: seq<Rollback>, stop: Stop) returns (ok: bool)
      requires group != []
      modifies this
      ensures var w := Write(At(old(dbs), db), opid, group, stop); ok == w.ok && At(dbs, db) == w.db
      ensures forall d :: d != db ==> At(dbs, d) == At(old(dbs), d)
    {
      if stop.AtSchema? {
        return false;
      }
      if db !in dbs {
        dbs := dbs[db := EMPTY];
      }
      if stop.AtBegin? {
        return false;
      }
      var before := dbs[db];
      ghost var begun := dbs;
      assert forall d :: At(begun, d) == At(old(dbs), d);
      var open;
      ok, open := WriteGroup(db, opid, group, if stop.AtCommit? then Never else stop);
      if ok && stop.AtCommit? {
        ok := false;
      }
      if !ok && open {
        dbs := dbs[db := before];
      }
    }

    /** One round of Save's loop, on top of what has been saved since `c`. */
    method SaveNext(ghost c: Contents, op: Operation, ghost done: set<string>, db: string, group: seq<Rollback>,
                    stops: string -> Stop)
      returns (ok: bool)
      requires SavedIn(c, op, dbs, done) && db !in done && db in Databases(op.source, Records(op))
          && group == GroupOf(op, db)
      modifies this
      ensures ok == Fits(c, op, stops, db)
      ensures if ok then SavedIn(c, op, dbs, done + {db}) else FailedSave(c, op, dbs)
    {
      ghost var now := dbs;
      GroupIsEmpty(op.source, Records(op), db);
      WriteLeaves(At(now, db), op.opid, group, stops(db));
      ok := SaveOne(db, op.opid, group, stops(db));
      if ok {
        SavedStep(c, op, now, done, db, dbs);
      } else {
        FailStep(c, op, now, done, db, stops(db), dbs);
      }
    }

    /** Save's loop over the groups; the databases are visited in any order. */
    method SaveGroups(op: Operation, byDB: map<string, seq<Rollback>>, stops: string -> Stop)
        returns (first: Option<string>)
      requires Partitioned(op.source, Records(op), byDB) && byDB.Keys != {}
      modifies this
      ensures first.Some? ==> SavedIn(old(dbs), op, dbs, byDB.Keys) && first.value in byDB
      ensures first.None? ==> FailedSave(old(dbs), op, dbs)
      ensures first.Some? <==> forall db :: db in byDB ==> Fits(old(dbs), op, stops, db)
    {
      first := None;
      ghost var c := dbs;
      var todo := byDB.Keys;
      assert byDB.Keys - todo == {};
      while todo != {}
        invariant todo <= byDB.Keys && SavedIn(c, op, dbs, byDB.Keys - todo)
        invariant first.Some? ==> first.value in byDB
        invariant first.None? ==> todo == byDB.Keys
        invariant forall db :: db in byDB.Keys - todo ==> Fits(c, op, stops, db)
        decreases todo
      {
        var db :| db in todo;
        if first.None? {
          first := Some(db);
        }
        ghost var done := byDB.Keys - todo;
        var ok := SaveNext(c, op, done, db, byDB[db], stops);
        if !ok {
          return None;
        }
        todo := todo - {db};
        assert byDB.Keys - todo == done + {db};
      }
      assert byDB.Keys - todo == byDB.Keys;
    }

    /** Save. Any call to the backup server may fail, in any backup database. */
    method Save(op: Operation, stops: string -> Stop) returns (first: Option<string>)
      modifies this
      ensures first.Some? ==> Saved(old(dbs), op, dbs)
      ensures first.None? ==> FailedSave(old(dbs), op, dbs)
      ensures first.Some? ==> first.value in Databases(op.source, Records(op))
      ensures first.Some? <==> Storable(old(dbs), op, stops)
    {
      var byDB := Partition(op.source, Records(op));
      SomeDatabase(op);
      first := SaveGroups(op, byDB, stops);
      if first.Some? {
        SavedAll(old(dbs), op, dbs);
      }
    }
  }

  lemma OnlyRecord(source: Source, r: Rollback, db: string)
    ensures Group(source, [r], db) == if BackupName(source, r.schema) == db then [r] else []
  {
    GroupSnoc(source, [], r, db);
    assert [] + [r] == [r];
  }

  lemma NoTextNoRows(r: Rollback, opid: string)
    requires r.sql == ""
    ensures RowsOf([r], opid) == [] && Filter(HasText(), [r]) == [] && StorageTable([r]) == r.table
  {
    RowsOfSnoc([], r, opid);
    assert [] + [r] == [r] && [r][1..] == [];
  }

  /** An operation without rollback statements leaves a row in the information table of one backup database, and no
      other row anywhere. */
  lemma EmptyOperation(c: Contents, op: Operation, c': Contents, db: string)
    requires Saved(c, op, c') && op.rollbacks == []
    ensures if db == BackupName(op.source, op.schema) then
              At(c', db).info == At(c, db).info[op.opid := Info(op.schema, op.table)]
              && forall t :: Existing(At(c', db), t) == Existing(At(c, db), t)
            else At(c', db) == At(c, db)
  {
    var only, b := Rollback(op.schema, op.table, ""), At(c, db);
    OnlyRecord(op.source, only, db);
    NoTextNoRows(only, op.opid);
    assert Records(op) == [only];
    assert SaveGroup(b, op.opid, GroupOf(op, db)) == Some(At(c', db));
    assert Existing(b, op.table) + [] == Existing(b, op.table);
  }

  // ---------------------------------------------------------------- reading an operation back

  /** No stored row carries this operation id. */
  ghost predicate NoRows(b: BackupDb, opid: string) {
    forall t, i :: t in b.tables && 0 <= i < |b.tables[t]| ==> b.tables[t][i].opid != opid
  }

  lemma {:induction false} FilterNone(opid: string, rows: seq<Stored>)
    requires forall i :: 0 <= i < |rows| ==> rows[i].opid != opid
    ensures Filter((r: Stored) => r.opid == opid, rows) == []
  {
    if rows != [] {
      FilterNone(opid, rows[1..]);
    }
  }

  lemma TextsConcat(opid: string, a: seq<Stored>, b: seq<Stored>)
    ensures Texts(opid, a + b) == Texts(opid, a) + Texts(opid, b)
  {
    FilterConcat((r: Stored) => r.opid == opid, a, b);
  }

  lemma TextsOfRows(opid: string, records: seq<Rollback>, k: nat)
    requires k <= |RowsOf(records, opid)|
    ensures Texts(opid, RowsOf(records, opid)[..k]) == Map((r: Rollback) => r.sql, Filter(HasText(), records)[..k])
    ensures forall other :: other != opid ==> Texts(other, RowsOf(records, opid)[..k]) == []
  {
    var rows := RowsOf(records, opid)[..k];
    FilterAll((r: Stored) => r.opid == opid, rows);
    forall other | other != opid ensures Texts(other, rows) == [] {
      FilterNone(other, rows);
    }
  }

  lemma SavedUnderItsName(b: BackupDb, opid: string, records: seq<Rollback>)
    requires NoRows(b, opid) && records != [] && records[0].table == StorageTable(records)
    requires SaveGroup(b, opid, records).Some?
    ensures ReadBack(SaveGroup(b, opid, records).value, opid)
         == Reverse(Map((r: Rollback) => r.sql, Filter(HasText(), records)))
  {
    var table, rows := records[0].table, RowsOf(records, opid);
    FilterNone(opid, Existing(b, table));
    TextsConcat(opid, Existing(b, table), rows);
    assert rows[..|rows|] == rows;
    TextsOfRows(opid, records, |rows|);
    var texts := Filter(HasText(), records);
    assert texts[..|rows|] == texts;
  }

  lemma SavedUnderAnother(b: BackupDb, opid: string, records: seq<Rollback>)
    requires NoRows(b, opid) && records != [] && records[0].table != StorageTable(records)
    requires SaveGroup(b, opid, records).Some?
    ensures ReadBack(SaveGroup(b, opid, records).value, opid) == []
  {
    var table, saved := records[0].table, SaveGroup(b, opid, records).value;
    FilterNone(opid, Existing(b, table));
    assert saved.info[opid].tablename == table && Existing(saved, table) == Existing(b, table);
    assert Texts(opid, Existing(saved, table)) == [];
  }

  /** Read back, an operation's statements come out last generated first, if its first record names the
      table that they are in, and nothing comes out if not. */
  lemma SavedReadsBack(b: BackupDb, opid: string, records: seq<Rollback>)
    requires NoRows(b, opid) && records != [] && SaveGroup(b, opid, records).Some?
    ensures var texts := Map((r: Rollback) => r.sql, Filter(HasText(), records));
            ReadBack(SaveGroup(b, opid, records).value, opid)
            == if records[0].table == StorageTable(records) then Reverse(texts) else []
  {
    if records[0].table == StorageTable(records) {
      SavedUnderItsName(b, opid, records);
    } else {
      SavedUnderAnother(b, opid, records);
    }
  }

  lemma AddedReads(b: BackupDb, table: string, rows: seq<Stored>, opid: string, t: string)
    ensures Texts(opid, Existing(Inserted(b, table, rows), t))
         == Texts(opid, Existing(b, t)) + if t == table then Texts(opid, rows) else []
  {
    TextsConcat(opid, Existing(b, table), rows);
  }

  /** However far the group of one operation got, every other operation reads back as before. */
  lemma OthersReadBack(b: BackupDb, opid: string, group: seq<Rollback>, b': BackupDb, other: string)
    requires LeftIn(b, opid, group, b') && other != opid
    ensures ReadBack(b', other) == ReadBack(b, other) && (other in b'.info <==> other in b.info)
  {
    var table, rows := StorageTable(group), RowsOf(group, opid);
    forall k | 0 <= k <= |rows|
      ensures forall t :: Texts(other, Existing(Inserted(b, table, rows[..k]), t)) == Texts(other, Existing(b, t))
    {
      TextsOfRows(opid, group, k);
      forall t ensures Texts(other, Existing(Inserted(b, table, rows[..k]), t)) == Texts(other, Existing(b, t)) {
        AddedReads(b, table, rows[..k], other, t);
      }
    }
    assert rows[..|rows|] == rows;
  }

  /** An operation whose group was not saved whole reads back as nothing, though rows may be left. */
  lemma FailedReadsBack(b: BackupDb, opid: string, group: seq<Rollback>, stop: Stop)
    requires opid !in b.info && !Write(b, opid, group, stop).ok && !stop.AtCommit?
    ensures ReadBack(Write(b, opid, group, stop).db, opid) == []
  {
  }

  /** Rows that were left behind do not belong to any other operation. */
  lemma LeftKeepsNoRows(b: BackupDb, opid: string, group: seq<Rollback>, b': BackupDb, other: string)
    requires LeftIn(b, opid, group, b') && other != opid && NoRows(b, other)
    ensures NoRows(b', other)
  {
    var table, rows := StorageTable(group), RowsOf(group, opid);
    assert forall i :: 0 <= i < |rows| ==> rows[i].opid == opid;
    forall k | 0 <= k <= |rows| ensures NoRows(Inserted(b, table, rows[..k]), other) {
      var b2 := Inserted(b, table, rows[..k]);
      forall t, i | t in b2.tables && 0 <= i < |b2.tables[t]| ensures b2.tables[t][i].opid != other {
        if t == table && i >= |Existing(b, table)| {
          assert b2.tables[t][i] == rows[i - |Existing(b, table)|];
        }
      }
    }
    assert rows[..|rows|] == rows;
  }

  /** Saving under an id that is taken always fails, and what was stored under the id is disturbed if
      and only if rows were added to the table where it is looked up. */
  lemma RepeatedId(b: BackupDb, opid: string, group: seq<Rollback>, k: nat)
    requires opid in b.info && group != [] && k <= |RowsOf(group, opid)|
    ensures !Write(b, opid, group, AtInsert(k)).ok
    ensures var after := Write(b, opid, group, AtInsert(k)).db;
            ReadBack(after, opid) == ReadBack(b, opid)
            <==> k == 0 || StorageTable(group) == "" || b.info[opid].tablename != StorageTable(group)
  {
    var table, rows := StorageTable(group), RowsOf(group, opid);
    var after := Write(b, opid, group, AtInsert(k)).db;
    assert rows[..|rows|] == rows;
    if table != "" {
      assert after == Inserted(b, table, rows[..k]);
      AddedReads(b, table, rows[..k], opid, b.info[opid].tablename);
      TextsOfRows(opid, group, k);
      assert |Texts(opid, rows[..k])| == k;
    }
  }
}
