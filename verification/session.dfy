/** One request (internal/session/session.go): the statements are checked one by one against a view
    of the schema that follows the batch, and run if nothing stands against it. */
module Session {
  import opened Text
  import opened Catalog
  import opened Snapshot
  import opened Engine
  import opened Seqs
  import V = Views
  import P = Provider
  import B = Store
  import X = EndToEnd

  type Severity = x: nat | x <= 2

  const Warning: Severity := 1
  const Error: Severity := 2

  datatype RuleKind =
    | SchemaNotFound | NoDatabase | MetadataConnect | ImpactEstimate | DDLMetadata | ParserWarning | SomeRule
    | ExecutionRule(fault: Fault)

  datatype Issue = Issue(rule: RuleKind, level: Severity)

  datatype Stage = AtCheck | AtExecution | AtBackup

  datatype Status =
    | Checked | CheckedWithWarnings | CheckFailed
    | ExecuteSuccessfully | ExecuteFailed | BackupSuccessfully | BackupFailed

  datatype Record = Record(sequence: nat, level: Severity, stage: Stage, status: Status, issues: seq<Issue>)

  // ---------------------------------------------------------------- resolveStatementDatabase

  function ResolveRef(r: TableRef, schema: string): TableRef { if r.schema == "" then r.(schema := schema) else r }

  function ResolveAll(refs: seq<TableRef>, schema: string): (r: seq<TableRef>)
    ensures |r| == |refs|
  {
    seq(|refs|, i requires 0 <= i < |refs| => ResolveRef(refs[i], schema))
  }

  function ResolvePair(p: V.RenamePair, schema: string): V.RenamePair {
    V.RenamePair(ResolveRef(p.from, schema), ResolveRef(p.to, schema))
  }

  function ResolveDDL(d: V.DDL, database: string): V.DDL {
    var schema := if d.schema == "" then database else d.schema;
    d.(schema := schema, tables := ResolveAll(d.tables, schema),
       pairs := seq(|d.pairs|, i requires 0 <= i < |d.pairs| => ResolvePair(d.pairs[i], schema)))
  }

  function Resolve(s: Statement, current: string): Statement {
    var database := if s.database == "" then current else s.database;
    var inDDL := match s.ddl
      case None => s.(database := database)
      case Some(d) => s.(ddl := Some(ResolveDDL(d, database)), database := if d.schema
                         == "" then database else d.schema);
    match s.dml
    case None => inDDL
    case Some(m) =>
      var tables := ResolveAll(m.tables, inDDL.database);
      inDDL.(dml := Some(m.(tables := tables)),
             database := if inDDL.database == "" && |tables| > 0 then tables[0].schema else inDDL.database)
  }

  /** The statement as it is checked: USE is left alone. */
  function Resolved(s: Statement, current: string): Statement { if s.kind == Use then s else Resolve(s, current) }

  /** requiresDatabase */
  predicate RequiresDatabase(k: Kind) {
    k.CreateTable? || k.AlterTable? || k.DropTable? || k.RenameTable? || k.TruncateTable? || k.Insert? || k.Update?
    || k.Delete? || k.CreateIndex? || k.DropIndexes? || k.CreateView? || k.AlterView? || k.DropView?
  }

  /** What the parser delivers: the table of a statement that edits one, and no IF EXISTS in a RENAME. */
  predicate Projected(s: Statement) {
    s.ddl.Some? ==>
      (V.EditsOneTable(s.ddl.value) ==> s.ddl.value.tables == [TableRef(s.ddl.value.schema, s.ddl.value.table)])
      && (s.ddl.value.action.RenameTable? ==> !s.ddl.value.ifExists)
  }

  lemma ResolvedDDLIs(s: Statement, current: string)
    requires s.ddl.Some? && s.kind != Use
    ensures Resolved(s, current).ddl == Some(ResolveDDL(s.ddl.value, if s.database == "" then current else s.database))
  {
  }

  lemma ResolvedNamesItsTable(lower: bool, s: Statement, current: string)
    requires Projected(s) && s.ddl.Some? && V.EditsOneTable(s.ddl.value) && Resolved(s, current).ddl.Some?
    ensures var d := Resolved(s, current).ddl.value;
            |d.tables| == 1 && V.RefName(lower, d, d.tables[0]) == V.NameOf(lower, d.schema, d.table)
  {
    if s.kind != Use {
      ResolvedDDLIs(s, current);
      var d := ResolveDDL(s.ddl.value, if s.database == "" then current else s.database);
      assert d.tables == [ResolveRef(s.ddl.value.tables[0], d.schema)];
    }
  }

  /** Once a statement is resolved under a database it means the same whatever is current later:
      the executor and the rollback rely on that. */
  lemma ResolvedOnce(s: Statement, current: string, later: string)
    requires current != ""
    ensures Resolve(Resolve(s, current), later) == Resolve(s, current)
    ensures Resolve(s, current).database != ""
  {
    var r := Resolve(s, current);
    if s.ddl.Some? {
      ResolvedDDLOnce(s.ddl.value, if s.database == "" then current else s.database, r.database);
    }
    if s.dml.Some? {
      var database := Resolve(s.(dml := None), current).database;
      ResolvedAllOnce(s.dml.value.tables, database, r.database);
    }
  }

  lemma ResolvedAllOnce(refs: seq<TableRef>, schema: string, later: string)
    requires schema != ""
    ensures ResolveAll(ResolveAll(refs, schema), later) == ResolveAll(refs, schema)
    ensures forall i :: 0 <= i < |refs| ==>
        ResolveAll(refs, schema)[i].schema != "" && ResolveAll(refs, schema)[i].name == refs[i].name
    ensures forall i :: 0 <= i < |refs| && refs[i].schema != "" ==> ResolveAll(refs, schema)[i] == refs[i]
  {
  }

  /** No table of a resolved DDL statement is without a schema, and those that had one keep it. */
  lemma ResolvedDDLOnce(d: V.DDL, database: string, later: string)
    requires database != ""
    ensures ResolveDDL(ResolveDDL(d, database), later) == ResolveDDL(d, database)
    ensures var r := ResolveDDL(d, database);
            r.schema != "" && (forall i :: 0 <= i < |r.tables| ==> r.tables[i].schema != "")
            && (forall i :: 0 <= i < |r.pairs| ==> r.pairs[i].from.schema != "" && r.pairs[i].to.schema != "")
  {
    var r := ResolveDDL(d, database);
    ResolvedAllOnce(d.tables, r.schema, r.schema);
    var twice := ResolveDDL(r, later);
    assert twice.pairs == r.pairs;
  }

  // ---------------------------------------------------------------- makeRecord

  function Highest(issues: seq<Issue>): Severity {
    if issues == [] then 0
    else
      var before := Highest(issues[..|issues| - 1]);
      if issues[|issues| - 1].level > before then issues[|issues| - 1].level else before
  }

  /** The level of a record is that of its worst issue. */
  lemma {:induction false} HighestIsMax(issues: seq<Issue>)
    ensures forall i :: 0 <= i < |issues| ==> issues[i].level <= Highest(issues)
    ensures Highest(issues) == 0 || exists i :: 0 <= i < |issues| && issues[i].level == Highest(issues)
  {
    if issues != [] {
      var n := |issues| - 1;
      var init := issues[..n];
      HighestIsMax(init);
      forall i | 0 <= i < |issues| ensures issues[i].level <= Highest(issues) {
        assert i < n ==> issues[i] == init[i];
      }
      if Highest(issues) != 0 && Highest(issues) != issues[n].level {
        var i :| 0 <= i < |init| && init[i].level == Highest(init);
        assert issues[i].level == Highest(issues);
      }
    }
  }

  predicate IsCheckRecord(r: Record) {
    r.stage == AtCheck && r.level == Highest(r.issues)
    && r.status == if r.level == Error then CheckFailed else if r.level == Warning then CheckedWithWarnings else Checked
  }

  method MakeRecord(s: Statement, issues: seq<Issue>) returns (r: Record)
    ensures IsCheckRecord(r) && r.sequence == s.sequence && r.issues == issues
  {
    var level: Severity := 0;
    for i := 0 to |issues|
      invariant level == Highest(issues[..i])
    {
      assert issues[..i + 1][..i] == issues[..i];
      if issues[i].level > level {
        level := issues[i].level;
      }
    }
    assert issues[..|issues|] == issues;
    var status := if level == Error then CheckFailed else if level == Warning then CheckedWithWarnings else Checked;
    return Record(s.sequence, level, AtCheck, status, issues);
  }

  lemma WithError(issues: seq<Issue>, e: Issue)
    requires e in issues && e.level == Error
    ensures Highest(issues) == Error
  {
    HighestIsMax(issues);
    var i :| 0 <= i < |issues| && issues[i] == e;
    assert issues[i].level <= Highest(issues);
  }

  // ---------------------------------------------------------------- checking one statement

  /** What stood when a statement was checked and what stood after it. `usable` tells whether a USE
      found its schema, `admitted` whether no issue of level Error was raised before ApplyDDL; `left` is
      the statement as the check has left it in the parsed batch. */
  datatype Moment = Moment(
    view: V.View, database: string, usable: bool, admitted: bool, after: V.View, next: string, left: Statement)

  /** The DDL that a statement puts before the cache, when it does. */
  function DDLOf(s: Statement, database: string): Option<V.DDL> {
    if s.supported then Resolved(s, database).ddl else None
  }

  ghost predicate DatabaseFollows(lower: bool, s: Statement, r: Record, m: Moment) {
    m.next == (if s.kind == Use && m.usable then s.database else m.database)
    && (s.kind == Use && m.usable ==> V.Normal(lower, s.database) in m.view.schemas)
    && (s.kind == Use && !m.usable ==> r.level == Error)
  }

  /** The view moves by the DDL that was prepared, if the statement was admitted. */
  ghost predicate ViewFollows(lower: bool, s: Statement, r: Record, m: Moment) {
    var d := DDLOf(s, m.database);
    if !m.admitted then m.after == m.view && r.level == Error
    else if d.None? then m.after == m.view && r.level != Error
    else match V.PrepareOn(lower, m.view, d.value)
      case Rejected => false
      case Accepted(p) =>
        var a := V.ApplyOn(lower, m.view, p);
        m.after == a.view && (r.level == Error <==> a.Error?)
  }

  /** The loop works on a copy of the statement that shares its DDL and DML parts: they are left resolved,
      and a DDL part that was admitted as PrepareDDL has completed it; the statement's own database is not. */
  ghost predicate LeftAs(lower: bool, s: Statement, m: Moment) {
    var st, d := Resolved(s, m.database), DDLOf(s, m.database);
    m.left == s.(ddl := m.left.ddl, dml := st.dml) && (m.left.ddl.Some? <==> s.ddl.Some?)
    && (m.admitted && d.None? ==> m.left.ddl == st.ddl)
    && (m.admitted && d.Some? ==>
        m.left.ddl.Some? && V.PrepareOn(lower, m.view, d.value) == V.Accepted(m.left.ddl.value))
  }

  /** What is admitted has a database, unless it is a query or about databases. */
  ghost predicate HasItsDatabase(s: Statement, m: Moment) {
    m.admitted && s.kind !in {Kind.Unknown, Kind.Use, Kind.Select, Kind.CreateDatabase, Kind.AlterDatabase,
                              Kind.DropDatabase} ==>
      Resolved(s, m.database).database != ""
  }

  datatype Options = Options(
    database: string, execute: bool, ignoreWarnings: bool, backup: bool,
    skipGrants: bool, grantChecker: bool, maxAffectedRows: int, parserWarnings: nat)

  /** The head of the loop: USE selects a database, everything else is put into the one selected. */
  method Locate(cache: P.Provider, s: Statement, database: string)
    returns (st: Statement, issues: seq<Issue>, next: string, ghost usable: bool)
    requires cache.Valid()
    modifies cache
    ensures cache.Valid() && cache.Visible() == old(cache.Visible())
    ensures st == Resolved(s, database)
    ensures next == if s.kind == Use && usable then s.database else database
    ensures s.kind == Use && usable ==> V.Normal(cache.lower, s.database) in cache.Visible().schemas
    ensures issues == [] <==> if s.kind == Use then usable else !(RequiresDatabase(s.kind) && st.database == "")
    ensures forall e :: e in issues ==> e.level == Error
  {
    st, issues, next, usable := s, [], database, false;
    if s.kind == Use {
      var found := cache.LoadSchema(s.database);
      if found.Found? {
        next, usable := s.database, true;
      } else {
        issues := [Issue(SchemaNotFound, Error)];
      }
    } else {
      st := Resolve(s, database);
      if RequiresDatabase(st.kind) && st.database == "" {
        issues := [Issue(NoDatabase, Error)];
      }
    }
  }

  predicate GrantsDue(o: Options, st: Statement, checkedGrants: set<string>) {
    !o.skipGrants && o.grantChecker && st.database != "" && Fold(st.database) !in checkedGrants
  }

  /** The rows an INSERT ... VALUES affects are counted; those of other changes are asked for. */
  predicate EstimateDue(o: Options, st: Statement) {
    st.dml.Some? && !(st.kind == Insert && st.dml.value.valueRows > 0)
    && o.maxAffectedRows > 0 && (st.kind == Update || st.kind == Delete || st.dml.value.insertSelect)
  }

  function Folded(databases: seq<string>): set<string> { set i | 0 <= i < |databases| :: Fold(databases[i]) }

  /** Grants are asked for when the request does not skip them and the statement's database is not among those for
      which they have been found, in whatever letter case; and never without a database. */
  lemma GrantsAskedOnce(o: Options, st: Statement, found: seq<string>)
    ensures GrantsDue(o, st, Folded(found))
       <==> !o.skipGrants && o.grantChecker && st.database != ""
            && forall i :: 0 <= i < |found| ==> !EqualFold(found[i], st.database)
  {
    if i :| 0 <= i < |found| && EqualFold(found[i], st.database) {
      assert Fold(found[i]) in Folded(found);
    }
  }

  /** Rows are estimated for UPDATE, DELETE and INSERT ... SELECT if there is a limit, and for nothing else. */
  lemma EstimateCases(o: Options, st: Statement)
    ensures EstimateDue(o, st) ==> o.maxAffectedRows > 0 && st.dml.Some?
    ensures st.dml.Some? && o.maxAffectedRows > 0 && (st.kind == Update || st.kind == Delete) ==> EstimateDue(o, st)
    ensures st.dml.Some? && o.maxAffectedRows > 0 && st.kind == Insert ==>
              (EstimateDue(o, st) <==> st.dml.value.insertSelect && st.dml.value.valueRows == 0)
    ensures st.dml.Some? && !st.dml.value.insertSelect && st.kind !in {Update, Delete} ==> !EstimateDue(o, st)
  {
  }

  /** The grant check and the estimate of the rows affected: their outcomes come from the server.
      Grants once found are not asked for again, and an estimate is not asked for once grants are refused. */
  method Consult(o: Options, st: Statement, checkedGrants: set<string>)
    returns (issues: seq<Issue>, grants: set<string>, ghost askedGrants: bool, ghost askedEstimate: bool)
    ensures askedGrants <==> GrantsDue(o, st, checkedGrants)
    ensures askedEstimate <==> EstimateDue(o, st) && Issue(MetadataConnect, Error) !in issues
    ensures grants == if askedGrants && Issue(MetadataConnect, Error) !in issues then checkedGrants
        + {Fold(st.database)} else checkedGrants
    ensures forall e :: e in issues ==>
        (e == Issue(MetadataConnect, Error) && askedGrants) || (e == Issue(ImpactEstimate, Error) && askedEstimate)
  {
    issues, grants, askedGrants, askedEstimate := [], checkedGrants, false, false;
    if GrantsDue(o, st, grants) {
      var granted: bool := *;
      askedGrants := true;
      if granted {
        grants := grants + {Fold(st.database)};
      } else {
        issues := [Issue(MetadataConnect, Error)];
      }
    }
    if issues == [] && EstimateDue(o, st) {
      var estimated: bool := *;
      askedEstimate := true;
      if !estimated {
        issues := [Issue(ImpactEstimate, Error)];
      }
    }
  }

  /** The rules may look at any table through the cache and raise any issues. */
  method RunRules(cache: P.Provider) returns (issues: seq<Issue>)
    requires cache.Valid()
    modifies cache
    ensures cache.Valid() && cache.Visible() == old(cache.Visible())
    ensures forall n :: n in old(cache.tables) ==> n in cache.tables
  {
    var looks: int :| looks >= 0;
    for i := 0 to looks
      invariant cache.Valid() && cache.Visible() == old(cache.Visible())
      invariant forall n :: n in old(cache.tables) ==> n in cache.tables
    {
      var schema: string, table: string := *, *;
      var _ := cache.LoadTable(schema, table);
    }
    issues := *;
  }

  /** The issues of the rules, and the warnings of the parser with the first statement. */
  method Raise(cache: P.Provider, o: Options, s: Statement, issues: seq<Issue>) returns (all: seq<Issue>)
    requires cache.Valid() && forall e :: e in issues ==> e.level == Error
    modifies cache
    ensures cache.Valid() && cache.Visible() == old(cache.Visible())
    ensures forall n :: n in old(cache.tables) ==> n in cache.tables
    ensures issues <= all && (issues != [] ==> Highest(all) == Error)
    ensures s.sequence == 1 && o.parserWarnings > 0 ==> Highest(all) >= Warning
  {
    var raised := RunRules(cache);
    if s.sequence == 1 {
      raised := raised + seq(o.parserWarnings, i => Issue(ParserWarning, Warning));
    }
    all := issues + raised;
    if s.sequence == 1 && o.parserWarnings > 0 {
      HighestIsMax(all);
      assert all[|all| - 1] == Issue(ParserWarning, Warning);
    }
    if issues != [] {
      WithError(all, issues[0]);
    }
  }

  /** A statement that the parser does not support, or that has no DDL part, leaves the view as it was. */
  lemma OnlySupportedDDLMoves(lower: bool, s: Statement, r: Record, m: Moment)
    requires RightRecord(lower, s, r, m) && (!s.supported || s.ddl.None?)
    ensures m.after == m.view
  {
  }

  /** What PrepareDDL has loaded is what ApplyDDL will load. */
  lemma AcceptedIsReady(cache: P.Provider, s: Statement, database: string, p: V.DDL)
    requires Projected(s) && DDLOf(s, database).Some?
    requires var d := DDLOf(s, database).value;
             && V.PrepareOn(cache.lower, cache.Visible(), d) == V.Accepted(p)
             && (d.fullyProjected && !V.Creates(d) ==>
                   forall i :: 0 <= i < |V.Affected(d)| ==> V.RefName(cache.lower, d, V.Affected(d)[i]) in cache.tables)
    ensures cache.Ready(p)
  {
    var d := DDLOf(s, database).value;
    if d.fullyProjected && !V.Creates(d) {
      assert p == d;
      if V.EditsOneTable(d) {
        ResolvedNamesItsTable(cache.lower, s, database);
        assert V.RefName(cache.lower, d, V.Affected(d)[0]) in cache.tables;
      }
      if d.action.RenameTable? {
        forall i | 0 <= i < |d.pairs| ensures V.SourceName(cache.lower, d, d.pairs[i]) in cache.tables {
          assert V.Affected(d)[i] == d.pairs[i].from;
        }
      }
    }
  }

  /** PrepareDDL, when nothing stands against it yet. */
  method PrepareStatement(cache: P.Provider, s: Statement, database: string, sofar: seq<Issue>)
    returns (issues: seq<Issue>, ddl: Option<V.DDL>)
    requires cache.Valid() && Projected(s) && forall e :: e in sofar ==> e.level == Error
    modifies cache
    ensures cache.Valid() && cache.Visible() == old(cache.Visible())
    ensures sofar != [] ==> issues == sofar
    ensures forall e :: e in issues ==> e.level == Error
    ensures ddl.Some? <==> DDLOf(s, database).Some?
    ensures ddl.Some? && issues == [] ==>
              V.PrepareOn(cache.lower, cache.Visible(), DDLOf(s, database).value) == V.Accepted(ddl.value)
                  && cache.Ready(ddl.value)
  {
    issues, ddl := sofar, DDLOf(s, database);
    if ddl.Some? && issues == [] {
      var r := cache.Prepare(ddl.value);
      if r.Fine? {
        AcceptedIsReady(cache, s, database, r.ddl);
        ddl := Some(r.ddl);
      } else {
        issues := [Issue(DDLMetadata, Error)];
      }
    }
  }

  /** The end of the loop body: the record, and ApplyDDL when the record allows it. */
  method Conclude(cache: P.Provider, st: Statement, issues: seq<Issue>, ddl: Option<V.DDL>)
      returns (r: Record, ghost admitted: bool)
    requires cache.Valid() && (ddl.Some? && Highest(issues) != Error ==> cache.Ready(ddl.value))
    modifies cache
    ensures cache.Valid() && IsCheckRecord(r) && r.sequence == st.sequence && r.level >= Highest(issues)
    ensures admitted == (Highest(issues) != Error)
    ensures if !admitted then cache.Visible() == old(cache.Visible()) && r.level == Error
            else if ddl.None? then cache.Visible() == old(cache.Visible()) && r.level != Error
            else cache.Visible() == V.ApplyOn(cache.lower, old(cache.Visible()), ddl.value).view
                 && (r.level == Error <==> V.ApplyOn(cache.lower, old(cache.Visible()), ddl.value).Error?)
  {
    r := MakeRecord(st, issues);
    admitted := r.level != Error;
    if r.level != Error && ddl.Some? {
      var ok := cache.Apply(ddl.value);
      if !ok {
        var all := issues + [Issue(DDLMetadata, Error)];
        WithError(all, Issue(DDLMetadata, Error));
        r := MakeRecord(st, all);
      }
    }
  }

  /** The body of the loop. */
  method CheckOne(cache: P.Provider, o: Options, s: Statement, database: string, checkedGrants: set<string>)
    returns (r: Record, left: Statement, next: string, grants: set<string>, ghost m: Moment)
    requires cache.Valid() && Projected(s)
    modifies cache
    ensures cache.Valid() && m.view == old(cache.Visible()) && m.after == cache.Visible()
    ensures m.database == database && m.next == next && m.left == left
    ensures RightRecord(cache.lower, s, r, m)
    ensures s.sequence == 1 && o.parserWarnings > 0 ==> r.level >= Warning
  {
    ghost var view, usable, admitted := cache.Visible(), false, false;
    var st, issues;
    st, issues, next, usable := Locate(cache, s, database);
    grants := checkedGrants;
    if issues == [] {
      ghost var asked, estimated;
      issues, grants, asked, estimated := Consult(o, st, checkedGrants);
    }
    var ddl;
    issues, ddl := PrepareStatement(cache, s, database, issues);
    left := s.(ddl := if ddl.Some? then ddl else st.ddl, dml := st.dml);
    var all := Raise(cache, o, s, issues);
    r, admitted := Conclude(cache, st, all, ddl);
    m := Moment(view, database, usable, admitted, cache.Visible(), next, left);
  }

  // ---------------------------------------------------------------- checking the batch

  ghost function ViewNow(source: V.View, trail: seq<Moment>): V.View {
    if trail == [] then source else trail[|trail| - 1].after
  }

  ghost function DatabaseNow(database: string, trail: seq<Moment>): string {
    if trail == [] then database else trail[|trail| - 1].next
  }

  /** A moment begins where the one before it has ended. */
  ghost predicate Linked(source: V.View, database: string, before: seq<Moment>, m: Moment) {
    m.view == ViewNow(source, before) && m.database == DatabaseNow(database, before)
  }

  ghost predicate RightRecord(lower: bool, s: Statement, r: Record, m: Moment) {
    IsCheckRecord(r) && r.sequence == s.sequence && DatabaseFollows(lower, s, r, m) && ViewFollows(lower, s, r, m)
    && LeftAs(lower, s, m) && HasItsDatabase(s, m)
  }

  /** The moments of a batch: each begins where the last one ended and ends as its statement says. */
  ghost predicate Trail(lower: bool, source: V.View, database: string, statements: seq<Statement>,
                        records: seq<Record>, trail: seq<Moment>) {
    |records| == |trail| <= |statements|
    && (forall i :: 0 <= i < |trail| ==> Linked(source, database, trail[..i], trail[i]))
    && (forall i :: 0 <= i < |trail| ==> RightRecord(lower, statements[i], records[i], trail[i]))
  }

  lemma OneMoment(lower: bool, source: V.View, database: string, statements: seq<Statement>, records: seq<Record>,
                  trail: seq<Moment>, r: Record, m: Moment)
    requires Trail(lower, source, database, statements, records, trail) && |trail| < |statements|
    requires Linked(source, database, trail, m) && RightRecord(lower, statements[|trail|], r, m)
    ensures Trail(lower, source, database, statements, records + [r], trail + [m])
  {
    var rs, ms := records + [r], trail + [m];
    forall i | 0 <= i < |ms| ensures Linked(source, database, ms[..i], ms[i]) {
      assert ms[..i] == trail[..i];
      assert trail[..|trail|] == trail;
      assert i < |trail| ==> ms[i] == trail[i];
    }
  }

  /** The batch as the check has left it. */
  ghost function Lefts(trail: seq<Moment>): seq<Statement> { Map((m: Moment) => m.left, trail) }

  lemma LeftsSnoc(trail: seq<Moment>, m: Moment)
    ensures Lefts(trail + [m]) == Lefts(trail) + [m.left]
  {
  }

  /** The loop of Audit. */
  method CheckBatch(cache: P.Provider, o: Options, statements: seq<Statement>)
    returns (records: seq<Record>, left: seq<Statement>, ghost trail: seq<Moment>)
    requires cache.Valid() && forall i :: 0 <= i < |statements| ==> Projected(statements[i])
    modifies cache
    ensures cache.Valid() && |records| == |statements| && left == Lefts(trail)
    ensures Trail(cache.lower, old(cache.Visible()), o.database, statements, records, trail)
    ensures statements != [] && statements[0].sequence == 1 && o.parserWarnings > 0 ==> records[0].level >= Warning
    ensures cache.Visible() == ViewNow(old(cache.Visible()), trail)
  {
    ghost var source := cache.Visible();
    var database, grants := o.database, {};
    records, left, trail := [], [], [];
    for i := 0 to |statements|
      invariant cache.Valid() && |records| == i && left == Lefts(trail)
      invariant Trail(cache.lower, source, o.database, statements, records, trail)
      invariant i > 0 && statements[0].sequence == 1 && o.parserWarnings > 0 ==> records[0].level >= Warning
      invariant cache.Visible() == ViewNow(source, trail) && database == DatabaseNow(o.database, trail)
    {
      var r, one;
      ghost var m;
      r, one, database, grants, m := CheckOne(cache, o, statements[i], database, grants);
      OneMoment(cache.lower, source, o.database, statements, records, trail, r, m);
      LeftsSnoc(trail, m);
      records, left, trail := records + [r], left + [one], trail + [m];
    }
  }

  // ---------------------------------------------------------------- what the rules see

  /** The current database when statement |statements| is checked: that of the last USE that found its schema. */
  function CurrentDatabase(database: string, statements: seq<Statement>, usable: seq<bool>): string
    requires |statements| == |usable|
  {
    if statements == [] then database
    else
      var n := |statements| - 1;
      if statements[n].kind == Use && usable[n] then statements[n].database
      else CurrentDatabase(database, statements[..n], usable[..n])
  }

  /** The source schema updated, in order, by the DDL statements whose record is not Error. */
  function SchemaAfter(lower: bool, source: V.View, database: string, statements: seq<Statement>, usable: seq<bool>,
                       failed: seq<bool>): V.View
    requires |statements| == |usable| == |failed|
  {
    if statements == [] then source
    else
      var n := |statements| - 1;
      var before := SchemaAfter(lower, source, database, statements[..n], usable[..n], failed[..n]);
      var d := DDLOf(statements[n], CurrentDatabase(database, statements[..n], usable[..n]));
      if failed[n] || d.None? then before else Updated(lower, before, d.value)
  }

  /** What one accepted DDL statement does to the schema. */
  function Updated(lower: bool, v: V.View, d: V.DDL): V.View {
    match V.PrepareOn(lower, v, d)
    case Accepted(p) => V.ApplyOn(lower, v, p).view
    case Rejected => v
  }

  /** No table is renamed twice in one list. */
  predicate SimpleRename(lower: bool, d: V.DDL) {
    d.action.RenameTable? ==> V.DistinctSources(lower, d, d.pairs)
  }

  /** ApplyDDL refuses without leaving a trace, unless it is a rename that takes a table twice:
      that one, by `Views.RenameRefusalLeavesTrace`, always leaves one. */
  lemma RefusalLeavesNoTrace(lower: bool, v: V.View, d: V.DDL, p: V.DDL)
    requires V.PrepareOn(lower, v, d) == V.Accepted(p) && SimpleRename(lower, d)
        && (d.action.RenameTable? ==> !d.ifExists)
    ensures V.ApplyOn(lower, v, p).Error? ==> V.ApplyOn(lower, v, p).view == v
  {
    if d.action.RenameTable? && d.fullyProjected && !p.noop {
      assert p == d;
      V.RenameRefusalLeavesTrace(lower, v, d);
    }
  }

  lemma OneStatement(lower: bool, s: Statement, r: Record, m: Moment)
    requires RightRecord(lower, s, r, m) && Projected(s)
    requires DDLOf(s, m.database).Some? ==> SimpleRename(lower, DDLOf(s, m.database).value)
    ensures m.after == if r.level == Error || DDLOf(s, m.database).None? then m.view
        else Updated(lower, m.view, DDLOf(s, m.database).value)
    ensures m.next == if s.kind == Use && m.usable then s.database else m.database
  {
    var d := DDLOf(s, m.database);
    if d.Some? && m.admitted {
      RefusalLeavesNoTrace(lower, m.view, d.value, V.PrepareOn(lower, m.view, d.value).ddl);
    }
  }

  function Usable(trail: seq<Moment>): seq<bool> { seq(|trail|, i requires 0 <= i < |trail| => trail[i].usable) }

  function Failed(records: seq<Record>): seq<bool> {
    seq(|records|, i requires 0 <= i < |records| => records[i].level == Error)
  }

  /** The two references, one statement further. */
  lemma OneFurther(lower: bool, source: V.View, database: string, statements: seq<Statement>, usable: seq<bool>,
                   failed: seq<bool>, n: nat)
    requires n < |statements| && n < |usable| && n < |failed|
    ensures CurrentDatabase(database, statements[..n + 1], usable[..n + 1])
         == if statements[n].kind == Use && usable[n] then statements[n].database
            else CurrentDatabase(database, statements[..n], usable[..n])
    ensures SchemaAfter(lower, source, database, statements[..n + 1], usable[..n + 1], failed[..n + 1])
         == var before := SchemaAfter(lower, source, database, statements[..n], usable[..n], failed[..n]);
            var d := DDLOf(statements[n], CurrentDatabase(database, statements[..n], usable[..n]));
            if failed[n] || d.None? then before else Updated(lower, before, d.value)
  {
    assert statements[..n + 1][..n] == statements[..n] && statements[..n + 1][n] == statements[n];
    assert usable[..n + 1][..n] == usable[..n] && usable[..n + 1][n] == usable[n];
    assert failed[..n + 1][..n] == failed[..n] && failed[..n + 1][n] == failed[n];
  }

  lemma NextMoment(lower: bool, source: V.View, database: string, statements: seq<Statement>, records: seq<Record>,
                   trail: seq<Moment>, n: nat)
    requires Trail(lower, source, database, statements, records, trail) && n + 1 < |trail|
    ensures trail[n + 1].view == trail[n].after && trail[n + 1].database == trail[n].next
    ensures RightRecord(lower, statements[n], records[n], trail[n])
    ensures RightRecord(lower, statements[n + 1], records[n + 1], trail[n + 1])
  {
    var i := n + 1;
    assert Linked(source, database, trail[..i], trail[i]) && trail[..i][n] == trail[n];
  }

  lemma FirstMoment(lower: bool, source: V.View, database: string, statements: seq<Statement>, records: seq<Record>,
                    trail: seq<Moment>)
    requires Trail(lower, source, database, statements, records, trail) && trail != []
    ensures trail[0].view == source && trail[0].database == database
    ensures RightRecord(lower, statements[0], records[0], trail[0])
  {
    assert Linked(source, database, trail[..0], trail[0]);
  }

  /** When statement i is checked, the schema that the rules see is the source schema updated in
      order by exactly the earlier DDL statements whose record is not Error, and the current database
      is that of the last USE that found its schema, or else the request's. */
  lemma {:induction false} RulesSeeTheBatchSoFar(lower: bool, source: V.View, database: string,
                                                 statements: seq<Statement>, records: seq<Record>, trail: seq<Moment>,
                                                 i: nat)
    requires Trail(lower, source, database, statements, records, trail) && i < |trail|
    requires forall k :: 0 <= k < i ==> Projected(statements[k])
    requires forall k :: 0 <= k < i && DDLOf(statements[k], trail[k].database).Some? ==>
               SimpleRename(lower, DDLOf(statements[k], trail[k].database).value)
    ensures trail[i].database == CurrentDatabase(database, statements[..i], Usable(trail)[..i])
    ensures trail[i].view == SchemaAfter(lower, source, database, statements[..i], Usable(trail)[..i],
                                         Failed(records)[..i])
  {
    if i > 0 {
      var n := i - 1;
      RulesSeeTheBatchSoFar(lower, source, database, statements, records, trail, n);
      NextMoment(lower, source, database, statements, records, trail, n);
      OneStatement(lower, statements[n], records[n], trail[n]);
      OneFurther(lower, source, database, statements, Usable(trail), Failed(records), n);
    } else {
      FirstMoment(lower, source, database, statements, records, trail);
    }
  }

  // ---------------------------------------------------------------- the gate and the execution

  /** No record stands against the execution. */
  predicate Passes(o: Options, records: seq<Record>) {
    forall i :: 0 <= i < |records| ==> records[i].level != Error && (records[i].level == Warning ==> o.ignoreWarnings)
  }

  function WithFault(r: Record, f: Fault, stage: Stage, status: Status): Record {
    r.(issues := r.issues + [Issue(ExecutionRule(f), Error)], level := Error, stage := stage, status := status)
  }

  /** How a result is entered in the record of its statement. */
  function Merged(r: Record, x: Result): Record {
    match x.fault
    case None =>
      r.(stage := if x.completed then AtBackup else AtExecution,
         status := if x.completed then BackupSuccessfully else ExecuteSuccessfully)
    case Some(f) =>
      var rule := if f == NoRule then ExecutionFailed else f;
      if rule == Fault.BackupFailed && x.executed then WithFault(r, rule, AtBackup, Status.BackupFailed)
      else WithFault(r, rule, AtExecution, ExecuteFailed)
  }

  /** The gate: the first record that stands against the execution ends the request. */
  method Gate(o: Options, records: seq<Record>) returns (passed: bool)
    ensures passed <==> Passes(o, records)
  {
    for i := 0 to |records|
      invariant Passes(o, records[..i])
    {
      assert records[i] == records[..i + 1][i];
      if records[i].level == Error || (records[i].level == Warning && !o.ignoreWarnings) {
        return false;
      }
      assert forall j :: 0 <= j < i ==> records[..i + 1][j] == records[..i][j];
    }
    assert records[..|records|] == records;
    return true;
  }

  /** The results, numbered from 1, of which only the last can be a failure. */
  predicate InOrder(results: seq<Result>, n: nat) {
    |results| <= n && (forall i :: 0 <= i < |results| ==> results[i].sequence == i + 1)
    && (forall i :: 0 <= i < |results| - 1 ==> results[i].fault.None?)
  }

  /** The loop over the results. */
  method Enter(records: seq<Record>, results: seq<Result>) returns (entered: seq<Record>)
    requires InOrder(results, |records|)
    ensures |entered| == |records|
    ensures forall i :: 0 <= i < |records| ==>
        entered[i] == if i < |results| then Merged(records[i], results[i]) else records[i]
  {
    entered := records;
    for k := 0 to |results|
      invariant |entered| == |records|
      invariant forall i :: 0 <= i < |records| ==>
          entered[i] == if i < k then Merged(records[i], results[i]) else records[i]
    {
      var x := results[k];
      if x.sequence < 1 || x.sequence > |entered| {
        continue;
      }
      entered := entered[x.sequence - 1 := Merged(entered[x.sequence - 1], x)];
      if x.fault.Some? {
        break;
      }
    }
  }

  /** The outcome of the execution part of a request: nothing was run and nothing is reported, or the
      gate was open and the records tell what the results say. */
  ghost predicate Outcome(o: Options, statements: seq<Statement>, checked: seq<Record>, results: seq<Result>,
                          records: seq<Record>) {
    |checked| == |records| == |statements|
    && (results != [] ==> o.execute && Passes(o, checked))
    && (SetUpFailure(results) || PrefixRun(statements, o.backup, results))
    && (forall i :: 0 <= i < |records| ==>
        records[i] == if i < |results| then Merged(checked[i], results[i]) else checked[i])
  }

  /** The gate and what follows it. `results` is what the executor answered; a missing executor and
      one that cannot be opened count as a failure to set up. */
  method Proceed(env: Env, target: Target, store: B.BackupStore, o: Options, statements: seq<Statement>,
                 checked: seq<Record>, configured: bool, reachable: bool)
    returns (records: seq<Record>, ghost results: seq<Result>, ghost journal: seq<X.Executed>,
             ghost stores: seq<B.Contents>)
    requires Numbered(statements) && statements != [] && |checked| == |statements|
    modifies target, store
    ensures Outcome(o, statements, checked, results, records)
    ensures !o.execute || !Passes(o, checked) ==> results == []
    ensures o.execute && Passes(o, checked) ==>
              if configured && reachable then Ran(env, statements, o.backup, results, stores)
              else results == [Result(1, false, false, Some(ExecutionFailed))]
    ensures target.executed == old(target.executed) + Executed(results)
    ensures Journal(env, statements, results, journal, stores) && stores[0] == old(store.dbs)
    ensures StoreLeft(env, statements, results, stores[|journal|], store.dbs)
  {
    records, results, journal, stores := checked, [], [], [store.dbs];
    if !o.execute {
      return;
    }
    var passed := Gate(o, checked);
    if !passed {
      return;
    }
    if !configured || !reachable {
      results := [Result(1, false, false, Some(ExecutionFailed))];
      records := records[0 := WithFault(records[0], ExecutionFailed, AtExecution, ExecuteFailed)];
      return;
    }
    var answers;
    answers, journal, stores := Execute(env, target, store, statements, o.backup);
    results := answers;
    records := Enter(records, answers);
  }

  lemma LeftIsNumbered(lower: bool, source: V.View, database: string, statements: seq<Statement>,
                       records: seq<Record>, trail: seq<Moment>)
    requires Trail(lower, source, database, statements, records, trail) && Numbered(statements)
    ensures Numbered(Lefts(trail))
  {
    forall i | 0 <= i < |trail| ensures trail[i].left.sequence == i + 1 {
      assert LeftAs(lower, statements[i], trail[i]);
    }
  }

  lemma PreparedKeepsNames(lower: bool, v: V.View, d: V.DDL, p: V.DDL)
    requires V.PrepareOn(lower, v, d) == V.Accepted(p)
    ensures p.schema == d.schema && p.tables == d.tables && p.pairs == d.pairs && p.ops == d.ops
  {
  }

  lemma ResolvedKeepsOps(s: Statement, current: string)
    requires s.ddl.Some?
    ensures Resolve(s, current).ddl.Some? && Resolve(s, current).ddl.value.ops == s.ddl.value.ops
  {
  }

  /** The schema that a table is in. */
  function SchemaUnder(own: string, schema: string): string { if own != "" then own else schema }

  /** The references have the same tables, each in its own schema or else in this one. */
  predicate Placed(refs: seq<TableRef>, schema: string, placed: seq<TableRef>) {
    |placed| == |refs|
    && forall i :: 0 <= i < |refs| ==> placed[i] == TableRef(SchemaUnder(refs[i].schema, schema), refs[i].name)
  }

  /** What is run has been resolved: every table that the DDL and DML parts of an admitted statement name
      is in its own schema, or else that of the DDL part, or else the statement's database, or else the one that
      was current when the statement was checked. */
  lemma RunAsChecked(lower: bool, s: Statement, r: Record, m: Moment)
    requires RightRecord(lower, s, r, m) && m.admitted && s.kind != Use
    ensures m.left.sequence == s.sequence && m.left.kind == s.kind
    ensures var base := SchemaUnder(s.database, m.database);
            var inside := if s.ddl.Some? then SchemaUnder(s.ddl.value.schema, base) else base;
            (m.left.dml.Some? <==> s.dml.Some?) && (m.left.ddl.Some? <==> s.ddl.Some?)
            && (s.dml.Some? ==>
                m.left.dml.value == s.dml.value.(tables := m.left.dml.value.tables)
                && Placed(s.dml.value.tables, inside, m.left.dml.value.tables))
            && (s.ddl.Some? ==>
                m.left.ddl.value.schema == inside && Placed(s.ddl.value.tables, inside, m.left.ddl.value.tables)
                && m.left.ddl.value.ops == s.ddl.value.ops && |m.left.ddl.value.pairs| == |s.ddl.value.pairs|
                && forall i :: 0 <= i < |s.ddl.value.pairs| ==>
                     var p, q := s.ddl.value.pairs[i], m.left.ddl.value.pairs[i];
                     q.from == TableRef(SchemaUnder(p.from.schema, inside), p.from.name)
                     && q.to == TableRef(SchemaUnder(p.to.schema, inside), p.to.name))
  {
    if s.ddl.Some? {
      ResolvedKeepsOps(s, m.database);
      var d := DDLOf(s, m.database);
      if d.Some? {
        PreparedKeepsNames(lower, m.view, d.value, m.left.ddl.value);
      }
    }
  }

  /** Audit, from the parsed statements on. */
  method Audit(env: Env, cache: P.Provider, target: Target, store: B.BackupStore, o: Options,
               statements: seq<Statement>, configured: bool, reachable: bool)
    returns (records: seq<Record>, ghost checked: seq<Record>, ghost trail: seq<Moment>, ghost results: seq<Result>,
             ghost journal: seq<X.Executed>, ghost stores: seq<B.Contents>)
    requires cache.Valid() && Numbered(statements) && statements != []
    requires forall i :: 0 <= i < |statements| ==> Projected(statements[i])
    modifies cache, target, store
    ensures Trail(cache.lower, old(cache.Visible()), o.database, statements, checked, trail)
    ensures Outcome(o, Lefts(trail), checked, results, records)
    ensures !o.execute || !Passes(o, checked) ==> results == []
    ensures o.execute && Passes(o, checked) ==>
              if configured && reachable then Ran(env, Lefts(trail), o.backup, results, stores)
              else results == [Result(1, false, false, Some(ExecutionFailed))]
    ensures target.executed == old(target.executed) + Executed(results)
    ensures Journal(env, Lefts(trail), results, journal, stores) && stores[0] == old(store.dbs)
    ensures StoreLeft(env, Lefts(trail), results, stores[|journal|], store.dbs)
  {
    var all, left;
    all, left, trail := CheckBatch(cache, o, statements);
    checked := all;
    LeftIsNumbered(cache.lower, old(cache.Visible()), o.database, statements, all, trail);
    records, results, journal, stores := Proceed(env, target, store, o, left, all, configured, reachable);
  }

  predicate SaysExecuted(r: Record) { r.status in {ExecuteSuccessfully, BackupSuccessfully, Status.BackupFailed} }

  lemma {:induction false} ExecutedAre(results: seq<Result>, k: nat)
    requires forall i :: 0 <= i < |results| ==> results[i].sequence == i + 1
    ensures k + 1 in Executed(results) <==> k < |results| && results[k].executed
    ensures k + 1 in Completed(results) <==> k < |results| && results[k].completed
    decreases |results|
  {
    if results != [] {
      var init := results[..|results| - 1];
      ExecutedAre(init, k);
      assert k < |init| ==> init[k] == results[k];
    }
  }

  /** What one record says after its result has been entered. */
  lemma MergedSays(s: Statement, backup: bool, r: Record, x: Result)
    requires IsCheckRecord(r)
    requires Honest(s, backup, x) || (x.fault.Some? && !x.executed && !x.completed)
    ensures SaysExecuted(Merged(r, x)) <==> x.executed
    ensures Merged(r, x).status == BackupSuccessfully <==> x.completed
    ensures Merged(r, x).status in {ExecuteSuccessfully, BackupSuccessfully} <==> x.fault.None?
    ensures Merged(r, x).status in {ExecuteFailed, Status.BackupFailed} <==> x.fault.Some?
    ensures r.level != Error ==> (Merged(r, x).level == Error <==> x.fault.Some?)
    ensures backup && s.kind != Use && s.kind != Select && x.executed && !x.completed ==>
              Merged(r, x).status == Status.BackupFailed
    ensures r.issues <= Merged(r, x).issues && (x.fault.None? ==> Merged(r, x).issues == r.issues)
    ensures x.fault.Some? ==>
              var fault := if x.fault == Some(NoRule) then ExecutionFailed else x.fault.value;
              Merged(r, x).issues == r.issues + [Issue(ExecutionRule(fault), Error)]
  {
  }

  /** Every result is honest or that of a failure to set up, and only the last reports a failure. */
  lemma ResultsAre(o: Options, statements: seq<Statement>, checked: seq<Record>, results: seq<Result>,
                   records: seq<Record>)
    requires Numbered(statements) && Outcome(o, statements, checked, results, records)
    ensures forall i :: 0 <= i < |results| && i < |statements| ==>
              Honest(statements[i], o.backup, results[i])
                  || (results[i].fault.Some? && !results[i].executed && !results[i].completed)
    ensures forall i :: 0 <= i < |results| - 1 ==> results[i].fault.None?
    ensures forall i :: 0 <= i < |results| ==> results[i].sequence == i + 1
  {
    if !SetUpFailure(results) {
      forall i | 0 <= i < |results| ensures Honest(statements[i], o.backup, results[i]) {
      }
    }
  }

  /** The report tells the truth about the servers: a statement has taken effect if and only if its
      record says so, its backup was completed if and only if its record says so, nothing has taken effect
      without an open gate, every statement before one that took effect took effect, and after a record
      that reports a failure all records are as they were checked. */
  lemma ReportIsTrue(o: Options, statements: seq<Statement>, checked: seq<Record>, results: seq<Result>,
                     records: seq<Record>, k: nat)
    requires Numbered(statements) && Outcome(o, statements, checked, results, records) && k < |records|
    requires forall i :: 0 <= i < |checked| ==> IsCheckRecord(checked[i])
    ensures k + 1 in Executed(results) <==> SaysExecuted(records[k])
    ensures k + 1 in Completed(results) <==> records[k].status == BackupSuccessfully
    ensures SaysExecuted(records[k]) ==> o.execute && Passes(o, checked)
    ensures SaysExecuted(records[k]) ==> forall j :: 0 <= j < k ==>
        records[j].status in {ExecuteSuccessfully, BackupSuccessfully}
    ensures results != [] ==> (records[k].level == Error <==> records[k].status in {ExecuteFailed, Status.BackupFailed})
    ensures records[k].status in {ExecuteFailed, Status.BackupFailed} ==>
              forall j :: k < j < |records| ==> records[j] == checked[j] && records[j].stage == AtCheck
    ensures (o.backup && statements[k].kind != Use && statements[k].kind != Select && SaysExecuted(records[k])
             && records[k].status != BackupSuccessfully) ==>
              records[k].status == Status.BackupFailed
              && forall j :: k < j < |records| ==> records[j].stage == AtCheck
  {
    ResultsAre(o, statements, checked, results, records);
    ExecutedAre(results, k);
    forall i | 0 <= i < |results| && i < |records|
      ensures records[i] == Merged(checked[i], results[i])
      ensures records[i].status in {ExecuteSuccessfully, BackupSuccessfully} <==> results[i].fault.None?
    {
      MergedSays(statements[i], o.backup, checked[i], results[i]);
    }
    if k < |results| {
      MergedSays(statements[k], o.backup, checked[k], results[k]);
    } else {
      assert records[k] == checked[k] && IsCheckRecord(checked[k]);
    }
    forall j | k < j < |records| && |results| <= j ensures records[j] == checked[j] && records[j].stage == AtCheck {
      assert IsCheckRecord(checked[j]);
    }
  }

  /** Nothing is run past an issue of level 2, nor past one of level 1 unless warnings are to be ignored, of
      whichever statement. */
  lemma NothingRunsPastAnIssue(o: Options, statements: seq<Statement>, checked: seq<Record>, results: seq<Result>,
                               records: seq<Record>, k: nat, i: nat)
    requires Outcome(o, statements, checked, results, records) && k in Executed(results)
    requires i < |checked| && IsCheckRecord(checked[i])
    ensures o.execute && forall e :: e in checked[i].issues ==> e.level == 0 || (e.level == 1 && o.ignoreWarnings)
  {
    assert checked[i].level != Error;
    HighestIsMax(checked[i].issues);
  }

  /** No statement on tables or rows is run without a database. */
  lemma RunsInADatabase(lower: bool, source: V.View, o: Options, statements: seq<Statement>, checked: seq<Record>,
                        trail: seq<Moment>, results: seq<Result>, records: seq<Record>, k: nat)
    requires Trail(lower, source, o.database, statements, checked, trail) && Numbered(Lefts(trail))
    requires Outcome(o, Lefts(trail), checked, results, records) && k + 1 in Executed(results)
    ensures k < |trail|
    ensures statements[k].kind !in {Kind.Unknown, Kind.Use, Kind.Select, Kind.CreateDatabase, Kind.AlterDatabase,
                                    Kind.DropDatabase} ==>
              Resolved(statements[k], trail[k].database).database != ""
  {
    ResultsAre(o, Lefts(trail), checked, results, records);
    ExecutedAre(results, k);
    assert RightRecord(lower, statements[k], checked[k], trail[k]);
    assert checked[k].level != Error;
  }
}
