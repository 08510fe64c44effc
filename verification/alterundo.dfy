/** The rollback of an ALTER TABLE (prepareDDLRollback in internal/execution/mysql/engine.go)
    against the snapshot's own reading of ALTER TABLE. */
module AlterUndo {
  import opened Text
  import opened Catalog
  import opened Seqs
  import opened Snapshot

  /** The three kinds of operation that can be rolled back. */
  predicate Reversible(op: AlterOp) {
    op.AddColumns? || (op.AddIndex? && op.index.Some?) || op.RenameColumn?
  }

  function DropAll(columns: seq<ColumnSpec>): seq<AlterOp> {
    if columns == [] then [] else DropAll(columns[1..]) + [DropColumn(columns[0].name)]
  }

  function Inverse(op: AlterOp): seq<AlterOp>
    requires Reversible(op)
  {
    match op
    case AddColumns(columns) => DropAll(columns)
    case AddIndex(index) => [DropIndex(index.value.name)]
    case RenameColumn(name, newName) => [RenameColumn(newName, name)]
  }

  /** The rollback: the last operation is undone first. */
  function Rollback(ops: seq<AlterOp>): Option<seq<AlterOp>> {
    if ops == [] then Some([])
    else if !Reversible(ops[0]) then None
    else match Rollback(ops[1..]) case None => None case Some(later) => Some(later + Inverse(ops[0]))
  }

  lemma {:induction false} RollbackSnoc(ops: seq<AlterOp>, k: nat)
    requires k < |ops|
    ensures Rollback(ops[k..]) ==
            if !Reversible(ops[k]) then None
            else match Rollback(ops[k + 1..]) case None => None case Some(later) => Some(later + Inverse(ops[k]))
  {
    assert ops[k..][1..] == ops[k + 1..];
  }

  /** The backwards loops of prepareDDLRollback, which emit the statements in the order to run them. */
  method PrepareRollback(ops: seq<AlterOp>) returns (r: Option<seq<AlterOp>>)
    ensures r == Rollback(ops)
  {
    var out: seq<AlterOp> := [];
    var i := |ops| - 1;
    while i >= 0
      invariant -1 <= i < |ops| && Rollback(ops[i + 1..]) == Some(out)
    {
      RollbackSnoc(ops, i);
      var op := ops[i];
      match op {
        case AddColumns(columns) =>
          var j := |columns| - 1;
          ghost var before := out;
          while j >= 0
            invariant -1 <= j < |columns| && out == before + DropAll(columns[j + 1..])
          {
            assert columns[j..][1..] == columns[j + 1..];
            out := out + [DropColumn(columns[j].name)];
            j := j - 1;
          }
          assert columns[0..] == columns;
        case AddIndex(index) =>
          if index.None? {
            NotReversible(ops, i);
            return None;
          }
          out := out + [DropIndex(index.value.name)];
        case RenameColumn(name, newName) =>
          out := out + [RenameColumn(newName, name)];
        case _ =>
          NotReversible(ops, i);
          return None;
      }
      i := i - 1;
    }
    assert ops[0..] == ops;
    return Some(out);
  }

  lemma {:induction false} NotReversible(ops: seq<AlterOp>, k: nat)
    requires k < |ops| && !Reversible(ops[k])
    ensures Rollback(ops).None?
  {
    if k > 0 {
      NotReversible(ops[1..], k - 1);
    }
  }

  // ---------------------------------------------------------------- equality up to letter case

  function FoldColumn(c: Column): Column { c.(name := Fold(c.name)) }

  function FoldIndex(i: Index): Index { i.(columns := Map(Fold, i.columns)) }

  /** The table with the letter case of its column names forgotten. */
  function FoldTable(t: Table): Table {
    t.(columns := Map(FoldColumn, t.columns), indexes := Map(FoldIndex, t.indexes))
  }

  ghost predicate Same(t: Table, u: Table) { FoldTable(t) == FoldTable(u) }

  lemma SameParts(t: Table, u: Table)
    requires Same(t, u)
    ensures |t.columns| == |u.columns| && forall i :: 0 <= i < |t.columns| ==>
        FoldColumn(t.columns[i]) == FoldColumn(u.columns[i])
    ensures |t.indexes| == |u.indexes| && forall i :: 0 <= i < |t.indexes| ==>
        FoldIndex(t.indexes[i]) == FoldIndex(u.indexes[i])
    ensures t.(columns := [], indexes := []) == u.(columns := [], indexes := [])
  {
    assert Map(FoldColumn, t.columns) == Map(FoldColumn, u.columns);
    assert Map(FoldIndex, t.indexes) == Map(FoldIndex, u.indexes);
    forall i | 0 <= i < |t.columns| ensures FoldColumn(t.columns[i]) == FoldColumn(u.columns[i]) {
      assert Map(FoldColumn, t.columns)[i] == Map(FoldColumn, u.columns)[i];
    }
    forall i | 0 <= i < |t.indexes| ensures FoldIndex(t.indexes[i]) == FoldIndex(u.indexes[i]) {
      assert Map(FoldIndex, t.indexes)[i] == Map(FoldIndex, u.indexes)[i];
    }
  }

  lemma SameFromParts(t: Table, u: Table)
    requires |t.columns| == |u.columns| && forall i :: 0 <= i < |t.columns| ==>
        FoldColumn(t.columns[i]) == FoldColumn(u.columns[i])
    requires |t.indexes| == |u.indexes| && forall i :: 0 <= i < |t.indexes| ==>
        FoldIndex(t.indexes[i]) == FoldIndex(u.indexes[i])
    requires t.(columns := [], indexes := []) == u.(columns := [], indexes := [])
    ensures Same(t, u)
  {
    assert Map(FoldColumn, t.columns) == Map(FoldColumn, u.columns);
    assert Map(FoldIndex, t.indexes) == Map(FoldIndex, u.indexes);
  }

  lemma SameFinds(a: seq<Column>, b: seq<Column>, name: string)
    requires |a| == |b| && forall i :: 0 <= i < |a| ==> FoldColumn(a[i]) == FoldColumn(b[i])
    ensures FindColumn(a, name) == FindColumn(b, name)
  {
    forall i | 0 <= i < |a| ensures EqualFold(a[i].name, name) <==> EqualFold(b[i].name, name) {
      assert FoldColumn(a[i]).name == FoldColumn(b[i]).name;
    }
  }

  lemma SameFindsIndex(a: seq<Index>, b: seq<Index>, name: string)
    requires |a| == |b| && forall i :: 0 <= i < |a| ==> FoldIndex(a[i]) == FoldIndex(b[i])
    ensures FindIndex(a, name) == FindIndex(b, name)
  {
    forall i | 0 <= i < |a| ensures a[i].name == b[i].name {
      assert FoldIndex(a[i]).name == FoldIndex(b[i]).name;
    }
  }

  lemma FoldIndexParts(a: Index, b: Index)
    requires FoldIndex(a) == FoldIndex(b)
    ensures |a.columns| == |b.columns| && forall k :: 0 <= k < |a.columns| ==> Fold(a.columns[k]) == Fold(b.columns[k])
    ensures a.(columns := []) == b.(columns := [])
  {
    assert Map(Fold, a.columns) == Map(Fold, b.columns);
    forall k | 0 <= k < |a.columns| ensures Fold(a.columns[k]) == Fold(b.columns[k]) {
      assert Map(Fold, a.columns)[k] == Map(Fold, b.columns)[k];
    }
  }

  lemma {:induction false} SameKept(a: seq<string>, b: seq<string>, prefixes: seq<int>, column: string)
    requires |a| == |b| && forall k :: 0 <= k < |a| ==> Fold(a[k]) == Fold(b[k])
    ensures Map(Fold, KeepColumns(a, column)) == Map(Fold, KeepColumns(b, column))
    ensures KeepPrefixes(a, prefixes, column) == KeepPrefixes(b, prefixes, column)
    decreases |a|
  {
    if a != [] {
      SameKept(a[1..], b[1..], if prefixes == [] then [] else prefixes[1..], column);
      if !EqualFold(a[0], column) {
        assert KeepColumns(a, column) == [a[0]] + KeepColumns(a[1..], column);
        assert KeepColumns(b, column) == [b[0]] + KeepColumns(b[1..], column);
        MapConcat(Fold, [a[0]], KeepColumns(a[1..], column));
        MapConcat(Fold, [b[0]], KeepColumns(b[1..], column));
        assert Map(Fold, [a[0]]) == Map(Fold, [b[0]]);
      }
    }
  }

  lemma SameDroppedFromOne(a: Index, b: Index, column: string)
    requires FoldIndex(a) == FoldIndex(b)
    ensures FoldIndex(DropFromIndex(a, column)) == FoldIndex(DropFromIndex(b, column))
    ensures HasParts(DropFromIndex(a, column)) <==> HasParts(DropFromIndex(b, column))
  {
    FoldIndexParts(a, b);
    SameKept(a.columns, b.columns, a.prefixLengths, column);
    assert |Map(Fold, KeepColumns(a.columns, column))| == |Map(Fold, KeepColumns(b.columns, column))|;
  }

  lemma {:induction false} SameDropped(a: seq<Index>, b: seq<Index>, column: string)
    requires |a| == |b| && forall i :: 0 <= i < |a| ==> FoldIndex(a[i]) == FoldIndex(b[i])
    ensures var x, y := DropFromIndexes(a, column), DropFromIndexes(b, column);
            |x| == |y| && forall i :: 0 <= i < |x| ==> FoldIndex(x[i]) == FoldIndex(y[i])
  {
    if a != [] {
      SameDropped(a[1..], b[1..], column);
      SameDroppedFromOne(a[0], b[0], column);
    }
  }

  lemma SameRenamed(a: Index, b: Index, from: string, to: string)
    requires FoldIndex(a) == FoldIndex(b)
    ensures FoldIndex(RenameInIndex(a, from, to)) == FoldIndex(RenameInIndex(b, from, to))
  {
    FoldIndexParts(a, b);
    var x, y := Map(Renamed(from, to), a.columns), Map(Renamed(from, to), b.columns);
    forall k | 0 <= k < |x| ensures Fold(x[k]) == Fold(y[k]) {
      assert Fold(a.columns[k]) == Fold(b.columns[k]);
    }
    assert Map(Fold, x) == Map(Fold, y);
  }

  lemma SameWithout(x: seq<Column>, y: seq<Column>, n: nat)
    requires |x| == |y| && n < |x| && forall i :: 0 <= i < |x| ==> FoldColumn(x[i]) == FoldColumn(y[i])
    ensures forall i :: 0 <= i < |x| - 1 ==> FoldColumn(Without(x, n)[i]) == FoldColumn(Without(y, n)[i])
  {
  }

  lemma SameDropColumn(t: Table, u: Table, name: string)
    requires Same(t, u)
    ensures SameOutcome(ApplyOp(t, DropColumn(name)), ApplyOp(u, DropColumn(name)))
  {
    SameParts(t, u);
    SameFinds(t.columns, u.columns, name);
    SameDropped(t.indexes, u.indexes, name);
    DropColumnOp(t, name);
    DropColumnOp(u, name);
    var n := FindColumn(t.columns, name);
    if n >= 0 {
      SameWithout(t.columns, u.columns, n);
      SameFromParts(ApplyOp(t, DropColumn(name)).value, ApplyOp(u, DropColumn(name)).value);
    }
  }

  lemma SameDropIndex(t: Table, u: Table, name: string)
    requires Same(t, u)
    ensures SameOutcome(ApplyOp(t, DropIndex(name)), ApplyOp(u, DropIndex(name)))
  {
    SameParts(t, u);
    SameFindsIndex(t.indexes, u.indexes, name);
    var n := FindIndex(t.indexes, name);
    if n >= 0 {
      var x, y := Without(t.indexes, n), Without(u.indexes, n);
      assert forall i :: 0 <= i < |x| ==> FoldIndex(x[i]) == FoldIndex(y[i]);
      SameFromParts(ApplyOp(t, DropIndex(name)).value, ApplyOp(u, DropIndex(name)).value);
    }
  }

  lemma SameRenameColumn(t: Table, u: Table, name: string, newName: string)
    requires Same(t, u)
    ensures SameOutcome(ApplyOp(t, RenameColumn(name, newName)), ApplyOp(u, RenameColumn(name, newName)))
  {
    var op := RenameColumn(name, newName);
    SameParts(t, u);
    SameFinds(t.columns, u.columns, name);
    SameFinds(t.columns, u.columns, newName);
    if ApplyOp(t, op).Some? {
      forall i | 0 <= i < |t.indexes|
        ensures FoldIndex(RenameInIndex(t.indexes[i], name, newName))
            == FoldIndex(RenameInIndex(u.indexes[i], name, newName))
      {
        SameRenamed(t.indexes[i], u.indexes[i], name, newName);
      }
      SameFromParts(ApplyOp(t, op).value, ApplyOp(u, op).value);
    }
  }

  ghost predicate SameOutcome(a: Option<Table>, b: Option<Table>) {
    (a.Some? <==> b.Some?) && (a.Some? ==> Same(a.value, b.value))
  }

  /** The operations a rollback consists of do not see letter case. */
  lemma SameApplied(t: Table, u: Table, op: AlterOp)
    requires Same(t, u) && (op.DropColumn? || op.DropIndex? || op.RenameColumn?)
    ensures SameOutcome(ApplyOp(t, op), ApplyOp(u, op))
  {
    match op
    case DropColumn(name) => SameDropColumn(t, u, name);
    case DropIndex(name) => SameDropIndex(t, u, name);
    case RenameColumn(name, newName) => SameRenameColumn(t, u, name, newName);
  }

  predicate Undoing(op: AlterOp) { op.DropColumn? || op.DropIndex? || op.RenameColumn? }

  lemma {:induction false} SameAppliedAll(t: Table, u: Table, ops: seq<AlterOp>)
    requires Same(t, u) && forall i :: 0 <= i < |ops| ==> Undoing(ops[i])
    ensures ApplyOps(t, ops).Some? <==> ApplyOps(u, ops).Some?
    ensures ApplyOps(t, ops).Some? ==> Same(ApplyOps(t, ops).value, ApplyOps(u, ops).value)
    decreases |ops|
  {
    if ops != [] {
      SameApplied(t, u, ops[0]);
      if ApplyOp(t, ops[0]).Some? {
        SameAppliedAll(ApplyOp(t, ops[0]).value, ApplyOp(u, ops[0]).value, ops[1..]);
      }
    }
  }

  // ---------------------------------------------------------------- undoing one operation

  /** An index of a sound table: it has a part, and no prefix length without a column. */
  predicate SoundIndex(i: Index) { HasParts(i) && |i.prefixLengths| <= |i.columns| }

  predicate SoundTable(t: Table) {
    WellFormed(t) && forall i :: 0 <= i < |t.indexes| ==> SoundIndex(t.indexes[i])
  }

  /** An added index names at least one column, and existing ones only. */
  predicate SoundOp(t: Table, op: AlterOp) {
    op.AddIndex? && op.index.Some? ==> op.index.value.columns != [] && Present(t.columns, op.index.value.columns)
  }

  lemma {:induction false} KeepsAll(columns: seq<string>, prefixes: seq<int>, column: string)
    requires |prefixes| <= |columns| && forall k :: 0 <= k < |columns| ==> !EqualFold(columns[k], column)
    ensures KeepColumns(columns, column) == columns && KeepPrefixes(columns, prefixes, column) == prefixes
    decreases |columns|
  {
    if columns != [] {
      KeepsAll(columns[1..], if prefixes == [] then [] else prefixes[1..], column);
    }
  }

  lemma {:induction false} DropsNothing(columns: seq<Column>, indexes: seq<Index>, column: string)
    requires forall i :: 0 <= i < |indexes| ==> SoundIndex(indexes[i]) && Present(columns, indexes[i].columns)
    requires FindColumn(columns, column) < 0
    ensures DropFromIndexes(indexes, column) == indexes
  {
    if indexes != [] {
      var names := indexes[0].columns;
      forall k | 0 <= k < |names| ensures !EqualFold(names[k], column) {
        var n := FindColumn(columns, names[k]);
        assert EqualFold(columns[n].name, names[k]);
      }
      KeepsAll(names, indexes[0].prefixLengths, column);
      DropsNothing(columns, indexes[1..], column);
    }
  }

  lemma UndoAddColumn(t: Table, c: ColumnSpec)
    requires SoundTable(t) && FindColumn(t.columns, c.name) < 0
    ensures ApplyOp(t.(columns := t.columns + [ColumnFromSpec(c)]), DropColumn(c.name)) == Some(t)
  {
    var u := t.(columns := t.columns + [ColumnFromSpec(c)]);
    assert FindColumn(u.columns, c.name) == |t.columns| by {
      assert u.columns[|t.columns|].name == c.name;
      assert forall i :: 0 <= i < |t.columns| ==> u.columns[i] == t.columns[i];
    }
    DropsNothing(t.columns, t.indexes, c.name);
    assert Without(u.columns, |t.columns|) == t.columns;
  }

  lemma UndoAddIndex(t: Table, i: IndexSpec)
    requires FindIndex(t.indexes, i.name) < 0
    ensures ApplyOp(t.(indexes := t.indexes + [NewIndex(i)]), DropIndex(i.name)) == Some(t)
  {
    var u := t.(indexes := t.indexes + [NewIndex(i)]);
    assert FindIndex(u.indexes, i.name) == |t.indexes| by {
      assert u.indexes[|t.indexes|].name == i.name;
      assert forall k :: 0 <= k < |t.indexes| ==> u.indexes[k] == t.indexes[k];
    }
    assert Without(u.indexes, |t.indexes|) == t.indexes;
  }

  lemma RenameBack(columns: seq<Column>, i: Index, from: string, to: string)
    requires Present(columns, i.columns) && FindColumn(columns, to) < 0
    ensures FoldIndex(RenameInIndex(RenameInIndex(i, from, to), to, from)) == FoldIndex(i)
  {
    var once := Map(Renamed(from, to), i.columns);
    var back := Map(Renamed(to, from), once);
    forall k | 0 <= k < |back| ensures Fold(back[k]) == Fold(i.columns[k]) {
      var n := FindColumn(columns, i.columns[k]);
      assert !EqualFold(columns[n].name, to);
    }
    assert Map(Fold, back) == Map(Fold, i.columns);
  }

  lemma UndoRename(t: Table, from: string, to: string)
    requires WellFormed(t) && ApplyOp(t, RenameColumn(from, to)).Some?
    ensures var u := ApplyOp(t, RenameColumn(from, to)).value;
            ApplyOp(u, RenameColumn(to, from)).Some? && Same(ApplyOp(u, RenameColumn(to, from)).value, t)
  {
    var n := FindColumn(t.columns, from);
    var u := ApplyOp(t, RenameColumn(from, to)).value;
    assert u.columns[n].name == to;
    assert forall i :: 0 <= i < |u.columns| && i != n ==> u.columns[i] == t.columns[i];
    assert FindColumn(u.columns, to) == n;
    assert FindColumn(u.columns, from) < 0;
    var v := ApplyOp(u, RenameColumn(to, from)).value;
    forall i | 0 <= i < |t.indexes| ensures FoldIndex(v.indexes[i]) == FoldIndex(t.indexes[i]) {
      RenameBack(t.columns, t.indexes[i], from, to);
    }
    SameFromParts(v, t);
  }

  lemma {:induction false} ApplyConcat(t: Table, a: seq<AlterOp>, b: seq<AlterOp>)
    ensures ApplyOps(t, a + b) == match ApplyOps(t, a) case None => None case Some(u) => ApplyOps(u, b)
    decreases |a|
  {
    if a == [] {
      assert a + b == b;
    } else {
      assert (a + b)[1..] == a[1..] + b;
      if ApplyOp(t, a[0]).Some? {
        ApplyConcat(ApplyOp(t, a[0]).value, a[1..], b);
      }
    }
  }

  lemma ApplyOne(t: Table, op: AlterOp)
    ensures ApplyOps(t, [op]) == ApplyOp(t, op)
  {
    assert [op][1..] == [];
  }

  lemma {:induction false} UndoAddColumns(t: Table, columns: seq<ColumnSpec>)
    requires SoundTable(t) && AddColumnList(t, columns).Some?
    ensures ApplyOps(AddColumnList(t, columns).value, DropAll(columns)) == Some(t)
    ensures SoundTable(AddColumnList(t, columns).value)
    decreases |columns|
  {
    if columns != [] {
      var c := columns[0];
      var u := t.(columns := t.columns + [ColumnFromSpec(c)]);
      AddColumnsWellFormed(t, [c]);
      assert [c][1..] == [] && AddColumnList(t, [c]) == Some(u);
      UndoAddColumns(u, columns[1..]);
      ApplyConcat(AddColumnList(t, columns).value, DropAll(columns[1..]), [DropColumn(c.name)]);
      UndoAddColumn(t, c);
      ApplyOne(u, DropColumn(c.name));
    }
  }

  lemma RenameKeepsSound(t: Table, from: string, to: string)
    requires SoundTable(t) && ApplyOp(t, RenameColumn(from, to)).Some?
    ensures SoundTable(ApplyOp(t, RenameColumn(from, to)).value)
  {
    OpKeepsWellFormed(t, RenameColumn(from, to));
    var u := ApplyOp(t, RenameColumn(from, to)).value;
    forall i | 0 <= i < |u.indexes| ensures SoundIndex(u.indexes[i]) {
      assert SoundIndex(t.indexes[i]);
      assert |u.indexes[i].columns| == |t.indexes[i].columns|;
    }
  }

  lemma AddIndexKeepsSound(t: Table, index: IndexSpec)
    requires SoundTable(t) && FindIndex(t.indexes, index.name) < 0
    requires index.columns != [] && Present(t.columns, index.columns)
    ensures SoundTable(t.(indexes := t.indexes + [NewIndex(index)]))
  {
    AddIndexWellFormed(t, index);
  }

  /** One operation and its inverse. */
  lemma UndoOp(t: Table, op: AlterOp)
    requires SoundTable(t) && Reversible(op) && SoundOp(t, op) && ApplyOp(t, op).Some?
    ensures var u := ApplyOp(t, op).value;
            SoundTable(u) && ApplyOps(u, Inverse(op)).Some? && Same(ApplyOps(u, Inverse(op)).value, t)
  {
    match op
    case AddColumns(columns) => UndoAddColumns(t, columns);
    case AddIndex(index) =>
      UndoAddIndex(t, index.value);
      ApplyOne(ApplyOp(t, op).value, DropIndex(index.value.name));
      AddIndexKeepsSound(t, index.value);
    case RenameColumn(name, newName) =>
      UndoRename(t, name, newName);
      ApplyOne(ApplyOp(t, op).value, RenameColumn(newName, name));
      RenameKeepsSound(t, name, newName);
  }

  // ---------------------------------------------------------------- undoing an ALTER

  predicate AllSound(t: Table, ops: seq<AlterOp>)
    decreases |ops|
  {
    ops == [] || (SoundOp(t, ops[0]) && (ApplyOp(t, ops[0]).Some? ==> AllSound(ApplyOp(t, ops[0]).value, ops[1..])))
  }

  lemma {:induction false} DropsAreUndoing(columns: seq<ColumnSpec>)
    ensures forall i :: 0 <= i < |DropAll(columns)| ==> Undoing(DropAll(columns)[i])
  {
    if columns != [] {
      DropsAreUndoing(columns[1..]);
    }
  }

  lemma InverseIsUndoing(op: AlterOp)
    requires Reversible(op)
    ensures forall i :: 0 <= i < |Inverse(op)| ==> Undoing(Inverse(op)[i])
  {
    if op.AddColumns? {
      DropsAreUndoing(op.columns);
    }
  }

  /** For every ALTER that succeeds on a sound table and has a rollback, running the emitted
      statements in the order of emission succeeds and restores the table up to letter case. */
  lemma {:induction false} EmittedOrder(t: Table, ops: seq<AlterOp>)
    requires SoundTable(t) && AllSound(t, ops) && ApplyOps(t, ops).Some? && Rollback(ops).Some?
    ensures var u := ApplyOps(ApplyOps(t, ops).value, Rollback(ops).value);
            u.Some? && Same(u.value, t)
    decreases |ops|
  {
    if ops != [] {
      var op, rest := ops[0], ops[1..];
      var mid := ApplyOp(t, op).value;
      UndoOp(t, op);
      EmittedOrder(mid, rest);
      var last := ApplyOps(t, ops).value;
      var later := Rollback(rest).value;
      ApplyConcat(last, later, Inverse(op));
      var back := ApplyOps(last, later).value;
      InverseIsUndoing(op);
      SameAppliedAll(back, mid, Inverse(op));
    }
  }

  /** There is a rollback exactly for the ALTERs made of the three reversible kinds. */
  lemma {:induction false} RollbackExists(ops: seq<AlterOp>)
    ensures Rollback(ops).Some? <==> forall i :: 0 <= i < |ops| ==> Reversible(ops[i])
  {
    if ops != [] {
      RollbackExists(ops[1..]);
      assert forall i :: 1 <= i < |ops| ==> ops[i] == ops[1..][i - 1];
    }
  }
}
