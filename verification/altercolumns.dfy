/** What becomes of the columns of a table under an ALTER, with some of them made NOT NULL by the server, and
    under the statements on columns of its rollback. */
module AlterColumns {
  import opened Text
  import opened Catalog
  import opened Seqs
  import opened Snapshot
  import opened AlterUndo
  import opened AlterOrder
  import opened AlterServer

  // ---------------------------------------------------------------- columns that become NOT NULL

  /** The same column, NOT NULL at least if it was. */
  predicate StricterColumn(c: Column, c0: Column) {
    c0 == c.(nullable := c0.nullable) && (c0.nullable ==> c.nullable)
  }

  predicate StricterColumns(a: seq<Column>, b: seq<Column>) {
    |a| == |b| && forall k :: 0 <= k < |a| ==> StricterColumn(a[k], b[k])
  }

  /** The same table, with some columns NOT NULL that were not. */
  predicate Stricter(t: Table, t0: Table) {
    t0 == t.(columns := t0.columns) && StricterColumns(t.columns, t0.columns)
  }

  ghost predicate SameNames(a: seq<Column>, b: seq<Column>) {
    |a| == |b| && forall k :: 0 <= k < |a| ==> a[k].name == b[k].name
  }

  lemma SameNamesFind(a: seq<Column>, b: seq<Column>, name: string)
    requires SameNames(a, b)
    ensures FindColumn(a, name) == FindColumn(b, name)
  {
  }

  /** The same operation on columns, up to nullability. */
  predicate Like(op: AlterOp, op0: AlterOp) {
    if op.AddColumns? then
      op0.AddColumns? && |op0.columns| == |op.columns|
      && forall k :: 0 <= k < |op.columns| ==> op0.columns[k].name == op.columns[k].name
    else op0 == op
  }

  ghost predicate AllLike(ops: seq<AlterOp>, ops0: seq<AlterOp>) {
    |ops| == |ops0| && forall k :: 0 <= k < |ops| ==> Like(ops[k], ops0[k])
  }

  lemma {:induction false} AddListForm(t: Table, columns: seq<ColumnSpec>)
    requires AddColumnList(t, columns).Some?
    ensures AddColumnList(t, columns).value == t.(columns := t.columns + Map(ColumnFromSpec, columns))
    decreases |columns|
  {
    if columns == [] {
      assert t.columns + Map(ColumnFromSpec, columns) == t.columns;
    } else {
      var u := t.(columns := t.columns + [ColumnFromSpec(columns[0])]);
      AddListForm(u, columns[1..]);
      assert Map(ColumnFromSpec, columns) == [ColumnFromSpec(columns[0])] + Map(ColumnFromSpec, columns[1..]);
      Reassociate(t.columns, [ColumnFromSpec(columns[0])], Map(ColumnFromSpec, columns[1..]));
    }
  }

  lemma {:induction false} AddListLike(t: Table, u: Table, a: seq<ColumnSpec>, b: seq<ColumnSpec>)
    requires SameNames(t.columns, u.columns) && |a| == |b| && forall k :: 0 <= k < |a| ==> a[k].name == b[k].name
    ensures AddColumnList(t, a).Some? <==> AddColumnList(u, b).Some?
    decreases |a|
  {
    if a != [] {
      SameNamesFind(t.columns, u.columns, a[0].name);
      AddListLike(t.(columns := t.columns + [ColumnFromSpec(a[0])]), u.(columns := u.columns + [ColumnFromSpec(b[0])]),
                  a[1..], b[1..]);
    }
  }

  /** Added columns with the nullability of the columns `c`. */
  function LentSpecs(columns: seq<ColumnSpec>, c: seq<Column>): (r: seq<ColumnSpec>)
    requires |columns| == |c|
    ensures |r| == |columns|
    ensures forall k :: 0 <= k < |columns| ==> r[k] == columns[k].(nullable := c[k].nullable)
  {
    seq(|columns|, k requires 0 <= k < |columns| => columns[k].(nullable := c[k].nullable))
  }

  lemma StricterParts(a: seq<Column>, b: seq<Column>, c: seq<Column>)
    requires StricterColumns(a + b, c)
    ensures |c| == |a| + |b| && StricterColumns(a, c[..|a|]) && StricterColumns(b, c[|a|..])
  {
    forall k | 0 <= k < |a| ensures StricterColumn(a[k], c[..|a|][k]) {
      assert (a + b)[k] == a[k] && StricterColumn((a + b)[k], c[k]);
    }
    forall k | 0 <= k < |b| ensures StricterColumn(b[k], c[|a|..][k]) {
      assert (a + b)[|a| + k] == b[k] && StricterColumn((a + b)[|a| + k], c[|a| + k]);
    }
  }

  lemma SpecsLent(columns: seq<ColumnSpec>, c: seq<Column>)
    requires StricterColumns(Map(ColumnFromSpec, columns), c)
    ensures |columns| == |c| && Map(ColumnFromSpec, LentSpecs(columns, c)) == c
  {
    forall k | 0 <= k < |c| ensures ColumnFromSpec(LentSpecs(columns, c)[k]) == c[k] {
      assert StricterColumn(ColumnFromSpec(columns[k]), c[k]);
    }
  }

  lemma ServeColumns(t: Table, columns: seq<ColumnSpec>, mid: Table, mid0: Table) returns (t0: Table, op0: AlterOp)
    requires ApplyOp(t, AddColumns(columns)) == Some(mid) && Stricter(mid, mid0)
    ensures |mid0.columns| == |t.columns| + |columns|
    ensures t0 == t.(columns := mid0.columns[..|t.columns|]) && Stricter(t, t0)
    ensures Like(AddColumns(columns), op0) && ApplyOp(t0, op0) == Some(mid0)
  {
    AddListForm(t, columns);
    var n := |t.columns|;
    StricterParts(t.columns, Map(ColumnFromSpec, columns), mid0.columns);
    SpecsLent(columns, mid0.columns[n..]);
    t0 := t.(columns := mid0.columns[..n]);
    var specs := LentSpecs(columns, mid0.columns[n..]);
    op0 := AddColumns(specs);
    SameNamesStricter(t.columns, t0.columns);
    AddListLike(t, t0, columns, specs);
    AddListForm(t0, specs);
    assert mid0.columns == mid0.columns[..n] + mid0.columns[n..];
  }

  lemma SameNamesStricter(a: seq<Column>, b: seq<Column>)
    requires StricterColumns(a, b)
    ensures SameNames(a, b)
  {
    forall k | 0 <= k < |a| ensures a[k].name == b[k].name {
      assert StricterColumn(a[k], b[k]);
    }
  }

  lemma StricterBefore(a: seq<Column>, n: nat, c: Column, b: seq<Column>) returns (a0: seq<Column>)
    requires n < |a| && c == a[n].(name := c.name) && StricterColumns(a[n := c], b)
    ensures |a0| == |a| == |b| && StricterColumns(a, a0) && a0[n := a0[n].(name := c.name)] == b
    ensures SameNullable(a0, b)
  {
    assert StricterColumn(a[n := c][n], b[n]);
    a0 := b[n := b[n].(name := a[n].name)];
    forall k | 0 <= k < |a| ensures StricterColumn(a[k], a0[k]) {
      assert StricterColumn(a[n := c][k], b[k]);
    }
  }

  ghost predicate SameNullable(a: seq<Column>, b: seq<Column>) {
    |a| <= |b| && forall k :: 0 <= k < |a| ==> a[k].nullable == b[k].nullable
  }

  lemma ServeRename(t: Table, name: string, newName: string, mid: Table, mid0: Table) returns (t0: Table)
    requires ApplyOp(t, RenameColumn(name, newName)) == Some(mid) && Stricter(mid, mid0)
    ensures Stricter(t, t0) && ApplyOp(t0, RenameColumn(name, newName)) == Some(mid0)
    ensures SameNullable(t0.columns, mid0.columns) && SameNullable(t.columns, mid.columns)
  {
    RenameColumnOp(t, name, newName);
    var n := FindColumn(t.columns, name);
    var columns := StricterBefore(t.columns, n, t.columns[n].(name := newName), mid0.columns);
    t0 := t.(columns := columns);
    SameNamesStricter(t.columns, t0.columns);
    SameNamesFind(t.columns, t0.columns, name);
    SameNamesFind(t.columns, t0.columns, newName);
    RenameColumnOp(t0, name, newName);
  }

  predicate OnColumns(op: AlterOp) { op.AddColumns? || op.RenameColumn? }

  lemma ServeOne(t: Table, op: AlterOp, mid: Table, mid0: Table) returns (t0: Table, op0: AlterOp)
    requires OnColumns(op) && ApplyOp(t, op) == Some(mid) && Stricter(mid, mid0)
    ensures Stricter(t, t0) && Like(op, op0) && ApplyOp(t0, op0) == Some(mid0)
    ensures SameNullable(t0.columns, mid0.columns) && SameNullable(t.columns, mid.columns)
  {
    match op
    case AddColumns(columns) =>
      AddListForm(t, columns);
      t0, op0 := ServeColumns(t, columns, mid, mid0);
    case RenameColumn(name, newName) =>
      t0 := ServeRename(t, name, newName, mid, mid0);
      op0 := op;
  }

  /** What operations on columns leave, with some columns NOT NULL, is what like operations leave of the table
      with the same columns NOT NULL from the start. */
  lemma {:induction false} ServeBack(t: Table, ops: seq<AlterOp>, after: Table, w: Table)
    returns (t0: Table, ops0: seq<AlterOp>)
    requires (forall k :: 0 <= k < |ops| ==> OnColumns(ops[k])) && ApplyOps(t, ops) == Some(after) && Stricter(after, w)
    ensures Stricter(t, t0) && AllLike(ops, ops0) && ApplyOps(t0, ops0) == Some(w)
    ensures SameNullable(t0.columns, w.columns) && SameNullable(t.columns, after.columns)
    decreases |ops|
  {
    if ops == [] {
      t0, ops0 := w, [];
    } else {
      var mid := ApplyOp(t, ops[0]).value;
      var mid0, rest0 := ServeBack(mid, ops[1..], after, w);
      var op0;
      t0, op0 := ServeOne(t, ops[0], mid, mid0);
      ops0 := [op0] + rest0;
      assert ops0[1..] == rest0;
      forall k | 0 <= k < |ops| ensures Like(ops[k], ops0[k]) {
        assert k > 0 ==> ops[k] == ops[1..][k - 1] && ops0[k] == rest0[k - 1];
      }
    }
  }

  lemma {:induction false} LikeDrops(a: seq<ColumnSpec>, b: seq<ColumnSpec>)
    requires |a| == |b| && forall k :: 0 <= k < |a| ==> b[k].name == a[k].name
    ensures DropAll(a) == DropAll(b)
  {
    if a != [] {
      LikeDrops(a[1..], b[1..]);
    }
  }

  lemma {:induction false} LikeRollbacks(ops: seq<AlterOp>, ops0: seq<AlterOp>)
    requires AllLike(ops, ops0) && forall k :: 0 <= k < |ops| ==> OnColumns(ops[k])
    ensures Rollback(ops).Some? && Rollback(ops0) == Rollback(ops)
  {
    if ops != [] {
      LikeRollbacks(ops[1..], ops0[1..]);
      assert Like(ops[0], ops0[0]);
      if ops[0].AddColumns? {
        LikeDrops(ops[0].columns, ops0[0].columns);
      }
    }
  }

  // ---------------------------------------------------------------- the columns of an ALTER, and back

  ghost predicate AllAtoms(atoms: seq<AlterOp>) { forall k :: 0 <= k < |atoms| ==> Atom(atoms[k]) }

  lemma {:induction false} AtomMembers(ops: seq<AlterOp>)
    ensures forall a :: a in Atoms(ops) && !a.AddColumns? ==> a in ops
    ensures forall i :: i in Specs(ops) <==> AddIndex(Some(i)) in Atoms(ops)
  {
    if ops != [] {
      AtomMembers(ops[1..]);
      var first := if ops[0].AddColumns? then Map(Single, ops[0].columns) else [ops[0]];
      assert ops == [ops[0]] + ops[1..] && Atoms(ops) == first + Atoms(ops[1..]);
      assert forall i :: AddIndex(Some(i)) in first <==> ops[0] == AddIndex(Some(i));
    }
  }

  lemma {:induction false} AtomsColumns(ops: seq<AlterOp>)
    ensures Atoms(ColumnOps(ops)) == ColumnOps(Atoms(ops))
  {
    if ops != [] {
      var op, rest := ops[0], ops[1..];
      var first := if op.AddColumns? then Map(Single, op.columns) else [op];
      AtomsColumns(rest);
      FilterConcat(IsColumnOp(), first, Atoms(rest));
      if op.AddColumns? {
        FilterAll(IsColumnOp(), first);
      } else {
        assert first[1..] == [];
      }
      if IsColumnOp()(op) {
        assert ColumnOps(ops) == [op] + ColumnOps(rest) && ([op] + ColumnOps(rest))[1..] == ColumnOps(rest);
        assert ColumnOps(first) == first;
      } else {
        assert ColumnOps(ops) == ColumnOps(rest) && ColumnOps(first) == [];
      }
    }
  }

  lemma UndoColumns(atoms: seq<AlterOp>)
    requires AllAtoms(atoms)
    ensures ColumnOps(Map(UndoOf, atoms)) == Map(UndoOf, ColumnOps(atoms))
    ensures ColumnOps(Reverse(Map(UndoOf, atoms))) == Reverse(Map(UndoOf, ColumnOps(atoms)))
  {
    forall a | a in atoms ensures IsColumnOp()(UndoOf(a)) <==> IsColumnOp()(a) {
      var k :| 0 <= k < |atoms| && atoms[k] == a;
      assert Atom(atoms[k]);
    }
    FilterMap(IsColumnOp(), IsColumnOp(), UndoOf, atoms);
    FilterReverse(IsColumnOp(), Map(UndoOf, atoms));
  }

  lemma NamesOfColumns(atoms: seq<AlterOp>)
    requires AllAtoms(atoms)
    ensures NoneReused(ColumnOps(atoms)) <==> NoneReused(atoms)
    ensures Unchained(ColumnOps(atoms)) <==> Unchained(atoms)
  {
    var p, q := (a: AlterOp, b: AlterOp) => !Reuses(a, b), (a: AlterOp, b: AlterOp) => !Chains(a, b);
    assert forall k :: 0 <= k < |atoms| && !IsColumnOp()(atoms[k]) ==> Atom(atoms[k]) && atoms[k].AddIndex?;
    PairwiseFilter(p, IsColumnOp(), atoms);
    PairwiseFilter(q, IsColumnOp(), atoms);
    PairwiseIs(p, atoms);
    PairwiseIs(q, atoms);
    PairwiseIs(p, ColumnOps(atoms));
    PairwiseIs(q, ColumnOps(atoms));
  }

  /** Atoms on columns whose undos are the same give and take the same names. */
  lemma UndoTells(a: seq<AlterOp>, b: seq<AlterOp>)
    requires Map(UndoOf, a) == Map(UndoOf, b)
    requires forall k :: 0 <= k < |a| ==> ColumnAtom(a[k])
    requires forall k :: 0 <= k < |b| ==> ColumnAtom(b[k])
    ensures NoneReused(a) <==> NoneReused(b)
    ensures Unchained(a) <==> Unchained(b)
  {
    assert |Map(UndoOf, a)| == |Map(UndoOf, b)|;
    forall k | 0 <= k < |a|
      ensures Gives(a[k]) == Gives(b[k]) && (a[k].RenameColumn? <==> b[k].RenameColumn?)
      ensures a[k].RenameColumn? ==> a[k].name == b[k].name
    {
      assert Map(UndoOf, a)[k] == Map(UndoOf, b)[k];
    }
  }

  lemma ColumnOpsAre(ops: seq<AlterOp>)
    requires forall k :: 0 <= k < |ops| ==> Reversible(ops[k])
    ensures forall k :: 0 <= k < |ColumnOps(ops)| ==> OnColumns(ColumnOps(ops)[k])
  {
    FilterMembers(IsColumnOp(), ops);
    forall k | 0 <= k < |ColumnOps(ops)| ensures OnColumns(ColumnOps(ops)[k]) {
      assert ColumnOps(ops)[k] in ColumnOps(ops);
      var j :| 0 <= j < |ops| && ops[j] == ColumnOps(ops)[k];
      assert Reversible(ops[j]);
    }
  }

  lemma {:induction false} ColumnsSound(t: Table, ops: seq<AlterOp>)
    requires forall k :: 0 <= k < |ops| ==> OnColumns(ops[k])
    ensures AllSound(t, ops)
    decreases |ops|
  {
    if ops != [] && ApplyOp(t, ops[0]).Some? {
      ColumnsSound(ApplyOp(t, ops[0]).value, ops[1..]);
    }
  }

  lemma ColumnAtoms(ops: seq<AlterOp>)
    requires forall k :: 0 <= k < |ops| ==> OnColumns(ops[k])
    ensures forall k :: 0 <= k < |Atoms(ops)| ==> ColumnAtom(Atoms(ops)[k])
  {
    AtomsAreAtoms(ops);
    AtomMembers(ops);
    forall k | 0 <= k < |Atoms(ops)| ensures ColumnAtom(Atoms(ops)[k]) {
      var a := Atoms(ops)[k];
      assert a in Atoms(ops);
      if !a.AddColumns? {
        var j :| 0 <= j < |ops| && ops[j] == a;
        assert OnColumns(ops[j]);
      }
    }
  }

  ghost predicate ComesTo(r: Option<Table>, t: Table) { r.Some? && Same(r.value, t) }

  /** The two orders on a table to which only operations on columns were applied. */
  lemma ColumnsBack(t: Table, ops: seq<AlterOp>)
    requires SoundTable(t) && ApplyOps(t, ops).Some? && Unchained(Atoms(ops))
    requires forall k :: 0 <= k < |ops| ==> OnColumns(ops[k])
    ensures var u, undos := ApplyOps(t, ops).value, Map(UndoOf, Atoms(ops));
            ComesTo(ApplyOps(u, Reverse(undos)), t)
            && (if NoneReused(Atoms(ops)) then ComesTo(ApplyOps(u, undos), t) else ApplyOps(u, undos).None?)
  {
    RollbackExists(ops);
    ColumnsSound(t, ops);
    EmittedOrder(t, ops);
    DescendingIsForward(ops);
    ReversedTwice(Rollback(ops).value);
    AtomsApply(t, ops);
    ColumnAtoms(ops);
    ColumnsForward(t, Atoms(ops));
  }

  lemma ReversedTwice(s: seq<AlterOp>)
    ensures Reverse(Reverse(s)) == s
  {
  }

  lemma StricterSound(t: Table, t0: Table)
    requires SoundTable(t) && Stricter(t, t0)
    ensures SoundTable(t0)
  {
    SameNamesStricter(t.columns, t0.columns);
    forall i | 0 <= i < |t.indexes| ensures Present(t0.columns, t.indexes[i].columns) {
      var names := t.indexes[i].columns;
      forall k | 0 <= k < |names| ensures FindColumn(t0.columns, names[k]) >= 0 {
        SameNamesFind(t.columns, t0.columns, names[k]);
      }
    }
  }

  /** The statements on columns of a rollback, run on what the server has made of the table. */
  lemma ColumnOutcomes(t: Table, ops: seq<AlterOp>, after: Table, w: Table) returns (t0: Table)
    requires SoundTable(t) && (forall k :: 0 <= k < |ops| ==> Reversible(ops[k])) && Unchained(Atoms(ops))
    requires ApplyOps(t, ColumnOps(ops)) == Some(after) && Stricter(after, w)
    ensures Stricter(t, t0) && SameNullable(t0.columns, w.columns) && SameNullable(t.columns, after.columns)
    ensures var undos := Map(UndoOf, Atoms(ops));
            ComesTo(ApplyOps(w, ColumnOps(Reverse(undos))), t0)
            && (if NoneReused(Atoms(ops)) then ComesTo(ApplyOps(w, ColumnOps(undos)), t0)
                else ApplyOps(w, ColumnOps(undos)).None?)
  {
    var columns, atoms := ColumnOps(ops), Atoms(ops);
    ColumnOpsAre(ops);
    var ops0;
    t0, ops0 := ServeBack(t, columns, after, w);
    StricterSound(t, t0);
    LikeRollbacks(columns, ops0);
    DescendingIsForward(columns);
    DescendingIsForward(ops0);
    forall k | 0 <= k < |ops0| ensures OnColumns(ops0[k]) {
      assert Like(columns[k], ops0[k]);
    }
    ColumnAtoms(columns);
    ColumnAtoms(ops0);
    UndoTells(Atoms(columns), Atoms(ops0));
    AtomsColumns(ops);
    EveryAtom(ops);
    NamesOfColumns(atoms);
    UndoColumns(atoms);
    ColumnsBack(t0, ops0);
  }

  lemma EveryAtom(ops: seq<AlterOp>)
    requires forall k :: 0 <= k < |ops| ==> Reversible(ops[k])
    ensures AllAtoms(Atoms(ops))
  {
    AtomsAreAtoms(ops);
    forall k | 0 <= k < |Atoms(ops)| ensures Atom(Atoms(ops)[k]) {
      assert Atoms(ops)[k] in Atoms(ops);
    }
  }
}
