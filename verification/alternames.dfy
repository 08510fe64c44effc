/** The names of columns and indexes in an ALTER that the audit has admitted and the server has run, and what
    they say about its rollback in the two orders. */
module AlterNames {
  import opened Text
  import opened Catalog
  import opened Seqs
  import opened Snapshot
  import opened AlterUndo
  import opened AlterOrder
  import opened AlterServer
  import opened AlterIndexes
  import opened AlterColumns

  // ---------------------------------------------------------------- names in an admitted ALTER

  lemma NotSameName(columns: seq<Column>, a: string, b: string)
    ensures FindColumn(columns, a) < 0 <= FindColumn(columns, b) ==> !EqualFold(a, b)
  {
    if EqualFold(a, b) {
      SameName(columns, a, b);
    }
  }

  lemma GivenIsNew(m: Table, a: AlterOp)
    requires Atom(a) && ApplyOp(m, a).Some? && Gives(a).Some?
    ensures FindColumn(m.columns, Gives(a).value) < 0
  {
    if a.AddColumns? {
      assert a.columns == [a.columns[0]];
      AddsOne(m, a.columns[0]);
    } else {
      RenameColumnOp(m, a.name, a.newName);
    }
  }

  lemma {:induction false} NotChained(m: Table, atoms: seq<AlterOp>)
    requires ApplyOps(m, atoms).Some? && StillThere(m, atoms) && TakenOnce(atoms)
    requires forall a :: a in atoms ==> Atom(a)
    ensures Unchained(atoms)
    decreases |atoms|
  {
    if atoms != [] {
      var a, rest := atoms[0], atoms[1..];
      var u := ApplyOp(m, a).value;
      assert a in atoms && forall x :: x in rest ==> x in atoms;
      forall x | x in rest && x.RenameColumn? ensures FindColumn(u.columns, x.name) >= 0 {
        var j :| 0 <= j < |rest| && rest[j] == x;
        assert atoms[j + 1] == x;
        OneNameStays(m, a, x.name);
      }
      assert forall i, j :: 0 <= i < j < |rest| ==> rest[i] == atoms[i + 1] && rest[j] == atoms[j + 1];
      NotChained(u, rest);
      forall i, j | 0 <= i < j < |atoms| ensures !Chains(atoms[i], atoms[j]) {
        if i == 0 && Gives(a).Some? && atoms[j].RenameColumn? {
          GivenIsNew(m, a);
          assert atoms[j] in atoms;
          NotSameName(m.columns, Gives(a).value, atoms[j].name);
        } else {
          assert i > 0 ==> atoms[i] == rest[i - 1] && atoms[j] == rest[j - 1];
        }
      }
    }
  }

  lemma {:induction false} AtomsTakenOnce(ops: seq<AlterOp>)
    requires TakenOnce(ops)
    ensures TakenOnce(Atoms(ops))
  {
    if ops != [] {
      var op, rest := ops[0], ops[1..];
      var first := if op.AddColumns? then Map(Single, op.columns) else [op];
      assert forall i, j :: 0 <= i < j < |rest| ==> rest[i] == ops[i + 1] && rest[j] == ops[j + 1];
      AtomsTakenOnce(rest);
      AtomMembers(rest);
      var all := Atoms(ops);
      assert all == first + Atoms(rest);
      forall i, j | 0 <= i < j < |all| && all[i].RenameColumn? && all[j].RenameColumn?
        ensures !EqualFold(all[i].name, all[j].name)
      {
        if i < |first| {
          assert all[j] == Atoms(rest)[j - |first|];
          assert all[j] in rest;
          var k :| 0 <= k < |rest| && rest[k] == all[j];
          assert ops[k + 1] == all[j] && ops[0] == all[i];
        } else {
          assert all[i] == Atoms(rest)[i - |first|] && all[j] == Atoms(rest)[j - |first|];
        }
      }
    }
  }

  /** No two atoms give the same name to a column. */
  predicate GivenOnce(atoms: seq<AlterOp>) {
    forall i, j :: 0 <= i < j < |atoms| && Gives(atoms[i]).Some? && Gives(atoms[j]).Some? ==>
      !EqualFold(Gives(atoms[i]).value, Gives(atoms[j]).value)
  }

  lemma {:induction false} NotGivenAgain(m: Table, atoms: seq<AlterOp>, name: string, j: nat)
    requires ApplyOps(m, atoms).Some? && FindColumn(m.columns, name) >= 0 && j < |atoms| && Gives(atoms[j]).Some?
    requires forall a :: a in atoms ==> Atom(a) && (a.RenameColumn? ==> !EqualFold(a.name, name))
    ensures !EqualFold(Gives(atoms[j]).value, name)
    decreases j
  {
    assert atoms[0] in atoms && atoms[j] in atoms;
    if j > 0 {
      OneNameStays(m, atoms[0], name);
      assert forall x :: x in atoms[1..] ==> x in atoms;
      NotGivenAgain(ApplyOp(m, atoms[0]).value, atoms[1..], name, j - 1);
    } else {
      GivenIsNew(m, atoms[0]);
      NotSameName(m.columns, Gives(atoms[0]).value, name);
    }
  }

  lemma FirstGivenOnce(m: Table, atoms: seq<AlterOp>, j: nat)
    requires ApplyOps(m, atoms).Some? && Unchained(atoms) && (forall a :: a in atoms ==> Atom(a))
    requires 0 < j < |atoms| && Gives(atoms[0]).Some? && Gives(atoms[j]).Some?
    ensures !EqualFold(Gives(atoms[0]).value, Gives(atoms[j]).value)
  {
    var a, rest := atoms[0], atoms[1..];
    assert a in atoms;
    GivenIsThere(m, a);
    forall x | x in rest ensures Atom(x) && (x.RenameColumn? ==> !EqualFold(x.name, Gives(a).value)) {
      var k :| 0 <= k < |rest| && rest[k] == x;
      assert atoms[k + 1] in atoms && !Chains(atoms[0], atoms[k + 1]);
    }
    NotGivenAgain(ApplyOp(m, a).value, rest, Gives(a).value, j - 1);
  }

  lemma {:induction false} EachGivenOnce(m: Table, atoms: seq<AlterOp>)
    requires ApplyOps(m, atoms).Some? && Unchained(atoms) && forall a :: a in atoms ==> Atom(a)
    ensures GivenOnce(atoms)
    decreases |atoms|
  {
    if atoms != [] {
      var rest := atoms[1..];
      assert forall x :: x in rest ==> x in atoms;
      assert forall i, j :: 0 <= i < j < |rest| ==> rest[i] == atoms[i + 1] && rest[j] == atoms[j + 1];
      EachGivenOnce(ApplyOp(m, atoms[0]).value, rest);
      forall i, j | 0 <= i < j < |atoms| && Gives(atoms[i]).Some? && Gives(atoms[j]).Some?
        ensures !EqualFold(Gives(atoms[i]).value, Gives(atoms[j]).value)
      {
        if i == 0 {
          FirstGivenOnce(m, atoms, j);
        } else {
          assert atoms[i] == rest[i - 1] && atoms[j] == rest[j - 1];
        }
      }
    }
  }

  /** No two atoms add indexes of the same name. */
  predicate IndexedOnce(atoms: seq<AlterOp>) {
    forall i, j :: 0 <= i < j < |atoms| && IsIndex(atoms[i]) && IsIndex(atoms[j]) ==>
      !EqualFold(atoms[i].index.value.name, atoms[j].index.value.name)
  }

  lemma IndexesKept(t: Table, op: AlterOp)
    requires OnColumns(op) && ApplyOp(t, op).Some?
    ensures |ApplyOp(t, op).value.indexes| == |t.indexes|
    ensures forall k :: 0 <= k < |t.indexes| ==> ApplyOp(t, op).value.indexes[k].name == t.indexes[k].name
  {
    match op
    case AddColumns(columns) => AddListForm(t, columns);
    case RenameColumn(name, newName) => RenameColumnOp(t, name, newName);
  }

  lemma KeptFinds(a: seq<Index>, b: seq<Index>, name: string)
    requires |a| == |b| && forall k :: 0 <= k < |a| ==> a[k].name == b[k].name
    ensures FindIndex(a, name) == FindIndex(b, name)
  {
  }

  /** An index that is there stays, and another one of its name is not added. */
  lemma IndexStays(m: Table, a: AlterOp, name: string)
    requires Reversible(a) && ApplyOp(m, a).Some? && FindIndex(m.indexes, name) >= 0
    ensures FindIndex(ApplyOp(m, a).value.indexes, name) >= 0
    ensures IsIndex(a) ==> !EqualFold(a.index.value.name, name)
  {
    if IsIndex(a) {
      AddIndexOp(m, a.index.value);
      FindIndexAppended(m.indexes, NewIndex(a.index.value), name);
      FindAlikeNot(m.indexes, a.index.value.name, name);
    } else {
      IndexesKept(m, a);
      KeptFinds(m.indexes, ApplyOp(m, a).value.indexes, name);
    }
  }

  lemma {:induction false} NotIndexedAgain(m: Table, ops: seq<AlterOp>, name: string, j: nat)
    requires ApplyOps(m, ops).Some? && FindIndex(m.indexes, name) >= 0 && j < |ops| && IsIndex(ops[j])
    requires forall k :: 0 <= k < |ops| ==> Reversible(ops[k])
    ensures !EqualFold(ops[j].index.value.name, name)
    decreases j
  {
    IndexStays(m, ops[0], name);
    if j > 0 {
      NotIndexedAgain(ApplyOp(m, ops[0]).value, ops[1..], name, j - 1);
    }
  }

  lemma {:induction false} EachIndexedOnce(m: Table, ops: seq<AlterOp>)
    requires ApplyOps(m, ops).Some? && forall k :: 0 <= k < |ops| ==> Reversible(ops[k])
    ensures IndexedOnce(ops)
    ensures forall j :: 0 <= j < |ops| && IsIndex(ops[j]) ==> FindIndex(m.indexes, ops[j].index.value.name) < 0
    decreases |ops|
  {
    if ops != [] {
      var u := ApplyOp(m, ops[0]).value;
      EachIndexedOnce(u, ops[1..]);
      forall j | 0 <= j < |ops| && IsIndex(ops[j])
        ensures FindIndex(m.indexes, ops[j].index.value.name) < 0
        ensures j > 0 && IsIndex(ops[0]) ==> !EqualFold(ops[0].index.value.name, ops[j].index.value.name)
      {
        var name := ops[j].index.value.name;
        if j == 0 {
          AddIndexOp(m, ops[0].index.value);
        } else {
          assert ops[j] == ops[1..][j - 1];
          NotThereBefore(m, ops[0], name);
        }
      }
      forall i, j | 0 <= i < j < |ops| && IsIndex(ops[i]) && IsIndex(ops[j])
        ensures !EqualFold(ops[i].index.value.name, ops[j].index.value.name)
      {
        assert i > 0 ==> ops[i] == ops[1..][i - 1] && ops[j] == ops[1..][j - 1];
      }
    }
  }

  lemma NotThereBefore(m: Table, a: AlterOp, name: string)
    requires Reversible(a) && ApplyOp(m, a).Some? && FindIndex(ApplyOp(m, a).value.indexes, name) < 0
    ensures FindIndex(m.indexes, name) < 0 && (IsIndex(a) ==> !EqualFold(a.index.value.name, name))
  {
    if IsIndex(a) {
      AddIndexOp(m, a.index.value);
      FindIndexAppended(m.indexes, NewIndex(a.index.value), name);
    } else {
      IndexesKept(m, a);
      KeptFinds(m.indexes, ApplyOp(m, a).value.indexes, name);
    }
  }

  // ---------------------------------------------------------------- the two orders

  /** The index as it stands on the server. */
  predicate Stands(l: Index, a: AlterOp) {
    IsIndex(a) && l.columns == a.index.value.columns && l.expressions == a.index.value.expressions
    && EqualFold(l.name, a.index.value.name)
  }

  /** The added indexes are those of the atoms. */
  ghost predicate Built(added: seq<Index>, atoms: seq<AlterOp>) {
    (forall m :: 0 <= m < |added| ==> StandsFor(added[m], atoms))
    && forall j :: 0 <= j < |atoms| && IsIndex(atoms[j]) ==> StoodFor(added, atoms[j])
  }

  predicate StandsFor(l: Index, atoms: seq<AlterOp>) { exists j :: 0 <= j < |atoms| && Stands(l, atoms[j]) }

  predicate StoodFor(added: seq<Index>, a: AlterOp) { exists m :: 0 <= m < |added| && Stands(added[m], a) }

  lemma TameForward(atoms: seq<AlterOp>)
    requires AllAtoms(atoms) && GivenOnce(atoms) && NoneReused(atoms)
    ensures Tame(Map(UndoOf, atoms))
  {
    var undos := Map(UndoOf, atoms);
    forall q, r | 0 <= q < r < |undos| && undos[q].RenameColumn? && undos[r].DropColumn?
      ensures !EqualFold(undos[r].name, undos[q].name) && !EqualFold(undos[r].name, undos[q].newName)
    {
      assert Atom(atoms[q]) && Atom(atoms[r]) && !Reuses(atoms[q], atoms[r]);
      assert !EqualFold(Gives(atoms[q]).value, Gives(atoms[r]).value);
    }
  }

  lemma TameBackward(atoms: seq<AlterOp>)
    requires AllAtoms(atoms) && GivenOnce(atoms) && Unchained(atoms)
    ensures Tame(Reverse(Map(UndoOf, atoms)))
  {
    var undos, n := Reverse(Map(UndoOf, atoms)), |atoms| - 1;
    forall q, r | 0 <= q < r < |undos| && undos[q].RenameColumn? && undos[r].DropColumn?
      ensures !EqualFold(undos[r].name, undos[q].name) && !EqualFold(undos[r].name, undos[q].newName)
    {
      var i, j := n - r, n - q;
      assert undos[q] == UndoOf(atoms[j]) && undos[r] == UndoOf(atoms[i]);
      assert Atom(atoms[i]) && Atom(atoms[j]) && !Chains(atoms[i], atoms[j]);
      assert !EqualFold(Gives(atoms[i]).value, Gives(atoms[j]).value);
    }
  }

  lemma UndoForward(atoms: seq<AlterOp>, k: nat)
    requires AllAtoms(atoms) && k < |atoms|
    ensures var undo := Map(UndoOf, atoms)[k];
            Undoing(undo) && (undo.DropIndex? <==> IsIndex(atoms[k]))
            && (undo.DropIndex? ==> undo.name == atoms[k].index.value.name)
  {
    assert Atom(atoms[k]);
  }

  lemma IsFound(added: seq<Index>, m: nat, name: string)
    requires m < |added| && EqualFold(added[m].name, name)
    ensures FindIndex(added, name) >= 0
  {
  }

  lemma OneOfThese(added: seq<Index>, a: AlterOp)
    requires StoodFor(added, a)
    ensures IsIndex(a) && FindIndex(added, a.index.value.name) >= 0
  {
    var m :| 0 <= m < |added| && Stands(added[m], a);
    IsFound(added, m, a.index.value.name);
  }

  lemma OnlyTheseForward(added: seq<Index>, atoms: seq<AlterOp>)
    requires AllAtoms(atoms) && forall j :: 0 <= j < |atoms| && IsIndex(atoms[j]) ==> StoodFor(added, atoms[j])
    ensures OnlyThese(added, Map(UndoOf, atoms))
  {
    var undos := Map(UndoOf, atoms);
    forall k | 0 <= k < |undos| && undos[k].DropIndex? ensures FindIndex(added, undos[k].name) >= 0 {
      UndoForward(atoms, k);
      OneOfThese(added, atoms[k]);
    }
  }

  lemma AllDroppedForward(added: seq<Index>, atoms: seq<AlterOp>)
    requires AllAtoms(atoms) && Built(added, atoms)
    ensures AllDropped(added, Map(UndoOf, atoms))
  {
    forall i | 0 <= i < |added| ensures IsDropped(added[i].name, Map(UndoOf, atoms)) {
      assert StandsFor(added[i], atoms);
      var j :| 0 <= j < |atoms| && Stands(added[i], atoms[j]);
      UndoForward(atoms, j);
      assert DropsIndex(Map(UndoOf, atoms)[j], added[i].name);
    }
  }

  lemma FitsForward(added: seq<Index>, atoms: seq<AlterOp>)
    requires AllAtoms(atoms) && DistinctIndexes(added) && Built(added, atoms) && IndexedOnce(atoms)
    ensures Fits(added, Map(UndoOf, atoms)) && AllUndoing(Map(UndoOf, atoms))
  {
    OnlyTheseForward(added, atoms);
    AllDroppedForward(added, atoms);
    forall k | 0 <= k < |atoms|
      ensures Undoing(Map(UndoOf, atoms)[k])
      ensures Map(UndoOf, atoms)[k].DropIndex? ==>
                IsIndex(atoms[k]) && Map(UndoOf, atoms)[k].name == atoms[k].index.value.name
    {
      UndoForward(atoms, k);
    }
  }

  lemma ReversedOnce(undos: seq<AlterOp>)
    requires DroppedOnce(undos)
    ensures DroppedOnce(Reverse(undos))
  {
    var back, n := Reverse(undos), |undos| - 1;
    forall k, l | 0 <= k < l < |back| && back[k].DropIndex? && back[l].DropIndex?
      ensures !EqualFold(back[k].name, back[l].name)
    {
      assert back[k] == undos[n - k] && back[l] == undos[n - l] && n - l < n - k;
    }
  }

  lemma ReversedDropped(name: string, undos: seq<AlterOp>)
    requires IsDropped(name, undos)
    ensures IsDropped(name, Reverse(undos))
  {
    var k :| 0 <= k < |undos| && DropsIndex(undos[k], name);
    assert DropsIndex(Reverse(undos)[|undos| - 1 - k], name);
  }

  lemma FitsReversed(added: seq<Index>, undos: seq<AlterOp>)
    requires Fits(added, undos) && AllUndoing(undos)
    ensures Fits(added, Reverse(undos)) && AllUndoing(Reverse(undos))
  {
    ReversedOnce(undos);
    forall i | 0 <= i < |added| ensures IsDropped(added[i].name, Reverse(undos)) {
      ReversedDropped(added[i].name, undos);
    }
  }

  lemma ClearForward(atoms: seq<AlterOp>, l: Index, j: nat, c: string)
    requires AllAtoms(atoms) && IndexedOnce(atoms) && j < |atoms| && Stands(l, atoms[j])
    ensures Clear(c, l.name, Map(UndoOf, atoms)) <==> NotEarlier(atoms, j, c)
  {
    var undos := Map(UndoOf, atoms);
    forall p | 0 <= p < |atoms|
      ensures DropsIndex(undos[p], l.name) <==> p == j
      ensures Drops(undos[p], c) <==> Adds(atoms[p], c)
    {
      assert Atom(atoms[p]);
      assert p < j || p == j || j < p;
    }
  }

  lemma DroppedBackward(atoms: seq<AlterOp>, l: Index, j: nat, c: string, p: nat)
    requires AllAtoms(atoms) && IndexedOnce(atoms) && j < |atoms| && p < |atoms| && Stands(l, atoms[j])
    ensures var undo := Reverse(Map(UndoOf, atoms))[|atoms| - 1 - p];
            (DropsIndex(undo, l.name) <==> p == j) && (Drops(undo, c) <==> Adds(atoms[p], c))
  {
    assert Reverse(Map(UndoOf, atoms))[|atoms| - 1 - p] == UndoOf(atoms[p]) && Atom(atoms[p]);
    assert p < j || p == j || j < p;
  }

  lemma ClearBackward(atoms: seq<AlterOp>, l: Index, j: nat, c: string)
    requires AllAtoms(atoms) && IndexedOnce(atoms) && j < |atoms| && Stands(l, atoms[j])
    ensures Clear(c, l.name, Reverse(Map(UndoOf, atoms))) <==> NotLater(atoms, j, c)
  {
    ClearThenNotLater(atoms, l, j, c);
    if NotLater(atoms, j, c) {
      var undos, n := Reverse(Map(UndoOf, atoms)), |atoms| - 1;
      DroppedBackward(atoms, l, j, c, j);
      forall q | 0 <= q < n - j ensures !Drops(undos[q], c) {
        DroppedBackward(atoms, l, j, c, n - q);
      }
    }
  }

  lemma ClearThenNotLater(atoms: seq<AlterOp>, l: Index, j: nat, c: string)
    requires AllAtoms(atoms) && IndexedOnce(atoms) && j < |atoms| && Stands(l, atoms[j])
    ensures Clear(c, l.name, Reverse(Map(UndoOf, atoms))) ==> NotLater(atoms, j, c)
  {
    var undos, n := Reverse(Map(UndoOf, atoms)), |atoms| - 1;
    if p :| 0 <= p < |undos| && DropsIndex(undos[p], l.name) && forall q :: 0 <= q < p ==> !Drops(undos[q], c) {
      DroppedBackward(atoms, l, j, c, n - p);
      forall q | j < q < |atoms| ensures !Adds(atoms[q], c) {
        DroppedBackward(atoms, l, j, c, q);
      }
    }
  }

  lemma AnchoredForward(l: Index, atoms: seq<AlterOp>, j: nat)
    requires AllAtoms(atoms) && IndexedOnce(atoms) && j < |atoms| && Stands(l, atoms[j])
    ensures Anchored(l, Map(UndoOf, atoms)) <==> RootEarly(atoms, j)
  {
    forall k | 0 <= k < |l.columns|
      ensures Clear(l.columns[k], l.name, Map(UndoOf, atoms)) <==> NotEarlier(atoms, j, l.columns[k])
    {
      ClearForward(atoms, l, j, l.columns[k]);
    }
  }

  lemma AnchoredBackward(l: Index, atoms: seq<AlterOp>, j: nat)
    requires AllAtoms(atoms) && IndexedOnce(atoms) && j < |atoms| && Stands(l, atoms[j])
    ensures Anchored(l, Reverse(Map(UndoOf, atoms))) <==> RootLate(atoms, j)
  {
    forall k | 0 <= k < |l.columns|
      ensures Clear(l.columns[k], l.name, Reverse(Map(UndoOf, atoms))) <==> NotLater(atoms, j, l.columns[k])
    {
      ClearBackward(atoms, l, j, l.columns[k]);
    }
  }

  /** What holds of every index that is built holds of every atom it is built from. */
  lemma AllForward(added: seq<Index>, atoms: seq<AlterOp>)
    requires AllAtoms(atoms) && IndexedOnce(atoms) && Built(added, atoms)
    ensures AllAnchored(added, Map(UndoOf, atoms)) <==> RootedEarly(atoms)
  {
    if AllAnchored(added, Map(UndoOf, atoms)) {
      forall j | 0 <= j < |atoms| && IsIndex(atoms[j]) ensures RootEarly(atoms, j) {
        assert StoodFor(added, atoms[j]);
        var m :| 0 <= m < |added| && Stands(added[m], atoms[j]);
        AnchoredForward(added[m], atoms, j);
      }
    }
    if RootedEarly(atoms) {
      forall m | 0 <= m < |added| ensures Anchored(added[m], Map(UndoOf, atoms)) {
        assert StandsFor(added[m], atoms);
        var j :| 0 <= j < |atoms| && Stands(added[m], atoms[j]);
        AnchoredForward(added[m], atoms, j);
      }
    }
  }

  lemma AllBackward(added: seq<Index>, atoms: seq<AlterOp>)
    requires AllAtoms(atoms) && IndexedOnce(atoms) && Built(added, atoms)
    ensures AllAnchored(added, Reverse(Map(UndoOf, atoms))) <==> RootedLate(atoms)
  {
    var undos := Reverse(Map(UndoOf, atoms));
    if AllAnchored(added, undos) {
      forall j | 0 <= j < |atoms| && IsIndex(atoms[j]) ensures RootLate(atoms, j) {
        assert StoodFor(added, atoms[j]);
        var m :| 0 <= m < |added| && Stands(added[m], atoms[j]);
        AnchoredBackward(added[m], atoms, j);
      }
    }
    if RootedLate(atoms) {
      forall m | 0 <= m < |added| ensures Anchored(added[m], undos) {
        assert StandsFor(added[m], atoms);
        var j :| 0 <= j < |atoms| && Stands(added[m], atoms[j]);
        AnchoredBackward(added[m], atoms, j);
      }
    }
  }
}
