/** When the stored rollback of an ALTER TABLE restores the table on the server: in the order in which its
    statements are emitted (internal/execution/mysql/engine.go), and by descending id, as they are read back
    (testcases/phase5-6/protocol_smoke.py). */
module AlterRestore {
  import opened Text
  import opened Catalog
  import opened Seqs
  import opened Snapshot
  import opened AlterUndo
  import opened AlterOrder
  import opened AlterServer
  import opened AlterIndexes
  import opened AlterColumns
  import opened AlterNames

  // ---------------------------------------------------------------- what the server has made of the table

  lemma ServerAddForm(namer: Namer, f: Table, i: IndexSpec)
    requires ServerAdd(namer, f, i).Some?
    ensures var g, name := ServerAdd(namer, f, i).value, ServerName(namer, f, i);
            g == f.(columns := g.columns, indexes := f.indexes + [ServerIndex(i, name)])
            && FindIndex(f.indexes, name) < 0 && HasParts(ServerIndex(i, name))
            && Stricter(f, g.(indexes := f.indexes))
            && forall k :: 0 <= k < |f.columns| ==>
                 (g.columns[k].nullable <==>
                  f.columns[k].nullable && !(i.primary && HasName(i.columns, f.columns[k].name)))
  {
  }

  lemma KeyedFirst(specs: seq<IndexSpec>, name: string)
    requires specs != []
    ensures Keyed(specs, name) <==> (specs[0].primary && HasName(specs[0].columns, name)) || Keyed(specs[1..], name)
  {
    var rest := specs[1..];
    if i :| 0 <= i < |specs| && specs[i].primary && HasName(specs[i].columns, name) {
      assert i > 0 ==> rest[i - 1] == specs[i];
    }
    if i :| 0 <= i < |rest| && rest[i].primary && HasName(rest[i].columns, name) {
      assert specs[i + 1] == rest[i];
    }
  }

  /** The name of an added index on the server, as far as it is said. */
  predicate NamedAs(l: Index, i: IndexSpec) {
    l.columns == i.columns && l.expressions == i.expressions && HasParts(l)
    && (i.primary ==> l.name == "PRIMARY") && (!i.primary && i.name != "" ==> l.name == i.name)
  }

  ghost predicate AddedTo(f: Table, specs: seq<IndexSpec>, u: Table, added: seq<Index>) {
    u == f.(columns := u.columns, indexes := f.indexes + added)
    && |added| == |specs| && (forall m :: 0 <= m < |specs| ==> NamedAs(added[m], specs[m]))
    && DistinctIndexes(added) && (forall m :: 0 <= m < |added| ==> FindIndex(f.indexes, added[m].name) < 0)
    && Stricter(f, u.(indexes := f.indexes))
    && forall k :: 0 <= k < |f.columns| ==>
         (u.columns[k].nullable <==> f.columns[k].nullable && !Keyed(specs, f.columns[k].name))
  }

  lemma KeyedColumns(namer: Namer, f: Table, specs: seq<IndexSpec>, u: Table)
    requires specs != [] && ServerAdd(namer, f, specs[0]).Some?
    requires var g := ServerAdd(namer, f, specs[0]).value;
             StricterColumns(g.columns, u.columns)
             && forall k :: 0 <= k < |g.columns| ==>
                  (u.columns[k].nullable <==> g.columns[k].nullable && !Keyed(specs[1..], g.columns[k].name))
    ensures StricterColumns(f.columns, u.columns)
    ensures forall k :: 0 <= k < |f.columns| ==>
        (u.columns[k].nullable <==> f.columns[k].nullable && !Keyed(specs, f.columns[k].name))
  {
    var g := ServerAdd(namer, f, specs[0]).value;
    ServerAddForm(namer, f, specs[0]);
    forall k | 0 <= k < |f.columns|
      ensures StricterColumn(f.columns[k], u.columns[k])
      ensures u.columns[k].nullable <==> f.columns[k].nullable && !Keyed(specs, f.columns[k].name)
    {
      KeyedFirst(specs, f.columns[k].name);
      assert StricterColumn(f.columns[k], g.columns[k]) && StricterColumn(g.columns[k], u.columns[k]);
    }
  }

  lemma AddedFirst(namer: Namer, f: Table, specs: seq<IndexSpec>, u: Table, more: seq<Index>)
    requires specs != [] && ServerAdd(namer, f, specs[0]).Some?
    requires AddedTo(ServerAdd(namer, f, specs[0]).value, specs[1..], u, more)
    ensures AddedTo(f, specs, u, [ServerIndex(specs[0], ServerName(namer, f, specs[0]))] + more)
  {
    var i, g := specs[0], ServerAdd(namer, f, specs[0]).value;
    var first := ServerIndex(i, ServerName(namer, f, i));
    var added := [first] + more;
    ServerAddForm(namer, f, i);
    assert g.indexes + more == f.indexes + added;
    forall m | 0 <= m < |specs| ensures NamedAs(added[m], specs[m]) {
      assert m > 0 ==> specs[m] == specs[1..][m - 1] && added[m] == more[m - 1];
    }
    forall m | 0 <= m < |more|
      ensures FindIndex(f.indexes, more[m].name) < 0 && !EqualFold(first.name, more[m].name)
    {
      FindIndexAppended(f.indexes, first, more[m].name);
    }
    KeyedColumns(namer, f, specs, u);
  }

  lemma {:induction false} ServedForm(namer: Namer, f: Table, specs: seq<IndexSpec>) returns (added: seq<Index>)
    requires ServerAddAll(namer, f, specs).Some?
    ensures AddedTo(f, specs, ServerAddAll(namer, f, specs).value, added)
    decreases |specs|
  {
    if specs == [] {
      added := [];
      assert f.indexes + [] == f.indexes;
    } else {
      var g := ServerAdd(namer, f, specs[0]).value;
      var more := ServedForm(namer, g, specs[1..]);
      added := [ServerIndex(specs[0], ServerName(namer, f, specs[0]))] + more;
      AddedFirst(namer, f, specs, ServerAddAll(namer, f, specs).value, more);
    }
  }

  lemma {:induction false} ColumnsKeepIndexes(t: Table, ops: seq<AlterOp>, name: string)
    requires ApplyOps(t, ops).Some? && forall k :: 0 <= k < |ops| ==> OnColumns(ops[k])
    ensures FindIndex(ApplyOps(t, ops).value.indexes, name) == FindIndex(t.indexes, name)
    decreases |ops|
  {
    if ops != [] {
      var u := ApplyOp(t, ops[0]).value;
      IndexesKept(t, ops[0]);
      KeptFinds(t.indexes, u.indexes, name);
      ColumnsKeepIndexes(u, ops[1..], name);
    }
  }

  /** What is known of the names of an ALTER that has been run. */
  ghost predicate WellNamed(t: Table, atoms: seq<AlterOp>) {
    AllAtoms(atoms) && Unchained(atoms) && GivenOnce(atoms) && IndexedOnce(atoms)
    && forall j :: 0 <= j < |atoms| && IsIndex(atoms[j]) ==> FindIndex(t.indexes, atoms[j].index.value.name) < 0
  }

  lemma RunIsWellNamed(namer: Namer, t: Table, ops: seq<AlterOp>)
    requires HasRun(namer, t, ops)
    ensures WellNamed(t, Atoms(ops)) && forall k :: 0 <= k < |ops| ==> Reversible(ops[k])
  {
    var atoms := Atoms(ops);
    RollbackExists(ops);
    EveryAtom(ops);
    AtomsApply(t, ops);
    AtomMembers(ops);
    AtomsTakenOnce(ops);
    assert forall a :: a in atoms ==> Atom(a);
    NotChained(t, atoms);
    EachGivenOnce(t, atoms);
    EachIndexedOnce(t, atoms);
  }

  lemma BuiltFrom(specs: seq<IndexSpec>, added: seq<Index>, atoms: seq<AlterOp>)
    requires |added| == |specs| && AllProper(specs) && forall m :: 0 <= m < |specs| ==> NamedAs(added[m], specs[m])
    requires forall i :: i in specs <==> AddIndex(Some(i)) in atoms
    ensures Built(added, atoms)
  {
    forall m | 0 <= m < |added| ensures StandsFor(added[m], atoms) {
      assert specs[m] in specs && ProperName(specs[m]);
      var j :| 0 <= j < |atoms| && atoms[j] == AddIndex(Some(specs[m]));
      assert Stands(added[m], atoms[j]);
    }
    forall j | 0 <= j < |atoms| && IsIndex(atoms[j]) ensures StoodFor(added, atoms[j]) {
      assert atoms[j] == AddIndex(Some(atoms[j].index.value)) && atoms[j] in atoms;
      var m :| 0 <= m < |specs| && specs[m] == atoms[j].index.value;
      assert ProperName(specs[m]) && Stands(added[m], atoms[j]);
    }
  }

  /** The added indexes can be taken apart from the rest. */
  lemma SplitOutcome(w: Table, added: seq<Index>, undos: seq<AlterOp>)
    requires Ordered(added, undos) && Foreign(w, undos)
    ensures ApplyOps(With(w, added), undos)
         == if AllAnchored(added, undos) then ApplyOps(w, ColumnOps(undos)) else None
  {
    SplitRun(w, added, undos);
    KeptIff(added, undos);
    var r := ApplyOps(w, ColumnOps(undos));
    if r.Some? {
      assert r.value.indexes + [] == r.value.indexes;
    }
  }

  lemma ForeignUndos(t: Table, w: Table, atoms: seq<AlterOp>)
    requires WellNamed(t, atoms) && forall name :: FindIndex(w.indexes, name) == FindIndex(t.indexes, name)
    ensures Foreign(w, Map(UndoOf, atoms)) && Foreign(w, Reverse(Map(UndoOf, atoms)))
  {
    var undos := Map(UndoOf, atoms);
    forall k | 0 <= k < |undos| && undos[k].DropIndex? ensures FindIndex(w.indexes, undos[k].name) < 0 {
      UndoForward(atoms, k);
    }
  }

  /** A table that is the same as the stricter one is the same as the table if and only if that was as strict. */
  lemma SameAsStricter(t: Table, t0: Table, u: Table)
    requires Stricter(t, t0) && Same(u, t0)
    ensures Same(u, t) <==> SameNullable(t0.columns, t.columns)
  {
    if Same(u, t) {
      SameParts(t0, t);
      forall k | 0 <= k < |t.columns| ensures t0.columns[k].nullable == t.columns[k].nullable {
        assert FoldColumn(t0.columns[k]) == FoldColumn(t.columns[k]);
      }
    }
    if SameNullable(t0.columns, t.columns) {
      forall k | 0 <= k < |t.columns| ensures t0.columns[k] == t.columns[k] {
        assert StricterColumn(t.columns[k], t0.columns[k]);
      }
      assert t0.columns == t.columns;
    }
  }

  lemma {:induction false} NamedUndo(u: Table, undos: seq<AlterOp>)
    ensures DropIndex("") !in undos ==> ServerUndo(u, undos) == ApplyOps(u, undos)
    ensures DropIndex("") in undos || ApplyOps(u, undos).None? ==> ServerUndo(u, undos).None?
    decreases |undos|
  {
    if undos != [] {
      assert undos == [undos[0]] + undos[1..];
      if ApplyOp(u, undos[0]).Some? {
        NamedUndo(ApplyOp(u, undos[0]).value, undos[1..]);
      }
    }
  }

  // ---------------------------------------------------------------- an index of another name

  lemma {:induction false} NeverDropped(u: Table, undos: seq<AlterOp>, j: nat)
    requires AllUndoing(undos) && j < |undos| && undos[j].DropIndex? && FindIndex(u.indexes, undos[j].name) < 0
    ensures ApplyOps(u, undos).None?
    decreases |undos|
  {
    if j > 0 {
      if ApplyOp(u, undos[0]).Some? {
        NoNewIndex(u, undos[0], undos[j].name);
        assert undos[1..][j - 1] == undos[j];
        NeverDropped(ApplyOp(u, undos[0]).value, undos[1..], j - 1);
      }
    } else {
      DropIndexOp(u, undos[0].name);
    }
  }

  /** No index of the server has the name that was meant for its primary key. */
  lemma MisnamedIsAbsent(f: Table, specs: seq<IndexSpec>, u: Table, added: seq<Index>, m: nat)
    requires AddedTo(f, specs, u, added) && m < |specs| && specs[m].primary && !EqualFold(specs[m].name, "PRIMARY")
    requires forall i :: 0 <= i < |specs| ==> specs[i].name != ""
    requires forall i :: 0 <= i < |specs| && i != m ==> !EqualFold(specs[i].name, specs[m].name)
    requires FindIndex(f.indexes, specs[m].name) < 0
    ensures FindIndex(u.indexes, specs[m].name) < 0
  {
    var name := specs[m].name;
    forall k | 0 <= k < |added| ensures !EqualFold(added[k].name, name) {
      assert NamedAs(added[k], specs[k]);
    }
    FindInBoth(f.indexes, added, name);
  }

  lemma {:induction false} SpecsApart(ops: seq<AlterOp>, m: nat, n: nat)
    requires IndexedOnce(ops) && m < n < |Specs(ops)|
    ensures !EqualFold(Specs(ops)[m].name, Specs(ops)[n].name)
    decreases |ops|
  {
    var rest := ops[1..];
    assert forall i, j :: 0 <= i < j < |rest| ==> rest[i] == ops[i + 1] && rest[j] == ops[j + 1];
    if IsIndex(ops[0]) {
      if m > 0 {
        SpecsApart(rest, m - 1, n - 1);
      } else {
        var j := SpecAt(rest, n - 1);
        assert ops[j + 1] == rest[j];
      }
    } else {
      SpecsApart(rest, m, n);
    }
  }

  lemma {:induction false} SpecAt(ops: seq<AlterOp>, n: nat) returns (j: nat)
    requires n < |Specs(ops)|
    ensures j < |ops| && IsIndex(ops[j]) && ops[j].index.value == Specs(ops)[n]
    decreases |ops|
  {
    if IsIndex(ops[0]) && n == 0 {
      j := 0;
    } else {
      var k := SpecAt(ops[1..], if IsIndex(ops[0]) then n - 1 else n);
      j := k + 1;
    }
  }

  /** If an index has another name on the server than in the rollback, the rollback fails in any order. */
  lemma ImproperFails(namer: Namer, t: Table, ops: seq<AlterOp>, undos: seq<AlterOp>)
    requires HasRun(namer, t, ops) && !AllProper(Specs(ops)) && AllUndoing(undos)
    requires forall i :: i in Specs(ops) ==> DropIndex(i.name) in undos
    ensures ServerUndo(ServerAlter(namer, t, ops).value, undos).None?
  {
    var specs, u := Specs(ops), ServerAlter(namer, t, ops).value;
    NamedUndo(u, undos);
    RunIsWellNamed(namer, t, ops);
    if m :| 0 <= m < |specs| && specs[m].name == "" {
      assert specs[m] in specs;
    } else {
      var m :| 0 <= m < |specs| && !ProperName(specs[m]);
      var f := ApplyOps(t, ColumnOps(ops)).value;
      var added := ServedForm(namer, f, specs);
      EachIndexedOnce(t, ops);
      var j := SpecAt(ops, m);
      ColumnOpsAre(ops);
      ColumnsKeepIndexes(t, ColumnOps(ops), specs[m].name);
      forall i | 0 <= i < |specs| && i != m ensures !EqualFold(specs[i].name, specs[m].name) {
        SpecsApart(ops, if i < m then i else m, if i < m then m else i);
      }
      MisnamedIsAbsent(f, specs, u, added, m);
      assert specs[m] in specs;
      var k :| 0 <= k < |undos| && undos[k] == DropIndex(specs[m].name);
      NeverDropped(u, undos, k);
    }
  }

  // ---------------------------------------------------------------- the theorems

  lemma ForeignToRun(t: Table, ops: seq<AlterOp>, w: Table)
    requires WellNamed(t, Atoms(ops)) && (forall k :: 0 <= k < |ops| ==> Reversible(ops[k]))
    requires ApplyOps(t, ColumnOps(ops)).Some? && w.indexes == ApplyOps(t, ColumnOps(ops)).value.indexes
    ensures Foreign(w, Map(UndoOf, Atoms(ops))) && Foreign(w, Reverse(Map(UndoOf, Atoms(ops))))
  {
    ColumnOpsAre(ops);
    forall name ensures FindIndex(w.indexes, name) == FindIndex(t.indexes, name) {
      ColumnsKeepIndexes(t, ColumnOps(ops), name);
    }
    ForeignUndos(t, w, Atoms(ops));
  }

  lemma PartsAdded(f: Table, specs: seq<IndexSpec>, u: Table, added: seq<Index>)
    requires AddedTo(f, specs, u, added)
    ensures AllParts(added) && u == With(u.(indexes := f.indexes), added)
  {
    forall m | 0 <= m < |added| ensures HasParts(added[m]) {
      assert NamedAs(added[m], specs[m]);
    }
  }

  lemma NullableKept(t: Table, ops: seq<AlterOp>, f: Table, u: Table, added: seq<Index>, t0: Table)
    requires ApplyOps(t, ColumnOps(ops)) == Some(f) && AddedTo(f, Specs(ops), u, added)
    requires |t0.columns| == |t.columns| && SameNullable(t0.columns, u.columns) && SameNullable(t.columns, f.columns)
    ensures SameNullable(t0.columns, t.columns) <==> KeepsNullable(t, ops)
  {
    forall k | 0 <= k < |t.columns|
      ensures t0.columns[k].nullable == t.columns[k].nullable
         <==> (Keyed(Specs(ops), f.columns[k].name) ==> !t.columns[k].nullable)
    {
    }
  }

  /** Everything that is known when the names are those of the server. */
  lemma AsServed(namer: Namer, t: Table, ops: seq<AlterOp>) returns (w: Table, added: seq<Index>, t0: Table)
    requires HasRun(namer, t, ops) && AllProper(Specs(ops))
    ensures ServerAlter(namer, t, ops) == Some(With(w, added)) && Stricter(t, t0)
    ensures WellNamed(t, Atoms(ops)) && Built(added, Atoms(ops)) && DistinctIndexes(added) && AllParts(added)
    ensures Foreign(w, Map(UndoOf, Atoms(ops))) && Foreign(w, Reverse(Map(UndoOf, Atoms(ops))))
    ensures ComesTo(ApplyOps(w, ColumnOps(Reverse(Map(UndoOf, Atoms(ops))))), t0)
    ensures if NoneReused(Atoms(ops)) then ComesTo(ApplyOps(w, ColumnOps(Map(UndoOf, Atoms(ops)))), t0)
            else ApplyOps(w, ColumnOps(Map(UndoOf, Atoms(ops)))).None?
    ensures SameNullable(t0.columns, t.columns) <==> KeepsNullable(t, ops)
  {
    var f, specs, u := ApplyOps(t, ColumnOps(ops)).value, Specs(ops), ServerAlter(namer, t, ops).value;
    RunIsWellNamed(namer, t, ops);
    added := ServedForm(namer, f, specs);
    PartsAdded(f, specs, u, added);
    w := u.(indexes := f.indexes);
    t0 := ColumnOutcomes(t, ops, f, w);
    NullableKept(t, ops, f, u, added, t0);
    AtomMembers(ops);
    BuiltFrom(specs, added, Atoms(ops));
    ForeignToRun(t, ops, w);
  }

  lemma NothingUnnamed(ops: seq<AlterOp>, undos: seq<AlterOp>)
    requires AllProper(Specs(ops)) && forall name :: DropIndex(name) in undos ==>
        exists i :: i in Specs(ops) && i.name == name
    ensures DropIndex("") !in undos
  {
    forall i | i in Specs(ops) ensures i.name != "" {
      var k :| 0 <= k < |Specs(ops)| && Specs(ops)[k] == i;
      assert ProperName(Specs(ops)[k]);
    }
  }

  /** The rollback drops the added indexes, in whatever order it is read. */
  lemma DropsTheSpecs(ops: seq<AlterOp>, undos: seq<AlterOp>)
    requires AllAtoms(Atoms(ops)) && forall x :: x in undos <==> x in Map(UndoOf, Atoms(ops))
    ensures AllUndoing(undos)
    ensures forall name :: DropIndex(name) in undos <==> exists i :: i in Specs(ops) && i.name == name
  {
    var atoms := Atoms(ops);
    AtomMembers(ops);
    forall k | 0 <= k < |undos| ensures Undoing(undos[k]) {
      assert undos[k] in undos;
      var j :| 0 <= j < |atoms| && Map(UndoOf, atoms)[j] == undos[k];
      UndoForward(atoms, j);
    }
    forall name | DropIndex(name) in undos ensures exists i :: i in Specs(ops) && i.name == name {
      var j :| 0 <= j < |atoms| && Map(UndoOf, atoms)[j] == DropIndex(name);
      UndoForward(atoms, j);
      assert atoms[j] == AddIndex(Some(atoms[j].index.value)) && atoms[j] in atoms;
      assert atoms[j].index.value in Specs(ops);
    }
    forall i | i in Specs(ops) ensures DropIndex(i.name) in undos {
      var j :| 0 <= j < |atoms| && atoms[j] == AddIndex(Some(i));
      assert Map(UndoOf, atoms)[j] == DropIndex(i.name);
    }
  }

  lemma ReverseHolds(s: seq<AlterOp>)
    ensures forall x :: x in Reverse(s) <==> x in s
  {
    forall x | x in s ensures x in Reverse(s) {
      var i :| 0 <= i < |s| && s[i] == x;
      assert Reverse(s)[|s| - 1 - i] == x;
    }
  }

  lemma TheRollback(ops: seq<AlterOp>)
    requires Rollback(ops).Some?
    ensures Rollback(ops).value == Reverse(Map(UndoOf, Atoms(ops)))
    ensures Reverse(Rollback(ops).value) == Map(UndoOf, Atoms(ops))
  {
    DescendingIsForward(ops);
    ReversedTwice(Rollback(ops).value);
  }

  /** What running a rollback comes to: it runs under one condition and restores under another. */
  ghost predicate Outcome(r: Option<Table>, t: Table, runs: bool, restores: bool) {
    (r.Some? <==> runs) && (ComesTo(r, t) <==> runs && restores)
  }

  lemma OutcomeOf(r: Option<Table>, t: Table, t0: Table, runs: bool, restores: bool)
    requires (runs ==> ComesTo(r, t0)) && (!runs ==> r.None?) && Stricter(t, t0)
    requires SameNullable(t0.columns, t.columns) <==> restores
    ensures Outcome(r, t, runs, restores)
  {
    if runs {
      SameAsStricter(t, t0, r.value);
    }
  }

  lemma ProperEmitted(namer: Namer, t: Table, ops: seq<AlterOp>)
    requires HasRun(namer, t, ops) && AllProper(Specs(ops))
    ensures Outcome(ApplyOps(ServerAlter(namer, t, ops).value, Reverse(Map(UndoOf, Atoms(ops)))), t,
                    RootedLate(Atoms(ops)), KeepsNullable(t, ops))
  {
    var atoms := Atoms(ops);
    var undos := Reverse(Map(UndoOf, atoms));
    var w, added, t0 := AsServed(namer, t, ops);
    FitsForward(added, atoms);
    FitsReversed(added, Map(UndoOf, atoms));
    TameBackward(atoms);
    SplitOutcome(w, added, undos);
    AllBackward(added, atoms);
    OutcomeOf(ApplyOps(With(w, added), undos), t, t0, RootedLate(atoms), KeepsNullable(t, ops));
  }

  lemma ProperDescending(namer: Namer, t: Table, ops: seq<AlterOp>)
    requires HasRun(namer, t, ops) && AllProper(Specs(ops))
    ensures Outcome(ApplyOps(ServerAlter(namer, t, ops).value, Map(UndoOf, Atoms(ops))), t,
                    RootedEarly(Atoms(ops)) && NoneReused(Atoms(ops)), KeepsNullable(t, ops))
  {
    var atoms := Atoms(ops);
    var undos := Map(UndoOf, atoms);
    var w, added, t0 := AsServed(namer, t, ops);
    FitsForward(added, atoms);
    if NoneReused(atoms) {
      TameForward(atoms);
      SplitOutcome(w, added, undos);
      AllForward(added, atoms);
    } else {
      SplitRun(w, added, undos);
    }
    OutcomeOf(ApplyOps(With(w, added), undos), t, t0, RootedEarly(atoms) && NoneReused(atoms), KeepsNullable(t, ops));
  }

  /** On the server a rollback with improper names fails, and any other does what it does in the snapshot's
      reading. */
  lemma OnTheServer(namer: Namer, t: Table, ops: seq<AlterOp>, undos: seq<AlterOp>, runs: bool)
    requires HasRun(namer, t, ops) && AllAtoms(Atoms(ops)) && forall x :: x in undos <==> x in Map(UndoOf, Atoms(ops))
    requires AllProper(Specs(ops)) ==>
        Outcome(ApplyOps(ServerAlter(namer, t, ops).value, undos), t, runs, KeepsNullable(t, ops))
    ensures Outcome(ServerUndo(ServerAlter(namer, t, ops).value, undos), t,
                    AllProper(Specs(ops)) && runs, KeepsNullable(t, ops))
  {
    DropsTheSpecs(ops, undos);
    if AllProper(Specs(ops)) {
      NothingUnnamed(ops, undos);
      NamedUndo(ServerAlter(namer, t, ops).value, undos);
    } else {
      ImproperFails(namer, t, ops, undos);
    }
  }

  /** Running the stored statements in the order in which they are emitted succeeds on the server if and
      only if every added index has a name, a primary key the name PRIMARY up to letter case, and every
      added index an expression or a column that no later operation adds; and it restores the table up to
      letter case if and only if, besides, no primary key was added over a column that could be NULL. */
  lemma {:induction false} UndoRestores(namer: Namer, t: Table, ops: seq<AlterOp>)
    requires HasRun(namer, t, ops)
    ensures Outcome(ServerUndo(ServerAlter(namer, t, ops).value, Rollback(ops).value), t,
                    AllProper(Specs(ops)) && RootedLate(Atoms(ops)), KeepsNullable(t, ops))
  {
    RunIsWellNamed(namer, t, ops);
    TheRollback(ops);
    ReverseHolds(Map(UndoOf, Atoms(ops)));
    if AllProper(Specs(ops)) {
      ProperEmitted(namer, t, ops);
    }
    OnTheServer(namer, t, ops, Reverse(Map(UndoOf, Atoms(ops))), RootedLate(Atoms(ops)));
  }

  /** Reading them by descending id, it is earlier operations that must not have added all columns of an
      index, and no operation may give a column name that an earlier one took away. */
  lemma {:induction false} DescendingRestores(namer: Namer, t: Table, ops: seq<AlterOp>)
    requires HasRun(namer, t, ops)
    ensures Outcome(ServerUndo(ServerAlter(namer, t, ops).value, Reverse(Rollback(ops).value)), t,
                    AllProper(Specs(ops)) && RootedEarly(Atoms(ops)) && NoneReused(Atoms(ops)), KeepsNullable(t, ops))
  {
    RunIsWellNamed(namer, t, ops);
    TheRollback(ops);
    if AllProper(Specs(ops)) {
      ProperDescending(namer, t, ops);
    }
    OnTheServer(namer, t, ops, Map(UndoOf, Atoms(ops)), RootedEarly(Atoms(ops)) && NoneReused(Atoms(ops)));
  }

  lemma ReverseOfOne(s: seq<AlterOp>)
    requires |s| <= 1
    ensures Reverse(s) == s
  {
  }

  /** A rollback of a single statement reads the same either way. */
  lemma {:induction false} DescendingOrderOfOne(namer: Namer, t: Table, ops: seq<AlterOp>)
    requires HasRun(namer, t, ops) && |Rollback(ops).value| <= 1
    ensures Outcome(ServerUndo(ServerAlter(namer, t, ops).value, Reverse(Rollback(ops).value)), t,
                    AllProper(Specs(ops)) && RootedLate(Atoms(ops)), KeepsNullable(t, ops))
  {
    ReverseOfOne(Rollback(ops).value);
    UndoRestores(namer, t, ops);
  }

  // ---------------------------------------------------------------- ALTERs whose rollback fails

  /** ALTER TABLE t ADD INDEX ... or ADD PRIMARY KEY ..., admitted and run. */
  predicate CanAdd(namer: Namer, t: Table, i: IndexSpec) {
    SoundTable(t) && i.columns != [] && Present(t.columns, i.columns) && (i.primary || !EqualFold(i.name, "PRIMARY"))
    && FindIndex(t.indexes, i.name) < 0 && FindIndex(t.indexes, ServerName(namer, t, i)) < 0
  }

  function AddOne(i: IndexSpec): seq<AlterOp> { [AddIndex(Some(i))] }

  lemma FirstOp(op: AlterOp, rest: seq<AlterOp>)
    ensures ColumnOps([op] + rest) == (if IsColumnOp()(op) then [op] else []) + ColumnOps(rest)
    ensures Specs([op] + rest) == (if IsIndex(op) then [op.index.value] else []) + Specs(rest)
    ensures Atoms([op] + rest) == (if op.AddColumns? then Map(Single, op.columns) else [op]) + Atoms(rest)
  {
    assert ([op] + rest)[0] == op && ([op] + rest)[1..] == rest;
  }

  lemma SingleAtom(op: AlterOp)
    requires op.AddColumns? && |op.columns| == 1
    ensures Map(Single, op.columns) == [op]
  {
    assert op.columns == [op.columns[0]];
  }

  /** What one operation amounts to, and what two do. */
  lemma OneOp(op: AlterOp)
    requires op.AddColumns? ==> |op.columns| == 1
    ensures ColumnOps([op]) == (if IsColumnOp()(op) then [op] else []) && Atoms([op]) == [op]
    ensures Specs([op]) == if IsIndex(op) then [op.index.value] else []
  {
    FirstOp(op, []);
    assert [op] + [] == [op];
    if op.AddColumns? {
      SingleAtom(op);
    }
  }

  lemma PairOfOps(a: AlterOp, b: AlterOp)
    requires (a.AddColumns? ==> |a.columns| == 1) && (b.AddColumns? ==> |b.columns| == 1)
    ensures ColumnOps([a, b]) == (if IsColumnOp()(a) then [a] else []) + (if IsColumnOp()(b) then [b] else [])
    ensures Specs([a, b]) == (if IsIndex(a) then [a.index.value] else []) + if IsIndex(b) then [b.index.value] else []
    ensures Atoms([a, b]) == [a, b]
  {
    FirstOp(a, [b]);
    OneOp(b);
    assert [a] + [b] == [a, b];
    if a.AddColumns? {
      SingleAtom(a);
    }
  }

  lemma AddOneHasRun(namer: Namer, t: Table, i: IndexSpec)
    requires CanAdd(namer, t, i)
    ensures HasRun(namer, t, AddOne(i)) && Rollback(AddOne(i)) == Some([DropIndex(i.name)]) && Specs(AddOne(i)) == [i]
    ensures ApplyOps(t, ColumnOps(AddOne(i))) == Some(t) && Atoms(AddOne(i)) == AddOne(i)
  {
    var ops := AddOne(i);
    assert ops[1..] == [] && Rollback(ops[1..]) == Some([]) && [] + [DropIndex(i.name)] == [DropIndex(i.name)];
    AddIndexOp(t, i);
    ApplyOne(t, ops[0]);
    OneOp(ops[0]);
    assert [i][1..] == [] && ServerAdd(namer, t, i).Some?;
    assert ServerAddAll(namer, t, [i]) == ServerAdd(namer, t, i);
  }

  lemma AddOneIsRooted(i: IndexSpec)
    requires i.columns != []
    ensures RootedLate(AddOne(i))
  {
    assert NotLater(AddOne(i), 0, i.columns[0]);
    assert RootLate(AddOne(i), 0);
  }

  /** An index without a name: the rollback drops one called "". */
  lemma UnnamedIndexFails(namer: Namer, t: Table, i: IndexSpec)
    requires CanAdd(namer, t, i) && i.name == ""
    ensures HasRun(namer, t, AddOne(i)) && Rollback(AddOne(i)) == Some([DropIndex("")])
    ensures ServerUndo(ServerAlter(namer, t, AddOne(i)).value, [DropIndex("")]).None?
  {
    AddOneHasRun(namer, t, i);
    assert !ProperName(Specs(AddOne(i))[0]);
    UndoRestores(namer, t, AddOne(i));
  }

  /** A primary key with a name of its own: the rollback drops an index that is not there. */
  lemma NamedPrimaryKeyFails(namer: Namer, t: Table, i: IndexSpec)
    requires CanAdd(namer, t, i) && i.primary && !EqualFold(i.name, "PRIMARY")
    ensures HasRun(namer, t, AddOne(i)) && Rollback(AddOne(i)) == Some([DropIndex(i.name)])
    ensures ServerUndo(ServerAlter(namer, t, AddOne(i)).value, [DropIndex(i.name)]).None?
  {
    AddOneHasRun(namer, t, i);
    assert !ProperName(Specs(AddOne(i))[0]);
    UndoRestores(namer, t, AddOne(i));
  }

  lemma {:induction false} ForcedNotNull(t: Table, i: IndexSpec, k: nat)
    requires i.primary && k < |t.columns| && t.columns[k].nullable && HasName(i.columns, t.columns[k].name)
    requires ApplyOps(t, ColumnOps(AddOne(i))) == Some(t) && Specs(AddOne(i)) == [i]
    ensures !KeepsNullable(t, AddOne(i))
  {
    assert [i][0] == i && Keyed([i], t.columns[k].name);
  }

  /** A primary key over a column that may be NULL: dropping it succeeds and leaves the column NOT NULL. */
  lemma PrimaryKeyStaysNotNull(namer: Namer, t: Table, i: IndexSpec, k: nat)
    requires CanAdd(namer, t, i) && i.primary && i.name == "PRIMARY"
    requires k < |t.columns| && t.columns[k].nullable && HasName(i.columns, t.columns[k].name)
    ensures HasRun(namer, t, AddOne(i)) && Rollback(AddOne(i)) == Some([DropIndex("PRIMARY")])
    ensures var u := ServerUndo(ServerAlter(namer, t, AddOne(i)).value, [DropIndex("PRIMARY")]);
            u.Some? && !Same(u.value, t)
  {
    AddOneHasRun(namer, t, i);
    ForcedNotNull(t, i, k);
    AddOneIsRooted(i);
    assert AllProper([i]);
    UndoRestores(namer, t, AddOne(i));
  }

  lemma TwoOps(t: Table, a: AlterOp, b: AlterOp)
    requires ApplyOp(t, a).Some?
    ensures ApplyOps(t, [a, b]) == ApplyOp(ApplyOp(t, a).value, b)
  {
    assert [a, b][0] == a && [a, b][1..] == [b];
    ApplyOne(ApplyOp(t, a).value, b);
  }

  /** A column and an index on it, in either order. */
  predicate ColumnWithIndex(t: Table, c: ColumnSpec, i: IndexSpec, ops: seq<AlterOp>) {
    SoundTable(t) && FindColumn(t.columns, c.name) < 0 && FindIndex(t.indexes, i.name) < 0
    && i.columns == [c.name] && i.name != "" && !i.primary && !EqualFold(i.name, "PRIMARY")
    && (ops == [Single(c), AddIndex(Some(i))] || ops == [AddIndex(Some(i)), Single(c)])
  }

  lemma ColumnAndIndexAdmitted(t: Table, c: ColumnSpec, i: IndexSpec, ops: seq<AlterOp>)
    requires ColumnWithIndex(t, c, i, ops)
    ensures ApplyOps(t, ops).Some? && Rollback(ops).Some?
  {
    var f, v := t.(columns := t.columns + [ColumnFromSpec(c)]), t.(indexes := t.indexes + [NewIndex(i)]);
    AddsOne(t, c);
    AddsOne(v, c);
    AddIndexOp(t, i);
    AddIndexOp(f, i);
    TwoOps(t, ops[0], ops[1]);
    RollbackExists(ops);
  }

  lemma ColumnAndIndexServed(namer: Namer, t: Table, c: ColumnSpec, i: IndexSpec)
    requires FindColumn(t.columns, c.name) < 0 && FindIndex(t.indexes, i.name) < 0
    requires i.columns == [c.name] && i.name != "" && !i.primary && !EqualFold(i.name, "PRIMARY")
    ensures ApplyOps(t, [Single(c)]).Some? && ServerAddAll(namer, ApplyOps(t, [Single(c)]).value, [i]).Some?
  {
    var f := t.(columns := t.columns + [ColumnFromSpec(c)]);
    AddsOne(t, c);
    ApplyOne(t, Single(c));
    FindAppended(t.columns, ColumnFromSpec(c), c.name);
    assert [i][1..] == [] && ServerAdd(namer, f, i).Some?;
    assert ServerAddAll(namer, f, [i]) == ServerAdd(namer, f, i);
  }

  lemma ColumnAndIndexParts(c: ColumnSpec, i: IndexSpec, ops: seq<AlterOp>)
    requires ops == [Single(c), AddIndex(Some(i))] || ops == [AddIndex(Some(i)), Single(c)]
    ensures Atoms(ops) == ops && ColumnOps(ops) == [Single(c)] && Specs(ops) == [i]
  {
    PairOfOps(ops[0], ops[1]);
    assert ops == [ops[0], ops[1]];
  }

  lemma {:induction false} ColumnAndIndexHasRun(namer: Namer, t: Table, c: ColumnSpec, i: IndexSpec, ops: seq<AlterOp>)
    requires ColumnWithIndex(t, c, i, ops)
    ensures HasRun(namer, t, ops) && Atoms(ops) == ops && Specs(ops) == [i]
  {
    ColumnAndIndexAdmitted(t, c, i, ops);
    ColumnAndIndexServed(namer, t, c, i);
    ColumnAndIndexParts(c, i, ops);
  }

  lemma OnlyOnTheColumn(c: ColumnSpec, i: IndexSpec)
    requires i.columns == [c.name] && i.expressions == []
    ensures !RootedEarly([Single(c), AddIndex(Some(i))]) && !RootedLate([AddIndex(Some(i)), Single(c)])
  {
    var early, late := [Single(c), AddIndex(Some(i))], [AddIndex(Some(i)), Single(c)];
    assert Adds(early[0], c.name) && !NotEarlier(early, 1, c.name) && !RootEarly(early, 1);
    assert Adds(late[1], c.name) && !NotLater(late, 0, c.name) && !RootLate(late, 0);
  }

  /** ADD COLUMN c, ADD INDEX i (c): by descending id the column is dropped first and takes the index with it. */
  lemma IndexOnAddedColumnFails(namer: Namer, t: Table, c: ColumnSpec, i: IndexSpec)
    requires ColumnWithIndex(t, c, i, [Single(c), AddIndex(Some(i))]) && i.expressions == []
    ensures var ops := [Single(c), AddIndex(Some(i))];
            HasRun(namer, t, ops)
            && ServerUndo(ServerAlter(namer, t, ops).value, Reverse(Rollback(ops).value)).None?
  {
    var ops := [Single(c), AddIndex(Some(i))];
    ColumnAndIndexHasRun(namer, t, c, i, ops);
    OnlyOnTheColumn(c, i);
    DescendingRestores(namer, t, ops);
  }

  /** ADD INDEX i (c), ADD COLUMN c: this time the order of emission drops the column first. */
  lemma IndexBeforeItsColumnFails(namer: Namer, t: Table, c: ColumnSpec, i: IndexSpec)
    requires ColumnWithIndex(t, c, i, [AddIndex(Some(i)), Single(c)]) && i.expressions == []
    ensures var ops := [AddIndex(Some(i)), Single(c)];
            HasRun(namer, t, ops) && ServerUndo(ServerAlter(namer, t, ops).value, Rollback(ops).value).None?
  {
    var ops := [AddIndex(Some(i)), Single(c)];
    ColumnAndIndexHasRun(namer, t, c, i, ops);
    OnlyOnTheColumn(c, i);
    UndoRestores(namer, t, ops);
  }

  /** RENAME COLUMN a TO b, ADD COLUMN a: by descending id the renaming is undone first, while there is
      another column of that name. */
  lemma RenameThenAddFails(namer: Namer, t: Table, c: ColumnSpec, newName: string)
    requires SoundTable(t) && FindColumn(t.columns, c.name) >= 0 && FindColumn(t.columns, newName) < 0
    ensures var ops := [RenameColumn(c.name, newName), Single(c)];
            HasRun(namer, t, ops)
            && ServerUndo(ServerAlter(namer, t, ops).value, Reverse(Rollback(ops).value)).None?
  {
    var op := RenameColumn(c.name, newName);
    var ops := [op, Single(c)];
    RenameColumnOp(t, c.name, newName);
    RenameKeepsSound(t, c.name, newName);
    var n, mid := FindColumn(t.columns, c.name), ApplyOp(t, op).value;
    assert EqualFold(t.columns[n].name, c.name);
    FindUpdated(t.columns, n, t.columns[n].(name := newName), c.name);
    AddsOne(mid, c);
    TwoOps(t, op, Single(c));
    PairOfOps(op, Single(c));
    RollbackExists(ops);
    assert Reuses(ops[0], ops[1]);
    DescendingRestores(namer, t, ops);
  }
}
