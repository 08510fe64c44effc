/** In which order the rollback of an ALTER TABLE can be run. The statements are stored in the order to
    run them (internal/execution/mysql/engine.go), but are read back by descending id, as those of DML
    must be (testcases/phase5-6/protocol_smoke.py). Read that way they undo the first operation first. */
module AlterOrder {
  import opened Text
  import opened Catalog
  import opened Seqs
  import opened Snapshot
  import opened AlterUndo

  // ---------------------------------------------------------------- one column at a time

  function Single(c: ColumnSpec): AlterOp { AddColumns([c]) }

  /** The ALTER with every column added by an operation of its own. */
  function Atoms(ops: seq<AlterOp>): seq<AlterOp> {
    if ops == [] then []
    else (if ops[0].AddColumns? then Map(Single, ops[0].columns) else [ops[0]]) + Atoms(ops[1..])
  }

  predicate Atom(op: AlterOp) { Reversible(op) && (op.AddColumns? ==> |op.columns| == 1) }

  /** The statement that undoes an atom. */
  function UndoOf(a: AlterOp): AlterOp {
    match a
    case AddColumns(columns) => if columns == [] then a else DropColumn(columns[0].name)
    case AddIndex(index) => if index.None? then a else DropIndex(index.value.name)
    case RenameColumn(name, newName) => RenameColumn(newName, name)
    case _ => a
  }

  lemma {:induction false} ColumnsOneByOne(t: Table, columns: seq<ColumnSpec>)
    ensures ApplyOps(t, Map(Single, columns)) == AddColumnList(t, columns)
    decreases |columns|
  {
    if columns != [] {
      var singles := Map(Single, columns);
      assert singles[0] == Single(columns[0]) && singles[1..] == Map(Single, columns[1..]);
      var u := t.(columns := t.columns + [ColumnFromSpec(columns[0])]);
      AddsOne(t, columns[0]);
      ColumnsOneByOne(u, columns[1..]);
    }
  }

  lemma AddsOne(t: Table, c: ColumnSpec)
    ensures ApplyOp(t, Single(c))
         == if FindColumn(t.columns, c.name) >= 0 then None else Some(t.(columns := t.columns + [ColumnFromSpec(c)]))
  {
    var list := [c];
    var u := t.(columns := t.columns + [ColumnFromSpec(c)]);
    assert list[0] == c && list[1..] == [];
    assert AddColumnList(u, list[1..]) == Some(u);
    assert ApplyOp(t, Single(c)) == AddColumnList(t, list);
  }

  /** The atoms do what the operations do. */
  lemma {:induction false} AtomsApply(t: Table, ops: seq<AlterOp>)
    ensures ApplyOps(t, Atoms(ops)) == ApplyOps(t, ops)
    decreases |ops|
  {
    if ops != [] {
      var first := if ops[0].AddColumns? then Map(Single, ops[0].columns) else [ops[0]];
      if ops[0].AddColumns? {
        ColumnsOneByOne(t, ops[0].columns);
      } else {
        ApplyOne(t, ops[0]);
      }
      ApplyConcat(t, first, Atoms(ops[1..]));
      if ApplyOp(t, ops[0]).Some? {
        AtomsApply(ApplyOp(t, ops[0]).value, ops[1..]);
      }
    }
  }

  lemma {:induction false} AtomsAreAtoms(ops: seq<AlterOp>)
    requires forall i :: 0 <= i < |ops| ==> Reversible(ops[i])
    ensures forall a :: a in Atoms(ops) ==> Atom(a)
  {
    if ops != [] {
      AtomsAreAtoms(ops[1..]);
    }
  }

  lemma {:induction false} DropsReversed(columns: seq<ColumnSpec>)
    ensures Reverse(DropAll(columns)) == Map(UndoOf, Map(Single, columns))
  {
    if columns == [] {
      assert Reverse<AlterOp>([]) == [];
    } else {
      DropsReversed(columns[1..]);
      ReverseConcat(DropAll(columns[1..]), [DropColumn(columns[0].name)]);
      assert Map(UndoOf, Map(Single, columns)) == [DropColumn(columns[0].name)]
          + Map(UndoOf, Map(Single, columns[1..]));
    }
  }

  /** By descending id the statements undo the atoms first to last. */
  lemma {:induction false} DescendingIsForward(ops: seq<AlterOp>)
    requires Rollback(ops).Some?
    ensures Reverse(Rollback(ops).value) == Map(UndoOf, Atoms(ops))
  {
    if ops == [] {
      assert Reverse<AlterOp>([]) == [];
    } else {
      var first := if ops[0].AddColumns? then Map(Single, ops[0].columns) else [ops[0]];
      DescendingIsForward(ops[1..]);
      ReverseConcat(Rollback(ops[1..]).value, Inverse(ops[0]));
      MapConcat(UndoOf, first, Atoms(ops[1..]));
      if ops[0].AddColumns? {
        DropsReversed(ops[0].columns);
      } else {
        assert Reverse(Inverse(ops[0])) == Map(UndoOf, [ops[0]]);
      }
    }
  }

  // ---------------------------------------------------------------- names given and taken

  /** The column name that an operation brings in. */
  function Gives(a: AlterOp): Option<string> {
    match a
    case AddColumns(columns) => if columns == [] then None else Some(columns[0].name)
    case RenameColumn(_, newName) => Some(newName)
    case _ => None
  }

  /** The later atom renames a column by the name that the earlier one gave it. */
  predicate Chains(earlier: AlterOp, later: AlterOp) {
    later.RenameColumn? && Gives(earlier).Some? && EqualFold(Gives(earlier).value, later.name)
  }

  /** The later atom gives the name that the earlier one took away. */
  predicate Reuses(earlier: AlterOp, later: AlterOp) {
    earlier.RenameColumn? && Gives(later).Some? && EqualFold(Gives(later).value, earlier.name)
  }

  predicate Meets(earlier: AlterOp, later: AlterOp) { Chains(earlier, later) || Reuses(earlier, later) }

  predicate Unchained(atoms: seq<AlterOp>) { forall i, j :: 0 <= i < j < |atoms| ==> !Chains(atoms[i], atoms[j]) }

  predicate NoneReused(atoms: seq<AlterOp>) { forall i, j :: 0 <= i < j < |atoms| ==> !Reuses(atoms[i], atoms[j]) }

  /** No atom meets a later one. */
  predicate Apart(atoms: seq<AlterOp>) {
    forall i, j :: 0 <= i < j < |atoms| ==> !Meets(atoms[i], atoms[j])
  }

  /** An atom that adds or renames a column. */
  predicate ColumnAtom(a: AlterOp) { Atom(a) && !a.AddIndex? }

  /** The two orders come to the same. */
  ghost predicate Commute(m: Table, a: AlterOp, b: AlterOp) {
    ApplyOp(m, a).Some? && ApplyOp(m, b).Some?
    && ApplyOp(ApplyOp(m, a).value, b).Some? && ApplyOp(ApplyOp(m, a).value, b) == ApplyOp(ApplyOp(m, b).value, a)
  }

  // ---------------------------------------------------------------- two operations change places

  lemma FindAppended(columns: seq<Column>, c: Column, name: string)
    ensures FindColumn(columns + [c], name)
         == if FindColumn(columns, name) >= 0 then FindColumn(columns, name)
             else if EqualFold(c.name, name) then |columns| else -1
  {
    var all := columns + [c];
    assert all[|columns|] == c && forall i :: 0 <= i < |columns| ==> all[i] == columns[i];
  }

  lemma FindIndexAppended(indexes: seq<Index>, i: Index, name: string)
    ensures FindIndex(indexes + [i], name)
         == if FindIndex(indexes, name) >= 0 then FindIndex(indexes, name)
             else if EqualFold(i.name, name) then |indexes| else -1
  {
    var all := indexes + [i];
    assert all[|indexes|] == i && forall k :: 0 <= k < |indexes| ==> all[k] == indexes[k];
  }

  lemma FindUpdated(columns: seq<Column>, n: nat, c: Column, name: string)
    requires n < |columns| && DistinctColumns(columns) && DistinctColumns(columns[n := c])
    ensures var f := FindColumn(columns[n := c], name);
            if EqualFold(c.name, name) then f == n
            else if FindColumn(columns, name) == n then f == -1
            else f == FindColumn(columns, name)
  {
    var all := columns[n := c];
    assert forall i :: 0 <= i < |all| && i != n ==> all[i] == columns[i];
    var f := FindColumn(columns, name);
    if EqualFold(c.name, name) {
      assert all[n] == c;
    } else if f == n {
      assert forall i :: 0 <= i < |all| && i != n ==> !EqualFold(columns[i].name, columns[n].name);
    }
  }

  lemma FindIs(columns: seq<Column>, name: string, f: int)
    requires -1 <= f < |columns| && (f >= 0 ==> EqualFold(columns[f].name, name))
    requires forall i :: 0 <= i < (if f < 0 then |columns| else f) ==> !EqualFold(columns[i].name, name)
    ensures FindColumn(columns, name) == f
  {
  }

  lemma FindWithout(columns: seq<Column>, n: nat, name: string)
    requires n < |columns| && DistinctColumns(columns)
    ensures var f := FindColumn(columns, name);
            FindColumn(Without(columns, n), name) == if f < 0 || f == n then -1 else if f < n then f else f - 1
  {
    var left, f := Without(columns, n), FindColumn(columns, name);
    var g := if f < 0 || f == n then -1 else if f < n then f else f - 1;
    forall i | 0 <= i < (if g < 0 then |left| else g) ensures !EqualFold(left[i].name, name) {
      var j := if i < n then i else i + 1;
      assert left[i] == columns[j];
      assert f == n ==> !EqualFold(columns[j].name, columns[n].name);
    }
    assert g >= 0 ==> left[g] == columns[f];
    FindIs(left, name, g);
  }

  lemma UpdatedWithout(columns: seq<Column>, n: nat, k: nat, c: Column)
    requires n < |columns| && k < |columns| && n != k
    ensures Without(columns[n := c], k) == Without(columns, k)[(if n < k then n else n - 1) := c]
  {
  }

  lemma AppendedWithout(columns: seq<Column>, c: Column, n: nat)
    requires n < |columns|
    ensures Without(columns + [c], n) == Without(columns, n) + [c]
  {
  }

  lemma AddsThenDrops(m: Table, c: ColumnSpec, x: string)
    requires SoundTable(m) && FindColumn(m.columns, c.name) < 0 && FindColumn(m.columns, x) >= 0
    ensures Commute(m, Single(c), DropColumn(x))
  {
    var col, n := ColumnFromSpec(c), FindColumn(m.columns, x);
    AddsOne(m, c);
    DropColumnOp(m, x);
    var m1, m0 := ApplyOp(m, Single(c)).value, ApplyOp(m, DropColumn(x)).value;
    FindAppended(m.columns, col, x);
    FindWithout(m.columns, n, c.name);
    AddsOne(m0, c);
    DropColumnOp(m1, x);
    AppendedWithout(m.columns, col, n);
  }

  lemma AddsThenRenames(m: Table, c: ColumnSpec, y: string, x: string)
    requires SoundTable(m) && ApplyOp(m, Single(c)).Some? && ApplyOp(m, RenameColumn(y, x)).Some?
        && !EqualFold(c.name, x)
    ensures Commute(m, Single(c), RenameColumn(y, x))
  {
    var col, n := ColumnFromSpec(c), FindColumn(m.columns, y);
    AddsOne(m, c);
    RenameColumnOp(m, y, x);
    RenameKeepsSound(m, y, x);
    var m1, m0 := ApplyOp(m, Single(c)).value, ApplyOp(m, RenameColumn(y, x)).value;
    FindAppended(m.columns, col, y);
    FindAppended(m.columns, col, x);
    FindUpdated(m.columns, n, m.columns[n].(name := x), c.name);
    AddsOne(m0, c);
    RenameColumnOp(m1, y, x);
    assert (m.columns + [col])[n := m.columns[n].(name := x)] == m.columns[n := m.columns[n].(name := x)] + [col];
  }

  lemma {:induction false} KeepsRenamed(names: seq<string>, prefixes: seq<int>, p: string, q: string, x: string)
    requires !EqualFold(p, x) && !EqualFold(q, x)
    ensures KeepColumns(Map(Renamed(p, q), names), x) == Map(Renamed(p, q), KeepColumns(names, x))
    ensures KeepPrefixes(Map(Renamed(p, q), names), prefixes, x) == KeepPrefixes(names, prefixes, x)
    decreases |names|
  {
    if names != [] {
      var renamed := Map(Renamed(p, q), names);
      assert renamed[0] == Renamed(p, q)(names[0]) && renamed[1..] == Map(Renamed(p, q), names[1..]);
      KeepsRenamed(names[1..], if prefixes == [] then [] else prefixes[1..], p, q, x);
      assert EqualFold(renamed[0], x) <==> EqualFold(names[0], x);
      if !EqualFold(names[0], x) {
        MapConcat(Renamed(p, q), [names[0]], KeepColumns(names[1..], x));
        assert Map(Renamed(p, q), [names[0]]) == [renamed[0]];
      }
    }
  }

  lemma {:induction false} DropsRenamed(indexes: seq<Index>, p: string, q: string, x: string)
    requires !EqualFold(p, x) && !EqualFold(q, x)
    ensures DropFromIndexes(RenameInIndexes(indexes, p, q), x) == RenameInIndexes(DropFromIndexes(indexes, x), p, q)
  {
    if indexes != [] {
      var renamed := RenameInIndexes(indexes, p, q);
      var i := indexes[0];
      assert renamed[0] == RenameInIndex(i, p, q) && renamed[1..] == RenameInIndexes(indexes[1..], p, q);
      DropsRenamed(indexes[1..], p, q, x);
      KeepsRenamed(i.columns, i.prefixLengths, p, q, x);
      assert DropFromIndex(renamed[0], x) == RenameInIndex(DropFromIndex(i, x), p, q);
      var first := if HasParts(DropFromIndex(i, x)) then [DropFromIndex(i, x)] else [];
      assert |Map(Renamed(p, q), KeepColumns(i.columns, x))| == |KeepColumns(i.columns, x)|;
      MapConcat((j: Index) => RenameInIndex(j, p, q), first, DropFromIndexes(indexes[1..], x));
      assert RenameInIndexes(first, p, q) == if HasParts(DropFromIndex(renamed[0], x)) then [DropFromIndex(renamed[0],
          x)] else [];
    }
  }

  lemma RenamedAndDropped(columns: seq<Column>, p: string, q: string, x: string)
    requires DistinctColumns(columns) && FindColumn(columns, p) >= 0 && FindColumn(columns, q) < 0
    requires FindColumn(columns, x) >= 0 && !EqualFold(p, x)
    requires DistinctColumns(columns[FindColumn(columns, p) := columns[FindColumn(columns, p)].(name := q)])
    ensures var n, k := FindColumn(columns, p), FindColumn(columns, x);
            var c, at := columns[n].(name := q), if n < k then n else n - 1;
            n != k && FindColumn(columns[n := c], x) == k
            && FindColumn(Without(columns, k), p) == at && FindColumn(Without(columns, k), q) < 0
            && Without(columns, k)[at] == columns[n] && Without(columns[n := c], k) == Without(columns, k)[at := c]
  {
    var n, k := FindColumn(columns, p), FindColumn(columns, x);
    assert EqualFold(columns[n].name, p) && EqualFold(columns[k].name, x);
    FindUpdated(columns, n, columns[n].(name := q), x);
    FindWithout(columns, k, p);
    FindWithout(columns, k, q);
    UpdatedWithout(columns, n, k, columns[n].(name := q));
  }

  lemma RenamesThenDrops(m: Table, p: string, q: string, x: string)
    requires SoundTable(m) && ApplyOp(m, RenameColumn(p, q)).Some? && FindColumn(m.columns, x) >= 0 && !EqualFold(p, x)
    ensures Commute(m, RenameColumn(p, q), DropColumn(x))
  {
    RenameColumnOp(m, p, q);
    DropColumnOp(m, x);
    RenameKeepsSound(m, p, q);
    var m1, m0 := ApplyOp(m, RenameColumn(p, q)).value, ApplyOp(m, DropColumn(x)).value;
    assert !EqualFold(q, x) by {
      assert EqualFold(m.columns[FindColumn(m.columns, x)].name, x);
    }
    RenamedAndDropped(m.columns, p, q, x);
    DropsRenamed(m.indexes, p, q, x);
    RenameColumnOp(m0, p, q);
    DropColumnOp(m1, x);
  }

  lemma RenamesCommute(i: Index, p: string, q: string, y: string, x: string)
    requires !EqualFold(p, y) && !EqualFold(p, x) && !EqualFold(q, y)
    ensures RenameInIndex(RenameInIndex(i, p, q), y, x) == RenameInIndex(RenameInIndex(i, y, x), p, q)
  {
    var a, b := Map(Renamed(y, x), Map(Renamed(p, q), i.columns)), Map(Renamed(p, q), Map(Renamed(y, x), i.columns));
    forall k | 0 <= k < |a| ensures a[k] == b[k] {
      var c := i.columns[k];
      assert !(EqualFold(c, p) && EqualFold(c, y));
    }
    assert a == b;
    assert RenameInIndex(i, p, q).columns == Map(Renamed(p, q), i.columns);
    assert RenameInIndex(i, y, x).columns == Map(Renamed(y, x), i.columns);
    assert RenameInIndex(RenameInIndex(i, p, q), y, x) == i.(columns := a);
    assert RenameInIndex(RenameInIndex(i, y, x), p, q) == i.(columns := b);
  }

  /** What is found after one renaming is what was found before it. */
  lemma StillFound(columns: seq<Column>, n: nat, q: string, name: string, newName: string)
    requires n < |columns| && DistinctColumns(columns) && DistinctColumns(columns[n := columns[n].(name := q)])
    requires FindColumn(columns, name) >= 0 && FindColumn(columns, name) != n && FindColumn(columns, newName) < 0
    requires !EqualFold(q, newName)
    ensures FindColumn(columns[n := columns[n].(name := q)], name) == FindColumn(columns, name)
    ensures FindColumn(columns[n := columns[n].(name := q)], newName) < 0
  {
    var f := FindColumn(columns, name);
    assert EqualFold(columns[f].name, name);
    assert !EqualFold(columns[n := columns[n].(name := q)][n].name, columns[n := columns[n].(name := q)][f].name) by {
      assert n < f || f < n;
    }
    FindUpdated(columns, n, columns[n].(name := q), name);
    FindUpdated(columns, n, columns[n].(name := q), newName);
  }

  lemma IndexRenamesCommute(indexes: seq<Index>, p: string, q: string, y: string, x: string)
    requires !EqualFold(p, y) && !EqualFold(p, x) && !EqualFold(q, y)
    ensures RenameInIndexes(RenameInIndexes(indexes, p, q), y, x)
        == RenameInIndexes(RenameInIndexes(indexes, y, x), p, q)
  {
    var a, b := RenameInIndexes(RenameInIndexes(indexes, p, q), y, x),
        RenameInIndexes(RenameInIndexes(indexes, y, x), p, q);
    forall j | 0 <= j < |a| ensures a[j] == b[j] {
      RenamesCommute(indexes[j], p, q, y, x);
    }
  }

  lemma RenamedTwice(columns: seq<Column>, p: string, q: string, y: string, x: string)
    requires FindColumn(columns, p) >= 0 && FindColumn(columns, q) < 0 && FindColumn(columns, y) >= 0
        && FindColumn(columns, x) < 0
    requires DistinctColumns(columns) && !EqualFold(p, y) && !EqualFold(q, x)
    requires DistinctColumns(columns[FindColumn(columns, p) := columns[FindColumn(columns, p)].(name := q)])
    requires DistinctColumns(columns[FindColumn(columns, y) := columns[FindColumn(columns, y)].(name := x)])
    ensures var n, k := FindColumn(columns, p), FindColumn(columns, y);
            var cq, cx := columns[n].(name := q), columns[k].(name := x);
            n != k && !EqualFold(q, y) && !EqualFold(p, x)
            && FindColumn(columns[n := cq], y) == k && FindColumn(columns[n := cq], x) < 0
            && FindColumn(columns[k := cx], p) == n && FindColumn(columns[k := cx], q) < 0
            && columns[n := cq][k] == columns[k] && columns[k := cx][n] == columns[n]
            && columns[n := cq][k := cx] == columns[k := cx][n := cq]
  {
    var n, k := FindColumn(columns, p), FindColumn(columns, y);
    assert EqualFold(columns[k].name, y) && EqualFold(columns[n].name, p);
    StillFound(columns, n, q, y, x);
    StillFound(columns, k, x, p, q);
  }

  lemma RenamesThenRenames(m: Table, p: string, q: string, y: string, x: string)
    requires SoundTable(m) && ApplyOp(m, RenameColumn(p, q)).Some? && ApplyOp(m, RenameColumn(y, x)).Some?
    requires !EqualFold(p, y) && !EqualFold(q, x)
    ensures Commute(m, RenameColumn(p, q), RenameColumn(y, x))
  {
    RenameColumnOp(m, p, q);
    RenameColumnOp(m, y, x);
    RenameKeepsSound(m, p, q);
    RenameKeepsSound(m, y, x);
    RenamedTwice(m.columns, p, q, y, x);
    IndexRenamesCommute(m.indexes, p, q, y, x);
    RenameColumnOp(ApplyOp(m, RenameColumn(p, q)).value, y, x);
    RenameColumnOp(ApplyOp(m, RenameColumn(y, x)).value, p, q);
  }

  /** The undo of a column atom passes a later one that does not meet it. */
  lemma Passes(m: Table, e: AlterOp, a: AlterOp)
    requires SoundTable(m) && ColumnAtom(e) && ColumnAtom(a) && !Meets(e, a)
    requires ApplyOp(m, a).Some? && ApplyOp(m, UndoOf(e)).Some?
    ensures Commute(m, a, UndoOf(e))
  {
    if e.AddColumns? {
      PassesAdded(m, e.columns[0].name, e, a);
    } else {
      PassesRenamed(m, e.name, e.newName, a);
    }
  }

  lemma PassesAdded(m: Table, x: string, e: AlterOp, a: AlterOp)
    requires SoundTable(m) && ColumnAtom(a) && !Meets(e, a) && e.AddColumns? && e.columns != []
        && e.columns[0].name == x
    requires ApplyOp(m, a).Some? && ApplyOp(m, DropColumn(x)).Some?
    ensures Commute(m, a, DropColumn(x))
  {
    DropColumnOp(m, x);
    if a.AddColumns? {
      assert a.columns == [a.columns[0]];
      AddsOne(m, a.columns[0]);
      AddsThenDrops(m, a.columns[0], x);
    } else {
      RenamesThenDrops(m, a.name, a.newName, x);
    }
  }

  lemma PassesRenamed(m: Table, from: string, to: string, a: AlterOp)
    requires SoundTable(m) && ColumnAtom(a) && !Meets(RenameColumn(from, to), a)
    requires ApplyOp(m, a).Some? && ApplyOp(m, RenameColumn(to, from)).Some?
    ensures Commute(m, a, RenameColumn(to, from))
  {
    if a.AddColumns? {
      assert a.columns == [a.columns[0]];
      AddsThenRenames(m, a.columns[0], to, from);
    } else {
      RenamesThenRenames(m, a.name, a.newName, to, from);
    }
  }

  lemma ColumnAtomSound(m: Table, a: AlterOp)
    requires SoundTable(m) && ColumnAtom(a) && ApplyOp(m, a).Some?
    ensures SoundTable(ApplyOp(m, a).value)
  {
    UndoOp(m, a);
  }

  /** It passes all of them. */
  lemma {:induction false} PassesAll(m: Table, e: AlterOp, rest: seq<AlterOp>)
    requires SoundTable(m) && ColumnAtom(e) && ApplyOps(m, rest).Some? && ApplyOp(m, UndoOf(e)).Some?
    requires forall a :: a in rest ==> ColumnAtom(a) && !Meets(e, a)
    ensures var m0 := ApplyOp(m, UndoOf(e)).value;
            ApplyOps(m0, rest).Some? && ApplyOp(ApplyOps(m, rest).value, UndoOf(e)) == ApplyOps(m0, rest)
    decreases |rest|
  {
    if rest != [] {
      assert rest[0] in rest;
      Passes(m, e, rest[0]);
      ColumnAtomSound(m, rest[0]);
      PassesAll(ApplyOp(m, rest[0]).value, e, rest[1..]);
    }
  }

  // ---------------------------------------------------------------- undoing first to last

  /** Undoing an atom at once. */
  lemma UndoneAtOnce(t: Table, e: AlterOp)
    requires SoundTable(t) && ColumnAtom(e) && ApplyOp(t, e).Some?
    ensures var mid := ApplyOp(t, e).value;
            SoundTable(mid) && ApplyOp(mid, UndoOf(e)).Some?
            && Same(ApplyOp(mid, UndoOf(e)).value, t) && SoundTable(ApplyOp(mid, UndoOf(e)).value)
  {
    var mid := ApplyOp(t, e).value;
    UndoOp(t, e);
    if e.AddColumns? {
      assert e.columns == [e.columns[0]];
      AddsOne(t, e.columns[0]);
      UndoAddColumn(t, e.columns[0]);
    } else {
      UndoRename(t, e.name, e.newName);
      RenameKeepsSound(mid, e.newName, e.name);
    }
  }

  lemma NoneMeets(e: AlterOp, rest: seq<AlterOp>)
    requires Apart([e] + rest)
    ensures Apart(rest) && forall a :: a in rest ==> !Meets(e, a)
  {
    var atoms := [e] + rest;
    forall i, j | 0 <= i < j < |rest| ensures !Meets(rest[i], rest[j]) {
      assert !Meets(atoms[i + 1], atoms[j + 1]);
    }
    forall a | a in rest ensures !Meets(e, a) {
      var j :| 0 <= j < |rest| && rest[j] == a;
      assert !Meets(atoms[0], atoms[j + 1]);
    }
  }

  lemma {:induction false} ForwardUndoes(t: Table, atoms: seq<AlterOp>)
    requires SoundTable(t) && ApplyOps(t, atoms).Some? && Apart(atoms) && forall a :: a in atoms ==> ColumnAtom(a)
    ensures var u := ApplyOps(ApplyOps(t, atoms).value, Map(UndoOf, atoms)); u.Some? && Same(u.value, t)
    decreases |atoms|
  {
    if atoms == [] {
      assert Map(UndoOf, atoms) == [];
    } else {
      var e, rest := atoms[0], atoms[1..];
      assert e in atoms && atoms == [e] + rest && forall a :: a in rest ==> a in atoms;
      UndoneAtOnce(t, e);
      NoneMeets(e, rest);
      var mid := ApplyOp(t, e).value;
      PassesAll(mid, e, rest);
      var t0 := ApplyOp(mid, UndoOf(e)).value;
      ForwardUndoes(t0, rest);
      FirstUndone(ApplyOps(mid, rest).value, e, rest, ApplyOps(t0, rest).value);
    }
  }

  lemma FirstUndone(last: Table, e: AlterOp, rest: seq<AlterOp>, next: Table)
    requires ApplyOp(last, UndoOf(e)) == Some(next)
    ensures ApplyOps(last, Map(UndoOf, [e] + rest)) == ApplyOps(next, Map(UndoOf, rest))
  {
    var undos := Map(UndoOf, [e] + rest);
    assert undos[0] == UndoOf(e) && undos[1..] == Map(UndoOf, rest);
  }

  // ---------------------------------------------------------------- a name that is used again

  lemma {:induction false} NameStays(m: Table, ops: seq<AlterOp>, name: string)
    requires ApplyOps(m, ops).Some? && FindColumn(m.columns, name) >= 0
    requires forall a :: a in ops ==> Atom(a) && (a.RenameColumn? ==> !EqualFold(a.name, name))
    ensures FindColumn(ApplyOps(m, ops).value.columns, name) >= 0
    decreases |ops|
  {
    if ops != [] {
      var a := ops[0];
      assert a in ops;
      OneNameStays(m, a, name);
      NameStays(ApplyOp(m, a).value, ops[1..], name);
    }
  }

  lemma OneNameStays(m: Table, a: AlterOp, name: string)
    requires Atom(a) && ApplyOp(m, a).Some? && FindColumn(m.columns, name) >= 0
    requires a.RenameColumn? ==> !EqualFold(a.name, name)
    ensures FindColumn(ApplyOp(m, a).value.columns, name) >= 0
  {
    var n := FindColumn(m.columns, name);
    assert EqualFold(m.columns[n].name, name);
    match a
    case AddColumns(columns) =>
      assert columns == [columns[0]];
      AddsOne(m, columns[0]);
      FindAppended(m.columns, ColumnFromSpec(columns[0]), name);
    case AddIndex(index) => AddIndexOp(m, index.value);
    case RenameColumn(p, q) =>
      RenameColumnOp(m, p, q);
      var u := ApplyOp(m, a).value;
      assert EqualFold(m.columns[FindColumn(m.columns, p)].name, p);
      assert u.columns[n] == m.columns[n];
  }

  lemma UnchainedTail(atoms: seq<AlterOp>)
    requires atoms != [] && Unchained(atoms)
    ensures Unchained(atoms[1..])
  {
    var rest := atoms[1..];
    assert forall x, y :: 0 <= x < y < |rest| ==> rest[x] == atoms[x + 1] && rest[y] == atoms[y + 1];
  }

  /** An atom brings its name in, and it is there at the end if no later one renames it. */
  lemma {:induction false} GivenStays(m: Table, atoms: seq<AlterOp>, j: nat)
    requires ApplyOps(m, atoms).Some? && j < |atoms| && Gives(atoms[j]).Some? && Unchained(atoms)
    requires forall a :: a in atoms ==> Atom(a)
    ensures FindColumn(ApplyOps(m, atoms).value.columns, Gives(atoms[j]).value) >= 0
    decreases |atoms|
  {
    var a, rest := atoms[0], atoms[1..];
    assert a in atoms && forall x :: x in rest ==> x in atoms;
    var u := ApplyOp(m, a).value;
    if j > 0 {
      UnchainedTail(atoms);
      GivenStays(u, rest, j - 1);
    } else {
      var name := Gives(a).value;
      GivenIsThere(m, a);
      forall x | x in rest ensures Atom(x) && (x.RenameColumn? ==> !EqualFold(x.name, name)) {
        var k :| 0 <= k < |rest| && rest[k] == x;
        assert atoms[k + 1] == x && !Chains(atoms[0], atoms[k + 1]);
      }
      NameStays(u, rest, name);
    }
  }

  lemma GivenIsThere(m: Table, a: AlterOp)
    requires Atom(a) && ApplyOp(m, a).Some? && Gives(a).Some?
    ensures FindColumn(ApplyOp(m, a).value.columns, Gives(a).value) >= 0
  {
    match a
    case AddColumns(columns) =>
      assert columns == [columns[0]];
      AddsOne(m, columns[0]);
      FindAppended(m.columns, ColumnFromSpec(columns[0]), columns[0].name);
    case RenameColumn(p, q) =>
      RenameColumnOp(m, p, q);
      assert ApplyOp(m, a).value.columns[FindColumn(m.columns, p)].name == q;
  }

  lemma DropLeavesName(u: Table, x: string, name: string)
    requires FindColumn(u.columns, x) >= 0 && FindColumn(u.columns, name) >= 0 && !EqualFold(x, name)
    ensures FindColumn(Without(u.columns, FindColumn(u.columns, x)), name) >= 0
  {
    var n, k := FindColumn(u.columns, name), FindColumn(u.columns, x);
    assert EqualFold(u.columns[n].name, name) && EqualFold(u.columns[k].name, x);
    assert Without(u.columns, k)[if n < k then n else n - 1] == u.columns[n];
  }

  /** Undoing an atom leaves a column that has another name than the one it gave. */
  lemma UndoLeavesName(u: Table, a: AlterOp, name: string)
    requires Atom(a) && ApplyOp(u, UndoOf(a)).Some? && FindColumn(u.columns, name) >= 0
    requires Gives(a).Some? ==> !EqualFold(Gives(a).value, name)
    ensures FindColumn(ApplyOp(u, UndoOf(a)).value.columns, name) >= 0
  {
    match a
    case AddColumns(columns) =>
      DropColumnOp(u, columns[0].name);
      DropLeavesName(u, columns[0].name, name);
    case AddIndex(index) => DropIndexOp(u, index.value.name);
    case RenameColumn(p, q) =>
      RenameColumnOp(u, q, p);
      var n := FindColumn(u.columns, name);
      assert EqualFold(u.columns[n].name, name) && EqualFold(u.columns[FindColumn(u.columns, q)].name, q);
      assert ApplyOp(u, RenameColumn(q, p)).value.columns[n] == u.columns[n];
  }

  /** A renaming is not undone while another column has its name. */
  lemma {:induction false} ReusedFails(u: Table, atoms: seq<AlterOp>, i: nat)
    requires i < |atoms| && atoms[i].RenameColumn? && FindColumn(u.columns, atoms[i].name) >= 0
    requires Unchained(atoms) && forall a :: a in atoms ==> Atom(a)
    ensures ApplyOps(u, Map(UndoOf, atoms)).None?
    decreases |atoms|
  {
    var a, rest, undos := atoms[0], atoms[1..], Map(UndoOf, atoms);
    assert undos[0] == UndoOf(a) && undos[1..] == Map(UndoOf, rest) && a in atoms;
    if i == 0 {
      RenameColumnOp(u, a.newName, a.name);
    } else if ApplyOp(u, UndoOf(a)).Some? {
      assert !Chains(atoms[0], atoms[i]) && rest[i - 1] == atoms[i];
      UndoLeavesName(u, a, atoms[i].name);
      UnchainedTail(atoms);
      ReusedFails(ApplyOp(u, UndoOf(a)).value, rest, i - 1);
    }
  }

  /** For every run of added and renamed columns that renames none by a name it has given: undoing first
      to last restores the table up to letter case if no operation gives a name that an earlier one took
      away, and fails otherwise. */
  lemma ColumnsForward(t: Table, atoms: seq<AlterOp>)
    requires SoundTable(t) && ApplyOps(t, atoms).Some? && Unchained(atoms) && forall a :: a in atoms ==> ColumnAtom(a)
    ensures var u := ApplyOps(ApplyOps(t, atoms).value, Map(UndoOf, atoms));
            if NoneReused(atoms) then u.Some? && Same(u.value, t) else u.None?
  {
    if NoneReused(atoms) {
      ForwardUndoes(t, atoms);
    } else {
      var i, j :| 0 <= i < j < |atoms| && Reuses(atoms[i], atoms[j]);
      var last := ApplyOps(t, atoms).value;
      GivenStays(t, atoms, j);
      SameName(last.columns, Gives(atoms[j]).value, atoms[i].name);
      ReusedFails(last, atoms, i);
    }
  }

  lemma SameName(columns: seq<Column>, a: string, b: string)
    requires EqualFold(a, b)
    ensures FindColumn(columns, a) == FindColumn(columns, b)
  {
  }
}
