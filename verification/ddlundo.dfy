/** The undo statements that prepareDDLRollback stores for CREATE and RENAME
    (internal/execution/mysql/engine.go), run on the schema view. Those of ALTER are in `AlterUndo`. */
module DDLUndo {
  import opened Catalog
  import opened Snapshot
  import opened Views

  // ---------------------------------------------------------------- RENAME TABLE

  /** The pair that renames back. */
  function Back(d: DDL, p: RenamePair): RenamePair {
    RenamePair(TableRef(TargetSchema(d, p), p.to.name), TableRef(DefaultSchema(p.from.schema, d.schema), p.from.name))
  }

  lemma BackSwaps(lower: bool, d: DDL, p: RenamePair)
    requires d.schema != ""
    ensures SourceName(lower, d, Back(d, p)) == TargetName(lower, d, p)
    ensures TargetName(lower, d, Back(d, p)) == SourceName(lower, d, p)
  {
  }

  /** An order in which to take n statements, each once. */
  ghost predicate Permutation(order: seq<nat>, n: nat) {
    (forall i :: 0 <= i < |order| ==> order[i] < n)
    && (forall i, j :: 0 <= i < j < |order| ==> order[i] != order[j])
    && (forall j :: 0 <= j < n ==> j in order)
  }

  /** The undo statements of the pairs in that order. */
  function UndoIn(d: DDL, pairs: seq<RenamePair>, order: seq<nat>): (r: seq<RenamePair>)
    requires forall i :: 0 <= i < |order| ==> order[i] < |pairs|
    ensures |r| == |order| && forall i :: 0 <= i < |r| ==> r[i] == Back(d, pairs[order[i]])
  {
    seq(|order|, i requires 0 <= i < |order| => Back(d, pairs[order[i]]))
  }

  /** The same tables under the same names; how a table spells its own name may differ. */
  ghost predicate SameTables(a: map<Name, Table>, b: map<Name, Table>) {
    forall n :: SameAt(a, b, n)
  }

  ghost predicate SameAt(a: map<Name, Table>, b: map<Name, Table>, n: Name) {
    (n in a <==> n in b) && (n in a ==> a[n].(schema := "", name := "") == b[n].(schema := "", name := ""))
  }

  /** After the renames a pair's target is there with the pair's table, and its source is not. */
  lemma RenamedPair(lower: bool, d: DDL, tables: map<Name, Table>, pairs: seq<RenamePair>, after: map<Name, Table>,
                    j: nat)
    requires Renamable(lower, d, tables, pairs) && Simultaneous(lower, d, tables, pairs, after)
    requires DistinctTargets(lower, d, pairs) && j < |pairs|
    ensures var src, dst := SourceName(lower, d, pairs[j]), TargetName(lower, d, pairs[j]);
            src !in after && dst in after && after[dst] == Moved(d, tables[src], pairs[j])
  {
    var src, dst := SourceName(lower, d, pairs[j]), TargetName(lower, d, pairs[j]);
    assert SubstitutedAt(lower, d, tables, pairs, after, src) && SubstitutedAt(lower, d, tables, pairs, after, dst);
    assert LastTo(lower, d, pairs, src) < 0;
    assert LastTo(lower, d, pairs, dst) == j;
  }

  lemma UndoIsRenamable(lower: bool, d: DDL, tables: map<Name, Table>, pairs: seq<RenamePair>, after: map<Name, Table>,
                        order: seq<nat>)
    requires d.schema != "" && Renamable(lower, d, tables, pairs) && Simultaneous(lower, d, tables, pairs, after)
    requires DistinctTargets(lower, d, pairs) && Permutation(order, |pairs|)
    ensures Renamable(lower, d, after, UndoIn(d, pairs, order)) && DistinctSources(lower, d, UndoIn(d, pairs, order))
  {
    var undo := UndoIn(d, pairs, order);
    forall i | 0 <= i < |undo|
      ensures SourceName(lower, d, undo[i]) in after && TargetName(lower, d, undo[i]) !in after
    {
      BackSwaps(lower, d, pairs[order[i]]);
      RenamedPair(lower, d, tables, pairs, after, order[i]);
    }
    forall i, j | 0 <= i < j < |undo| ensures SourceName(lower, d, undo[i]) != SourceName(lower, d, undo[j]) {
      BackSwaps(lower, d, pairs[order[i]]);
      BackSwaps(lower, d, pairs[order[j]]);
    }
  }

  /** One name, after all is undone. */
  lemma UndoneAt(lower: bool, d: DDL, tables: map<Name, Table>, pairs: seq<RenamePair>, after: map<Name, Table>,
                 order: seq<nat>, back: map<Name, Table>, n: Name)
    requires d.schema != "" && Renamable(lower, d, tables, pairs) && Simultaneous(lower, d, tables, pairs, after)
    requires DistinctTargets(lower, d, pairs) && Permutation(order, |pairs|)
    requires Renamable(lower, d, after, UndoIn(d, pairs, order))
        && Simultaneous(lower, d, after, UndoIn(d, pairs, order), back)
    ensures SameAt(back, tables, n)
  {
    var undo := UndoIn(d, pairs, order);
    assert SubstitutedAt(lower, d, after, undo, back, n);
    assert SubstitutedAt(lower, d, tables, pairs, after, n);
    var k := LastTo(lower, d, undo, n);
    if k >= 0 {
      BackSwaps(lower, d, pairs[order[k]]);
      RenamedPair(lower, d, tables, pairs, after, order[k]);
    } else if IsSource(lower, d, undo, n) {
      var i :| 0 <= i < |undo| && SourceName(lower, d, undo[i]) == n;
      BackSwaps(lower, d, pairs[order[i]]);
    } else {
      NotInPairs(lower, d, pairs, order, n);
    }
  }

  /** A name that the undo statements do not mention was not mentioned by the renames. */
  lemma NotInPairs(lower: bool, d: DDL, pairs: seq<RenamePair>, order: seq<nat>, n: Name)
    requires d.schema != "" && Permutation(order, |pairs|)
    requires LastTo(lower, d, UndoIn(d, pairs, order), n) < 0 && !IsSource(lower, d, UndoIn(d, pairs, order), n)
    ensures LastTo(lower, d, pairs, n) < 0 && !IsSource(lower, d, pairs, n)
  {
    var undo := UndoIn(d, pairs, order);
    forall j | 0 <= j < |pairs| ensures SourceName(lower, d, pairs[j]) != n && TargetName(lower, d, pairs[j]) != n {
      assert j in order;
      var i :| 0 <= i < |order| && order[i] == j;
      assert undo[i] == Back(d, pairs[j]);
      BackSwaps(lower, d, pairs[j]);
    }
  }

  /** A RENAME TABLE with distinct sources and targets is undone by its stored statements in any
      order: the one emitted, the reverse, or that of several backup databases. */
  lemma RenameUndoRestores(lower: bool, d: DDL, tables: map<Name, Table>, pairs: seq<RenamePair>, order: seq<nat>)
    requires d.schema != "" && Renamable(lower, d, tables, pairs)
    requires DistinctSources(lower, d, pairs) && DistinctTargets(lower, d, pairs) && Permutation(order, |pairs|)
    ensures var after := RenameAll(lower, d, tables, pairs).tables;
            var back := RenameAll(lower, d, after, UndoIn(d, pairs, order));
            back.ok && SameTables(back.tables, tables)
  {
    RenameIsSimultaneous(lower, d, tables, pairs);
    var after, undo := RenameAll(lower, d, tables, pairs).tables, UndoIn(d, pairs, order);
    UndoIsRenamable(lower, d, tables, pairs, after, order);
    RenameIsSimultaneous(lower, d, after, undo);
    var back := RenameAll(lower, d, after, undo).tables;
    forall n ensures SameAt(back, tables, n) {
      UndoneAt(lower, d, tables, pairs, after, order, back, n);
    }
  }

  // ---------------------------------------------------------------- DROP and CREATE

  /** Dropping a list of tables removes exactly the names in it. */
  lemma {:induction false} DropAllRemoves(lower: bool, d: DDL, tables: map<Name, Table>, refs: seq<TableRef>)
    ensures DropAll(lower, d, tables, refs) == tables - set i | 0 <= i < |refs| :: RefName(lower, d, refs[i])
    decreases |refs|
  {
    if refs != [] {
      var n := |refs| - 1;
      DropAllRemoves(lower, d, tables, refs[..n]);
      var some, all := set i | 0 <= i < n :: RefName(lower, d, refs[..n][i]), set i | 0 <= i < |refs| ::
          RefName(lower, d, refs[i]);
      assert all == some + {RefName(lower, d, refs[n])} by {
        forall x | x in all ensures x in some + {RefName(lower, d, refs[n])} {
          var i :| 0 <= i < |refs| && RefName(lower, d, refs[i]) == x;
          assert i < n ==> refs[..n][i] == refs[i];
        }
        forall x | x in some ensures x in all {
          var i :| 0 <= i < n && RefName(lower, d, refs[..n][i]) == x;
          assert refs[i] == refs[..n][i];
        }
      }
    }
  }

  /** The statement stored to undo a CREATE TABLE. */
  function DropOf(d: DDL): DDL {
    d.(action := DropTable, tables := [TableRef(d.schema, d.table)], ifExists := false, ifNotExists := false,
       noop := false)
  }

  /** A CREATE TABLE that was accepted is undone by its DROP TABLE if and only if the table was not
      there before. With IF NOT EXISTS on an existing table nothing is created, and the stored
      statement drops the table that was there. */
  lemma CreateUndoRestores(lower: bool, v: View, d: DDL)
    requires d.action == CreateTable && d.fullyProjected && d.schema != "" && !d.noop
        && PrepareOn(lower, v, d).Accepted?
    ensures var created := ApplyOn(lower, v, PrepareOn(lower, v, d).ddl);
            var undone := ApplyOn(lower, created.view, DropOf(d));
            created.Done? && undone.Done?
            && (undone.view == v <==> NameOf(lower, d.schema, d.table) !in v.tables)
  {
    var n := NameOf(lower, d.schema, d.table);
    var created := ApplyOn(lower, v, PrepareOn(lower, v, d).ddl).view;
    CreatedOn(lower, v, d);
    DroppedOn(lower, created, d);
    if n in v.tables {
      assert n !in (created.tables - {n}) && n in v.tables;
    } else {
      assert created.tables - {n} == v.tables;
    }
  }

  lemma CreatedOn(lower: bool, v: View, d: DDL)
    requires d.action == CreateTable && d.fullyProjected && !d.noop && PrepareOn(lower, v, d).Accepted?
    ensures var n := NameOf(lower, d.schema, d.table);
            var created := ApplyOn(lower, v, PrepareOn(lower, v, d).ddl);
            created.Done? && created.view.schemas == v.schemas
            && if n in v.tables then created.view == v
               else n in created.view.tables && created.view.tables == v.tables[n := created.view.tables[n]]
  {
  }

  lemma DroppedOn(lower: bool, v: View, d: DDL)
    requires d.fullyProjected && d.schema != ""
    ensures ApplyOn(lower, v, DropOf(d)) == Done(v.(tables := v.tables - {NameOf(lower, d.schema, d.table)}))
  {
    var drop := DropOf(d);
    DropAllRemoves(lower, drop, v.tables, drop.tables);
    assert RefName(lower, drop, drop.tables[0]) == NameOf(lower, d.schema, d.table);
    assert (set i | 0 <= i < |drop.tables| :: RefName(lower, drop, drop.tables[i]))
        == {NameOf(lower, d.schema, d.table)};
  }
}
