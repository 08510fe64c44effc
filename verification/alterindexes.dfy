/** What becomes of the indexes that an ALTER has added while its rollback runs: they can be looked at apart
    from the rest of the table, and each is dropped if it has not vanished with its columns before. */
module AlterIndexes {
  import opened Text
  import opened Catalog
  import opened Seqs
  import opened Snapshot
  import opened AlterUndo
  import opened AlterOrder
  import opened AlterServer

  function With(w: Table, added: seq<Index>): Table { w.(indexes := w.indexes + added) }

  /** What is left of the added indexes, or nothing if one is gone before it is dropped. */
  function Kept(added: seq<Index>, undos: seq<AlterOp>): Option<seq<Index>>
    decreases |undos|
  {
    if undos == [] then Some(added)
    else match undos[0]
      case DropColumn(column) => Kept(DropFromIndexes(added, column), undos[1..])
      case RenameColumn(from, to) => Kept(RenameInIndexes(added, from, to), undos[1..])
      case DropIndex(name) =>
        var n := FindIndex(added, name);
        if n < 0 then None else Kept(Without(added, n), undos[1..])
      case _ => None
  }

  predicate AllUndoing(undos: seq<AlterOp>) { forall k :: 0 <= k < |undos| ==> Undoing(undos[k]) }

  /** None of the indexes of `w` is dropped. */
  predicate Foreign(w: Table, undos: seq<AlterOp>) {
    forall k :: 0 <= k < |undos| && undos[k].DropIndex? ==> FindIndex(w.indexes, undos[k].name) < 0
  }

  lemma {:induction false} DropConcat(a: seq<Index>, b: seq<Index>, column: string)
    ensures DropFromIndexes(a + b, column) == DropFromIndexes(a, column) + DropFromIndexes(b, column)
  {
    if a == [] {
      assert a + b == b;
    } else {
      assert (a + b)[1..] == a[1..] + b;
      DropConcat(a[1..], b, column);
    }
  }

  lemma FindInBoth(a: seq<Index>, b: seq<Index>, name: string)
    requires FindIndex(a, name) < 0
    ensures FindIndex(a + b, name) == if FindIndex(b, name) < 0 then -1 else |a| + FindIndex(b, name)
  {
    var n := FindIndex(b, name);
    assert forall k :: 0 <= k < |a| ==> (a + b)[k] == a[k];
    assert forall k :: 0 <= k < |b| ==> (a + b)[|a| + k] == b[k];
    if n >= 0 {
      assert EqualFold((a + b)[|a| + n].name, name);
    }
  }

  lemma DroppedNames(indexes: seq<Index>, column: string, name: string)
    requires FindIndex(indexes, name) < 0
    ensures FindIndex(DropFromIndexes(indexes, column), name) < 0
  {
    var left := DropFromIndexes(indexes, column);
    forall k | 0 <= k < |left| ensures !EqualFold(left[k].name, name) {
      var j := DroppedFrom(indexes, column, k);
    }
  }

  lemma WithoutName(indexes: seq<Index>, n: nat, name: string)
    requires n < |indexes| && FindIndex(indexes, name) < 0
    ensures FindIndex(Without(indexes, n), name) < 0
  {
    var left := Without(indexes, n);
    assert forall k :: 0 <= k < |left| ==> left[k] == indexes[if k < n then k else k + 1];
  }

  lemma RenamedSameNames(indexes: seq<Index>, from: string, to: string, name: string)
    ensures FindIndex(RenameInIndexes(indexes, from, to), name) == FindIndex(indexes, name)
  {
    var renamed := RenameInIndexes(indexes, from, to);
    assert forall k :: 0 <= k < |indexes| ==> renamed[k].name == indexes[k].name;
  }

  lemma NoNewIndex(u: Table, op: AlterOp, name: string)
    requires Undoing(op) && ApplyOp(u, op).Some? && FindIndex(u.indexes, name) < 0
    ensures FindIndex(ApplyOp(u, op).value.indexes, name) < 0
  {
    match op
    case DropColumn(column) =>
      DropColumnOp(u, column);
      DroppedNames(u.indexes, column, name);
    case DropIndex(index) =>
      DropIndexOp(u, index);
      WithoutName(u.indexes, FindIndex(u.indexes, index), name);
    case RenameColumn(p, q) =>
      RenameColumnOp(u, p, q);
      RenamedSameNames(u.indexes, p, q, name);
  }

  lemma SplitDrop(w: Table, added: seq<Index>, column: string)
    ensures ApplyOp(With(w, added), DropColumn(column))
         == match ApplyOp(w, DropColumn(column))
            case None => None
            case Some(x) => Some(With(x, DropFromIndexes(added, column)))
  {
    DropColumnOp(w, column);
    DropColumnOp(With(w, added), column);
    DropConcat(w.indexes, added, column);
  }

  lemma SplitRename(w: Table, added: seq<Index>, from: string, to: string)
    ensures ApplyOp(With(w, added), RenameColumn(from, to))
         == match ApplyOp(w, RenameColumn(from, to))
            case None => None
            case Some(x) => Some(With(x, RenameInIndexes(added, from, to)))
  {
    RenameColumnOp(w, from, to);
    RenameColumnOp(With(w, added), from, to);
    MapConcat((i: Index) => RenameInIndex(i, from, to), w.indexes, added);
  }

  lemma SplitDropIndex(w: Table, added: seq<Index>, name: string)
    requires FindIndex(w.indexes, name) < 0
    ensures var n := FindIndex(added, name);
            ApplyOp(With(w, added), DropIndex(name)) == if n < 0 then None else Some(With(w, Without(added, n)))
  {
    var n := FindIndex(added, name);
    FindInBoth(w.indexes, added, name);
    DropIndexOp(With(w, added), name);
    if n >= 0 {
      assert Without(w.indexes + added, |w.indexes| + n) == w.indexes + Without(added, n);
    }
  }

  /** The columns and the added indexes go their own ways: a rollback runs if its statements on columns run
      and every added index is still there when it is dropped. */
  lemma {:induction false} SplitRun(w: Table, added: seq<Index>, undos: seq<AlterOp>)
    requires AllUndoing(undos) && Foreign(w, undos)
    ensures ApplyOps(With(w, added), undos)
         == match (ApplyOps(w, ColumnOps(undos)), Kept(added, undos))
            case (Some(x), Some(y)) => Some(With(x, y))
            case _ => None
    decreases |undos|
  {
    if undos != [] {
      var undo, rest := undos[0], undos[1..];
      assert Foreign(w, rest) && AllUndoing(rest);
      match undo
      case DropColumn(column) =>
        SplitDrop(w, added, column);
        FirstColumnOp(w, undos);
        if x :| ApplyOp(w, undo) == Some(x) {
          StaysForeign(w, undo, rest);
          SplitRun(x, DropFromIndexes(added, column), rest);
        }
      case RenameColumn(from, to) =>
        SplitRename(w, added, from, to);
        FirstColumnOp(w, undos);
        if x :| ApplyOp(w, undo) == Some(x) {
          StaysForeign(w, undo, rest);
          SplitRun(x, RenameInIndexes(added, from, to), rest);
        }
      case DropIndex(name) =>
        SplitDropIndex(w, added, name);
        assert ColumnOps(undos) == ColumnOps(rest);
        if FindIndex(added, name) >= 0 {
          SplitRun(w, Without(added, FindIndex(added, name)), rest);
        }
    }
  }

  lemma FirstColumnOp(w: Table, undos: seq<AlterOp>)
    requires undos != [] && IsColumnOp()(undos[0])
    ensures ApplyOps(w, ColumnOps(undos))
         == match ApplyOp(w, undos[0]) case None => None case Some(x) => ApplyOps(x, ColumnOps(undos[1..]))
  {
    assert ColumnOps(undos)[0] == undos[0] && ColumnOps(undos)[1..] == ColumnOps(undos[1..]);
  }

  lemma StaysForeign(w: Table, undo: AlterOp, rest: seq<AlterOp>)
    requires Undoing(undo) && ApplyOp(w, undo).Some? && Foreign(w, rest)
    ensures Foreign(ApplyOp(w, undo).value, rest)
  {
    forall k | 0 <= k < |rest| && rest[k].DropIndex?
      ensures FindIndex(ApplyOp(w, undo).value.indexes, rest[k].name) < 0
    {
      NoNewIndex(w, undo, rest[k].name);
    }
  }

  predicate Drops(undo: AlterOp, column: string) { undo.DropColumn? && EqualFold(undo.name, column) }

  predicate DropsIndex(undo: AlterOp, name: string) { undo.DropIndex? && EqualFold(undo.name, name) }

  /** The index is dropped before the column is. */
  predicate Clear(column: string, name: string, undos: seq<AlterOp>) {
    exists p :: 0 <= p < |undos| && DropsIndex(undos[p], name) && forall q :: 0 <= q < p ==> !Drops(undos[q], column)
  }

  /** The index has an expression, or a column that is not dropped before it. */
  predicate Anchored(i: Index, undos: seq<AlterOp>) {
    i.expressions != [] || exists k :: 0 <= k < |i.columns| && Clear(i.columns[k], i.name, undos)
  }

  /** No column is dropped under a name that was given or taken away before. */
  predicate Tame(undos: seq<AlterOp>) {
    forall q, r :: 0 <= q < r < |undos| && undos[q].RenameColumn? && undos[r].DropColumn? ==>
      !EqualFold(undos[r].name, undos[q].name) && !EqualFold(undos[r].name, undos[q].newName)
  }

  /** Only these indexes are dropped, */
  predicate OnlyThese(added: seq<Index>, undos: seq<AlterOp>) {
    forall k :: 0 <= k < |undos| && undos[k].DropIndex? ==> FindIndex(added, undos[k].name) >= 0
  }

  /** none of them twice, */
  predicate DroppedOnce(undos: seq<AlterOp>) {
    forall k, l :: 0 <= k < l < |undos| && undos[k].DropIndex? && undos[l].DropIndex? ==>
      !EqualFold(undos[k].name, undos[l].name)
  }

  /** and each of them. */
  predicate AllDropped(added: seq<Index>, undos: seq<AlterOp>) {
    forall i :: 0 <= i < |added| ==> IsDropped(added[i].name, undos)
  }

  predicate Fits(added: seq<Index>, undos: seq<AlterOp>) {
    DistinctIndexes(added) && OnlyThese(added, undos) && DroppedOnce(undos) && AllDropped(added, undos)
  }

  predicate IsDropped(name: string, undos: seq<AlterOp>) {
    exists k :: 0 <= k < |undos| && DropsIndex(undos[k], name)
  }

  predicate AllParts(added: seq<Index>) { forall i :: 0 <= i < |added| ==> HasParts(added[i]) }

  lemma ClearFirst(column: string, name: string, undos: seq<AlterOp>)
    requires undos != []
    ensures Clear(column, name, undos)
       <==> DropsIndex(undos[0], name) || (!Drops(undos[0], column) && Clear(column, name, undos[1..]))
  {
    var rest := undos[1..];
    if p :| 0 <= p < |undos| && DropsIndex(undos[p], name) && forall q :: 0 <= q < p ==> !Drops(undos[q], column) {
      if p > 0 {
        assert rest[p - 1] == undos[p] && forall q :: 0 <= q < p - 1 ==> rest[q] == undos[q + 1];
        assert Clear(column, name, rest);
      }
    }
    if !Drops(undos[0], column) && Clear(column, name, rest) {
      var p :| 0 <= p < |rest| && DropsIndex(rest[p], name) && forall q :: 0 <= q < p ==> !Drops(rest[q], column);
      assert undos[p + 1] == rest[p] && forall q :: 1 <= q < p + 1 ==> undos[q] == rest[q - 1];
    }
  }

  lemma DroppedFirst(name: string, undos: seq<AlterOp>)
    requires undos != []
    ensures IsDropped(name, undos) <==> DropsIndex(undos[0], name) || IsDropped(name, undos[1..])
  {
    if k :| 0 <= k < |undos[1..]| && DropsIndex(undos[1..][k], name) {
      assert DropsIndex(undos[k + 1], name);
    }
    if k :| 0 <= k < |undos| && DropsIndex(undos[k], name) {
      assert k > 0 ==> DropsIndex(undos[1..][k - 1], name);
    }
  }

  lemma AnchoredDrop(i: Index, column: string, undos: seq<AlterOp>)
    requires undos != [] && undos[0] == DropColumn(column)
    ensures Anchored(i, undos) <==> Anchored(DropFromIndex(i, column), undos[1..])
  {
    var rest, kept := undos[1..], KeepColumns(i.columns, column);
    KeptColumns(i.columns, column);
    if k :| 0 <= k < |i.columns| && Clear(i.columns[k], i.name, undos) {
      ClearFirst(i.columns[k], i.name, undos);
      assert i.columns[k] in kept;
      var j :| 0 <= j < |kept| && kept[j] == i.columns[k];
    }
    if j :| 0 <= j < |kept| && Clear(kept[j], i.name, rest) {
      assert kept[j] in kept;
      var k :| 0 <= k < |i.columns| && i.columns[k] == kept[j];
      ClearFirst(i.columns[k], i.name, undos);
    }
  }

  /** Columns that are not dropped any more are alike. */
  lemma ClearAlike(a: string, b: string, name: string, undos: seq<AlterOp>)
    requires forall q :: 0 <= q < |undos| ==> !Drops(undos[q], a) && !Drops(undos[q], b)
    ensures Clear(a, name, undos) <==> Clear(b, name, undos)
  {
  }

  lemma AnchoredRename(i: Index, from: string, to: string, undos: seq<AlterOp>)
    requires undos != [] && undos[0] == RenameColumn(from, to) && Tame(undos)
    ensures Anchored(i, undos) <==> Anchored(RenameInIndex(i, from, to), undos[1..])
  {
    var rest, renamed := undos[1..], Map(Renamed(from, to), i.columns);
    forall k | 0 <= k < |i.columns| ensures Clear(i.columns[k], i.name, undos) <==> Clear(renamed[k], i.name, rest) {
      ClearFirst(i.columns[k], i.name, undos);
      if EqualFold(i.columns[k], from) {
        forall q | 0 <= q < |rest| ensures !Drops(rest[q], i.columns[k]) && !Drops(rest[q], to) {
          assert rest[q] == undos[q + 1];
        }
        ClearAlike(i.columns[k], to, i.name, rest);
      }
    }
  }

  lemma AnchoredDropIndex(i: Index, undos: seq<AlterOp>)
    requires undos != [] && undos[0].DropIndex?
    ensures DropsIndex(undos[0], i.name) && HasParts(i) ==> Anchored(i, undos)
    ensures !DropsIndex(undos[0], i.name) ==> (Anchored(i, undos) <==> Anchored(i, undos[1..]))
  {
    forall k | 0 <= k < |i.columns|
      ensures Clear(i.columns[k], i.name, undos)
         <==> DropsIndex(undos[0], i.name) || Clear(i.columns[k], i.name, undos[1..])
    {
      ClearFirst(i.columns[k], i.name, undos);
    }
    if DropsIndex(undos[0], i.name) && i.columns != [] {
      assert Clear(i.columns[0], i.name, undos);
    }
  }

  lemma {:induction false} AllLeft(added: seq<Index>, column: string)
    requires forall i :: 0 <= i < |added| ==> HasParts(DropFromIndex(added[i], column))
    ensures |DropFromIndexes(added, column)| == |added|
    ensures forall i :: 0 <= i < |added| ==> DropFromIndexes(added, column)[i] == DropFromIndex(added[i], column)
  {
    if added != [] {
      AllLeft(added[1..], column);
    }
  }

  lemma {:induction false} LeftHasParts(indexes: seq<Index>, column: string, k: nat)
    requires k < |DropFromIndexes(indexes, column)|
    ensures HasParts(DropFromIndexes(indexes, column)[k])
  {
    var first := if HasParts(DropFromIndex(indexes[0], column)) then 1 else 0;
    if k >= first {
      LeftHasParts(indexes[1..], column, k - first);
    }
  }

  /** An index over dropped columns alone is gone with the last of them. */
  lemma GoneWith(added: seq<Index>, column: string, i: nat)
    requires DistinctIndexes(added) && i < |added| && !HasParts(DropFromIndex(added[i], column))
    ensures FindIndex(DropFromIndexes(added, column), added[i].name) < 0
  {
    var left := DropFromIndexes(added, column);
    forall k | 0 <= k < |left| ensures !EqualFold(left[k].name, added[i].name) {
      var j := DroppedFrom(added, column, k);
      LeftHasParts(added, column, k);
      assert j < i || i < j;
    }
  }

  lemma WithoutFinds(added: seq<Index>, n: nat, name: string)
    requires DistinctIndexes(added) && n < |added|
    ensures FindIndex(Without(added, n), name) >= 0
       <==> FindIndex(added, name) >= 0 && !EqualFold(added[n].name, name)
  {
    var left, f, g := Without(added, n), FindIndex(added, name), FindIndex(Without(added, n), name);
    assert forall k :: 0 <= k < |left| ==> left[k] == added[if k < n then k else k + 1];
    if f >= 0 && f != n {
      assert left[if f < n then f else f - 1] == added[f];
    }
  }

  /** A name that is not among them does not come back. */
  lemma {:induction false} KeptNeeds(added: seq<Index>, undos: seq<AlterOp>, name: string)
    requires IsDropped(name, undos) && FindIndex(added, name) < 0
    ensures Kept(added, undos).None?
    decreases |undos|
  {
    var rest := undos[1..];
    DroppedFirst(name, undos);
    match undos[0]
    case DropColumn(column) =>
      DroppedNames(added, column, name);
      KeptNeeds(DropFromIndexes(added, column), rest, name);
    case RenameColumn(from, to) =>
      RenamedSameNames(added, from, to, name);
      KeptNeeds(RenameInIndexes(added, from, to), rest, name);
    case DropIndex(index) =>
      var n := FindIndex(added, index);
      if n >= 0 {
        FindAlikeNot(added, name, index);
        WithoutName(added, n, name);
        KeptNeeds(Without(added, n), rest, name);
      } else {
        assert Kept(added, undos).None?;
      }
    case _ =>
  }

  lemma FindAlike(indexes: seq<Index>, a: string, b: string)
    requires EqualFold(a, b)
    ensures FindIndex(indexes, a) == FindIndex(indexes, b)
  {
  }

  lemma FindAlikeNot(indexes: seq<Index>, a: string, b: string)
    ensures FindIndex(indexes, a) < 0 <= FindIndex(indexes, b) ==> !EqualFold(a, b)
  {
    if EqualFold(a, b) {
      FindAlike(indexes, a, b);
    }
  }

  predicate AllAnchored(added: seq<Index>, undos: seq<AlterOp>) {
    forall i :: 0 <= i < |added| ==> Anchored(added[i], undos)
  }

  lemma FitsColumns(added: seq<Index>, left: seq<Index>, undos: seq<AlterOp>)
    requires undos != [] && !undos[0].DropIndex? && Fits(added, undos)
    requires |left| == |added| && forall i :: 0 <= i < |added| ==> left[i].name == added[i].name
    ensures Fits(left, undos[1..])
  {
    var rest := undos[1..];
    forall k | 0 <= k < |rest| && rest[k].DropIndex? ensures FindIndex(left, rest[k].name) >= 0 {
      assert undos[k + 1] == rest[k];
      assert EqualFold(left[FindIndex(added, rest[k].name)].name, rest[k].name);
    }
    assert forall k, l :: 0 <= k < l < |rest| ==> rest[k] == undos[k + 1] && rest[l] == undos[l + 1];
    forall i | 0 <= i < |left| ensures IsDropped(left[i].name, rest) {
      DroppedFirst(added[i].name, undos);
    }
  }

  /** A later statement drops another index. */
  lemma LaterDrops(added: seq<Index>, undos: seq<AlterOp>, k: nat)
    requires undos != [] && undos[0].DropIndex? && Fits(added, undos) && k + 1 < |undos| && undos[k + 1].DropIndex?
    ensures FindIndex(added, undos[k + 1].name) >= 0
    ensures !EqualFold(added[FindIndex(added, undos[0].name)].name, undos[k + 1].name)
  {
    assert FindIndex(added, undos[0].name) >= 0 && !EqualFold(undos[0].name, undos[k + 1].name);
  }

  lemma OthersAreDropped(added: seq<Index>, undos: seq<AlterOp>, n: nat)
    requires undos != [] && undos[0].DropIndex? && Fits(added, undos) && n == FindIndex(added, undos[0].name)
    ensures forall i :: 0 <= i < |added| && i != n ==> IsDropped(added[i].name, undos[1..])
  {
    forall i | 0 <= i < |added| && i != n ensures IsDropped(added[i].name, undos[1..]) {
      assert IsDropped(added[i].name, undos) && !EqualFold(added[i].name, added[n].name) by {
        assert i < n || n < i;
      }
      DroppedFirst(added[i].name, undos);
    }
  }

  lemma FitsIndex(added: seq<Index>, undos: seq<AlterOp>)
    requires undos != [] && undos[0].DropIndex? && Fits(added, undos)
    ensures FindIndex(added, undos[0].name) >= 0
    ensures Fits(Without(added, FindIndex(added, undos[0].name)), undos[1..])
  {
    var rest, n := undos[1..], FindIndex(added, undos[0].name);
    var left := Without(added, n);
    IndexDropped(added, n);
    OthersAreDropped(added, undos, n);
    forall k | 0 <= k < |rest| && rest[k].DropIndex? ensures FindIndex(left, rest[k].name) >= 0 {
      LaterDrops(added, undos, k);
      WithoutFinds(added, n, rest[k].name);
    }
    assert forall k, l :: 0 <= k < l < |rest| ==> rest[k] == undos[k + 1] && rest[l] == undos[l + 1];
  }

  /** What one statement leaves of the added indexes. */
  function Next(added: seq<Index>, undo: AlterOp): seq<Index> {
    match undo
    case DropColumn(column) => DropFromIndexes(added, column)
    case RenameColumn(from, to) => RenameInIndexes(added, from, to)
    case DropIndex(name) => if FindIndex(added, name) < 0 then added else Without(added, FindIndex(added, name))
    case _ => added
  }

  /** One statement less: what is left fits what is left to do, and as much of it is anchored. */
  ghost predicate Shorter(added: seq<Index>, left: seq<Index>, undos: seq<AlterOp>)
    requires undos != []
  {
    Fits(left, undos[1..]) && AllParts(left) && (AllAnchored(added, undos) <==> AllAnchored(left, undos[1..]))
  }

  lemma KeptAfterDrop(added: seq<Index>, undos: seq<AlterOp>, column: string)
    requires undos != [] && undos[0] == DropColumn(column) && Fits(added, undos)
    requires forall i :: 0 <= i < |added| ==> HasParts(DropFromIndex(added[i], column))
    ensures Shorter(added, Next(added, undos[0]), undos)
  {
    var left := DropFromIndexes(added, column);
    AllLeft(added, column);
    FitsColumns(added, left, undos);
    forall i | 0 <= i < |added| ensures Anchored(added[i], undos) <==> Anchored(left[i], undos[1..]) {
      AnchoredDrop(added[i], column, undos);
    }
  }

  lemma KeptAfterRename(added: seq<Index>, undos: seq<AlterOp>, from: string, to: string)
    requires undos != [] && undos[0] == RenameColumn(from, to) && Fits(added, undos) && AllParts(added) && Tame(undos)
    ensures Shorter(added, Next(added, undos[0]), undos)
  {
    var left := RenameInIndexes(added, from, to);
    FitsColumns(added, left, undos);
    forall i | 0 <= i < |added|
      ensures HasParts(left[i])
      ensures Anchored(added[i], undos) <==> Anchored(left[i], undos[1..])
    {
      assert |left[i].columns| == |added[i].columns|;
      AnchoredRename(added[i], from, to, undos);
    }
  }

  /** The anchored indexes without one that is. */
  lemma AnchoredWithout(added: seq<Index>, n: nat, undos: seq<AlterOp>, rest: seq<AlterOp>)
    requires n < |added| && Anchored(added[n], undos)
    requires forall i :: 0 <= i < |added| && i != n ==> (Anchored(added[i], undos) <==> Anchored(added[i], rest))
    ensures AllAnchored(added, undos) <==> AllAnchored(Without(added, n), rest)
  {
    var left := Without(added, n);
    assert forall k :: 0 <= k < |left| ==> left[k] == added[if k < n then k else k + 1];
    if AllAnchored(left, rest) {
      forall i | 0 <= i < |added| ensures Anchored(added[i], undos) {
        assert i != n ==> left[if i < n then i else i - 1] == added[i];
      }
    }
  }

  lemma OnlyThatOne(added: seq<Index>, n: nat, i: nat, name: string)
    requires DistinctIndexes(added) && n < |added| && i < |added| && n == FindIndex(added, name)
    ensures EqualFold(added[i].name, name) <==> i == n
  {
    assert i < n || i == n || n < i;
  }

  lemma AnchoredNext(added: seq<Index>, undos: seq<AlterOp>, n: nat, i: nat)
    requires undos != [] && undos[0].DropIndex? && DistinctIndexes(added) && AllParts(added)
    requires n < |added| && i < |added| && n == FindIndex(added, undos[0].name)
    ensures i == n ==> Anchored(added[i], undos)
    ensures i != n ==> (Anchored(added[i], undos) <==> Anchored(added[i], undos[1..]))
  {
    OnlyThatOne(added, n, i, undos[0].name);
    AnchoredDropIndex(added[i], undos);
  }

  lemma PartsWithout(added: seq<Index>, n: nat)
    requires n < |added| && AllParts(added)
    ensures AllParts(Without(added, n))
  {
    assert forall k :: 0 <= k < |added| - 1 ==> Without(added, n)[k] == added[if k < n then k else k + 1];
  }

  lemma KeptAfterIndex(added: seq<Index>, undos: seq<AlterOp>)
    requires undos != [] && undos[0].DropIndex? && Fits(added, undos) && AllParts(added)
    ensures FindIndex(added, undos[0].name) >= 0
    ensures Shorter(added, Next(added, undos[0]), undos)
  {
    FitsIndex(added, undos);
    var n, rest := FindIndex(added, undos[0].name), undos[1..];
    PartsWithout(added, n);
    assert AllAnchored(added, undos) <==> AllAnchored(Without(added, n), rest) by {
      forall i | 0 <= i < |added|
        ensures i == n ==> Anchored(added[i], undos)
        ensures i != n ==> (Anchored(added[i], undos) <==> Anchored(added[i], rest))
      {
        AnchoredNext(added, undos, n, i);
      }
      AnchoredWithout(added, n, undos, rest);
    }
  }

  lemma KeptVanishes(added: seq<Index>, undos: seq<AlterOp>, column: string, i: nat)
    requires undos != [] && undos[0] == DropColumn(column) && Fits(added, undos)
    requires i < |added| && !HasParts(DropFromIndex(added[i], column))
    ensures Kept(added, undos).None? && !AllAnchored(added, undos)
  {
    AnchoredDrop(added[i], column, undos);
    GoneWith(added, column, i);
    assert IsDropped(added[i].name, undos);
    DroppedFirst(added[i].name, undos);
    KeptNeeds(DropFromIndexes(added, column), undos[1..], added[i].name);
  }

  lemma TameTail(undos: seq<AlterOp>)
    requires undos != [] && AllUndoing(undos) && Tame(undos)
    ensures AllUndoing(undos[1..]) && Tame(undos[1..])
  {
    var rest := undos[1..];
    assert forall k, l :: 0 <= k < l < |rest| ==> rest[k] == undos[k + 1] && rest[l] == undos[l + 1];
  }

  lemma NothingAdded(added: seq<Index>)
    requires Fits(added, [])
    ensures added == []
  {
    assert added != [] ==> IsDropped(added[0].name, []);
  }

  ghost predicate Ordered(added: seq<Index>, undos: seq<AlterOp>) {
    AllUndoing(undos) && Tame(undos) && Fits(added, undos) && AllParts(added)
  }

  ghost predicate Stepped(added: seq<Index>, undos: seq<AlterOp>)
    requires undos != []
  {
    (Kept(added, undos).None? && !AllAnchored(added, undos)) || Shorter(added, Next(added, undos[0]), undos)
  }

  lemma StepDrop(added: seq<Index>, undos: seq<AlterOp>, column: string)
    requires undos != [] && undos[0] == DropColumn(column) && Fits(added, undos)
    ensures Stepped(added, undos)
  {
    if i :| 0 <= i < |added| && !HasParts(DropFromIndex(added[i], column)) {
      KeptVanishes(added, undos, column, i);
    } else {
      KeptAfterDrop(added, undos, column);
    }
  }

  /** One statement: an index is gone too early, or the rest is a smaller case of the same. */
  lemma KeptStep(added: seq<Index>, undos: seq<AlterOp>)
    requires undos != [] && Ordered(added, undos)
    ensures Stepped(added, undos) && Undoing(undos[0])
    ensures undos[0].DropIndex? ==> FindIndex(added, undos[0].name) >= 0
  {
    var undo := undos[0];
    match undo
    case DropColumn(column) => StepDrop(added, undos, column);
    case RenameColumn(from, to) => KeptAfterRename(added, undos, from, to);
    case DropIndex(name) => KeptAfterIndex(added, undos);
  }

  lemma KeptFirst(added: seq<Index>, undos: seq<AlterOp>)
    requires undos != [] && Undoing(undos[0]) && (undos[0].DropIndex? ==> FindIndex(added, undos[0].name) >= 0)
    ensures Kept(added, undos) == Kept(Next(added, undos[0]), undos[1..])
  {
  }

  /** All added indexes are dropped, if each of them has an expression or a column that is not dropped before
      it; otherwise one is gone before it is dropped. */
  lemma {:induction false} KeptIff(added: seq<Index>, undos: seq<AlterOp>)
    requires Ordered(added, undos)
    ensures Kept(added, undos) == if AllAnchored(added, undos) then Some([]) else None
    decreases |undos|
  {
    if undos == [] {
      NothingAdded(added);
    } else {
      KeptStep(added, undos);
      if Shorter(added, Next(added, undos[0]), undos) {
        KeptFirst(added, undos);
        TameTail(undos);
        KeptIff(Next(added, undos[0]), undos[1..]);
      }
    }
  }
}
