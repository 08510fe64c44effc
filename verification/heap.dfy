/** The snapshot's ALTER TABLE as it runs: on slices, in place (internal/metadata/snapshot.go),
    between the copies that the cache hands out and takes in (internal/metadata/cache.go).

    A slice is an array with a length. An index is a record whose column names and prefix lengths
    are slices, so copying the record shares their arrays, as in the source. */
module HeapTable {
  import opened Text
  import opened Catalog
  import opened Seqs
  import opened Snapshot

  /** `shape` holds what is not edited in place; its own columns and prefix lengths are not used. */
  datatype IndexH = IndexH(shape: Index, columns: array<string>, ncolumns: nat, prefixes: array<int>, nprefixes: nat)

  ghost predicate FitsH(i: IndexH) {
    i.ncolumns <= i.columns.Length && i.nprefixes <= i.prefixes.Length
  }

  ghost function IndexVal(i: IndexH): Index
    requires FitsH(i)
    reads i.columns, i.prefixes
  {
    i.shape.(columns := i.columns[..i.ncolumns], prefixLengths := i.prefixes[..i.nprefixes])
  }

  // ---------------------------------------------------------------- edits of one index

  /** The inner loop of renameColumnInIndexes. */
  method RenameInArray(columns: array<string>, n: nat, from: string, to: string)
    requires n <= columns.Length
    modifies columns
    ensures columns[..n] == Map(Renamed(from, to), old(columns[..n]))
  {
    for j := 0 to n
      invariant columns[..j] == Map(Renamed(from, to), old(columns[..j]))
      invariant columns[j..n] == old(columns[j..n])
    {
      assert columns[j] == columns[j..n][0] == old(columns[j]);
      if EqualFold(columns[j], from) {
        columns[j] := to;
      }
      assert old(columns[..j + 1]) == old(columns[..j]) + [old(columns[j])];
      assert columns[..j + 1] == columns[..j] + [columns[j]];
      assert columns[j + 1..n] == old(columns[j + 1..n]) by {
        assert old(columns[j + 1..n]) == old(columns[j..n])[1..];
      }
    }
  }

  lemma {:induction false} KeepColumnsSnoc(columns: seq<string>, c: string, column: string)
    ensures KeepColumns(columns + [c], column) == KeepColumns(columns, column)
        + (if EqualFold(c, column) then [] else [c])
  {
    if columns == [] {
      assert columns + [c] == [c] && [c][1..] == [];
    } else {
      assert (columns + [c])[1..] == columns[1..] + [c];
      KeepColumnsSnoc(columns[1..], c, column);
    }
  }

  lemma {:induction false} KeepPrefixesSnoc(columns: seq<string>, prefixes: seq<int>, c: string, column: string)
    ensures KeepPrefixes(columns + [c], prefixes, column)
         == KeepPrefixes(columns, prefixes, column)
            + (if EqualFold(c, column) || |columns| >= |prefixes| then [] else [prefixes[|columns|]])
    decreases |columns|
  {
    if columns == [] {
      assert columns + [c] == [c] && [c][1..] == [];
    } else {
      var rest := if prefixes == [] then [] else prefixes[1..];
      assert (columns + [c])[1..] == columns[1..] + [c] && (columns + [c])[0] == columns[0];
      KeepPrefixesSnoc(columns[1..], rest, c, column);
      var last := if EqualFold(c, column) || |columns| >= |prefixes| then [] else [prefixes[|columns|]];
      assert last == if EqualFold(c, column) || |columns| - 1 >= |rest| then [] else [rest[|columns| - 1]];
      assert KeepPrefixes(columns[1..] + [c], rest, column) == KeepPrefixes(columns[1..], rest, column) + last;
    }
  }

  lemma KeepOneMore(names: seq<string>, lengths: seq<int>, k: nat, column: string)
    requires k < |names|
    ensures KeepColumns(names[..k + 1], column)
         == KeepColumns(names[..k], column) + (if EqualFold(names[k], column) then [] else [names[k]])
    ensures KeepPrefixes(names[..k + 1], lengths, column)
         == KeepPrefixes(names[..k], lengths, column)
             + (if EqualFold(names[k], column) || k >= |lengths| then [] else [lengths[k]])
  {
    assert names[..k + 1] == names[..k] + [names[k]];
    KeepColumnsSnoc(names[..k], names[k], column);
    KeepPrefixesSnoc(names[..k], lengths, names[k], column);
  }

  /** The inner loop of dropColumnFromIndexes: the kept names and lengths are written over the
      front of the arrays that are being read. */
  method CompactArrays(columns: array<string>, n: nat, prefixes: array<int>, m: nat, column: string)
    returns (kept: nat, keptPrefixes: nat)
    requires n <= columns.Length && m <= prefixes.Length
    modifies columns, prefixes
    ensures kept <= n && columns[..kept] == KeepColumns(old(columns[..n]), column)
    ensures keptPrefixes <= m && prefixes[..keptPrefixes] == KeepPrefixes(old(columns[..n]), old(prefixes[..m]), column)
  {
    kept, keptPrefixes := 0, 0;
    ghost var names, lengths := columns[..n], prefixes[..m];
    for position := 0 to n
      invariant kept <= position && keptPrefixes <= position && keptPrefixes <= m
      invariant columns[..kept] == KeepColumns(names[..position], column)
      invariant prefixes[..keptPrefixes] == KeepPrefixes(names[..position], lengths, column)
      invariant columns[position..n] == names[position..]
      invariant position <= m ==> prefixes[position..m] == lengths[position..]
    {
      var name := columns[position];
      assert name == columns[position..n][0] == names[position];
      KeepOneMore(names, lengths, position, column);
      assert columns[position + 1..n] == names[position + 1..] by {
        assert columns[position + 1..n] == columns[position..n][1..];
      }
      assert position < m ==>
          prefixes[position + 1..m] == lengths[position + 1..] && prefixes[position] == lengths[position] by {
        if position < m {
          assert prefixes[position + 1..m] == prefixes[position..m][1..];
          assert prefixes[position] == prefixes[position..m][0];
        }
      }
      if !EqualFold(name, column) {
        columns[kept] := name;
        assert columns[..kept + 1] == columns[..kept] + [name];
        kept := kept + 1;
        if position < m {
          var length := prefixes[position];
          prefixes[keptPrefixes] := length;
          assert prefixes[..keptPrefixes + 1] == prefixes[..keptPrefixes] + [length];
          keptPrefixes := keptPrefixes + 1;
        }
      }
    }
    assert names[..n] == names;
  }

  // ---------------------------------------------------------------- a table being edited

  ghost predicate IndexesFit(indexes: seq<IndexH>) {
    forall i :: 0 <= i < |indexes| ==> FitsH(indexes[i])
  }

  /** No two indexes share an array. */
  ghost predicate Unshared(indexes: seq<IndexH>) {
    forall i, j :: 0 <= i < j < |indexes| ==>
      indexes[i].columns != indexes[j].columns && indexes[i].prefixes != indexes[j].prefixes
  }

  ghost function ColumnArrays(indexes: seq<IndexH>): set<object> {
    set i | 0 <= i < |indexes| :: indexes[i].columns
  }

  ghost function PrefixArrays(indexes: seq<IndexH>): set<object> {
    set i | 0 <= i < |indexes| :: indexes[i].prefixes
  }

  ghost function IndexVals(indexes: seq<IndexH>): (r: seq<Index>)
    requires IndexesFit(indexes)
    reads ColumnArrays(indexes), PrefixArrays(indexes)
    ensures |r| == |indexes| && forall i :: 0 <= i < |indexes| ==> r[i] == IndexVal(indexes[i])
  {
    if indexes == [] then []
    else
      var n := |indexes| - 1;
      assert forall i :: 0 <= i < n ==> indexes[..n][i] == indexes[i];
      IndexVals(indexes[..n]) + [IndexVal(indexes[n])]
  }

  /** One index is renamed; the others, which share nothing with it, stay. */
  method RenameAt(index: IndexH, ghost indexes: seq<IndexH>, ghost i: nat, from: string, to: string)
    requires i < |indexes| && indexes[i] == index && IndexesFit(indexes) && Unshared(indexes)
    modifies index.columns
    ensures IndexVal(indexes[i]) == RenameInIndex(old(IndexVal(indexes[i])), from, to)
    ensures forall k :: 0 <= k < |indexes| && k != i ==> IndexVal(indexes[k]) == old(IndexVal(indexes[k]))
  {
    RenameInArray(index.columns, index.ncolumns, from, to);
    assert forall k :: 0 <= k < |indexes| && k != i ==> indexes[k].columns != index.columns;
  }

  /** The loop of renameColumnInIndexes, over the indexes of a table. */
  method RenameEverywhere(indexes: array<IndexH>, n: nat, from: string, to: string)
    requires n <= indexes.Length && IndexesFit(indexes[..n]) && Unshared(indexes[..n])
    modifies ColumnArrays(indexes[..n])
    ensures indexes[..n] == old(indexes[..n])
    ensures IndexVals(indexes[..n]) == RenameInIndexes(old(IndexVals(indexes[..n])), from, to)
  {
    ghost var live := indexes[..n];
    ghost var before := IndexVals(live);
    NotIndexArrays(indexes, live);
    for i := 0 to n
      modifies ColumnArrays(live)
      invariant forall k :: 0 <= k < i ==> IndexVal(live[k]) == RenameInIndex(before[k], from, to)
      invariant forall k :: i <= k < n ==> IndexVal(live[k]) == before[k]
    {
      assert live[i] == indexes[i];
      RenameAt(indexes[i], live, i, from, to);
    }
    assert indexes[..n] == live;
    assert IndexVals(live) == RenameInIndexes(before, from, to);
  }

  lemma {:induction false} DropFromIndexesSnoc(indexes: seq<Index>, i: Index, column: string)
    ensures DropFromIndexes(indexes + [i], column)
         == DropFromIndexes(indexes, column) + (if HasParts(DropFromIndex(i, column)) then [DropFromIndex(i, column)]
                                                else [])
  {
    if indexes == [] {
      assert indexes + [i] == [i] && [i][1..] == [];
    } else {
      assert (indexes + [i])[1..] == indexes[1..] + [i];
      DropFromIndexesSnoc(indexes[1..], i, column);
    }
  }

  /** Later records do not use the arrays of earlier ones. */
  lemma ArraysApart(indexes: seq<IndexH>, i: nat)
    requires Unshared(indexes) && i < |indexes|
    ensures indexes[i].columns !in ColumnArrays(indexes[..i]) && indexes[i].prefixes !in PrefixArrays(indexes[..i])
    ensures indexes[i].columns !in ColumnArrays(indexes[i + 1..])
        && indexes[i].prefixes !in PrefixArrays(indexes[i + 1..])
  {
    var later := indexes[i + 1..];
    assert forall k :: 0 <= k < |later| ==> later[k] == indexes[i + 1 + k];
  }

  lemma ArraysGrow(indexes: seq<IndexH>, i: nat)
    requires i < |indexes|
    ensures ColumnArrays(indexes[..i + 1]) == ColumnArrays(indexes[..i]) + {indexes[i].columns}
    ensures PrefixArrays(indexes[..i + 1]) == PrefixArrays(indexes[..i]) + {indexes[i].prefixes}
  {
    assert indexes[..i + 1] == indexes[..i] + [indexes[i]];
    ArraysOfConcat(indexes[..i], [indexes[i]]);
    assert ColumnArrays([indexes[i]]) == {indexes[i].columns} by { assert [indexes[i]][0] == indexes[i]; }
    assert PrefixArrays([indexes[i]]) == {indexes[i].prefixes} by { assert [indexes[i]][0] == indexes[i]; }
  }

  lemma ArraysOfConcat(a: seq<IndexH>, b: seq<IndexH>)
    ensures ColumnArrays(a + b) == ColumnArrays(a) + ColumnArrays(b)
    ensures PrefixArrays(a + b) == PrefixArrays(a) + PrefixArrays(b)
  {
    var c := a + b;
    forall o | o in ColumnArrays(a) + ColumnArrays(b) ensures o in ColumnArrays(c) {
      if o in ColumnArrays(a) {
        var i :| 0 <= i < |a| && a[i].columns == o;
        assert c[i].columns == o;
      } else {
        var i :| 0 <= i < |b| && b[i].columns == o;
        assert c[|a| + i].columns == o;
      }
    }
    forall o | o in PrefixArrays(a) + PrefixArrays(b) ensures o in PrefixArrays(c) {
      if o in PrefixArrays(a) {
        var i :| 0 <= i < |a| && a[i].prefixes == o;
        assert c[i].prefixes == o;
      } else {
        var i :| 0 <= i < |b| && b[i].prefixes == o;
        assert c[|a| + i].prefixes == o;
      }
    }
  }

  lemma UnsharedSnoc(indexes: seq<IndexH>, i: IndexH)
    requires Unshared(indexes) && i.columns !in ColumnArrays(indexes) && i.prefixes !in PrefixArrays(indexes)
    ensures Unshared(indexes + [i])
  {
    var all := indexes + [i];
    forall j, k | 0 <= j < k < |all| ensures all[j].columns != all[k].columns && all[j].prefixes != all[k].prefixes {
      assert all[j] == indexes[j];
      assert indexes[j].columns in ColumnArrays(indexes) && indexes[j].prefixes in PrefixArrays(indexes);
    }
  }

  /** One index: its arrays are compacted and the record takes the new lengths. */
  method CompactIndex(index: IndexH, column: string) returns (r: IndexH)
    requires FitsH(index)
    modifies index.columns, index.prefixes
    ensures r.columns == index.columns && r.prefixes == index.prefixes && FitsH(r)
    ensures IndexVal(r) == DropFromIndex(old(IndexVal(index)), column)
    ensures r.ncolumns == |IndexVal(r).columns| && r.shape == index.shape
  {
    var a, b := CompactArrays(index.columns, index.ncolumns, index.prefixes, index.nprefixes, column);
    r := index.(ncolumns := a, nprefixes := b);
  }

  /** What the outer loop has done when it stands at index i: `kept` indexes are finished and moved
      to the front, the rest are as they were. */
  ghost predicate Sofar(indexes: array<IndexH>, i: nat, kept: nat, olds: seq<IndexH>, before: seq<Index>,
                        column: string)
    requires IndexesFit(olds)
    reads indexes, ColumnArrays(olds), PrefixArrays(olds)
  {
    kept <= i <= |olds| == |before| && |olds| <= indexes.Length
    && indexes[i..|olds|] == olds[i..]
    && IndexesFit(indexes[..kept]) && Unshared(indexes[..kept])
    && ColumnArrays(indexes[..kept]) <= ColumnArrays(olds[..i]) <= ColumnArrays(olds)
    && PrefixArrays(indexes[..kept]) <= PrefixArrays(olds[..i]) <= PrefixArrays(olds)
    && IndexVals(indexes[..kept]) == DropFromIndexes(before[..i], column)
    && ColumnArrays(olds[i..]) <= ColumnArrays(olds) && PrefixArrays(olds[i..]) <= PrefixArrays(olds)
    && IndexVals(olds[i..]) == before[i..]
  }

  /** What a round finds. */
  lemma RoundBegins(indexes: array<IndexH>, i: nat, kept: nat, olds: seq<IndexH>, before: seq<Index>, column: string)
    requires IndexesFit(olds) && Unshared(olds) && i < |olds| && Sofar(indexes, i, kept, olds, before, column)
    ensures indexes[i] == olds[i] && IndexVal(olds[i]) == before[i]
    ensures indexes[i + 1..|olds|] == olds[i + 1..] && IndexVals(olds[i + 1..]) == before[i + 1..]
    ensures olds[i].columns !in ColumnArrays(indexes[..kept]) && olds[i].prefixes !in PrefixArrays(indexes[..kept])
    ensures IndexesFit(indexes[..kept]) && Unshared(indexes[..kept]) && IndexesFit(olds[i + 1..])
    ensures ColumnArrays(indexes[..kept]) <= ColumnArrays(olds[..i])
        && PrefixArrays(indexes[..kept]) <= PrefixArrays(olds[..i])
    ensures IndexVals(indexes[..kept]) == DropFromIndexes(before[..i], column)
    ensures olds[i].columns !in ColumnArrays(olds[i + 1..]) && olds[i].prefixes !in PrefixArrays(olds[i + 1..])
  {
    assert indexes[i..|olds|][0] == olds[i..][0];
    assert indexes[i + 1..|olds|] == indexes[i..|olds|][1..];
    assert IndexVal(olds[i..][0]) == before[i..][0];
    ArraysApart(olds, i);
    TailVals(olds, i);
  }

  ghost function Front(cur: seq<IndexH>, small: IndexH): seq<IndexH>
    requires FitsH(small)
    reads small.columns, small.prefixes
  {
    if HasParts(IndexVal(small)) then cur + [small] else cur
  }

  lemma FrontArrays(cur: seq<IndexH>, small: IndexH, olds: seq<IndexH>, i: nat)
    requires i < |olds| && FitsH(small) && IndexesFit(cur) && Unshared(cur)
    requires small.columns == olds[i].columns && small.prefixes == olds[i].prefixes
    requires small.columns !in ColumnArrays(cur) && small.prefixes !in PrefixArrays(cur)
    requires ColumnArrays(cur) <= ColumnArrays(olds[..i]) && PrefixArrays(cur) <= PrefixArrays(olds[..i])
    ensures var now := Front(cur, small);
            IndexesFit(now) && Unshared(now)
            && ColumnArrays(now) <= ColumnArrays(olds[..i + 1]) && PrefixArrays(now) <= PrefixArrays(olds[..i + 1])
  {
    ArraysGrow(olds, i);
    UnsharedSnoc(cur, small);
    var one := [small];
    ArraysOfConcat(cur, one);
    assert ColumnArrays(one) == {small.columns} by { assert one[0] == small; }
    assert PrefixArrays(one) == {small.prefixes} by { assert one[0] == small; }
  }

  lemma FrontVals(cur: seq<IndexH>, small: IndexH, before: seq<Index>, i: nat, column: string)
    requires i < |before| && FitsH(small) && IndexesFit(cur)
    requires IndexVals(cur) == DropFromIndexes(before[..i], column)
        && IndexVal(small) == DropFromIndex(before[i], column)
    ensures IndexesFit(Front(cur, small)) && IndexVals(Front(cur, small)) == DropFromIndexes(before[..i + 1], column)
  {
    assert before[..i + 1] == before[..i] + [before[i]];
    DropFromIndexesSnoc(before[..i], before[i], column);
    AddVal(cur, small);
  }

  lemma ArraysWithin(olds: seq<IndexH>, k: nat)
    requires k <= |olds|
    ensures ColumnArrays(olds[..k]) <= ColumnArrays(olds) && PrefixArrays(olds[..k]) <= PrefixArrays(olds)
    ensures ColumnArrays(olds[k..]) <= ColumnArrays(olds) && PrefixArrays(olds[k..]) <= PrefixArrays(olds)
  {
    assert olds == olds[..k] + olds[k..];
    ArraysOfConcat(olds[..k], olds[k..]);
  }

  /** The state of a round between compacting the index and putting it in its place. */
  ghost predicate MidRound(cur: seq<IndexH>, small: IndexH, olds: seq<IndexH>, before: seq<Index>, i: nat,
                           column: string)
    requires IndexesFit(olds)
    reads ColumnArrays(olds), PrefixArrays(olds), ColumnArrays(cur), PrefixArrays(cur), small.columns, small.prefixes
  {
    i < |olds| == |before| && |cur| <= i
    && IndexesFit(cur) && Unshared(cur) && FitsH(small)
    && small.columns == olds[i].columns && small.prefixes == olds[i].prefixes
    && small.columns !in ColumnArrays(cur) && small.prefixes !in PrefixArrays(cur)
    && ColumnArrays(cur) <= ColumnArrays(olds[..i]) && PrefixArrays(cur) <= PrefixArrays(olds[..i])
    && IndexVals(cur) == DropFromIndexes(before[..i], column) && IndexVal(small) == DropFromIndex(before[i], column)
    && ColumnArrays(olds[i + 1..]) <= ColumnArrays(olds) && PrefixArrays(olds[i + 1..]) <= PrefixArrays(olds)
    && IndexVals(olds[i + 1..]) == before[i + 1..]
  }

  /** What a round leaves. */
  lemma RoundEnds(indexes: array<IndexH>, i: nat, cur: seq<IndexH>, small: IndexH, kept: nat,
                  olds: seq<IndexH>, before: seq<Index>, column: string)
    requires IndexesFit(olds) && MidRound(cur, small, olds, before, i, column)
    requires |olds| <= indexes.Length && indexes[i + 1..|olds|] == olds[i + 1..]
    requires kept <= i + 1 && indexes[..kept] == Front(cur, small)
    ensures Sofar(indexes, i + 1, kept, olds, before, column)
  {
    FrontArrays(cur, small, olds, i);
    FrontVals(cur, small, before, i, column);
    ArraysWithin(olds, i + 1);
  }

  /** One index is compacted; those that share nothing with it stay. */
  method CompactAt(index: IndexH, column: string, ghost cur: seq<IndexH>, ghost rest: seq<IndexH>)
      returns (small: IndexH)
    requires FitsH(index) && IndexesFit(cur) && IndexesFit(rest)
    requires index.columns !in ColumnArrays(cur) && index.prefixes !in PrefixArrays(cur)
    requires index.columns !in ColumnArrays(rest) && index.prefixes !in PrefixArrays(rest)
    modifies index.columns, index.prefixes
    ensures small.columns == index.columns && small.prefixes == index.prefixes && FitsH(small)
    ensures IndexVal(small) == DropFromIndex(old(IndexVal(index)), column)
    ensures small.ncolumns == |IndexVal(small).columns| && small.shape.expressions == IndexVal(small).expressions
    ensures IndexVals(cur) == old(IndexVals(cur)) && IndexVals(rest) == old(IndexVals(rest))
  {
    small := CompactIndex(index, column);
  }

  lemma RoundMiddle(cur: seq<IndexH>, small: IndexH, olds: seq<IndexH>, before: seq<Index>, i: nat, column: string)
    requires IndexesFit(olds) && i < |olds| == |before| && |cur| <= i && IndexesFit(cur) && Unshared(cur)
        && FitsH(small)
    requires small.columns == olds[i].columns && small.prefixes == olds[i].prefixes
    requires small.columns !in ColumnArrays(cur) && small.prefixes !in PrefixArrays(cur)
    requires ColumnArrays(cur) <= ColumnArrays(olds[..i]) && PrefixArrays(cur) <= PrefixArrays(olds[..i])
    requires IndexVals(cur) == DropFromIndexes(before[..i], column)
        && IndexVal(small) == DropFromIndex(before[i], column)
    requires IndexVals(olds[i + 1..]) == before[i + 1..]
    ensures MidRound(cur, small, olds, before, i, column)
  {
    ArraysWithin(olds, i + 1);
  }

  /** A kept index is written behind the ones kept so far. */
  method Place(indexes: array<IndexH>, i: nat, kept: nat, small: IndexH, ghost cur: seq<IndexH>,
               ghost olds: seq<IndexH>, ghost before: seq<Index>, ghost column: string)
    requires IndexesFit(olds) && MidRound(cur, small, olds, before, i, column)
    requires kept <= i < |olds| <= indexes.Length && indexes[..kept] == cur && indexes[i + 1..|olds|] == olds[i + 1..]
    modifies indexes
    ensures MidRound(cur, small, olds, before, i, column)
    ensures indexes[..kept + 1] == cur + [small] && indexes[i + 1..|olds|] == olds[i + 1..]
  {
    NotIndexArrays(indexes, olds);
    NotIndexArrays(indexes, cur);
    NotIndexArrays(indexes, [small]);
    assert [small][0] == small;
    indexes[kept] := small;
  }

  /** One round of the loop. */
  method DropNext(indexes: array<IndexH>, i: nat, kept: nat, column: string, ghost olds: seq<IndexH>,
                  ghost before: seq<Index>)
    returns (kept': nat)
    requires IndexesFit(olds) && Unshared(olds) && i < |olds| && Sofar(indexes, i, kept, olds, before, column)
    modifies indexes, olds[i].columns, olds[i].prefixes
    ensures Sofar(indexes, i + 1, kept', olds, before, column)
  {
    RoundBegins(indexes, i, kept, olds, before, column);
    ghost var cur := indexes[..kept];
    var small := CompactAt(indexes[i], column, cur, olds[i + 1..]);
    RoundMiddle(cur, small, olds, before, i, column);
    kept' := kept;
    if small.ncolumns > 0 || |small.shape.expressions| > 0 {
      Place(indexes, i, kept, small, cur, olds, before, column);
      kept' := kept + 1;
    }
    RoundEnds(indexes, i, cur, small, kept', olds, before, column);
  }

  lemma NotIndexArrays(indexes: array<IndexH>, olds: seq<IndexH>)
    ensures indexes as object !in ColumnArrays(olds) && indexes as object !in PrefixArrays(olds)
  {
  }

  /** The loop of dropColumnFromIndexes: the indexes that keep a part are written over the front of
      the array that is being read. */
  method DropEverywhere(indexes: array<IndexH>, n: nat, column: string) returns (kept: nat)
    requires n <= indexes.Length && IndexesFit(indexes[..n]) && Unshared(indexes[..n])
    modifies indexes, ColumnArrays(indexes[..n]), PrefixArrays(indexes[..n])
    ensures kept <= n && IndexesFit(indexes[..kept]) && Unshared(indexes[..kept])
    ensures ColumnArrays(indexes[..kept]) <= old(ColumnArrays(indexes[..n]))
    ensures PrefixArrays(indexes[..kept]) <= old(PrefixArrays(indexes[..n]))
    ensures IndexVals(indexes[..kept]) == DropFromIndexes(old(IndexVals(indexes[..n])), column)
  {
    ghost var olds := indexes[..n];
    ghost var before := IndexVals(olds);
    kept := 0;
    assert olds[0..] == olds && before[0..] == before;
    for i := 0 to n
      invariant Sofar(indexes, i, kept, olds, before, column)
    {
      assert olds[i].columns in ColumnArrays(olds) && olds[i].prefixes in PrefixArrays(olds);
      kept := DropNext(indexes, i, kept, column, olds, before);
    }
    assert before[..n] == before;
  }

  lemma TailVals(indexes: seq<IndexH>, i: nat)
    requires i < |indexes| && IndexesFit(indexes[i..])
    ensures IndexesFit(indexes[i + 1..]) && IndexVals(indexes[i + 1..]) == IndexVals(indexes[i..])[1..]
  {
    var a, b := indexes[i..], indexes[i + 1..];
    assert forall k :: 0 <= k < |b| ==> b[k] == a[k + 1];
  }

  lemma AddVal(indexes: seq<IndexH>, i: IndexH)
    requires IndexesFit(indexes) && FitsH(i)
    ensures IndexesFit(indexes + [i]) && IndexVals(indexes + [i]) == IndexVals(indexes) + [IndexVal(i)]
  {
    assert (indexes + [i])[..|indexes|] == indexes;
  }

  /** findIndex on the records. */
  function LocateIndex(indexes: seq<IndexH>, name: string): (n: int)
    ensures -1 <= n < |indexes|
    ensures n >= 0 ==> EqualFold(indexes[n].shape.name, name)
    ensures forall i :: 0 <= i < (if n < 0 then |indexes| else n) ==> !EqualFold(indexes[i].shape.name, name)
  {
    FindFirst(indexes, (i: IndexH) => i.shape.name, name)
  }

  lemma LocateIsFind(indexes: seq<IndexH>, name: string)
    requires IndexesFit(indexes)
    ensures LocateIndex(indexes, name) == FindIndex(IndexVals(indexes), name)
  {
    var vals := IndexVals(indexes);
    assert forall i :: 0 <= i < |indexes| ==> vals[i].name == indexes[i].shape.name;
  }

  // ---------------------------------------------------------------- slices

  /** append(s[:len], x): in place while there is room, else in a new array. */
  method Append<T>(s: array<T>, len: nat, x: T) returns (r: array<T>)
    requires len <= s.Length
    modifies s
    ensures r == s || fresh(r)
    ensures len < r.Length && r[..len + 1] == old(s[..len]) + [x]
  {
    ghost var before := s[..len];
    if len < s.Length {
      s[len] := x;
      assert s[..len] == before && s[..len + 1] == s[..len] + [x];
      return s;
    }
    r := new T[2 * len + 1](_ => x);
    for i := 0 to len
      invariant r[..i] == s[..i] && s[..len] == before && r[len] == x
    {
      r[i] := s[i];
      assert r[..i + 1] == r[..i] + [s[i]] && s[..i + 1] == s[..i] + [s[i]];
    }
    assert r[..len + 1] == r[..len] + [x];
  }

  /** append(s[:n], s[n+1:len]...): the tail moves down by one, in place. */
  method Remove<T>(s: array<T>, len: nat, n: nat)
    requires n < len <= s.Length
    modifies s
    ensures s[..len - 1] == Without(old(s[..len]), n)
  {
    ghost var before := s[..len];
    for k := n to len - 1
      invariant s[..n] == before[..n] && s[n..k] == before[n + 1..k + 1] && s[k..len] == before[k..]
    {
      assert s[k + 1] == s[k..len][1] == before[k + 1];
      s[k] := s[k + 1];
      assert s[n..k + 1] == s[n..k] + [before[k + 1]];
      assert s[k + 1..len] == before[k + 1..] by {
        assert before[k + 1..] == before[k..][1..];
      }
    }
    assert s[n..len - 1] == before[n + 1..len] == before[n + 1..];
    assert s[..len - 1] == s[..n] + s[n..len - 1];
    assert Without(before, n) == before[..n] + before[n + 1..];
  }

  /** append([]T(nil), s[:len]...): a copy that shares nothing. */
  method Copy<T>(s: array<T>, len: nat) returns (r: array<T>)
    requires len <= s.Length
    ensures fresh(r) && r.Length == len && r[..] == s[..len]
  {
    r := new T[len](i requires 0 <= i < len reads s => s[i]);
  }

  // ---------------------------------------------------------------- the table variable

  /** The variable that holds the table while an ALTER edits it, or a cached table. */
  class TableVar {
    var shape: Table
    var columns: array<Column>
    var ncolumns: nat
    var indexes: array<IndexH>
    var nindexes: nat

    ghost predicate Valid()
      reads this, indexes
    {
      ncolumns <= columns.Length && nindexes <= indexes.Length
      && IndexesFit(indexes[..nindexes]) && Unshared(indexes[..nindexes])
    }

    /** The arrays that the table is made of. */
    ghost function Arrays(): set<object>
      requires Valid()
      reads this, indexes
    {
      {columns as object, indexes as object} + ColumnArrays(indexes[..nindexes]) + PrefixArrays(indexes[..nindexes])
    }

    ghost function Value(): Table
      requires Valid()
      reads this, indexes, Arrays()
    {
      shape.(columns := columns[..ncolumns], indexes := IndexVals(indexes[..nindexes]))
    }

    constructor (shape: Table, columns: array<Column>, ncolumns: nat, indexes: array<IndexH>, nindexes: nat)
      ensures this.shape == shape && this.columns == columns && this.ncolumns == ncolumns
      ensures this.indexes == indexes && this.nindexes == nindexes
    {
      this.shape, this.columns, this.ncolumns := shape, columns, ncolumns;
      this.indexes, this.nindexes := indexes, nindexes;
    }

    /** Assign the slice of columns. */
    method SetColumns(grown: array<Column>, n: nat)
      requires Valid() && n <= grown.Length
      modifies this`columns, this`ncolumns
      ensures Valid() && columns == grown && Arrays() <= old(Arrays()) + {grown}
      ensures Value() == old(Value()).(columns := grown[..n])
    {
      ghost var live := indexes[..nindexes];
      NotTheVariable(this, live);
      columns, ncolumns := grown, n;
      assert indexes[..nindexes] == live;
    }

    /** Assign the slice of indexes. */
    method SetIndexes(grown: array<IndexH>, n: nat, ghost now: seq<IndexH>)
      requires n <= grown.Length && grown[..n] == now && IndexesFit(now) && Unshared(now) && ncolumns <= columns.Length
      modifies this`indexes, this`nindexes
      ensures Valid() && indexes == grown && indexes[..nindexes] == now
      ensures Value() == shape.(columns := columns[..ncolumns], indexes := old(IndexVals(now)))
    {
      NotTheVariable(this, now);
      ghost var vals := IndexVals(now);
      indexes, nindexes := grown, n;
      assert indexes[..nindexes] == now && IndexVals(now) == vals;
    }

    method PushColumn(c: Column)
      requires Valid()
      modifies this, Arrays()
      ensures Valid() && Arrays() <= old(Arrays()) + {columns} && (columns == old(columns) || fresh(columns))
      ensures Value() == old(Value()).(columns := old(Value()).columns + [c])
    {
      ghost var live := indexes[..nindexes];
      ghost var vals := IndexVals(live);
      NotIndexArrays2(columns, live);
      NotTheVariable(this, live);
      var grown := Append(columns, ncolumns, c);
      assert indexes[..nindexes] == live && IndexVals(live) == vals;
      SetColumns(grown, ncolumns + 1);
    }

    method RemoveColumn(n: nat)
      requires Valid() && n < ncolumns
      modifies this, Arrays()
      ensures Valid() && Arrays() == old(Arrays())
      ensures Value() == old(Value()).(columns := Without(old(Value()).columns, n))
    {
      NotIndexArrays2(columns, indexes[..nindexes]);
      Remove(columns, ncolumns, n);
      ncolumns := ncolumns - 1;
    }

    method SetColumn(n: nat, c: Column)
      requires Valid() && n < ncolumns
      modifies this, Arrays()
      ensures Valid() && Arrays() == old(Arrays())
      ensures Value() == old(Value()).(columns := old(Value()).columns[n := c])
    {
      NotIndexArrays2(columns, indexes[..nindexes]);
      columns[n] := c;
    }

    method GrowIndexes(i: IndexH) returns (grown: array<IndexH>)
      requires Valid() && FitsH(i)
      modifies indexes
      ensures grown == indexes || fresh(grown)
      ensures nindexes < grown.Length && grown[..nindexes + 1] == old(indexes[..nindexes]) + [i]
      ensures columns[..ncolumns] == old(columns[..ncolumns]) && FitsH(i) && IndexVal(i) == old(IndexVal(i))
      ensures IndexVals(old(indexes[..nindexes])) == old(IndexVals(indexes[..nindexes]))
    {
      ghost var live, names := indexes[..nindexes], columns[..ncolumns];
      NotIndexArrays(indexes, live);
      NotIndexArrays(indexes, [i]);
      assert [i][0] == i;
      grown := Append(indexes, nindexes, i);
    }

    /** The appended record brings its arrays with it: they are shared with whoever made it. */
    method PushIndex(i: IndexH)
      requires Valid() && FitsH(i)
      requires i.columns !in ColumnArrays(indexes[..nindexes]) && i.prefixes !in PrefixArrays(indexes[..nindexes])
      modifies this, Arrays()
      ensures Valid() && Arrays() <= old(Arrays()) + {indexes as object, i.columns as object, i.prefixes as object}
      ensures indexes == old(indexes) || fresh(indexes)
      ensures Value() == old(Value()).(indexes := old(Value()).indexes + [old(IndexVal(i))])
    {
      ghost var live := indexes[..nindexes];
      IndexJoins(live, i);
      var grown := GrowIndexes(i);
      AddVal(live, i);
      SetIndexes(grown, nindexes + 1, live + [i]);
    }

    method ShiftIndexes(n: nat)
      requires Valid() && n < nindexes
      modifies indexes
      ensures indexes[..nindexes - 1] == Without(old(indexes[..nindexes]), n)
      ensures columns[..ncolumns] == old(columns[..ncolumns])
      ensures IndexVals(old(indexes[..nindexes])) == old(IndexVals(indexes[..nindexes]))
    {
      NotIndexArrays(indexes, indexes[..nindexes]);
      Remove(indexes, nindexes, n);
    }

    method RemoveIndex(n: nat)
      requires Valid() && n < nindexes
      modifies this, Arrays()
      ensures Valid() && Arrays() <= old(Arrays())
      ensures Value() == old(Value()).(indexes := Without(old(Value()).indexes, n))
    {
      ghost var live := indexes[..nindexes];
      ShiftIndexes(n);
      WithoutIndexes(live, n);
      SetIndexes(indexes, nindexes - 1, Without(live, n));
    }

    method SetIndexName(n: nat, name: string)
      requires Valid() && n < nindexes
      modifies this, Arrays()
      ensures Valid() && Arrays() == old(Arrays())
      ensures Value() == old(Value()).(indexes := old(Value()).indexes[n := old(Value()).indexes[n].(name := name)])
    {
      ghost var live := indexes[..nindexes];
      NotIndexArrays(indexes, live);
      ghost var vals := IndexVals(live);
      var named := indexes[n].(shape := indexes[n].shape.(name := name));
      indexes[n] := named;
      assert IndexVals(live) == vals;
      RenamedIndex(live, n, named);
      assert indexes[..nindexes] == live[n := named];
    }

    method RenameInAll(from: string, to: string)
      requires Valid()
      modifies this, Arrays()
      ensures Valid() && Arrays() == old(Arrays())
      ensures Value() == old(Value()).(indexes := RenameInIndexes(old(Value()).indexes, from, to))
    {
      NotIndexArrays2(columns, indexes[..nindexes]);
      NotIndexArrays(indexes, indexes[..nindexes]);
      RenameEverywhere(indexes, nindexes, from, to);
    }

    method DropFromAll(column: string)
      requires Valid()
      modifies this, Arrays()
      ensures Valid() && Arrays() <= old(Arrays())
      ensures Value() == old(Value()).(indexes := DropFromIndexes(old(Value()).indexes, column))
    {
      ghost var live, names := indexes[..nindexes], columns[..ncolumns];
      NotIndexArrays2(columns, live);
      NotTheVariable(this, live);
      var kept := DropEverywhere(indexes, nindexes, column);
      assert columns[..ncolumns] == names;
      ghost var now := indexes[..kept];
      ghost var done := IndexVals(now);
      NotTheVariable(this, now);
      nindexes := kept;
      assert IndexVals(now) == done && indexes[..nindexes] == now;
    }

    // ---------------------------------------------------------------- the operations of applyTableDDL

    method AddAll(specs: seq<ColumnSpec>) returns (ok: bool)
      requires Valid()
      modifies this, Arrays()
      ensures Valid() && forall o :: o in Arrays() ==> o in old(Arrays()) || fresh(o)
      ensures ok == AddColumnList(old(Value()), specs).Some?
      ensures ok ==> Value() == AddColumnList(old(Value()), specs).value
    {
      for k := 0 to |specs|
        invariant Valid() && forall o :: o in Arrays() ==> o in old(Arrays()) || fresh(o)
        invariant AddColumnList(Value(), specs[k..]) == AddColumnList(old(Value()), specs)
      {
        assert specs[k..][0] == specs[k] && specs[k..][1..] == specs[k + 1..];
        if FindColumn(columns[..ncolumns], specs[k].name) >= 0 {
          return false;
        }
        PushColumn(ColumnFromSpec(specs[k]));
      }
      return true;
    }

    method DropNamed(name: string) returns (ok: bool)
      requires Valid()
      modifies this, Arrays()
      ensures Valid() && Arrays() <= old(Arrays())
      ensures ok == ApplyOp(old(Value()), DropColumn(name)).Some?
      ensures ok ==> Value() == ApplyOp(old(Value()), DropColumn(name)).value
    {
      var n := FindColumn(columns[..ncolumns], name);
      if n < 0 {
        return false;
      }
      RemoveColumn(n);
      DropFromAll(name);
      return true;
    }

    /** CHANGE and RENAME COLUMN: give column n another definition and rename it in the indexes. */
    method Redefine(n: nat, c: Column, from: string)
      requires Valid() && n < ncolumns
      modifies this, Arrays()
      ensures Valid() && Arrays() == old(Arrays())
      ensures Value() == old(Value()).(columns := old(Value()).columns[n := c],
                                       indexes := RenameInIndexes(old(Value()).indexes, from, c.name))
    {
      SetColumn(n, c);
      RenameInAll(from, c.name);
    }

    method ApplyColumnOp(op: AlterOp) returns (ok: bool)
      requires Valid() && (op.ModifyColumn? || op.ChangeColumn? || op.RenameColumn?)
      modifies this, Arrays()
      ensures Valid() && Arrays() == old(Arrays())
      ensures ok == ApplyOp(old(Value()), op).Some?
      ensures ok ==> Value() == ApplyOp(old(Value()), op).value
    {
      if !op.RenameColumn? && |op.columns| != 1 {
        return false;
      }
      var name := if op.ModifyColumn? then op.columns[0].name else op.name;
      var n := FindColumn(columns[..ncolumns], name);
      if n < 0 || (op.RenameColumn? && FindColumn(columns[..ncolumns], op.newName) >= 0) {
        return false;
      }
      match op {
        case ModifyColumn(specs) => SetColumn(n, MergeColumnSpec(columns[n], specs[0]));
        case ChangeColumn(_, specs) => Redefine(n, MergeColumnSpec(columns[n], specs[0]), columns[n].name);
        case RenameColumn(_, newName) => Redefine(n, columns[n].(name := newName), name);
      }
      return true;
    }

    method DropIndexNamed(name: string) returns (ok: bool)
      requires Valid()
      modifies this, Arrays()
      ensures Valid() && Arrays() <= old(Arrays())
      ensures ok == (FindIndex(old(Value().indexes), name) >= 0)
      ensures ok ==>
          Value() == old(Value()).(indexes := Without(old(Value()).indexes, FindIndex(old(Value().indexes), name)))
    {
      var n := LocateIndex(indexes[..nindexes], name);
      LocateIsFind(indexes[..nindexes], name);
      ok := n >= 0;
      if ok {
        RemoveIndex(n);
      }
    }

    method RenameIndexNamed(name: string, newName: string) returns (ok: bool)
      requires Valid()
      modifies this, Arrays()
      ensures Valid() && Arrays() <= old(Arrays())
      ensures ok == (FindIndex(old(Value().indexes), name) >= 0 && FindIndex(old(Value().indexes), newName) < 0)
      ensures ok ==> var v, n := old(Value()), FindIndex(old(Value().indexes), name);
                     Value() == v.(indexes := v.indexes[n := v.indexes[n].(name := newName)])
    {
      var n := LocateIndex(indexes[..nindexes], name);
      LocateIsFind(indexes[..nindexes], name);
      LocateIsFind(indexes[..nindexes], newName);
      ok := n >= 0 && LocateIndex(indexes[..nindexes], newName) < 0;
      if ok {
        SetIndexName(n, newName);
      }
    }

    /** ADD INDEX: the new record takes the column slice of the statement as it is. */
    method AddRecord(i: IndexH) returns (ok: bool)
      requires Valid() && FitsH(i)
      requires i.columns !in ColumnArrays(indexes[..nindexes]) && i.prefixes !in PrefixArrays(indexes[..nindexes])
      modifies this, Arrays()
      ensures Valid() && forall o :: o in Arrays() ==>
          o in old(Arrays()) || fresh(o) || o == i.columns || o == i.prefixes
      ensures ok == (FindIndex(old(Value().indexes), i.shape.name) < 0)
      ensures ok ==> Value() == old(Value()).(indexes := old(Value()).indexes + [old(IndexVal(i))])
    {
      LocateIsFind(indexes[..nindexes], i.shape.name);
      ok := LocateIndex(indexes[..nindexes], i.shape.name) < 0;
      if ok {
        PushIndex(i);
      }
    }

    method SetShape(t: Table)
      requires Valid()
      modifies this`shape
      ensures Valid() && Arrays() == old(Arrays())
      ensures Value() == t.(columns := old(Value()).columns, indexes := old(Value()).indexes)
    {
      NotTheVariable(this, indexes[..nindexes]);
      shape := t;
    }

    method ApplyShapeOp(op: AlterOp) returns (ok: bool)
      requires Valid() && (op.RenameTo? || op.TableOptions?)
      modifies this
      ensures Valid() && Arrays() == old(Arrays())
      ensures ok == ApplyOp(old(Value()), op).Some?
      ensures ok ==> Value() == ApplyOp(old(Value()), op).value
    {
      match op {
        case RenameTo(table) =>
          if table.None? {
            return false;
          }
          SetShape(shape.(schema := if table.value.schema == "" then shape.schema else table.value.schema,
                          name := table.value.name));
        case TableOptions(engine, characterSet, collation) =>
          SetShape(shape.(engine := if engine.Some? then engine.value else shape.engine,
                          characterSet := if characterSet.Some? then characterSet.value else shape.characterSet,
                          collation := if collation.Some? then collation.value else shape.collation));
      }
      return true;
    }

    /** One operation of the ALTER; `record` is the new index if it adds one. */
    method Apply(op: AlterOp, record: IndexH) returns (ok: bool)
      requires Valid() && FitsH(record)
      requires record.columns as object !in Arrays() && record.prefixes as object !in Arrays()
      requires op.AddIndex? && op.index.Some? ==> IndexVal(record) == NewIndex(op.index.value)
      modifies this, Arrays()
      ensures Valid()
      ensures forall o :: o in Arrays() ==>
          o in old(Arrays()) || fresh(o) || o == record.columns || o == record.prefixes
      ensures ok == ApplyOp(old(Value()), op).Some?
      ensures ok ==> Value() == ApplyOp(old(Value()), op).value
    {
      ghost var v := Value();
      match op {
        case AddColumns(specs) => ok := AddAll(specs);
        case DropColumn(name) => ok := DropNamed(name);
        case ModifyColumn(_) => ok := ApplyColumnOp(op);
        case ChangeColumn(_, _) => ok := ApplyColumnOp(op);
        case RenameColumn(_, _) => ok := ApplyColumnOp(op);
        case AddIndex(index) =>
          if index.None? {
            return false;
          }
          AddIndexOp(v, index.value);
          ok := AddRecord(record);
        case DropIndex(name) =>
          DropIndexOp(v, name);
          ok := DropIndexNamed(name);
        case RenameIndex(name, newName) =>
          RenameIndexOp(v, name, newName);
          ok := RenameIndexNamed(name, newName);
        case RenameTo(_) => ok := ApplyShapeOp(op);
        case TableOptions(_, _, _) => ok := ApplyShapeOp(op);
      }
    }

    /** From k on, the records keep the values they had, and the table has none of their arrays. */
    ghost predicate Reserved(records: seq<IndexH>, vals: seq<Index>, k: nat)
      requires Valid()
      reads this, indexes, ColumnArrays(records), PrefixArrays(records)
    {
      |vals| == |records| && IndexesFit(records)
      && forall j :: k <= j < |records| ==>
           records[j].columns as object !in Arrays() && records[j].prefixes as object !in Arrays()
               && IndexVal(records[j]) == vals[j]
    }

    /** One operation, which leaves the records of the later ones alone. */
    method ApplyNext(op: AlterOp, records: seq<IndexH>, k: nat, ghost vals: seq<Index>) returns (ok: bool)
      requires Valid() && k < |records| && Reserved(records, vals, k) && Unshared(records)
      requires op.AddIndex? && op.index.Some? ==> vals[k] == NewIndex(op.index.value)
      modifies this, Arrays()
      ensures Valid() && Reserved(records, vals, k + 1)
      ensures forall o :: o in Arrays() ==>
          o in old(Arrays()) || fresh(o) || o in ColumnArrays(records) || o in PrefixArrays(records)
      ensures ok == ApplyOp(old(Value()), op).Some?
      ensures ok ==> Value() == ApplyOp(old(Value()), op).value
    {
      assert records[k].columns in ColumnArrays(records) && records[k].prefixes in PrefixArrays(records);
      ok := Apply(op, records[k]);
      forall j | k < j < |records|
        ensures records[j].columns as object !in Arrays() && records[j].prefixes as object !in Arrays()
        ensures IndexVal(records[j]) == vals[j]
      {
        assert records[k].columns != records[j].columns && records[k].prefixes != records[j].prefixes;
      }
    }

    /** applyTableDDL on an ALTER: the operations in order, stopping at the first that is refused.
        `records[k]` is the index that operation k adds, if it adds one. */
    method Alter(ops: seq<AlterOp>, records: seq<IndexH>) returns (ok: bool)
      requires Valid() && Supplied(ops, records)
      requires ColumnArrays(records) !! Arrays() && PrefixArrays(records) !! Arrays()
      modifies this, Arrays(), ColumnArrays(records), PrefixArrays(records)
      ensures Valid()
      ensures forall o :: o in Arrays() ==>
          o in old(Arrays()) || fresh(o) || o in ColumnArrays(records) || o in PrefixArrays(records)
      ensures ok == ApplyOps(old(Value()), ops).Some?
      ensures ok ==> Value() == ApplyOps(old(Value()), ops).value
    {
      ghost var vals := IndexVals(records);
      assert ops[0..] == ops;
      for k := 0 to |ops|
        invariant Valid() && Reserved(records, vals, k) && ApplyOps(Value(), ops[k..]) == ApplyOps(old(Value()), ops)
        invariant forall o :: o in Arrays() ==>
            o in old(Arrays()) || fresh(o) || o in ColumnArrays(records) || o in PrefixArrays(records)
      {
        assert ops[k..][0] == ops[k] && ops[k..][1..] == ops[k + 1..];
        ok := ApplyNext(ops[k], records, k, vals);
        if !ok {
          return;
        }
      }
      assert ops[|ops|..] == [];
      ok := true;
    }
  }

  lemma NotTheVariable(t: TableVar, olds: seq<IndexH>)
    ensures t as object !in ColumnArrays(olds) && t as object !in PrefixArrays(olds)
  {
  }

  lemma OneArrays(i: IndexH)
    ensures ColumnArrays([i]) == {i.columns} && PrefixArrays([i]) == {i.prefixes}
  {
    assert [i][0] == i;
  }

  lemma IndexJoins(live: seq<IndexH>, i: IndexH)
    requires Unshared(live) && i.columns !in ColumnArrays(live) && i.prefixes !in PrefixArrays(live)
    ensures Unshared(live + [i]) && ColumnArrays(live + [i]) == ColumnArrays(live) + {i.columns}
    ensures PrefixArrays(live + [i]) == PrefixArrays(live) + {i.prefixes}
  {
    UnsharedSnoc(live, i);
    ArraysOfConcat(live, [i]);
    OneArrays(i);
  }

  lemma NotIndexArrays2(columns: array<Column>, olds: seq<IndexH>)
    ensures columns as object !in ColumnArrays(olds) && columns as object !in PrefixArrays(olds)
  {
  }

  lemma WithoutAt<T>(s: seq<T>, n: nat, k: nat)
    requires n < |s| && k < |s| - 1
    ensures Without(s, n)[k] == s[if k < n then k else k + 1]
  {
  }

  lemma WithoutArrays(live: seq<IndexH>, n: nat)
    requires n < |live|
    ensures ColumnArrays(Without(live, n)) <= ColumnArrays(live) && PrefixArrays(Without(live, n)) <= PrefixArrays(live)
  {
    var rest := Without(live, n);
    forall k | 0 <= k < |rest| ensures rest[k].columns in ColumnArrays(live) && rest[k].prefixes in PrefixArrays(live) {
      WithoutAt(live, n, k);
    }
  }

  lemma WithoutUnshared(live: seq<IndexH>, n: nat)
    requires n < |live| && IndexesFit(live) && Unshared(live)
    ensures IndexesFit(Without(live, n)) && Unshared(Without(live, n))
  {
    var rest := Without(live, n);
    forall k | 0 <= k < |rest| ensures FitsH(rest[k]) {
      WithoutAt(live, n, k);
    }
    forall j, k | 0 <= j < k < |rest| ensures rest[j].columns != rest[k].columns
        && rest[j].prefixes != rest[k].prefixes {
      WithoutAt(live, n, j);
      WithoutAt(live, n, k);
    }
  }

  lemma WithoutVals(live: seq<IndexH>, n: nat)
    requires n < |live| && IndexesFit(live) && IndexesFit(Without(live, n))
    ensures IndexVals(Without(live, n)) == Without(IndexVals(live), n)
  {
    var rest := Without(live, n);
    forall k | 0 <= k < |rest| ensures IndexVals(rest)[k] == Without(IndexVals(live), n)[k] {
      WithoutAt(live, n, k);
      WithoutAt(IndexVals(live), n, k);
    }
  }

  lemma WithoutIndexes(live: seq<IndexH>, n: nat)
    requires n < |live| && IndexesFit(live) && Unshared(live)
    ensures var rest := Without(live, n);
            IndexesFit(rest) && Unshared(rest) && IndexVals(rest) == Without(IndexVals(live), n)
            && ColumnArrays(rest) <= ColumnArrays(live) && PrefixArrays(rest) <= PrefixArrays(live)
  {
    WithoutArrays(live, n);
    WithoutUnshared(live, n);
    WithoutVals(live, n);
  }

  lemma RenamedIndex(live: seq<IndexH>, n: nat, named: IndexH)
    requires n < |live| && IndexesFit(live) && Unshared(live)
    requires named.columns == live[n].columns && named.prefixes == live[n].prefixes
    requires named.ncolumns == live[n].ncolumns && named.nprefixes == live[n].nprefixes
    ensures var now := live[n := named];
            IndexesFit(now) && Unshared(now) && IndexVals(now) == IndexVals(live)[n := IndexVal(named)]
            && ColumnArrays(now) == ColumnArrays(live) && PrefixArrays(now) == PrefixArrays(live)
  {
    var now := live[n := named];
    assert forall k :: 0 <= k < |now| ==> now[k].columns == live[k].columns && now[k].prefixes == live[k].prefixes;
    forall o | o in ColumnArrays(live) ensures o in ColumnArrays(now) {
      var k :| 0 <= k < |live| && live[k].columns == o;
      assert now[k].columns == o;
    }
    forall o | o in PrefixArrays(live) ensures o in PrefixArrays(now) {
      var k :| 0 <= k < |live| && live[k].prefixes == o;
      assert now[k].prefixes == o;
    }
  }

  /** The statement brings a record of its own for every index it adds. */
  ghost predicate Supplied(ops: seq<AlterOp>, records: seq<IndexH>)
    reads ColumnArrays(records), PrefixArrays(records)
  {
    |records| == |ops| && IndexesFit(records) && Unshared(records)
    && forall k :: 0 <= k < |ops| ==>
         ops[k].AddIndex? && ops[k].index.Some? ==> IndexVals(records)[k] == NewIndex(ops[k].index.value)
  }

  // ---------------------------------------------------------------- copies

  /** The copies made so far. */
  ghost predicate Copied(r: seq<IndexH>, vals: seq<Index>)
    reads ColumnArrays(r), PrefixArrays(r)
  {
    IndexesFit(r) && Unshared(r) && |r| <= |vals| && IndexVals(r) == vals[..|r|]
  }

  /** The loop of cloneTable. */
  method CloneIndexes(indexes: array<IndexH>, n: nat) returns (r: seq<IndexH>)
    requires n <= indexes.Length && IndexesFit(indexes[..n])
    ensures |r| == n && IndexesFit(r) && Unshared(r) && fresh(ColumnArrays(r)) && fresh(PrefixArrays(r))
    ensures IndexVals(r) == old(IndexVals(indexes[..n]))
  {
    r := [];
    ghost var live := indexes[..n];
    ghost var vals := IndexVals(live);
    for i := 0 to n
      invariant |r| == i && Copied(r, vals)
      invariant forall o :: o in ColumnArrays(r) ==> fresh(o)
      invariant forall o :: o in PrefixArrays(r) ==> fresh(o)
    {
      assert live[i] == indexes[i];
      assert IndexVal(live[i]) == vals[i];
      r := CloneNext(r, indexes[i], vals);
    }
    assert vals[..n] == vals;
  }

  method CloneNext(r: seq<IndexH>, index: IndexH, ghost vals: seq<Index>) returns (r': seq<IndexH>)
    requires |r| < |vals| && Copied(r, vals) && FitsH(index) && IndexVal(index) == vals[|r|]
    ensures |r'| == |r| + 1 && Copied(r', vals)
    ensures forall o :: o in ColumnArrays(r') ==> o in ColumnArrays(r) || fresh(o)
    ensures forall o :: o in PrefixArrays(r') ==> o in PrefixArrays(r) || fresh(o)
  {
    ghost var sofar := IndexVals(r);
    var one := CloneRecord(index);
    assert IndexVals(r) == sofar;
    UnsharedSnoc(r, one);
    AddVal(r, one);
    ArraysOfConcat(r, [one]);
    OneArrays(one);
    r' := r + [one];
    assert vals[..|r| + 1] == vals[..|r|] + [vals[|r|]];
  }

  method CloneRecord(index: IndexH) returns (r: IndexH)
    requires FitsH(index)
    ensures FitsH(r) && fresh(r.columns) && fresh(r.prefixes) && IndexVal(r) == old(IndexVal(index))
  {
    var names := Copy(index.columns, index.ncolumns);
    var lengths := Copy(index.prefixes, index.nprefixes);
    r := IndexH(index.shape, names, index.ncolumns, lengths, index.nprefixes);
    assert names[..index.ncolumns] == names[..] && lengths[..index.nprefixes] == lengths[..];
  }

  /** cloneTable: equal in value, and sharing no array. */
  method CloneTable(t: TableVar) returns (c: TableVar)
    requires t.Valid()
    ensures fresh(c) && c.Valid() && fresh(c.Arrays()) && c.Value() == old(t.Value())
  {
    var records := CloneIndexes(t.indexes, t.nindexes);
    c := Assemble(t, records);
  }

  method Assemble(t: TableVar, records: seq<IndexH>) returns (c: TableVar)
    requires t.Valid() && IndexesFit(records) && Unshared(records)
    ensures fresh(c) && c.Valid() && c.Value() == old(t.Value()).(indexes := old(IndexVals(records)))
    ensures forall o :: o in c.Arrays() ==> fresh(o) || o in ColumnArrays(records) || o in PrefixArrays(records)
  {
    ghost var vals := IndexVals(records);
    var columns := Copy(t.columns, t.ncolumns);
    var indexes := new IndexH[|records|](i requires 0 <= i < |records| => records[i]);
    assert columns[..t.ncolumns] == columns[..] && indexes[..|records|] == records && IndexVals(records) == vals;
    c := Wrap(t.shape, columns, t.ncolumns, indexes, |records|);
  }

  /** A variable over these slices. */
  method Wrap(shape: Table, columns: array<Column>, ncolumns: nat, indexes: array<IndexH>, nindexes: nat)
      returns (c: TableVar)
    requires ncolumns <= columns.Length && nindexes <= indexes.Length
    requires IndexesFit(indexes[..nindexes]) && Unshared(indexes[..nindexes])
    ensures fresh(c) && c.Valid() && c.columns == columns && c.indexes == indexes && c.nindexes == nindexes
    ensures c.indexes[..nindexes] == old(indexes[..nindexes])
    ensures c.Value() == shape.(columns := old(columns[..ncolumns]), indexes := old(IndexVals(indexes[..nindexes])))
  {
    ghost var live := indexes[..nindexes];
    ghost var vals := IndexVals(live);
    c := new TableVar(shape, columns, ncolumns, indexes, nindexes);
    assert c.indexes[..c.nindexes] == live && IndexVals(live) == vals;
  }

  // ---------------------------------------------------------------- all or nothing

  /** The ALTER branch of ApplyDDL between LoadTable and PutTable: copy the cached table, edit the
      copy in place, hand a copy of the result to the cache. The only objects that existed before
      and may be modified are the statement's own index slices. So an ALTER that fails at any
      operation, after any number of edits, leaves every cached table as it was; and the table put
      into the cache shares no array with the statement or with any table already there. */
  method AlterCached(cached: TableVar, ops: seq<AlterOp>, records: seq<IndexH>) returns (r: Option<TableVar>)
    requires cached.Valid() && Supplied(ops, records)
    modifies ColumnArrays(records), PrefixArrays(records)
    ensures r.Some? == ApplyOps(old(cached.Value()), ops).Some?
    ensures r.Some? ==> fresh(r.value) && r.value.Valid() && fresh(r.value.Arrays())
    ensures r.Some? ==> r.value.Value() == ApplyOps(old(cached.Value()), ops).value
  {
    var t := CloneTable(cached);
    var ok := t.Alter(ops, records);
    if !ok {
      return None;
    }
    var c := CloneTable(t);
    return Some(c);
  }

  /** A table whose variable and arrays are as before has the value it had. */
  twostate lemma Untouched(t: TableVar)
    requires old(t.Valid()) && unchanged(t) && unchanged(old(t.Arrays()))
    ensures t.Valid() && t.Value() == old(t.Value())
  {
    assert t.indexes[..t.nindexes] == old(t.indexes[..t.nindexes]);
  }

  /** AlterCached, and the other tables of the cache. */
  method AlterBeside(cached: TableVar, others: set<TableVar>, ops: seq<AlterOp>, records: seq<IndexH>)
      returns (r: Option<TableVar>)
    requires cached.Valid() && Supplied(ops, records)
    requires forall t :: t in others ==> t.Valid() && t.Arrays() !! ColumnArrays(records) + PrefixArrays(records)
    modifies ColumnArrays(records), PrefixArrays(records)
    ensures r.Some? == ApplyOps(old(cached.Value()), ops).Some?
    ensures r.Some? ==> fresh(r.value) && r.value.Valid() && fresh(r.value.Arrays())
    ensures r.Some? ==> r.value.Value() == ApplyOps(old(cached.Value()), ops).value
    ensures forall t :: t in others ==> t.Valid() && t.Value() == old(t.Value())
  {
    r := AlterCached(cached, ops, records);
    forall t | t in others ensures t.Valid() && t.Value() == old(t.Value()) {
      NotTheVariable(t, records);
      Untouched(t);
    }
  }

  /** Seen from the cache: whatever the ALTER does, every table in the cache still loads with the
      value it had. On success the result is put under the key of its name; if the name has changed, the
      key of the old name is deleted first. */
  method AlterInCache(cache: map<string, TableVar>, key: (string, string) -> string, k: string,
                      ops: seq<AlterOp>, records: seq<IndexH>)
    returns (ok: bool, cache': map<string, TableVar>)
    requires k in cache && Supplied(ops, records)
    requires forall j :: j in cache ==>
        cache[j].Valid() && cache[j].Arrays() !! ColumnArrays(records) + PrefixArrays(records)
    modifies ColumnArrays(records), PrefixArrays(records)
    ensures forall j :: j in cache ==> cache[j].Valid() && cache[j].Value() == old(cache[j].Value())
    ensures ok == ApplyOps(old(cache[k].Value()), ops).Some?
    ensures !ok ==> cache' == cache
    ensures ok ==> var t, u := old(cache[k].Value()), ApplyOps(old(cache[k].Value()), ops).value;
                   var renamed := t.schema != u.schema || t.name != u.name;
                   var k' := key(u.schema, u.name);
                   k' in cache' && cache'[k'].Valid() && fresh(cache'[k'].Arrays()) && cache'[k'].Value() == u
                   && cache' == (if renamed then cache - {key(t.schema, t.name)} else cache)[k' := cache'[k']]
  {
    var before := cache[k].shape;
    var r := AlterBeside(cache[k], cache.Values, ops, records);
    ok := r.Some?;
    cache' := cache;
    if ok {
      var after := r.value.shape;
      if before.schema != after.schema || before.name != after.name {
        cache' := cache' - {key(before.schema, before.name)};
      }
      cache' := cache'[key(after.schema, after.name) := r.value];
    }
  }
}
