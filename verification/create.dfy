/** CREATE TABLE: the structural checks of internal/audit/rules/ddl_safety.go and the table that
    tableFromSpec in internal/metadata/snapshot.go puts into the snapshot. */
module Create {
  import opened Text
  import opened Catalog
  import opened Seqs
  import opened Snapshot

  datatype CreateSpec = CreateSpec(
    schema: string, table: string, engine: string, characterSet: string, collation: string,
    columns: seq<ColumnSpec>, indexes: seq<IndexSpec>)

  // ---------------------------------------------------------------- the structural checks

  predicate DistinctSpecs(columns: seq<ColumnSpec>) {
    forall i, j :: 0 <= i < j < |columns| ==> !EqualFold(columns[i].name, columns[j].name)
  }

  predicate DistinctIndexSpecs(indexes: seq<IndexSpec>) {
    forall i, j :: 0 <= i < j < |indexes| ==> !EqualFold(indexes[i].name, indexes[j].name)
  }

  predicate Named(columns: seq<ColumnSpec>, name: string) {
    exists i :: 0 <= i < |columns| && EqualFold(columns[i].name, name)
  }

  predicate AllNamed(columns: seq<ColumnSpec>, names: seq<string>) {
    forall k :: 0 <= k < |names| ==> Named(columns, names[k])
  }

  /** The loop over the columns; `keys` is the set it builds. */
  method CheckColumns(columns: seq<ColumnSpec>) returns (duplicates: nat, keys: set<string>)
    ensures duplicates == 0 <==> DistinctSpecs(columns)
    ensures forall key :: key in keys <==> exists j :: 0 <= j < |columns| && Fold(columns[j].name) == key
  {
    duplicates, keys := 0, {};
    for i := 0 to |columns|
      invariant forall key :: key in keys <==> exists j :: 0 <= j < i && Fold(columns[j].name) == key
      invariant duplicates == 0 <==> DistinctSpecs(columns[..i])
    {
      var key := Fold(columns[i].name);
      var seen := columns[..i + 1];
      assert forall j :: 0 <= j < i ==> seen[j] == columns[..i][j];
      if key in keys {
        duplicates := duplicates + 1;
        var j :| 0 <= j < i && Fold(columns[j].name) == key;
        assert seen[j] == columns[j] && seen[i] == columns[i];
      }
      assert DistinctSpecs(seen) ==> DistinctSpecs(columns[..i]);
      keys := keys + {key};
    }
    assert columns[..|columns|] == columns;
  }

  /** The duplicate test of the loop over the indexes. */
  method CheckIndexNames(indexes: seq<IndexSpec>) returns (duplicates: nat)
    ensures duplicates == 0 <==> DistinctIndexSpecs(indexes)
  {
    duplicates := 0;
    var keys: set<string> := {};
    for i := 0 to |indexes|
      invariant forall key :: key in keys <==> exists j :: 0 <= j < i && Fold(indexes[j].name) == key
      invariant duplicates == 0 <==> DistinctIndexSpecs(indexes[..i])
    {
      var key := Fold(indexes[i].name);
      var seen := indexes[..i + 1];
      assert forall j :: 0 <= j < i ==> seen[j] == indexes[..i][j];
      if key in keys {
        duplicates := duplicates + 1;
        var j :| 0 <= j < i && Fold(indexes[j].name) == key;
        assert seen[j] == indexes[j] && seen[i] == indexes[i];
      }
      assert DistinctIndexSpecs(seen) ==> DistinctIndexSpecs(indexes[..i]);
      keys := keys + {key};
    }
    assert indexes[..|indexes|] == indexes;
  }

  /** DDLSafety.Check on CREATE TABLE: how many issues of each kind it reports. None of a kind is
      reported exactly when the specification is free of that fault. */
  method CheckCreate(d: CreateSpec) returns (duplicateColumns: nat, duplicateIndexes: nat, missingColumns: nat)
    ensures duplicateColumns == 0 <==> DistinctSpecs(d.columns)
    ensures duplicateIndexes == 0 <==> DistinctIndexSpecs(d.indexes)
    ensures missingColumns == 0 <==> forall i :: 0 <= i < |d.indexes| ==> AllNamed(d.columns, d.indexes[i].columns)
  {
    var columns;
    duplicateColumns, columns := CheckColumns(d.columns);
    duplicateIndexes := CheckIndexNames(d.indexes);
    missingColumns := 0;
    for i := 0 to |d.indexes|
      invariant missingColumns == 0 <==> forall j :: 0 <= j < i ==> AllNamed(d.columns, d.indexes[j].columns)
    {
      var missing := MissingIn(d.columns, columns, d.indexes[i].columns);
      missingColumns := missingColumns + missing;
    }
  }

  /** The inner loop: columns of one index that the table does not have. */
  method MissingIn(columns: seq<ColumnSpec>, keys: set<string>, names: seq<string>) returns (missing: nat)
    requires forall key :: key in keys <==> exists j :: 0 <= j < |columns| && Fold(columns[j].name) == key
    ensures missing == 0 <==> AllNamed(columns, names)
  {
    missing := 0;
    for k := 0 to |names|
      invariant missing == 0 <==> AllNamed(columns, names[..k])
    {
      assert names[..k + 1] == names[..k] + [names[k]];
      assert Named(columns, names[k]) <==> Fold(names[k]) in keys;
      assert AllNamed(columns, names[..k + 1]) <==> AllNamed(columns, names[..k]) && Named(columns, names[k]) by {
        assert forall j :: 0 <= j < k ==> names[..k + 1][j] == names[..k][j];
        assert names[..k + 1][k] == names[k];
      }
      if Fold(names[k]) !in keys {
        missing := missing + 1;
      }
    }
    assert names[..|names|] == names;
  }

  // ---------------------------------------------------------------- the table

  function NewColumn(c: ColumnSpec): Column {
    Column(c.name, c.columnType, c.nullable, None, "", c.characterSet, "", "", "", c.autoIncrement, c.unsigned)
  }

  function PrimaryOn(column: string): Index {
    Index("PRIMARY", [column], true, true, [], [], [], "", true)
  }

  /** The index of the first column declared PRIMARY KEY inline. */
  function InlineKey(columns: seq<ColumnSpec>): seq<Index> {
    if columns == [] then []
    else if columns[0].primaryKey then [PrimaryOn(columns[0].name)]
    else InlineKey(columns[1..])
  }

  function IndexFromSpec(i: IndexSpec): Index {
    Index(i.name, i.columns, i.unique, i.primary, i.prefixLengths, i.expressions, [], "", true)
  }

  /** An index replaces the one of the same name, or is added. */
  function Upsert(indexes: seq<Index>, i: Index): seq<Index> {
    var n := FindIndex(indexes, i.name);
    if n >= 0 then indexes[n := i] else indexes + [i]
  }

  function UpsertAll(indexes: seq<Index>, specs: seq<IndexSpec>): seq<Index>
    decreases |specs|
  {
    if specs == [] then indexes else UpsertAll(Upsert(indexes, IndexFromSpec(specs[0])), specs[1..])
  }

  function FromSpec(d: CreateSpec): Table {
    Table(d.schema, d.table, "", Map(NewColumn, d.columns), UpsertAll(InlineKey(d.columns), d.indexes),
          false, d.characterSet, d.collation, d.engine, "", "", 0)
  }

  lemma {:induction false} InlineKeySnoc(columns: seq<ColumnSpec>, c: ColumnSpec)
    ensures InlineKey(columns + [c])
         == if InlineKey(columns) != [] then InlineKey(columns) else if c.primaryKey then [PrimaryOn(c.name)] else []
  {
    if columns != [] {
      assert (columns + [c])[1..] == columns[1..] + [c];
      InlineKeySnoc(columns[1..], c);
    } else {
      assert columns + [c] == [c] && [c][1..] == [];
    }
  }

  lemma InlineKeyIsPrimary(columns: seq<ColumnSpec>)
    ensures InlineKey(columns) == [] || (|InlineKey(columns)| == 1 && InlineKey(columns)[0].name == "PRIMARY")
  {
  }

  /** tableFromSpec */
  method TableFromSpec(d: CreateSpec) returns (t: Table)
    ensures t == FromSpec(d)
  {
    t := Table(d.schema, d.table, "", [], [], false, d.characterSet, d.collation, d.engine, "", "", 0);
    for i := 0 to |d.columns|
      invariant t == Table(d.schema, d.table, "", Map(NewColumn, d.columns[..i]), InlineKey(d.columns[..i]),
                           false, d.characterSet, d.collation, d.engine, "", "", 0)
    {
      var c := d.columns[i];
      assert d.columns[..i + 1] == d.columns[..i] + [c];
      InlineKeySnoc(d.columns[..i], c);
      InlineKeyIsPrimary(d.columns[..i]);
      t := t.(columns := t.columns + [NewColumn(c)]);
      if c.primaryKey && FindIndex(t.indexes, "PRIMARY") < 0 {
        t := t.(indexes := t.indexes + [PrimaryOn(c.name)]);
      }
    }
    assert d.columns[..|d.columns|] == d.columns;
    for i := 0 to |d.indexes|
      invariant t == FromSpec(d).(indexes := t.indexes)
      invariant UpsertAll(t.indexes, d.indexes[i..]) == FromSpec(d).indexes
    {
      var index := IndexFromSpec(d.indexes[i]);
      assert d.indexes[i..][1..] == d.indexes[i + 1..];
      var position := FindIndex(t.indexes, index.name);
      if position >= 0 {
        t := t.(indexes := t.indexes[position := index]);
      } else {
        t := t.(indexes := t.indexes + [index]);
      }
    }
  }

  // ---------------------------------------------------------------- what CREATE guarantees

  lemma {:induction false} UpsertKeeps(columns: seq<Column>, indexes: seq<Index>, specs: seq<IndexSpec>)
    requires DistinctIndexes(indexes)
    ensures DistinctIndexes(UpsertAll(indexes, specs))
    ensures (forall i :: 0 <= i < |indexes| ==> Present(columns, indexes[i].columns))
            && (forall i :: 0 <= i < |specs| ==> Present(columns, specs[i].columns))
            ==> forall i :: 0 <= i < |UpsertAll(indexes, specs)| ==>
                Present(columns, UpsertAll(indexes, specs)[i].columns)
    decreases |specs|
  {
    if specs != [] {
      UpsertKeeps(columns, Upsert(indexes, IndexFromSpec(specs[0])), specs[1..]);
      assert forall i :: 1 <= i < |specs| ==> specs[i] == specs[1..][i - 1];
    }
  }

  lemma NamedIsPresent(columns: seq<ColumnSpec>, names: seq<string>)
    requires AllNamed(columns, names)
    ensures Present(Map(NewColumn, columns), names)
  {
    var made := Map(NewColumn, columns);
    forall k | 0 <= k < |names| ensures FindColumn(made, names[k]) >= 0 {
      var i :| 0 <= i < |columns| && EqualFold(columns[i].name, names[k]);
      assert made[i].name == columns[i].name;
    }
  }

  lemma {:induction false} InlineKeyNamed(columns: seq<ColumnSpec>)
    ensures InlineKey(columns) != [] ==> AllNamed(columns, InlineKey(columns)[0].columns)
  {
    if columns != [] && !columns[0].primaryKey {
      InlineKeyNamed(columns[1..]);
      if InlineKey(columns) != [] {
        var names := InlineKey(columns)[0].columns;
        forall k | 0 <= k < |names| ensures Named(columns, names[k]) {
          var i :| 0 <= i < |columns[1..]| && EqualFold(columns[1..][i].name, names[k]);
          assert columns[i + 1] == columns[1..][i];
        }
      }
    } else if columns != [] {
      assert EqualFold(columns[0].name, columns[0].name);
    }
  }

  /** Index names are distinct in every created table; a table whose CREATE passed the duplicate
      column and missing column checks is well-formed. */
  lemma CreatedTable(d: CreateSpec)
    ensures DistinctIndexes(FromSpec(d).indexes)
    ensures DistinctSpecs(d.columns) && (forall i :: 0 <= i < |d.indexes| ==> AllNamed(d.columns, d.indexes[i].columns))
            ==> WellFormed(FromSpec(d))
  {
    var columns := Map(NewColumn, d.columns);
    InlineKeyIsPrimary(d.columns);
    UpsertKeeps(columns, InlineKey(d.columns), d.indexes);
    if DistinctSpecs(d.columns) && (forall i :: 0 <= i < |d.indexes| ==> AllNamed(d.columns, d.indexes[i].columns)) {
      InlineKeyNamed(d.columns);
      if InlineKey(d.columns) != [] {
        NamedIsPresent(d.columns, InlineKey(d.columns)[0].columns);
      }
      forall i | 0 <= i < |d.indexes| ensures Present(columns, d.indexes[i].columns) {
        NamedIsPresent(d.columns, d.indexes[i].columns);
      }
    }
  }

  // ---------------------------------------------------------------- CREATE TABLE ... LIKE

  function SpecOfColumn(c: Column): ColumnSpec {
    ColumnSpec(c.name, c.columnType, c.nullable, c.comment != "", false, c.autoIncrement, c.unsigned,
               c.default.Some? || c.nullable, c.generationExpression != "", c.characterSet, "",
               if c.default.Some? then c.default.value else if c.nullable then "null" else "", false)
  }

  function SpecOfIndex(i: Index): IndexSpec {
    IndexSpec(i.name, i.columns, i.unique, i.primary, i.prefixLengths, i.expressions)
  }

  /** What PrepareDDL fills in from the referenced table. */
  function LikeSpec(d: CreateSpec, t: Table): CreateSpec {
    d.(columns := Map(SpecOfColumn, t.columns), indexes := Map(SpecOfIndex, t.indexes))
  }

  lemma {:induction false} NoInlineKey(columns: seq<Column>)
    ensures InlineKey(Map(SpecOfColumn, columns)) == []
  {
    if columns != [] {
      assert Map(SpecOfColumn, columns)[1..] == Map(SpecOfColumn, columns[1..]);
      NoInlineKey(columns[1..]);
    }
  }

  lemma {:induction false} UpsertFresh(indexes: seq<Index>, specs: seq<IndexSpec>)
    requires DistinctIndexes(indexes + Map(IndexFromSpec, specs))
    ensures UpsertAll(indexes, specs) == indexes + Map(IndexFromSpec, specs)
    decreases |specs|
  {
    var all := indexes + Map(IndexFromSpec, specs);
    if specs == [] {
      assert all == indexes;
    } else {
      var first := IndexFromSpec(specs[0]);
      assert all[|indexes|] == first;
      assert forall i :: 0 <= i < |indexes| ==> all[i] == indexes[i];
      assert FindIndex(indexes, first.name) < 0;
      assert all == indexes + [first] + Map(IndexFromSpec, specs[1..]);
      UpsertFresh(indexes + [first], specs[1..]);
    }
  }

  lemma LikeIndexes(t: Table)
    requires DistinctIndexes(t.indexes)
    ensures UpsertAll([], Map(SpecOfIndex, t.indexes)) == Map(IndexFromSpec, Map(SpecOfIndex, t.indexes))
  {
    var specs := Map(SpecOfIndex, t.indexes);
    var made := Map(IndexFromSpec, specs);
    assert forall i :: 0 <= i < |made| ==> made[i].name == t.indexes[i].name;
    assert [] + made == made;
    UpsertFresh([], specs);
  }

  /** What CREATE ... LIKE keeps of a column; defaults, comments and generation expressions are not kept. */
  predicate SameColumn(u: Column, t: Column) {
    u.name == t.name && u.columnType == t.columnType && u.nullable == t.nullable && u.characterSet == t.characterSet
    && u.autoIncrement == t.autoIncrement && u.unsigned == t.unsigned
  }

  /** What it keeps of an index. */
  predicate SameIndex(u: Index, t: Index) {
    u.name == t.name && u.columns == t.columns && u.unique == t.unique && u.primary == t.primary
    && u.prefixLengths == t.prefixLengths && u.expressions == t.expressions && u.visible
  }

  /** The copy has the columns and the indexes of the original. */
  lemma LikeCopies(d: CreateSpec, t: Table)
    requires DistinctIndexes(t.indexes)
    ensures var u := FromSpec(LikeSpec(d, t));
            |u.columns| == |t.columns| && |u.indexes| == |t.indexes|
            && (forall i :: 0 <= i < |t.columns| ==>
                  SameColumn(u.columns[i], t.columns[i]))
            && (forall i :: 0 <= i < |t.indexes| ==> SameIndex(u.indexes[i], t.indexes[i]))
  {
    var u := FromSpec(LikeSpec(d, t));
    NoInlineKey(t.columns);
    LikeIndexes(t);
    forall i | 0 <= i < |t.columns| ensures SameColumn(u.columns[i], t.columns[i]) {
      assert u.columns[i] == NewColumn(SpecOfColumn(t.columns[i]));
    }
    forall i | 0 <= i < |t.indexes| ensures SameIndex(u.indexes[i], t.indexes[i]) {
      assert u.indexes[i] == IndexFromSpec(SpecOfIndex(t.indexes[i]));
    }
  }

  /** The copy of a well-formed table is well-formed. */
  lemma LikeWellFormed(d: CreateSpec, t: Table)
    requires WellFormed(t)
    ensures WellFormed(FromSpec(LikeSpec(d, t)))
  {
    var u := FromSpec(LikeSpec(d, t));
    LikeCopies(d, t);
    forall i | 0 <= i < |t.columns| ensures FindColumn(u.columns, t.columns[i].name) >= 0 {
      assert EqualFold(u.columns[i].name, t.columns[i].name);
    }
    forall i | 0 <= i < |u.indexes| ensures Present(u.columns, u.indexes[i].columns) {
      assert SameIndex(u.indexes[i], t.indexes[i]);
      StillPresent(u.columns, t.columns, t.indexes[i].columns);
    }
    assert forall i :: 0 <= i < |u.indexes| ==> SameIndex(u.indexes[i], t.indexes[i]);
  }
}
