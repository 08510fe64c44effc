/** Table metadata as the audit keeps it (internal/audit/audit.go), with the look-ups by
    name that ignore letter case. */
module Catalog {
  import opened Text

  datatype Option<+T> = None | Some(value: T)

  datatype Column = Column(
    name: string, columnType: string, nullable: bool, default: Option<string>, extra: string,
    characterSet: string, collation: string, comment: string, generationExpression: string,
    autoIncrement: bool, unsigned: bool)

  datatype Index = Index(
    name: string, columns: seq<string>, unique: bool, primary: bool, prefixLengths: seq<int>,
    expressions: seq<string>, directions: seq<string>, indexType: string, visible: bool)

  datatype Table = Table(
    schema: string, name: string, createSQL: string, columns: seq<Column>, indexes: seq<Index>,
    isView: bool, characterSet: string, collation: string, engine: string, tableType: string,
    comment: string, rows: nat)

  /** The first element with this name, up to letter case, or -1. */
  function FindFirst<T>(s: seq<T>, named: T -> string, name: string): (n: int)
    ensures -1 <= n < |s|
    ensures n >= 0 ==> EqualFold(named(s[n]), name)
    ensures forall i :: 0 <= i < (if n < 0 then |s| else n) ==> !EqualFold(named(s[i]), name)
  {
    if s == [] then -1
    else if EqualFold(named(s[0]), name) then 0
    else
      var n := FindFirst(s[1..], named, name);
      assert forall i :: 1 <= i < |s| ==> s[i] == s[1..][i - 1];
      if n < 0 then -1 else n + 1
  }

  /** findColumn */
  function FindColumn(columns: seq<Column>, name: string): (n: int)
    ensures -1 <= n < |columns|
    ensures n >= 0 ==> EqualFold(columns[n].name, name)
    ensures forall i :: 0 <= i < (if n < 0 then |columns| else n) ==> !EqualFold(columns[i].name, name)
  {
    FindFirst(columns, (c: Column) => c.name, name)
  }

  /** findIndex */
  function FindIndex(indexes: seq<Index>, name: string): (n: int)
    ensures -1 <= n < |indexes|
    ensures n >= 0 ==> EqualFold(indexes[n].name, name)
    ensures forall i :: 0 <= i < (if n < 0 then |indexes| else n) ==> !EqualFold(indexes[i].name, name)
  {
    FindFirst(indexes, (i: Index) => i.name, name)
  }

  /** Every name is that of a column. */
  predicate Present(columns: seq<Column>, names: seq<string>) {
    forall k :: 0 <= k < |names| ==> FindColumn(columns, names[k]) >= 0
  }

  predicate DistinctColumns(columns: seq<Column>) {
    forall i, j :: 0 <= i < j < |columns| ==> !EqualFold(columns[i].name, columns[j].name)
  }

  predicate DistinctIndexes(indexes: seq<Index>) {
    forall i, j :: 0 <= i < j < |indexes| ==> !EqualFold(indexes[i].name, indexes[j].name)
  }
}
