/** The request cache (internal/metadata/cache.go) used by one caller at a time, as the session
    uses it, and the DDL simulation that runs on it (internal/metadata/snapshot.go). What it
    shows is a plain map: the source schema overlaid with what has been put and deleted. The
    interleavings of several callers are the subject of `SingleFlight`. */
module Provider {
  import opened Text
  import opened Catalog
  import opened Seqs
  import opened Snapshot
  import opened Create
  import opened Views

  // ---------------------------------------------------------------- keys

  predicate NulFree(s: string) { '\0' !in s }

  /** The string under which a table is cached. */
  function TableKey(n: Name): string { "table:" + n.0 + "\0" + n.1 }

  function SchemaKey(schema: string): string { "schema:" + schema }

  /** Names whose schemas hold no NUL byte have distinct keys, so the maps may be thought of as keyed by names. */
  lemma TableKeyInjective(a: Name, b: Name)
    requires NulFree(a.0) && NulFree(b.0) && TableKey(a) == TableKey(b)
    ensures a == b
  {
    var x, y := a.0 + "\0" + a.1, b.0 + "\0" + b.1;
    assert TableKey(a) == "table:" + x && TableKey(b) == "table:" + y;
    assert x == ("table:" + x)[6..] && y == ("table:" + y)[6..];
    assert x[|a.0|] == '\0' && y[|b.0|] == '\0';
    assert |a.0| == |b.0| by {
      assert forall i :: 0 <= i < |b.0| ==> y[i] == b.0[i];
      assert forall i :: 0 <= i < |a.0| ==> x[i] == a.0[i];
    }
    assert a.0 == x[..|a.0|] && b.0 == y[..|b.0|];
    assert a.1 == x[|a.0| + 1..] && b.1 == y[|b.0| + 1..];
  }

  /** The name that is cut at the NUL byte at place i of schema + NUL + table. */
  function CutAt(n: Name, i: nat): Name
    requires i <= |n.0| + 1 + |n.1|
  {
    var s := n.0 + "\0" + n.1;
    (s[..i], if i < |s| then s[i + 1..] else [])
  }

  lemma CutKeepsKey(n: Name, i: nat)
    requires i < |n.0| + 1 + |n.1| && (n.0 + "\0" + n.1)[i] == '\0'
    ensures TableKey(CutAt(n, i)) == TableKey(n)
  {
    var s := n.0 + "\0" + n.1;
    assert s == s[..i] + "\0" + s[i + 1..];
    assert "table:" + s[..i] + "\0" + s[i + 1..] == "table:" + s;
    assert "table:" + n.0 + "\0" + n.1 == "table:" + s;
  }

  /** A name has its key to itself if and only if neither part of it holds a NUL byte. */
  lemma NulKeysMeet(n: Name)
    ensures (forall m :: TableKey(m) == TableKey(n) ==> m == n) <==> NulFree(n.0) && NulFree(n.1)
  {
    var s := n.0 + "\0" + n.1;
    if NulFree(n.0) && NulFree(n.1) {
      forall m | TableKey(m) == TableKey(n) ensures m == n {
        OneNul(m, n);
        TableKeyInjective(m, n);
      }
    } else {
      var i :| 0 <= i < |s| && s[i] == '\0' && i != |n.0| by {
        if !NulFree(n.0) {
          var k :| 0 <= k < |n.0| && n.0[k] == '\0';
          assert s[k] == '\0';
        } else {
          var k :| 0 <= k < |n.1| && n.1[k] == '\0';
          assert s[|n.0| + 1 + k] == '\0';
        }
      }
      CutKeepsKey(n, i);
      assert |CutAt(n, i).0| == i;
    }
  }

  /** A key that holds one NUL byte comes from a schema without one. */
  lemma OneNul(m: Name, n: Name)
    requires NulFree(n.0) && NulFree(n.1) && TableKey(m) == TableKey(n)
    ensures NulFree(m.0)
  {
    var x, y := m.0 + "\0" + m.1, n.0 + "\0" + n.1;
    assert TableKey(m) == "table:" + x && TableKey(n) == "table:" + y;
    assert x == ("table:" + x)[6..] && y == ("table:" + y)[6..];
    assert x[|m.0|] == '\0';
    assert forall i :: 0 <= i < |n.0| ==> y[i] == n.0[i];
    assert forall i :: 0 <= i < |n.1| ==> y[|n.0| + 1 + i] == n.1[i];
    assert forall i :: 0 <= i < |y| && i != |n.0| ==> y[i] != '\0';
    forall i | 0 <= i < |m.0| ensures m.0[i] != '\0' {
      assert x[i] == m.0[i];
    }
  }

  /** Tables and schemas share the flight map without meeting in it. */
  lemma KeysDoNotMeet(n: Name, schema: string)
    ensures TableKey(n) != SchemaKey(schema)
  {
    assert TableKey(n)[0] == 't' && SchemaKey(schema)[0] == 's';
  }

  // ---------------------------------------------------------------- overlays

  datatype Entry<+T> = Stored(value: T) | Tombstone

  datatype Loaded<+T> = Found(value: T) | Missing | Failed

  /** The source with entries laid over it: a stored entry hides the source, a tombstone too. */
  function Overlaid<K, T>(base: map<K, T>, over: map<K, Entry<T>>): map<K, T> {
    map n | n in base.Keys + over.Keys && (n in over ==> over[n].Stored?) ::
        if n in over then over[n].value else base[n]
  }

  function Look<K, T>(m: map<K, T>, k: K): Loaded<T> { if k in m then Found(m[k]) else Missing }

  function EntryOf<T>(l: Loaded<T>): Entry<T>
    requires !l.Failed?
  {
    if l.Found? then Stored(l.value) else Tombstone
  }

  lemma OverlayPut<K, T>(base: map<K, T>, over: map<K, Entry<T>>, k: K, v: T)
    ensures Overlaid(base, over[k := Stored(v)]) == Overlaid(base, over)[k := v]
  {
  }

  lemma OverlayDelete<K, T>(base: map<K, T>, over: map<K, Entry<T>>, k: K)
    ensures Overlaid(base, over[k := Tombstone]) == Overlaid(base, over) - {k}
  {
  }

  /** Remembering what the source said changes nothing. */
  lemma OverlayLoad<K, T>(base: map<K, T>, over: map<K, Entry<T>>, k: K)
    requires k !in over
    ensures Overlaid(base, over[k := EntryOf(Look(base, k))]) == Overlaid(base, over)
    ensures Look(base, k) == Look(Overlaid(base, over), k)
  {
  }

  lemma OverlaySeen<K, T>(base: map<K, T>, over: map<K, Entry<T>>, k: K)
    requires k in over
    ensures Look(Overlaid(base, over), k) == if over[k].Stored? then Found(over[k].value) else Missing
  {
  }

  // ---------------------------------------------------------------- the cache

  datatype PrepareResult = Fine(ddl: DDL) | Refused | Unavailable

  class Provider {
    const lower: bool
    /** What the server answers, by normalised name: it respects the case mode. */
    const source: View
    const sourceSchemas: map<string, ()>

    var schemas: map<string, Entry<()>>
    var tables: map<Name, Entry<Table>>
    var flights: set<string>
    /** The tables for which the source gave an answer that was kept, in order. */
    ghost var kept: seq<Name>

    ghost predicate Valid()
      reads this
    {
      flights == {} && sourceSchemas.Keys == source.schemas
      && (forall i :: 0 <= i < |kept| ==> kept[i] in tables)
      && (forall i, j :: 0 <= i < j < |kept| ==> kept[i] != kept[j])
    }

    /** The plain map that the cache stands for. */
    ghost function Visible(): View
      reads this
    {
      View(Overlaid(sourceSchemas, schemas).Keys, Overlaid(source.tables, tables))
    }

    constructor (source: View, lower: bool)
      ensures Valid() && Visible() == source && this.lower == lower && this.source == source && tables == map[]
    {
      this.source, this.lower := source, lower;
      sourceSchemas := map s | s in source.schemas :: ();
      schemas, tables, flights, kept := map[], map[], {}, [];
      new;
      assert Overlaid(source.tables, tables) == source.tables;
      assert Overlaid(sourceSchemas, schemas).Keys == source.schemas;
    }

    /** A load shows what the plain map holds, or reports that the source could not be reached, and
        does not change the map. What has been answered once is answered again without the source. */
    method LoadTable(schema: string, table: string) returns (r: Loaded<Table>)
      requires Valid()
      modifies this
      ensures Valid() && Visible() == old(Visible()) && schemas == old(schemas)
      ensures r.Failed? || r == Look(Visible().tables, NameOf(lower, schema, table))
      ensures r.Failed? ==> NameOf(lower, schema, table) !in old(tables) && tables == old(tables)
      ensures !r.Failed? ==> NameOf(lower, schema, table) in tables
      ensures NameOf(lower, schema, table) in old(tables) ==> tables == old(tables) && kept == old(kept)
      ensures forall n :: n in old(tables) ==> n in tables
    {
      var n := NameOf(lower, schema, table);
      if n in tables {
        OverlaySeen(source.tables, tables, n);
        return if tables[n].Stored? then Found(tables[n].value) else Missing;
      }
      flights := flights + {TableKey(n)};
      var reachable: bool := *;
      r := if reachable then Look(source.tables, n) else Failed;
      if !r.Failed? {
        OverlayLoad(source.tables, tables, n);
        tables := tables[n := EntryOf(r)];
        kept := kept + [n];
      }
      flights := flights - {TableKey(n)};
    }

    method LoadSchema(schema: string) returns (r: Loaded<()>)
      requires Valid()
      modifies this
      ensures Valid() && Visible() == old(Visible()) && tables == old(tables)
      ensures r.Failed? || (r.Found? <==> Normal(lower, schema) in Visible().schemas)
    {
      var n := Normal(lower, schema);
      if n in schemas {
        OverlaySeen(sourceSchemas, schemas, n);
        return if schemas[n].Stored? then Found(()) else Missing;
      }
      flights := flights + {SchemaKey(n)};
      var reachable: bool := *;
      r := if reachable then Look(sourceSchemas, n) else Failed;
      if !r.Failed? {
        OverlayLoad(sourceSchemas, schemas, n);
        schemas := schemas[n := EntryOf(r)];
      }
      flights := flights - {SchemaKey(n)};
    }

    method PutTable(t: Table)
      requires Valid()
      modifies this
      ensures Valid() && Visible() == old(Visible()).(tables :=
                                                      old(Visible()).tables[NameOf(lower, t.schema, t.name) := t])
      ensures forall n :: n in old(tables) ==> n in tables
    {
      var n := NameOf(lower, t.schema, t.name);
      OverlayPut(source.tables, tables, n, t);
      tables := tables[n := Stored(t)];
    }

    method DeleteTable(schema: string, table: string)
      requires Valid()
      modifies this
      ensures Valid() && Visible() == old(Visible()).(tables := old(Visible()).tables - {NameOf(lower, schema, table)})
      ensures forall n :: n in old(tables) ==> n in tables
    {
      var n := NameOf(lower, schema, table);
      OverlayDelete(source.tables, tables, n);
      tables := tables[n := Tombstone];
    }

    /** The old name is deleted before the new one is put, so a rename that changes letter case only
        leaves the table in place when names fold. */
    method RenameTable(oldSchema: string, oldTable: string, t: Table)
      requires Valid()
      modifies this
      ensures Valid() && forall n :: n in old(tables) ==> n in tables
      ensures Visible() == old(Visible()).(tables := (old(Visible()).tables - {NameOf(lower, oldSchema, oldTable)})
                                                       [NameOf(lower, t.schema, t.name) := t])
      ensures NameOf(lower, t.schema, t.name) in Visible().tables
    {
      DeleteTable(oldSchema, oldTable);
      PutTable(t);
    }

    method PutSchema(schema: string)
      requires Valid()
      modifies this
      ensures Valid() && Visible() == old(Visible()).(schemas := old(Visible()).schemas + {Normal(lower, schema)})
      ensures tables == old(tables)
    {
      var n := Normal(lower, schema);
      OverlayPut(sourceSchemas, schemas, n, ());
      schemas := schemas[n := Stored(())];
    }

    method DeleteSchema(schema: string)
      requires Valid()
      modifies this
      ensures Valid() && Visible() == old(Visible()).(schemas := old(Visible()).schemas - {Normal(lower, schema)})
      ensures tables == old(tables)
    {
      var n := Normal(lower, schema);
      OverlayDelete(sourceSchemas, schemas, n);
      schemas := schemas[n := Tombstone];
    }

    // ---------------------------------------------------------------- PrepareDDL

    /** The CREATE branch. */
    method PrepareCreate(d: DDL) returns (r: PrepareResult)
      requires Valid() && d.fullyProjected && Creates(d)
      modifies this
      ensures Valid() && Visible() == old(Visible()) && forall n :: n in old(tables) ==> n in tables
      ensures r.Fine? ==> PrepareOn(lower, Visible(), d) == Accepted(r.ddl)
      ensures r.Refused? ==> PrepareOn(lower, Visible(), d) == Rejected
    {
      var existing := LoadTable(d.schema, d.table);
      if existing.Failed? {
        return Unavailable;
      }
      if existing.Found? {
        return if d.ifNotExists then Fine(d.(noop := true)) else Refused;
      }
      if d.reference.None? {
        return Fine(d);
      }
      var like := LoadTable(DefaultSchema(d.reference.value.schema, d.schema), d.reference.value.name);
      if like.Failed? {
        return Unavailable;
      }
      return if like.Found? then Fine(d.(create := LikeSpec(d.create, like.value))) else Refused;
    }

    /** The loop over the targets of a RENAME TABLE. */
    method PrepareTargets(d: DDL) returns (r: PrepareResult)
      requires Valid()
      modifies this
      ensures Valid() && Visible() == old(Visible()) && forall n :: n in old(tables) ==> n in tables
      ensures r.Fine? ==> forall i :: 0 <= i < |d.pairs| ==> TargetName(lower, d, d.pairs[i]) !in Visible().tables
      ensures r.Refused? ==> exists i :: 0 <= i < |d.pairs| && TargetName(lower, d, d.pairs[i]) in Visible().tables
    {
      for i := 0 to |d.pairs|
        invariant Valid() && Visible() == old(Visible()) && forall n :: n in old(tables) ==> n in tables
        invariant forall j :: 0 <= j < i ==> TargetName(lower, d, d.pairs[j]) !in Visible().tables
      {
        var target := LoadTable(TargetSchema(d, d.pairs[i]), d.pairs[i].to.name);
        if target.Failed? {
          return Unavailable;
        }
        if target.Found? {
          return Refused;
        }
      }
      return Fine(d);
    }

    /** The loop over the affected tables. */
    method PrepareAffected(d: DDL) returns (r: PrepareResult)
      requires Valid()
      modifies this
      ensures Valid() && Visible() == old(Visible()) && forall n :: n in old(tables) ==> n in tables
      ensures r.Fine? ==> forall i :: 0 <= i < |Affected(d)| ==>
                RefName(lower, d, Affected(d)[i]) in tables
                && (d.ifExists || RefName(lower, d, Affected(d)[i]) in Visible().tables)
      ensures r.Refused? ==>
          !d.ifExists && exists i :: 0 <= i < |Affected(d)| && RefName(lower, d, Affected(d)[i]) !in Visible().tables
    {
      var refs := Affected(d);
      for i := 0 to |refs|
        invariant Valid() && Visible() == old(Visible()) && forall n :: n in old(tables) ==> n in tables
        invariant forall j :: 0 <= j < i ==> RefName(lower, d, refs[j]) in tables
                                             && (d.ifExists || RefName(lower, d, refs[j]) in Visible().tables)
      {
        var found := LoadTable(DefaultSchema(refs[i].schema, d.schema), refs[i].name);
        if found.Failed? {
          return Unavailable;
        }
        if found.Missing? && !d.ifExists {
          return Refused;
        }
      }
      return Fine(d);
    }

    /** PrepareDDL answers by the map alone, unless the source cannot be reached, and never changes
        it. When it accepts, the tables that ApplyDDL will load are in the cache. */
    method Prepare(d: DDL) returns (r: PrepareResult)
      requires Valid()
      modifies this
      ensures Valid() && Visible() == old(Visible())
      ensures r.Fine? ==> PrepareOn(lower, Visible(), d) == Accepted(r.ddl)
      ensures r.Refused? ==> PrepareOn(lower, Visible(), d) == Rejected
      ensures r.Fine? && d.fullyProjected && !Creates(d) ==>
                forall i :: 0 <= i < |Affected(d)| ==> RefName(lower, d, Affected(d)[i]) in tables
    {
      if !d.fullyProjected {
        return Fine(d);
      }
      if Creates(d) {
        r := PrepareCreate(d);
        return;
      }
      if d.action == Action.RenameTable {
        r := PrepareTargets(d);
        if !r.Fine? {
          return;
        }
      }
      r := PrepareAffected(d);
      if r.Fine? {
        r := Fine(d);
      }
    }

    // ---------------------------------------------------------------- ApplyDDL

    /** The DROP loops. */
    method ApplyDrops(d: DDL)
      requires Valid()
      modifies this
      ensures Valid() && Visible() == old(Visible()).(tables := DropAll(lower, d, old(Visible()).tables, d.tables))
    {
      for i := 0 to |d.tables|
        invariant Valid()
        invariant Visible() == old(Visible()).(tables := DropAll(lower, d, old(Visible()).tables, d.tables[..i]))
      {
        assert d.tables[..i + 1][..i] == d.tables[..i];
        DeleteTable(DefaultSchema(d.tables[i].schema, d.schema), d.tables[i].name);
      }
      assert d.tables[..|d.tables|] == d.tables;
    }

    /** The RENAME loop: it stops at the first table that is not there. */
    method ApplyRenames(d: DDL) returns (ok: bool)
      requires Valid() && forall i :: 0 <= i < |d.pairs| ==> SourceName(lower, d, d.pairs[i]) in tables
      modifies this
      ensures Valid()
      ensures var r := RenameAll(lower, d, old(Visible()).tables, d.pairs);
              ok == r.ok && Visible() == old(Visible()).(tables := r.tables)
    {
      ghost var start := Visible();
      for i := 0 to |d.pairs|
        invariant Valid() && forall n :: n in old(tables) ==> n in tables
        invariant RenameAll(lower, d, start.tables, d.pairs[..i]) == Renaming(true, Visible().tables)
        invariant Visible().schemas == start.schemas
      {
        var p := d.pairs[i];
        assert d.pairs[..i + 1][..i] == d.pairs[..i];
        var loaded := LoadTable(DefaultSchema(p.from.schema, d.schema), p.from.name);
        if !loaded.Found? {
          assert !RenameAll(lower, d, start.tables, d.pairs[..i + 1]).ok;
          StaysFailed(lower, d, start.tables, d.pairs, i + 1);
          return false;
        }
        var t := loaded.value.(schema := TargetSchema(d, p), name := p.to.name);
        RenameTable(DefaultSchema(p.from.schema, d.schema), p.from.name, t);
      }
      assert d.pairs[..|d.pairs|] == d.pairs;
      return true;
    }

    /** CREATE INDEX, DROP INDEX and ALTER TABLE. The edits in place are in `HeapTable`. */
    method ApplyAlter(d: DDL) returns (ok: bool)
      requires Valid() && NameOf(lower, d.schema, d.table) in tables
      modifies this
      ensures Valid()
      ensures ok == AlterOn(lower, old(Visible()), d).Done? && Visible() == AlterOn(lower, old(Visible()), d).view
    {
      var loaded := LoadTable(d.schema, d.table);
      if !loaded.Found? {
        return false;
      }
      var t := loaded.value;
      var u := ApplyOps(t, TableOps(d));
      if u.None? {
        return false;
      }
      if t.schema != u.value.schema || t.name != u.value.name {
        RenameTable(t.schema, t.name, u.value);
      } else {
        PutTable(u.value);
      }
      return true;
    }

    /** The names that ApplyDDL loads. */
    ghost predicate Ready(d: DDL)
      reads this
    {
      d.fullyProjected && !d.noop ==>
        (d.action == Action.RenameTable ==> forall i :: 0 <= i < |d.pairs| ==>
         SourceName(lower, d, d.pairs[i]) in tables)
        && (EditsOneTable(d) ==>
              NameOf(lower, d.schema, d.table) in tables)
    }

    /** ApplyDDL does to the map what the statement says, and reports an error exactly when it refuses. */
    method Apply(d: DDL) returns (ok: bool)
      requires Valid() && Ready(d)
      modifies this
      ensures Valid()
      ensures ok == ApplyOn(lower, old(Visible()), d).Done? && Visible() == ApplyOn(lower, old(Visible()), d).view
    {
      ok := true;
      if !d.fullyProjected || d.noop {
        return;
      }
      match d.action {
        case CreateDatabase => PutSchema(d.schema);
        case DropDatabase => DeleteSchema(d.schema);
        case CreateTable => PutTable(NewTable(d));
        case CreateView => PutTable(CreatedView(d));
        case DropTable => ApplyDrops(d);
        case DropView => ApplyDrops(d);
        case RenameTable => ok := ApplyRenames(d);
        case CreateIndex => ok := ApplyAlter(d);
        case DropIndexes => ok := ApplyAlter(d);
        case AlterTable => ok := ApplyAlter(d);
        case _ =>
      }
    }
  }

  lemma {:induction false} StaysFailed(lower: bool, d: DDL, tables: map<Name, Table>, pairs: seq<RenamePair>, k: nat)
    requires k <= |pairs| && !RenameAll(lower, d, tables, pairs[..k]).ok
    ensures RenameAll(lower, d, tables, pairs) == RenameAll(lower, d, tables, pairs[..k])
    decreases |pairs| - k
  {
    if k < |pairs| {
      assert pairs[..k + 1][..k] == pairs[..k];
      StaysFailed(lower, d, tables, pairs, k + 1);
    } else {
      assert pairs[..k] == pairs;
    }
  }
}
