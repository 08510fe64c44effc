/** Which row changes of the binlog belong to the statement just executed
    (internal/backup/binlogmysql/capture.go).

    The event stream is a finite sequence; reading past its end stands for the read error or
    timeout of the streamer. A binlog file is named by its sequence number. */
module Capture {
  import opened Catalog
  import opened Generator
  import opened Seqs

  datatype Position = Position(file: nat, pos: nat)

  predicate Reaches(p: Position, goal: Position) {
    p.file > goal.file || (p.file == goal.file && p.pos >= goal.pos)
  }

  datatype RowsEvent = RowsEvent(kind: ChangeKind, mapped: bool, schema: string, table: string,
                                 columnCount: nat, rows: seq<seq<Value>>)

  datatype Body = Rotate(to: Position) | Query(thread: nat) | Xid | RowsBody(rows: RowsEvent) | Other

  datatype Event = Event(logPos: nat, body: Body)

  /** What the metadata connection answers. */
  type Metadata = (string, string) -> Option<Table>

  // ---------------------------------------------------------------- one row event

  /** An UPDATE event lists a before image and an after image in turn. */
  function Pairs(t: Table, rows: seq<seq<Value>>): (r: seq<RowChange>)
    requires |rows| % 2 == 0
    ensures |r| == |rows| / 2
    ensures forall i :: 0 <= i < |r| ==> r[i] == RowChange(Updated, t, rows[2 * i], rows[2 * i + 1])
  {
    if rows == [] then []
    else
      var rest := Pairs(t, rows[2..]);
      assert forall i :: 0 <= i < |rest| ==> rest[i] == RowChange(Updated, t, rows[2 * (i + 1)], rows[2 * (i + 1) + 1]);
      [RowChange(Updated, t, rows[0], rows[1])] + rest
  }

  function Single(t: Table, kind: ChangeKind, row: seq<Value>): RowChange {
    if kind == Inserted then RowChange(kind, t, [], row) else RowChange(kind, t, row, [])
  }

  function ChangesOf(meta: Metadata, e: RowsEvent): Option<seq<RowChange>> {
    if !e.mapped then None
    else match meta(e.schema, e.table)
      case None => None
      case Some(t) =>
        if |t.columns| != e.columnCount then None
        else if e.kind == Updated then
          if |e.rows| % 2 != 0 then None else Some(Pairs(t, e.rows))
        else Some(Map((row: seq<Value>) => Single(t, e.kind, row), e.rows))
  }

  method RowChanges(meta: Metadata, e: RowsEvent) returns (r: Option<seq<RowChange>>)
    ensures r == ChangesOf(meta, e)
    ensures r.Some? <==> e.mapped && meta(e.schema, e.table).Some?
                         && |meta(e.schema, e.table).value.columns| == e.columnCount
                         && (e.kind == Updated ==> |e.rows| % 2 == 0)
    ensures r.Some? && e.kind == Inserted ==>
              |r.value| == |e.rows|
              && forall i :: 0 <= i < |e.rows| ==>
                   r.value[i] == RowChange(Inserted, meta(e.schema, e.table).value, [], e.rows[i])
    ensures r.Some? && e.kind == Deleted ==>
              |r.value| == |e.rows|
              && forall i :: 0 <= i < |e.rows| ==>
                   r.value[i] == RowChange(Deleted, meta(e.schema, e.table).value, e.rows[i], [])
    ensures r.Some? && e.kind == Updated ==>
              |r.value| == |e.rows| / 2
              && forall i :: 0 <= i < |r.value| ==>
                   r.value[i] == RowChange(Updated, meta(e.schema, e.table).value, e.rows[2 * i], e.rows[2 * i + 1])
  {
    if !e.mapped {
      return None;
    }
    var loaded := meta(e.schema, e.table);
    if loaded.None? || |loaded.value.columns| != e.columnCount {
      return None;
    }
    var t := loaded.value;
    var result: seq<RowChange> := [];
    if e.kind == Updated {
      if |e.rows| % 2 != 0 {
        return None;
      }
      var i := 0;
      while i < |e.rows|
        invariant 0 <= i <= |e.rows| && i % 2 == 0 && |result| == i / 2
        invariant forall j :: 0 <= j < i / 2 ==> result[j] == RowChange(Updated, t, e.rows[2 * j], e.rows[2 * j + 1])
      {
        result := result + [RowChange(Updated, t, e.rows[i], e.rows[i + 1])];
        i := i + 2;
      }
      assert result == Pairs(t, e.rows);
      return Some(result);
    }
    for i := 0 to |e.rows|
      invariant |result| == i && forall j :: 0 <= j < i ==> result[j] == Single(t, e.kind, e.rows[j])
    {
      var change := if e.kind == Inserted then RowChange(e.kind, t, [], e.rows[i])
          else RowChange(e.kind, t, e.rows[i], []);
      result := result + [change];
    }
    assert result == Map((row: seq<Value>) => Single(t, e.kind, row), e.rows);
    return Some(result);
  }

  // ---------------------------------------------------------------- position and ownership

  function Moved(p: Position, e: Event): Position {
    match e.body
    case Rotate(to) => to
    case _ => if e.logPos > 0 then Position(p.file, e.logPos) else p
  }

  /** Where the reader stands after some events. */
  function PositionAfter(start: Position, events: seq<Event>): Position {
    if events == [] then start else Moved(PositionAfter(start, events[..|events| - 1]), events[|events| - 1])
  }

  function Owner(now: nat, e: Event): nat {
    match e.body case Query(t) => t case Xid => 0 case _ => now
  }

  /** The thread whose transaction is open after some events, 0 if none is. */
  function OwnerAfter(events: seq<Event>): nat {
    if events == [] then 0 else Owner(OwnerAfter(events[..|events| - 1]), events[|events| - 1])
  }

  /** Event k carries rows of a transaction of `thread`. */
  predicate Mine(thread: nat, events: seq<Event>, k: nat)
    requires k < |events|
  {
    events[k].body.RowsBody? && OwnerAfter(events[..k]) == thread
  }

  /** The query at place q is of `thread`, and no query or XID follows it. */
  predicate StaysOpen(thread: nat, events: seq<Event>, q: nat) {
    q < |events| && events[q].body == Query(thread)
    && forall j :: q < j < |events| ==> !events[j].body.Query? && !events[j].body.Xid?
  }

  lemma StaysOpenOn(thread: nat, events: seq<Event>, e: Event, q: nat)
    ensures StaysOpen(thread, events + [e], q)
       <==> if e.body == Query(thread) && q == |events| then true
            else StaysOpen(thread, events, q) && !e.body.Query? && !e.body.Xid?
  {
    var all := events + [e];
    assert all[|events|] == e && forall j :: 0 <= j < |events| ==> all[j] == events[j];
  }

  /** Said without the automaton: the nearest query or XID event before k is a query of `thread`. */
  lemma {:induction false} OwnerIsTheOpenTransaction(thread: nat, events: seq<Event>)
    requires thread != 0
    ensures OwnerAfter(events) == thread <==> exists q: nat :: StaysOpen(thread, events, q)
    decreases |events|
  {
    if events != [] {
      var n := |events| - 1;
      var init, e := events[..n], events[n];
      OwnerIsTheOpenTransaction(thread, init);
      assert events == init + [e];
      forall q: nat ensures StaysOpen(thread, events, q)
        <==> if e.body == Query(thread) && q == n then true
             else StaysOpen(thread, init, q) && !e.body.Query? && !e.body.Xid? {
        StaysOpenOn(thread, init, e, q);
      }
      if e.body == Query(thread) {
        assert StaysOpen(thread, events, n);
      } else if q: nat :| StaysOpen(thread, init, q) {
        assert StaysOpen(thread, events, q) <==> !e.body.Query? && !e.body.Xid?;
      }
    }
  }

  /** The changes of all of the thread's row events, in stream order; nothing if one is malformed. */
  function Owned(meta: Metadata, thread: nat, events: seq<Event>): Option<seq<RowChange>> {
    if events == [] then Some([])
    else
      var n := |events| - 1;
      match Owned(meta, thread, events[..n])
      case None => None
      case Some(sofar) =>
        if !Mine(thread, events, n) then Some(sofar)
        else match ChangesOf(meta, events[n].body.rows)
          case None => None
          case Some(more) => Some(sofar + more)
  }

  /** k is the first event at which the reader stands at or behind the end position. */
  predicate EndsAt(start: Position, end: Position, events: seq<Event>, k: nat) {
    Past(start, end, events, k) && forall j :: 0 <= j < k ==> !Past(start, end, events, j)
  }

  predicate Past(start: Position, end: Position, events: seq<Event>, k: nat) {
    k < |events| && Reaches(PositionAfter(start, events[..k + 1]), end)
  }

  lemma EndIsUnique(start: Position, end: Position, events: seq<Event>, a: nat, b: nat)
    requires EndsAt(start, end, events, a) && EndsAt(start, end, events, b)
    ensures a == b
  {
  }

  // ---------------------------------------------------------------- the loop

  lemma {:induction false} OwnedFails(meta: Metadata, thread: nat, events: seq<Event>, k: nat)
    requires k <= |events| && Owned(meta, thread, events[..k]).None?
    ensures Owned(meta, thread, events).None?
    decreases |events| - k
  {
    if k < |events| {
      assert events[..k + 1][..k] == events[..k];
      OwnedFails(meta, thread, events, k + 1);
    } else {
      assert events[..k] == events;
    }
  }

  lemma Extends(meta: Metadata, thread: nat, start: Position, events: seq<Event>, k: nat)
    requires k < |events|
    ensures var seen := events[..k + 1];
            seen[..k] == events[..k] && seen[k] == events[k]
            && PositionAfter(start, seen) == Moved(PositionAfter(start, events[..k]), events[k])
            && OwnerAfter(seen) == Owner(OwnerAfter(events[..k]), events[k])
            && (Mine(thread, seen, k) <==> Mine(thread, events, k))
  {
    var seen := events[..k + 1];
    assert seen[..k] == events[..k] && |seen| - 1 == k;
  }

  function Exactly(r: Option<seq<RowChange>>, expected: nat): Option<seq<RowChange>> {
    if r.Some? && |r.value| == expected then r else None
  }

  /** What is collected: the changes of the thread's row events up to and including the first event at or
      behind the end position, if there is one, if they are sound, and if they number exactly as expected. */
  ghost function Collected(meta: Metadata, start: Position, end: Position, thread: nat, expected: nat,
                           events: seq<Event>): Option<seq<RowChange>>
  {
    if start == end || expected == 0 then Some([])
    else if k: nat :| EndsAt(start, end, events, k) then Exactly(Owned(meta, thread, events[..k + 1]), expected)
    else None
  }

  method Collect(meta: Metadata, start: Position, end: Position, thread: nat, expected: nat, events: seq<Event>)
    returns (r: Option<seq<RowChange>>)
    ensures r == Collected(meta, start, end, thread, expected, events)
  {
    if start == end || expected == 0 {
      return Some([]);
    }
    var current := start;
    var currentThread := 0;
    var changes: seq<RowChange> := [];
    var k := 0;
    while true
      invariant 0 <= k <= |events|
      invariant current == PositionAfter(start, events[..k]) && currentThread == OwnerAfter(events[..k])
      invariant Owned(meta, thread, events[..k]) == Some(changes)
      invariant forall j :: 0 <= j < k ==> !Past(start, end, events, j)
      decreases |events| - k
    {
      if k == |events| {
        return None;
      }
      var e := events[k];
      Extends(meta, thread, start, events, k);
      if e.logPos > 0 {
        current := current.(pos := e.logPos);
      }
      if e.body.Rotate? {
        current := e.body.to;
      }
      match e.body {
        case Query(t) => currentThread := t;
        case Xid => currentThread := 0;
        case RowsBody(rows) =>
          if currentThread == thread {
            var more := RowChanges(meta, rows);
            if more.None? {
              assert Owned(meta, thread, events[..k + 1]).None?;
              GivesUp(meta, thread, start, end, events, k);
              return None;
            }
            changes := changes + more.value;
          }
        case _ =>
      }
      assert Owned(meta, thread, events[..k + 1]) == Some(changes);
      k := k + 1;
      if Reaches(current, end) {
        break;
      }
    }
    assert EndsAt(start, end, events, k - 1);
    forall j: nat | EndsAt(start, end, events, j) ensures j == k - 1 {
      EndIsUnique(start, end, events, j, k - 1);
    }
    if |changes| != expected {
      return None;
    }
    return Some(changes);
  }

  /** A malformed event of the thread spoils every later end. */
  lemma GivesUp(meta: Metadata, thread: nat, start: Position, end: Position, events: seq<Event>, k: nat)
    requires k < |events| && Owned(meta, thread, events[..k + 1]).None?
    requires forall j :: 0 <= j < k ==> !Past(start, end, events, j)
    ensures forall m: nat :: EndsAt(start, end, events, m) ==> Owned(meta, thread, events[..m + 1]).None?
  {
    forall m: nat | EndsAt(start, end, events, m) ensures Owned(meta, thread, events[..m + 1]).None? {
      var seen := events[..m + 1];
      assert m >= k;
      assert seen[..k + 1] == events[..k + 1];
      OwnedFails(meta, thread, seen, k + 1);
    }
  }

  // ---------------------------------------------------------------- whole transactions

  /** A transaction as the binlog shows it: whatever holds no rows, such as statements on their own, GTIDs
      and changes of the file; a query naming the owner; row events, with others such as table maps
      between them; an XID. */
  datatype Transaction = Transaction(gap: seq<Event>, owner: nat, begin: nat, events: seq<Event>, commit: nat)

  predicate InsideTransaction(e: Event) { !e.body.Query? && !e.body.Xid? }

  predicate Contiguous(t: Transaction) {
    t.owner != 0 && (forall i :: 0 <= i < |t.events| ==> InsideTransaction(t.events[i]))
    && forall i :: 0 <= i < |t.gap| ==> !t.gap[i].body.RowsBody?
  }

  function Opened(t: Transaction): seq<Event> { [Event(t.begin, Query(t.owner))] + t.events }

  function Stream(ts: seq<Transaction>): seq<Event>
    decreases |ts|, 1
  {
    if ts == [] then []
    else Before(ts) + Opened(ts[|ts| - 1]) + [Event(ts[|ts| - 1].commit, Xid)]
  }

  /** What comes before the last transaction begins. */
  function Before(ts: seq<Transaction>): seq<Event>
    requires ts != []
    decreases |ts|, 0
  {
    Stream(ts[..|ts| - 1]) + ts[|ts| - 1].gap
  }

  /** The sound row changes of the events, whoever owns them. */
  function AllOf(meta: Metadata, events: seq<Event>): Option<seq<RowChange>> {
    if events == [] then Some([])
    else
      var n := |events| - 1;
      match AllOf(meta, events[..n])
      case None => None
      case Some(sofar) =>
        if !events[n].body.RowsBody? then Some(sofar)
        else match ChangesOf(meta, events[n].body.rows) case None => None case Some(more) => Some(sofar + more)
  }

  function Both(a: Option<seq<RowChange>>, b: Option<seq<RowChange>>): Option<seq<RowChange>> {
    if a.None? || b.None? then None else Some(a.value + b.value)
  }

  /** The changes of the thread's own transactions, one transaction after another. */
  function OfThread(meta: Metadata, thread: nat, ts: seq<Transaction>): Option<seq<RowChange>> {
    if ts == [] then Some([])
    else
      var t := ts[|ts| - 1];
      Both(OfThread(meta, thread, ts[..|ts| - 1]), if t.owner == thread then AllOf(meta, t.events) else Some([]))
  }

  lemma Regroup(a: Option<seq<RowChange>>, b: Option<seq<RowChange>>, c: Option<seq<RowChange>>)
    ensures Both(Both(a, b), c) == Both(a, Both(b, c))
  {
    if a.Some? && b.Some? && c.Some? {
      assert a.value + b.value + c.value == a.value + (b.value + c.value);
    }
  }

  /** Reading on inside a transaction, or up to its end, adds its rows if the thread owns it. */
  lemma {:induction false} OwnedInside(meta: Metadata, thread: nat, before: seq<Event>, t: Transaction, n: nat)
    requires Contiguous(t) && n <= |t.events|
    ensures var seen := before + Opened(t)[..n + 1];
            OwnerAfter(seen) == t.owner
            && Owned(meta, thread, seen)
               == Both(Owned(meta, thread, before), if t.owner == thread then AllOf(meta, t.events[..n]) else Some([]))
    decreases n
  {
    var shown := Opened(t);
    var seen := before + shown[..n + 1];
    var m := |seen| - 1;
    if n == 0 {
      assert seen[..m] == before && seen[m] == shown[0];
      assert t.events[..0] == [];
      var sofar := Owned(meta, thread, before);
      assert sofar.Some? ==> sofar.value + [] == sofar.value;
    } else {
      OwnedInside(meta, thread, before, t, n - 1);
      assert seen[..m] == before + shown[..n] && seen[m] == shown[n] == t.events[n - 1];
      assert t.events[..n][..n - 1] == t.events[..n - 1];
      var e := t.events[n - 1];
      assert InsideTransaction(e);
      if e.body.RowsBody? {
        Regroup(Owned(meta, thread, before), AllOf(meta, t.events[..n - 1]), ChangesOf(meta, e.body.rows));
      }
    }
  }

  lemma {:induction false} OwnedGap(meta: Metadata, thread: nat, before: seq<Event>, gap: seq<Event>)
    requires forall i :: 0 <= i < |gap| ==> !gap[i].body.RowsBody?
    ensures Owned(meta, thread, before + gap) == Owned(meta, thread, before)
    decreases |gap|
  {
    var n := |gap| - 1;
    if gap == [] {
      assert before + gap == before;
    } else {
      var all := before + gap;
      assert all[..|all| - 1] == before + gap[..n] && all[|all| - 1] == gap[n];
      OwnedGap(meta, thread, before, gap[..n]);
    }
  }

  lemma OwnedXid(meta: Metadata, thread: nat, events: seq<Event>, at: nat)
    ensures Owned(meta, thread, events + [Event(at, Xid)]) == Owned(meta, thread, events)
    ensures OwnerAfter(events + [Event(at, Xid)]) == 0
  {
    var all := events + [Event(at, Xid)];
    assert all[..|all| - 1] == events;
  }

  /** On a stream of contiguous transactions, whatever other connections wrote between them, the
      thread's rows are exactly the rows of its own transactions. */
  lemma {:induction false} StreamOwned(meta: Metadata, thread: nat, ts: seq<Transaction>)
    requires forall i :: 0 <= i < |ts| ==> Contiguous(ts[i])
    ensures Owned(meta, thread, Stream(ts)) == OfThread(meta, thread, ts)
    decreases |ts|
  {
    if ts != [] {
      var init, t := ts[..|ts| - 1], ts[|ts| - 1];
      StreamOwned(meta, thread, init);
      OwnedGap(meta, thread, Stream(init), t.gap);
      OwnedInside(meta, thread, Before(ts), t, |t.events|);
      assert Opened(t)[..|t.events| + 1] == Opened(t) && t.events[..|t.events|] == t.events;
      OwnedXid(meta, thread, Before(ts) + Opened(t), t.commit);
    }
  }

  /** The same when the end position falls inside a transaction: its rows up to there are counted. */
  lemma StreamOwnedUpTo(meta: Metadata, thread: nat, ts: seq<Transaction>, last: Transaction, n: nat)
    requires (forall i :: 0 <= i < |ts| ==> Contiguous(ts[i])) && Contiguous(last) && n <= |last.events|
    ensures Owned(meta, thread, Stream(ts) + last.gap + Opened(last)[..n + 1])
         == Both(OfThread(meta, thread, ts), if last.owner == thread then AllOf(meta, last.events[..n]) else Some([]))
  {
    StreamOwned(meta, thread, ts);
    OwnedGap(meta, thread, Stream(ts), last.gap);
    OwnedInside(meta, thread, Stream(ts) + last.gap, last, n);
  }

  // ---------------------------------------------------------------- what is collected from transactions

  function Least(a: nat, b: nat): nat { if a < b then a else b }

  /** The transactions as far as the first m events of their stream show them. */
  function Cut(ts: seq<Transaction>, m: nat): seq<Transaction> {
    if ts == [] then []
    else
      var n := |ts| - 1;
      var before := |Before(ts)|;
      if m <= before then Cut(ts[..n], Least(m, |Stream(ts[..n])|))
      else ts[..n] + [ts[n].(events := ts[n].events[..Least(m - before - 1, |ts[n].events|)])]
  }

  /** Wherever reading stops, what was read of the thread's rows is what its transactions show of them. */
  lemma {:induction false} OwnedIsCut(meta: Metadata, thread: nat, ts: seq<Transaction>, m: nat)
    requires (forall i :: 0 <= i < |ts| ==> Contiguous(ts[i])) && m <= |Stream(ts)|
    ensures Owned(meta, thread, Stream(ts)[..m]) == OfThread(meta, thread, Cut(ts, m))
    decreases |ts|
  {
    if ts != [] {
      var n := |ts| - 1;
      var init, t := ts[..n], ts[n];
      var before := |Before(ts)|;
      if m <= before {
        var k := Least(m, |Stream(init)|);
        var rest := t.gap[..m - k];
        assert Stream(ts)[..m] == Stream(init)[..k] + rest;
        OwnedGap(meta, thread, Stream(init)[..k], rest);
        OwnedIsCut(meta, thread, init, k);
      } else if m - before - 1 <= |t.events| {
        var j := m - before - 1;
        assert Stream(ts)[..m] == Stream(init) + t.gap + Opened(t)[..j + 1];
        StreamOwnedUpTo(meta, thread, init, t, j);
        var cut := t.(events := t.events[..j]);
        assert Cut(ts, m) == init + [cut] && (init + [cut])[..n] == init;
      } else {
        assert Stream(ts)[..m] == Stream(ts) && t.events[..|t.events|] == t.events;
        assert Cut(ts, m) == init + [t] == ts;
        StreamOwned(meta, thread, ts);
      }
    }
  }

  lemma {:induction false} OwnedGrows(meta: Metadata, thread: nat, events: seq<Event>, m: nat)
    requires m <= |events| && Owned(meta, thread, events).Some?
    ensures Owned(meta, thread, events[..m]).Some?
    ensures Owned(meta, thread, events[..m]).value <= Owned(meta, thread, events).value
    decreases |events|
  {
    if m < |events| {
      var n := |events| - 1;
      assert events[..n][..m] == events[..m];
      OwnedGrows(meta, thread, events[..n], m);
    } else {
      assert events[..m] == events;
    }
  }

  lemma CollectedUpTo(meta: Metadata, start: Position, end: Position, thread: nat, expected: nat,
                      events: seq<Event>, k: nat)
    requires start != end && expected > 0 && EndsAt(start, end, events, k)
    ensures Collected(meta, start, end, thread, expected, events)
         == Exactly(Owned(meta, thread, events[..k + 1]), expected)
  {
    forall j: nat | EndsAt(start, end, events, j) ensures j == k {
      EndIsUnique(start, end, events, j, k);
    }
  }

  /** What is collected comes from a part of the stream. */
  lemma CollectedIsPart(meta: Metadata, start: Position, end: Position, thread: nat, expected: nat, events: seq<Event>)
    returns (k: nat)
    requires start != end && expected > 0 && Collected(meta, start, end, thread, expected, events).Some?
    ensures k < |events|
    ensures Collected(meta, start, end, thread, expected, events) == Owned(meta, thread, events[..k + 1])
    ensures |Owned(meta, thread, events[..k + 1]).value| == expected
  {
    k :| EndsAt(start, end, events, k)
         && Collected(meta, start, end, thread, expected, events)
            == Exactly(Owned(meta, thread, events[..k + 1]), expected);
  }

  /** On a stream of contiguous transactions, with others of any thread in between, Collect succeeds if and
      only if the end position is reached and the rows that the thread's own transactions show up to the
      event that reaches it are sound and as many as expected; and it returns exactly those. */
  lemma CollectsTheThread(meta: Metadata, start: Position, end: Position, thread: nat, expected: nat,
                          ts: seq<Transaction>, made: seq<RowChange>)
    requires start != end && expected > 0 && forall i :: 0 <= i < |ts| ==> Contiguous(ts[i])
    ensures Collected(meta, start, end, thread, expected, Stream(ts)) == Some(made)
       <==> |made| == expected
            && exists k: nat :: EndsAt(start, end, Stream(ts), k)
                && OfThread(meta, thread, Cut(ts, k + 1)) == Some(made)
  {
    forall k: nat | EndsAt(start, end, Stream(ts), k)
      ensures Collected(meta, start, end, thread, expected, Stream(ts))
           == Exactly(OfThread(meta, thread, Cut(ts, k + 1)), expected)
    {
      CollectedUpTo(meta, start, end, thread, expected, Stream(ts), k);
      OwnedIsCut(meta, thread, ts, k + 1);
    }
    forall j: nat, k: nat | EndsAt(start, end, Stream(ts), j) && EndsAt(start, end, Stream(ts), k) ensures j == k {
      EndIsUnique(start, end, Stream(ts), j, k);
    }
  }

  /** Rows that the server has reported are lost without an error if and only if its position has not moved. */
  lemma LostIffUnmoved(meta: Metadata, start: Position, end: Position, thread: nat, expected: nat, events: seq<Event>)
    requires expected > 0
    ensures Collected(meta, start, end, thread, expected, events) == Some([]) <==> start == end
  {
    if start != end && Collected(meta, start, end, thread, expected, events).Some? {
      var k := CollectedIsPart(meta, start, end, thread, expected, events);
    }
  }

  /** The binlog is a stream of contiguous transactions in which the rows of the thread are those that the
      statement changed; the server reports as many, and its position moves when there are any. */
  ghost predicate Logged(meta: Metadata, start: Position, end: Position, thread: nat, affected: nat,
                         events: seq<Event>, made: seq<RowChange>)
  {
    affected == |made| && (made != [] ==> start != end)
    && exists ts :: events == Stream(ts) && OfThread(meta, thread, ts) == Some(made)
                    && forall i :: 0 <= i < |ts| ==> Contiguous(ts[i])
  }

  lemma LoggedIsOwned(meta: Metadata, start: Position, end: Position, thread: nat, affected: nat,
                      events: seq<Event>, made: seq<RowChange>)
    requires Logged(meta, start, end, thread, affected, events, made)
    ensures Owned(meta, thread, events) == Some(made)
  {
    var ts :| events == Stream(ts) && OfThread(meta, thread, ts) == Some(made)
              && forall i :: 0 <= i < |ts| ==> Contiguous(ts[i]);
    StreamOwned(meta, thread, ts);
  }

  /** Then what is collected is what the statement changed: all of it or an error, whichever end position
      was asked for. */
  lemma CollectedIsMade(meta: Metadata, start: Position, end: Position, thread: nat, affected: nat,
                        events: seq<Event>, made: seq<RowChange>)
    requires Logged(meta, start, end, thread, affected, events, made)
    ensures var r := Collected(meta, start, end, thread, affected, events); r.Some? ==> r.value == made
  {
    LoggedIsOwned(meta, start, end, thread, affected, events, made);
    if made != [] && Collected(meta, start, end, thread, affected, events).Some? {
      var k := CollectedIsPart(meta, start, end, thread, affected, events);
      OwnedGrows(meta, thread, events, k + 1);
    }
  }

  // ---------------------------------------------------------------- when collecting succeeds

  lemma PastStays(start: Position, end: Position, events: seq<Event>, more: seq<Event>, k: nat)
    requires k < |events|
    ensures Past(start, end, events + more, k) <==> Past(start, end, events, k)
    ensures (events + more)[..k + 1] == events[..k + 1]
  {
    assert (events + more)[..k + 1] == events[..k + 1];
  }

  /** Events behind the one that reaches the end position do not matter. */
  lemma BehindTheEnd(meta: Metadata, start: Position, end: Position, thread: nat, expected: nat,
                     events: seq<Event>, more: seq<Event>, k: nat)
    requires EndsAt(start, end, events, k)
    ensures Collected(meta, start, end, thread, expected, events + more)
         == Collected(meta, start, end, thread, expected, events)
  {
    forall j: nat | j < |events| ensures Past(start, end, events + more, j) <==> Past(start, end, events, j) {
      PastStays(start, end, events, more, j);
    }
    PastStays(start, end, events, more, k);
    if start != end && expected != 0 {
      CollectedUpTo(meta, start, end, thread, expected, events, k);
      CollectedUpTo(meta, start, end, thread, expected, events + more, k);
    }
  }

  /** The reader is in an earlier file, or in the same one at an earlier place. */
  predicate Short(p: Position, goal: Position) {
    p.file < goal.file || (p.file == goal.file && p.pos < goal.pos)
  }

  /** The last of the events brings the reader to exactly the end position, and no earlier one does. */
  ghost predicate ArrivesLast(start: Position, end: Position, events: seq<Event>) {
    events != [] && PositionAfter(start, events) == end
    && forall k :: 0 < k < |events| ==> Short(PositionAfter(start, events[..k]), end)
  }

  /** If the binlog shows what the statement changed and leads to exactly the end position, all of it is
      collected, and whatever is written behind the end does not matter. */
  lemma CollectsAll(meta: Metadata, start: Position, end: Position, thread: nat, affected: nat,
                    events: seq<Event>, more: seq<Event>, made: seq<RowChange>)
    requires Logged(meta, start, end, thread, affected, events, made) && ArrivesLast(start, end, events)
    ensures Collected(meta, start, end, thread, affected, events + more) == Some(made)
  {
    var n := |events| - 1;
    assert events[..n + 1] == events && Past(start, end, events, n);
    forall j | 0 <= j < n ensures !Past(start, end, events, j) {
      assert Short(PositionAfter(start, events[..j + 1]), end);
    }
    BehindTheEnd(meta, start, end, thread, affected, events, more, n);
    LoggedIsOwned(meta, start, end, thread, affected, events, made);
    if made != [] {
      CollectedUpTo(meta, start, end, thread, affected, events, n);
    }
  }

  ghost predicate ShownFirst(meta: Metadata, start: Position, end: Position, thread: nat, affected: nat,
                             events: seq<Event>, made: seq<RowChange>) {
    Logged(meta, start, end, thread, affected, events, made) && (made == [] || ArrivesLast(start, end, events))
  }

  /** Such a stream, with any other events behind it. */
  ghost predicate Shown(meta: Metadata, start: Position, end: Position, thread: nat, affected: nat,
                        events: seq<Event>, made: seq<RowChange>) {
    exists n :: 0 <= n <= |events| && ShownFirst(meta, start, end, thread, affected, events[..n], made)
  }

  lemma FirstIsCollected(meta: Metadata, start: Position, end: Position, thread: nat, affected: nat,
                         events: seq<Event>, more: seq<Event>, made: seq<RowChange>)
    requires ShownFirst(meta, start, end, thread, affected, events, made)
    ensures Collected(meta, start, end, thread, affected, events + more) == Some(made)
  {
    if made != [] {
      CollectsAll(meta, start, end, thread, affected, events, more, made);
    } else {
      NothingMade(meta, start, end, thread, affected, events, events + more);
    }
  }

  lemma ShownIsCollected(meta: Metadata, start: Position, end: Position, thread: nat, affected: nat,
                         events: seq<Event>, made: seq<RowChange>)
    requires Shown(meta, start, end, thread, affected, events, made)
    ensures Collected(meta, start, end, thread, affected, events) == Some(made)
  {
    var n :| 0 <= n <= |events| && ShownFirst(meta, start, end, thread, affected, events[..n], made);
    FirstIsCollected(meta, start, end, thread, affected, events[..n], events[n..], made);
    assert events[..n] + events[n..] == events;
  }

  lemma NothingMade(meta: Metadata, start: Position, end: Position, thread: nat, affected: nat,
                    shown: seq<Event>, events: seq<Event>)
    requires Logged(meta, start, end, thread, affected, shown, [])
    ensures Collected(meta, start, end, thread, affected, events) == Some([])
  {
  }

  predicate OneFile(events: seq<Event>) { forall i :: 0 <= i < |events| ==> !events[i].body.Rotate? }

  predicate AllBelow(events: seq<Event>, pos: nat) { forall i :: 0 <= i < |events| ==> events[i].logPos < pos }

  lemma {:induction false} StaysBelow(start: Position, events: seq<Event>, pos: nat)
    requires OneFile(events) && AllBelow(events, pos) && start.pos < pos
    ensures var p := PositionAfter(start, events); p.file == start.file && p.pos < pos
    decreases |events|
  {
    if events != [] {
      StaysBelow(start, events[..|events| - 1], pos);
    }
  }

  lemma {:induction false} StaysInFile(start: Position, events: seq<Event>)
    requires OneFile(events)
    ensures PositionAfter(start, events).file == start.file
    decreases |events|
  {
    if events != [] {
      StaysInFile(start, events[..|events| - 1]);
    }
  }

  /** In one file, it is enough that the last event ends at the end position and the others before it. */
  lemma ArrivesInOneFile(start: Position, end: Position, events: seq<Event>, last: Event)
    requires start.file == end.file && start.pos < end.pos
    requires OneFile(events + [last]) && AllBelow(events, end.pos) && last.logPos == end.pos
    ensures ArrivesLast(start, end, events + [last])
  {
    var all := events + [last];
    assert forall i :: 0 <= i < |events| ==> events[i] == all[i];
    assert all[..|all| - 1] == events && all[|all| - 1] == last;
    StaysBelow(start, events, end.pos);
    forall k | 0 < k < |all| ensures Short(PositionAfter(start, all[..k]), end) {
      assert all[..k] == events[..k];
      StaysBelow(start, events[..k], end.pos);
    }
  }

  lemma {:induction false} PositionConcat(start: Position, a: seq<Event>, b: seq<Event>)
    ensures PositionAfter(start, a + b) == PositionAfter(PositionAfter(start, a), b)
    decreases |b|
  {
    if b == [] {
      assert a + b == a;
    } else {
      var all := a + b;
      assert all[..|all| - 1] == a + b[..|b| - 1] && all[|all| - 1] == b[|b| - 1];
      PositionConcat(start, a, b[..|b| - 1]);
    }
  }

  /** When the file changes on the way, the rest is as in one file. */
  lemma ArrivesInTheNextFile(start: Position, end: Position, earlier: seq<Event>, at: nat, from: nat,
                             events: seq<Event>, last: Event)
    requires start.file < end.file && OneFile(earlier) && from < end.pos
    requires OneFile(events + [last]) && AllBelow(events, end.pos) && last.logPos == end.pos
    ensures ArrivesLast(start, end, earlier + [Event(at, Rotate(Position(end.file, from)))] + (events + [last]))
  {
    var turn := Event(at, Rotate(Position(end.file, from)));
    var head, tail := earlier + [turn], events + [last];
    assert head[..|earlier|] == earlier && head[|head| - 1] == turn;
    assert PositionAfter(start, head) == turn.body.to;
    ArrivesInOneFile(turn.body.to, end, events, last);
    PositionConcat(start, head, tail);
    forall k | 0 < k < |head + tail| ensures Short(PositionAfter(start, (head + tail)[..k]), end) {
      if k <= |earlier| {
        assert (head + tail)[..k] == earlier[..k];
        StaysInFile(start, earlier[..k]);
      } else {
        var m := k - |head|;
        assert (head + tail)[..k] == head + tail[..m];
        PositionConcat(start, head, tail[..m]);
        assert m == 0 ==> tail[..m] == [];
      }
    }
  }
}
