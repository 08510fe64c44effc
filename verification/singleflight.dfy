/** The single-flight protocol of the request cache (internal/metadata/cache.go), with any number of
    calls interleaved at their lock regions, source calls and channel waits. Keys are the strings of
    `Provider.TableKey` and `Provider.SchemaKey`; V is what is cached. */
module SingleFlight {

  /** What the source, and in the end a call, answers. `Interrupted` is the error of a context that
      was cancelled. */
  datatype Outcome<V> = Value(value: V) | NotFound | Failure(reason: string) | Interrupted

  predicate Cacheable<V>(o: Outcome<V>) { o.Value? || o.NotFound? }

  /** Where one call of LoadTable or LoadSchema is. */
  datatype Call<V> =
    | Ready(key: string)
    | Waiting(key: string, flight: nat)
    | Loading(key: string)
    | Holding(key: string, outcome: Outcome<V>)
    | Returned(key: string, outcome: Outcome<V>)

  predicate Live<V>(c: Call<V>) { c.Loading? || c.Holding? }

  /** The shared fields, the calls so far, and the history of keys for which the source has answered
      without being interrupted. A call that creates a flight returns when the flight ends, so it
      creates at most one, and the flight is named by the number of its call; `closed` are the flights
      whose channel is closed. */
  datatype State<V> = State(
    calls: seq<Call<V>>, cache: map<string, Outcome<V>>, flights: map<string, nat>,
    closed: set<nat>, answered: seq<string>)

  datatype Event<V> =
    | Enter(key: string)
    | Check(c: nat)
    | Wake(c: nat)
    | Cancel(c: nat)
    | Answer(c: nat, outcome: Outcome<V>)
    | Publish(c: nat)
    | Edit(key: string, outcome: Outcome<V>)

  function Empty<V>(): State<V> { State([], map[], map[], {}, []) }

  predicate Enabled<V>(s: State<V>, e: Event<V>) {
    match e
    case Enter(_) => true
    case Check(c) => c < |s.calls| && s.calls[c].Ready?
    case Wake(c) => c < |s.calls| && s.calls[c].Waiting? && s.calls[c].flight in s.closed
    case Cancel(c) => c < |s.calls| && s.calls[c].Waiting?
    case Answer(c, _) => c < |s.calls| && s.calls[c].Loading?
    case Publish(c) => c < |s.calls| && s.calls[c].Holding?
    case Edit(_, o) => Cacheable(o)
  }

  /** The locked region at the head of the loop. */
  function Checked<V>(s: State<V>, c: nat): State<V>
    requires c < |s.calls|
  {
    var k := s.calls[c].key;
    if k in s.cache then s.(calls := s.calls[c := Returned(k, s.cache[k])])
    else if k in s.flights then s.(calls := s.calls[c := Waiting(k, s.flights[k])])
    else s.(calls := s.calls[c := Loading(k)], flights := s.flights[k := c])
  }

  /** The locked region after the source has answered. */
  function Published<V>(s: State<V>, c: nat): State<V>
    requires c < |s.calls| && s.calls[c].Holding?
  {
    var Holding(k, o) := s.calls[c];
    s.(calls := s.calls[c := Returned(k, o)], cache := if Cacheable(o) then s.cache[k := o] else s.cache,
       flights := s.flights - {k}, closed := s.closed + {c})
  }

  function Next<V>(s: State<V>, e: Event<V>): State<V>
    requires Enabled(s, e)
  {
    match e
    case Enter(k) => s.(calls := s.calls + [Ready(k)])
    case Check(c) => Checked(s, c)
    case Wake(c) => s.(calls := s.calls[c := Ready(s.calls[c].key)])
    case Cancel(c) => s.(calls := s.calls[c := Returned(s.calls[c].key, Interrupted)])
    case Answer(c, o) =>
      s.(calls := s.calls[c := Holding(s.calls[c].key, o)],
         answered := if o.Interrupted? then s.answered else s.answered + [s.calls[c].key])
    case Publish(c) => Published(s, c)
    case Edit(k, o) => s.(cache := s.cache[k := o])
  }

  predicate Possible<V>(s: State<V>, es: seq<Event<V>>)
    decreases |es|
  {
    es == [] || (Enabled(s, es[0]) && Possible(Next(s, es[0]), es[1..]))
  }

  function After<V>(s: State<V>, es: seq<Event<V>>): State<V>
    requires Possible(s, es)
    decreases |es|
  {
    if es == [] then s else After(Next(s, es[0]), es[1..])
  }

  // ---------------------------------------------------------------- what every interleaving keeps

  ghost predicate Owns<V>(s: State<V>, c: int, k: string) {
    0 <= c < |s.calls| && Live(s.calls[c]) && s.calls[c].key == k
  }

  /** Every flight entry has a live loader, */
  ghost predicate FlightsOwned<V>(s: State<V>) {
    forall k :: k in s.flights ==> Owns(s, s.flights[k], k)
  }

  /** and every live loader has its entry, whose channel is not closed. */
  ghost predicate OwnersRegistered<V>(s: State<V>) {
    forall c :: 0 <= c < |s.calls| && Live(s.calls[c]) ==>
      s.calls[c].key in s.flights && s.flights[s.calls[c].key] == c && c !in s.closed
  }

  /** Whoever waits, waits for a closed flight or for one that is still registered. */
  ghost predicate WaitersServed<V>(s: State<V>) {
    forall c :: 0 <= c < |s.calls| && s.calls[c].Waiting? ==>
      s.calls[c].flight in s.closed
      || (s.calls[c].key in s.flights && s.flights[s.calls[c].key] == s.calls[c].flight)
  }

  /** The flights that are over belong to calls that have returned. */
  ghost predicate ClosedReturned<V>(s: State<V>) {
    forall f :: f in s.closed ==> f < |s.calls| && s.calls[f].Returned?
  }

  ghost predicate Inv<V>(s: State<V>) {
    FlightsOwned(s) && OwnersRegistered(s) && WaitersServed(s) && ClosedReturned(s)
  }

  /** Replacing a call by one that is live if and only if it was leaves ownership as it was. */
  lemma OthersKeep<V>(s: State<V>, c: nat, x: Call<V>)
    requires Inv(s) && c < |s.calls| && !s.calls[c].Returned? && (Live(s.calls[c]) <==> Live(x))
    requires Live(x) ==> x.key == s.calls[c].key
    requires x.Waiting? ==> x.key in s.flights && s.flights[x.key] == x.flight
    ensures Inv(s.(calls := s.calls[c := x]))
  {
  }

  lemma TakeOffKeeps<V>(s: State<V>, c: nat)
    requires Inv(s) && c < |s.calls| && s.calls[c].Ready? && s.calls[c].key !in s.cache && s.calls[c].key !in s.flights
    ensures Inv(Checked(s, c))
  {
  }

  lemma LandingKeeps<V>(s: State<V>, c: nat)
    requires Inv(s) && c < |s.calls| && s.calls[c].Holding?
    ensures Inv(Published(s, c))
  {
  }

  /** The cache and the history do not matter. */
  lemma OnlyProtocol<V>(s: State<V>, t: State<V>)
    requires Inv(s) && t.calls == s.calls && t.flights == s.flights && t.closed == s.closed
    ensures Inv(t)
  {
  }

  lemma StepKeepsInv<V>(s: State<V>, e: Event<V>)
    requires Inv(s) && Enabled(s, e)
    ensures Inv(Next(s, e))
  {
    match e
    case Enter(k) =>
    case Check(c) =>
      if s.calls[c].key !in s.cache && s.calls[c].key !in s.flights {
        TakeOffKeeps(s, c);
      } else {
        OthersKeep(s, c, Next(s, e).calls[c]);
      }
    case Wake(c) => OthersKeep(s, c, Next(s, e).calls[c]);
    case Cancel(c) => OthersKeep(s, c, Next(s, e).calls[c]);
    case Answer(c, o) =>
      OthersKeep(s, c, Next(s, e).calls[c]);
      OnlyProtocol(s.(calls := Next(s, e).calls), Next(s, e));
    case Publish(c) => LandingKeeps(s, c);
    case Edit(k, o) => OnlyProtocol(s, Next(s, e));
  }

  /** In every state of every interleaving the invariant holds. */
  lemma {:induction false} RunKeepsInv<V>(s: State<V>, es: seq<Event<V>>)
    requires Inv(s) && Possible(s, es)
    ensures Inv(After(s, es))
    decreases |es|
  {
    if es != [] {
      StepKeepsInv(s, es[0]);
      RunKeepsInv(Next(s, es[0]), es[1..]);
    }
  }

  /** At any time at most one source load of a key is in flight; a flight entry exists if and only
      if a live loader owns it; nobody waits for a flight that no live loader will close. */
  lemma OneLoadPerKey<V>(es: seq<Event<V>>)
    requires Possible(Empty<V>(), es)
    ensures var s := After(Empty<V>(), es);
            && (forall k, c, d :: Owns(s, c, k) && Owns(s, d, k) ==> c == d)
            && (forall k :: k in s.flights <==> exists c :: Owns(s, c, k))
            && (forall w :: 0 <= w < |s.calls| && s.calls[w].Waiting? && s.calls[w].flight !in s.closed ==>
                  Owns(s, s.calls[w].flight, s.calls[w].key))
  {
    RunKeepsInv(Empty<V>(), es);
  }

  // ---------------------------------------------------------------- every call is answered

  /** The steps the calls take by themselves. */
  predicate Internal<V>(e: Event<V>) { !e.Enter? && !e.Edit? }

  function Weight<V>(s: State<V>, c: Call<V>): nat {
    match c
    case Ready(_) => 3
    case Waiting(_, f) => if f in s.closed then 4 else 1
    case Loading(_) => 2
    case Holding(_, _) => 1
    case Returned(_, _) => 0
  }

  function Pending<V>(calls: seq<Call<V>>): nat {
    if calls == [] then 0 else Pending(calls[1..]) + (if calls[0].Returned? then 0 else 1)
  }

  function Total<V>(s: State<V>, calls: seq<Call<V>>): nat {
    if calls == [] then 0 else Total(s, calls[1..]) + Weight(s, calls[0])
  }

  /** How many steps the calls can still take between them. */
  function Budget<V>(s: State<V>): nat {
    Pending(s.calls) * (4 * |s.calls| + 1) + Total(s, s.calls)
  }

  lemma {:induction false} PendingUpdate<V>(calls: seq<Call<V>>, c: nat, x: Call<V>)
    requires c < |calls|
    ensures Pending(calls[c := x]) + (if calls[c].Returned? then 0 else 1)
        == Pending(calls) + (if x.Returned? then 0 else 1)
  {
    if c == 0 {
      assert calls[c := x][1..] == calls[1..];
    } else {
      assert calls[c := x][1..] == calls[1..][c - 1 := x];
      PendingUpdate(calls[1..], c - 1, x);
    }
  }

  lemma {:induction false} TotalUpdate<V>(s: State<V>, calls: seq<Call<V>>, c: nat, x: Call<V>)
    requires c < |calls|
    ensures Total(s, calls[c := x]) + Weight(s, calls[c]) == Total(s, calls) + Weight(s, x)
  {
    if c == 0 {
      assert calls[c := x][1..] == calls[1..];
    } else {
      assert calls[c := x][1..] == calls[1..][c - 1 := x];
      TotalUpdate(s, calls[1..], c - 1, x);
    }
  }

  lemma {:induction false} TotalBounded<V>(s: State<V>, calls: seq<Call<V>>)
    ensures Total(s, calls) <= 4 * |calls|
  {
    if calls != [] {
      TotalBounded(s, calls[1..]);
    }
  }

  /** The weights look at the closed flights only. */
  lemma {:induction false} TotalFrame<V>(s: State<V>, t: State<V>, calls: seq<Call<V>>)
    requires s.closed == t.closed
    ensures Total(s, calls) == Total(t, calls)
  {
    if calls != [] {
      TotalFrame(s, t, calls[1..]);
    }
  }

  /** A call moves without closing a flight. */
  lemma MoveSpends<V>(s: State<V>, t: State<V>, c: nat)
    requires c < |s.calls| && |t.calls| == |s.calls| && t.calls == s.calls[c := t.calls[c]] && t.closed == s.closed
    requires !s.calls[c].Returned? && Weight(s, t.calls[c]) < Weight(s, s.calls[c])
    ensures Budget(t) < Budget(s)
  {
    PendingUpdate(s.calls, c, t.calls[c]);
    TotalUpdate(s, s.calls, c, t.calls[c]);
    TotalFrame(s, t, t.calls);
    Times(Pending(t.calls), Pending(s.calls), 4 * |s.calls| + 1);
  }

  /** A call returns and closes its flight, which may send others back to the start. */
  lemma LandingSpends<V>(s: State<V>, t: State<V>, c: nat)
    requires c < |s.calls| && |t.calls| == |s.calls| && t.calls == s.calls[c := t.calls[c]]
    requires !s.calls[c].Returned? && t.calls[c].Returned?
    ensures Budget(t) < Budget(s)
  {
    PendingUpdate(s.calls, c, t.calls[c]);
    TotalBounded(t, t.calls);
    Times(Pending(t.calls) + 1, Pending(s.calls), 4 * |s.calls| + 1);
    assert (Pending(t.calls) + 1) * (4 * |s.calls| + 1) == Pending(t.calls) * (4 * |s.calls| + 1) + (4 * |s.calls| + 1);
  }

  lemma Times(a: nat, b: nat, m: nat)
    requires a <= b
    ensures a * m <= b * m
  {
  }

  lemma StepSpends<V>(s: State<V>, e: Event<V>)
    requires Inv(s) && Enabled(s, e) && Internal(e)
    ensures Budget(Next(s, e)) < Budget(s)
  {
    var t := Next(s, e);
    match e
    case Publish(c) => LandingSpends(s, t, c);
    case Check(c) =>
      MoveSpends(s, t, c);
    case Wake(c) => MoveSpends(s, t, c);
    case Cancel(c) => MoveSpends(s, t, c);
    case Answer(c, o) => MoveSpends(s, t, c);
  }

  /** A call that has not returned has a step to take, or waits for one that does. */
  lemma SomeoneMoves<V>(s: State<V>, w: nat) returns (e: Event<V>)
    requires Inv(s) && w < |s.calls| && !s.calls[w].Returned?
    ensures Internal(e) && !e.Cancel? && Enabled(s, e)
  {
    var c := w;
    if s.calls[w].Waiting? && s.calls[w].flight !in s.closed {
      c := s.calls[w].flight;
    }
    match s.calls[c]
    case Ready(_) => e := Check(c);
    case Waiting(_, _) => e := Wake(c);
    case Loading(_) => e := Answer(c, NotFound);
    case Holding(_, _) => e := Publish(c);
    case Returned(_, _) =>
  }

  /** No deadlock and no livelock: whatever the interleaving, the calls take boundedly many steps,
      and when no step is left, every one of them has returned. */
  lemma {:induction false} EveryCallReturns<V>(s: State<V>, es: seq<Event<V>>)
    requires Inv(s) && Possible(s, es) && forall e :: e in es ==> Internal(e)
    ensures |es| <= Budget(s)
    ensures (forall e :: Internal(e) ==> !Enabled(After(s, es), e)) <==>
        (forall c :: 0 <= c < |After(s, es).calls| ==> After(s, es).calls[c].Returned?)
    decreases |es|
  {
    if es == [] {
      forall c | 0 <= c < |s.calls| && !s.calls[c].Returned?
        ensures exists e :: Internal(e) && Enabled(s, e)
      {
        var e := SomeoneMoves(s, c);
      }
    } else {
      assert es[0] in es;
      StepKeepsInv(s, es[0]);
      StepSpends(s, es[0]);
      EveryCallReturns(Next(s, es[0]), es[1..]);
    }
  }

  // ---------------------------------------------------------------- a source that does not change

  /** No edits, and the source answers the same each time unless its caller is interrupted. */
  ghost predicate Steady<V>(source: string -> Outcome<V>, s: State<V>, e: Event<V>) {
    match e
    case Edit(_, _) => false
    case Answer(c, o) => Enabled(s, e) ==> o.Interrupted? || o == source(s.calls[c].key)
    case _ => true
  }

  ghost predicate SteadyRun<V>(source: string -> Outcome<V>, s: State<V>, es: seq<Event<V>>)
    requires Possible(s, es)
    decreases |es|
  {
    es == [] || (Steady(source, s, es[0]) && SteadyRun(source, Next(s, es[0]), es[1..]))
  }

  /** The answer has been kept, or is about to be. */
  ghost predicate Held<V>(source: string -> Outcome<V>, s: State<V>, k: string) {
    k in s.cache || exists c :: Owns(s, c, k) && s.calls[c].Holding? && s.calls[c].outcome == source(k)
  }

  ghost predicate CallTruthful<V>(source: string -> Outcome<V>, s: State<V>, c: Call<V>) {
    (c.Loading? ==> c.key !in s.cache)
    && (c.Holding? ==> c.key !in s.cache && (c.outcome.Interrupted? || c.outcome == source(c.key)))
    && (c.Returned? ==> c.outcome.Interrupted? || c.outcome == source(c.key))
  }

  ghost predicate LoadedOnce<V>(source: string -> Outcome<V>, answered: seq<string>) {
    forall i, j :: 0 <= i < j < |answered| && answered[i] == answered[j] ==> !Cacheable(source(answered[i]))
  }

  ghost predicate Truthful<V>(source: string -> Outcome<V>, s: State<V>) {
    && (forall k :: k in s.cache ==> s.cache[k] == source(k) && Cacheable(s.cache[k]))
    && (forall c :: 0 <= c < |s.calls| ==> CallTruthful(source, s, s.calls[c]))
    && LoadedOnce(source, s.answered)
    && (forall k :: k in s.answered && Cacheable(source(k)) ==> Held(source, s, k))
  }

  lemma HeldStays<V>(source: string -> Outcome<V>, s: State<V>, t: State<V>, k: string)
    requires Held(source, s, k) && (forall n :: n in s.cache ==> n in t.cache) && |s.calls| <= |t.calls|
    requires forall c :: 0 <= c < |s.calls| && s.calls[c].Holding? ==> t.calls[c] == s.calls[c]
    ensures Held(source, t, k)
  {
    if k !in s.cache {
      var c :| Owns(s, c, k) && s.calls[c].Holding? && s.calls[c].outcome == source(k);
      assert Owns(t, c, k);
    }
  }

  /** Steps that neither answer nor publish. */
  lemma QuietKeepsTruth<V>(source: string -> Outcome<V>, s: State<V>, e: Event<V>)
    requires Inv(s) && Truthful(source, s) && Enabled(s, e) && !e.Edit? && !e.Answer? && !e.Publish?
    ensures Truthful(source, Next(s, e))
  {
    var t := Next(s, e);
    forall k | k in t.answered && Cacheable(source(k)) ensures Held(source, t, k) {
      HeldStays(source, s, t, k);
    }
    forall c | 0 <= c < |t.calls| ensures CallTruthful(source, t, t.calls[c]) {
      if c < |s.calls| {
        assert CallTruthful(source, s, s.calls[c]);
      }
    }
  }

  lemma AnswerKeepsTruth<V>(source: string -> Outcome<V>, s: State<V>, c: nat, o: Outcome<V>)
    requires Inv(s) && Truthful(source, s) && Enabled(s, Answer(c, o))
        && (o.Interrupted? || o == source(s.calls[c].key))
    ensures Truthful(source, Next(s, Answer(c, o)))
  {
    var t := Next(s, Answer(c, o));
    var k0 := s.calls[c].key;
    assert CallTruthful(source, s, s.calls[c]);
    assert Cacheable(source(k0)) ==> k0 !in s.answered by {
      assert Owns(s, c, k0) && !s.calls[c].Holding?;
    }
    forall k | k in t.answered && Cacheable(source(k)) ensures Held(source, t, k) {
      if k in s.answered {
        HeldStays(source, s, t, k);
      } else {
        assert Owns(t, c, k);
      }
    }
    forall d | 0 <= d < |t.calls| ensures CallTruthful(source, t, t.calls[d]) {
      assert CallTruthful(source, s, s.calls[d]);
    }
  }

  lemma PublishKeepsTruth<V>(source: string -> Outcome<V>, s: State<V>, c: nat)
    requires Inv(s) && Truthful(source, s) && Enabled(s, Publish(c))
    ensures Truthful(source, Next(s, Publish(c)))
  {
    var t := Next(s, Publish(c));
    var k0 := s.calls[c].key;
    assert CallTruthful(source, s, s.calls[c]);
    forall k | k in t.answered && Cacheable(source(k)) ensures Held(source, t, k) {
      assert Held(source, s, k);
      if k !in s.cache && k != k0 {
        var d :| Owns(s, d, k) && s.calls[d].Holding? && s.calls[d].outcome == source(k);
        assert Owns(t, d, k);
      } else if k !in s.cache {
        var d :| Owns(s, d, k) && s.calls[d].Holding? && s.calls[d].outcome == source(k);
        assert d == c;
      }
    }
    forall d | 0 <= d < |t.calls| ensures CallTruthful(source, t, t.calls[d]) {
      assert CallTruthful(source, s, s.calls[d]);
    }
  }

  lemma {:induction false} RunKeepsTruth<V>(source: string -> Outcome<V>, s: State<V>, es: seq<Event<V>>)
    requires Inv(s) && Truthful(source, s) && Possible(s, es) && SteadyRun(source, s, es)
    ensures Truthful(source, After(s, es))
    decreases |es|
  {
    if es != [] {
      var e := es[0];
      StepKeepsInv(s, e);
      if e.Answer? {
        AnswerKeepsTruth(source, s, e.c, e.outcome);
      } else if e.Publish? {
        PublishKeepsTruth(source, s, e.c);
      } else {
        QuietKeepsTruth(source, s, e);
      }
      RunKeepsTruth(source, Next(s, e), es[1..]);
    }
  }

  /** With a fixed source and no edits, a key whose outcome can be cached is loaded at most once, and
      every call that is not interrupted returns what the source holds. */
  lemma FixedSource<V>(source: string -> Outcome<V>, es: seq<Event<V>>)
    requires Possible(Empty<V>(), es) && SteadyRun(source, Empty<V>(), es)
    ensures var s := After(Empty<V>(), es);
            && (forall i, j :: 0 <= i < j < |s.answered| && s.answered[i] == s.answered[j] ==>
                  source(s.answered[i]).Failure? || source(s.answered[i]).Interrupted?)
            && (forall c :: 0 <= c < |s.calls| && s.calls[c].Returned? && !s.calls[c].outcome.Interrupted? ==>
                  s.calls[c].outcome == source(s.calls[c].key))
  {
    RunKeepsTruth(source, Empty<V>(), es);
    var s := After(Empty<V>(), es);
    forall c | 0 <= c < |s.calls| ensures CallTruthful(source, s, s.calls[c]) {
    }
  }

  /** What is kept of an answer: a value, or that there is none; after a failure or an interruption the source is
      asked again. */
  lemma OnlyAnswersAreKept<V>(s: State<V>, c: nat)
    requires Enabled(s, Publish(c))
    ensures var o, cache := s.calls[c].outcome, Next(s, Publish(c)).cache;
            if o.Failure? || o.Interrupted? then cache == s.cache else cache == s.cache[s.calls[c].key := o]
  {
  }

  // ---------------------------------------------------------------- edits against loads

  /** Nothing in flight can overwrite an edit of k: there is no loader, or it holds an answer that
      will not be kept or says the same. */
  ghost predicate Undisturbed<V>(s: State<V>, k: string, v: Outcome<V>) {
    forall c :: 0 <= c < |s.calls| && Live(s.calls[c]) && s.calls[c].key == k ==>
      s.calls[c].Holding? && (!Cacheable(s.calls[c].outcome) || s.calls[c].outcome == v)
  }

  ghost predicate Leaves<V>(k: string, es: seq<Event<V>>) {
    forall e :: e in es ==> !(e.Edit? && e.key == k)
  }

  ghost predicate Survives<V(!new)>(s: State<V>, k: string, v: Outcome<V>) {
    forall es :: Possible(s, es) && Leaves(k, es) ==> k in After(s, es).cache && After(s, es).cache[k] == v
  }

  lemma {:induction false} UndisturbedSurvives<V>(s: State<V>, k: string, v: Outcome<V>, es: seq<Event<V>>)
    requires k in s.cache && s.cache[k] == v && Undisturbed(s, k, v) && Possible(s, es) && Leaves(k, es)
    ensures k in After(s, es).cache && After(s, es).cache[k] == v
    decreases |es|
  {
    if es != [] {
      var e, t := es[0], Next(s, es[0]);
      assert e in es;
      assert k in t.cache && t.cache[k] == v;
      assert Undisturbed(t, k, v);
      UndisturbedSurvives(t, k, v, es[1..]);
    }
  }

  /** An outcome other than v that will be kept. */
  function Other<V>(v: Outcome<V>, x: V): Outcome<V> { if v.NotFound? then Value(x) else NotFound }

  /** A put or delete is seen until the next edit of its key, in every interleaving, if and only if
      no load that could overwrite it was in flight when it was made. */
  lemma EditSurvives<V(!new)>(s: State<V>, k: string, v: Outcome<V>, x: V)
    requires Inv(s) && (v.Value? || v.NotFound?)
    ensures Survives(Next(s, Edit(k, v)), k, v) <==> Undisturbed(s, k, v)
  {
    var t := Next(s, Edit(k, v));
    if Undisturbed(s, k, v) {
      assert Undisturbed(t, k, v);
      forall es | Possible(t, es) && Leaves(k, es) ensures k in After(t, es).cache && After(t, es).cache[k] == v {
        UndisturbedSurvives(t, k, v, es);
      }
    } else {
      var c :| 0 <= c < |s.calls| && Live(s.calls[c]) && s.calls[c].key == k
               && !(s.calls[c].Holding? && (!Cacheable(s.calls[c].outcome) || s.calls[c].outcome == v));
      var es := Overwriting(t, c, v, x);
      assert !Survives(t, k, v);
    }
  }

  lemma Overwriting<V>(t: State<V>, c: nat, v: Outcome<V>, x: V) returns (es: seq<Event<V>>)
    requires c < |t.calls| && Live(t.calls[c])
    requires t.calls[c].Holding? ==> Cacheable(t.calls[c].outcome) && t.calls[c].outcome != v
    ensures Possible(t, es) && Leaves(t.calls[c].key, es)
    ensures t.calls[c].key in After(t, es).cache && After(t, es).cache[t.calls[c].key] != v
  {
    if t.calls[c].Holding? {
      es := [Publish(c)];
      assert es[1..] == [];
      assert After(t, es) == Published(t, c);
    } else {
      var o := Other(v, x);
      es := [Answer(c, o), Publish(c)];
      var u := Next(t, Answer(c, o));
      assert es[1..] == [Publish(c)] && es[1..][1..] == [];
      assert Possible(u, [Publish(c)]);
      assert After(u, [Publish(c)]) == Published(u, c);
      assert After(t, es) == Published(u, c);
    }
  }

  /** When every call has returned, as between two calls of the session, nothing is in flight and
      every edit lasts. */
  lemma QuietEditSurvives<V(!new)>(es: seq<Event<V>>, k: string, v: Outcome<V>)
    requires Possible(Empty<V>(), es) && (v.Value? || v.NotFound?)
    requires forall c :: 0 <= c < |After(Empty<V>(), es).calls| ==> After(Empty<V>(), es).calls[c].Returned?
    ensures var s := After(Empty<V>(), es);
            s.flights == map[] && Survives(Next(s, Edit(k, v)), k, v)
  {
    RunKeepsInv(Empty<V>(), es);
    var s := After(Empty<V>(), es);
    forall n ensures n !in s.flights {
      assert n in s.flights ==> Owns(s, s.flights[n], n);
    }
    var t := Next(s, Edit(k, v));
    assert Undisturbed(t, k, v);
    forall es | Possible(t, es) && Leaves(k, es) ensures k in After(t, es).cache && After(t, es).cache[k] == v {
      UndisturbedSurvives(t, k, v, es);
    }
  }
}
