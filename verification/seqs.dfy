/** Filtering, mapping and reversing of sequences. */
module Seqs {

  function Filter<T>(p: T -> bool, s: seq<T>): seq<T> {
    if s == [] then [] else (if p(s[0]) then [s[0]] else []) + Filter(p, s[1..])
  }

  function Map<T, U>(f: T -> U, s: seq<T>): (r: seq<U>)
    ensures |r| == |s| && forall i :: 0 <= i < |s| ==> r[i] == f(s[i])
  {
    seq(|s|, i requires 0 <= i < |s| => f(s[i]))
  }

  function Reverse<T>(s: seq<T>): (r: seq<T>)
    ensures |r| == |s| && forall i :: 0 <= i < |s| ==> r[i] == s[|s| - 1 - i]
  {
    seq(|s|, i requires 0 <= i < |s| => s[|s| - 1 - i])
  }

  lemma {:induction false} FilterConcat<T>(p: T -> bool, a: seq<T>, b: seq<T>)
    ensures Filter(p, a + b) == Filter(p, a) + Filter(p, b)
  {
    if a == [] {
      assert a + b == b;
    } else {
      var all, rest, first := a + b, a[1..], if p(a[0]) then [a[0]] else [];
      assert all[0] == a[0] && all[1..] == rest + b;
      FilterConcat(p, rest, b);
      assert Filter(p, all) == first + Filter(p, rest + b);
      assert Filter(p, a) == first + Filter(p, rest);
      Reassociate(first, Filter(p, rest), Filter(p, b));
    }
  }

  lemma Reassociate<T>(a: seq<T>, b: seq<T>, c: seq<T>)
    ensures a + (b + c) == (a + b) + c
  {
  }

  lemma ReverseConcat<T>(a: seq<T>, b: seq<T>)
    ensures Reverse(a + b) == Reverse(b) + Reverse(a)
  {
  }

  lemma {:induction false} FilterReverse<T>(p: T -> bool, s: seq<T>)
    ensures Filter(p, Reverse(s)) == Reverse(Filter(p, s))
  {
    if s != [] {
      var h, t := [s[0]], s[1..];
      assert s == h + t;
      ReverseConcat(h, t);
      assert Reverse(h) == h;
      FilterConcat(p, Reverse(t), h);
      FilterReverse(p, t);
      assert h[1..] == [];
      ReverseConcat(Filter(p, h), Filter(p, t));
      FilterConcat(p, h, t);
    } else {
      assert Reverse(s) == s;
    }
  }

  lemma {:induction false} FilterMembers<T>(p: T -> bool, s: seq<T>)
    ensures forall x :: x in Filter(p, s) <==> x in s && p(x)
  {
    if s != [] {
      FilterMembers(p, s[1..]);
      assert s == [s[0]] + s[1..];
    }
  }

  /** Filtering twice keeps what both tests keep. */
  lemma {:induction false} FilterFilter<T>(p: T -> bool, q: T -> bool, s: seq<T>)
    ensures (forall x :: x in s && p(x) ==> q(x)) ==> Filter(p, Filter(q, s)) == Filter(p, s)
    ensures (forall x :: x in s && p(x) ==> !q(x)) ==> Filter(p, Filter(q, s)) == []
  {
    if s != [] {
      FilterFilter(p, q, s[1..]);
      FilterConcat(p, if q(s[0]) then [s[0]] else [], Filter(q, s[1..]));
      assert [s[0]][1..] == [];
      assert s == [s[0]] + s[1..];
    }
  }

  lemma {:induction false} FilterMap<T, U>(p: U -> bool, q: T -> bool, f: T -> U, s: seq<T>)
    requires forall x :: x in s ==> (p(f(x)) <==> q(x))
    ensures Filter(p, Map(f, s)) == Map(f, Filter(q, s))
  {
    if s == [] {
      assert Map(f, s) == [];
    } else {
      assert Map(f, s) == [f(s[0])] + Map(f, s[1..]);
      assert Map(f, s)[1..] == Map(f, s[1..]);
      FilterMap(p, q, f, s[1..]);
    }
  }

  lemma {:induction false} FilterAll<T>(p: T -> bool, s: seq<T>)
    requires forall x :: x in s ==> p(x)
    ensures Filter(p, s) == s
  {
    if s != [] {
      FilterAll(p, s[1..]);
    }
  }

  predicate ToAll<T>(p: (T, T) -> bool, x: T, s: seq<T>) { s == [] || (p(x, s[0]) && ToAll(p, x, s[1..])) }

  /** Every element is related to every later one. */
  predicate Pairwise<T>(p: (T, T) -> bool, s: seq<T>) { s == [] || (ToAll(p, s[0], s[1..]) && Pairwise(p, s[1..])) }

  lemma {:induction false} ToAllIs<T>(p: (T, T) -> bool, x: T, s: seq<T>)
    ensures ToAll(p, x, s) <==> forall j :: 0 <= j < |s| ==> p(x, s[j])
  {
    if s != [] {
      var rest := s[1..];
      ToAllIs(p, x, rest);
      if p(x, s[0]) && forall j :: 0 <= j < |rest| ==> p(x, rest[j]) {
        forall j | 0 <= j < |s| ensures p(x, s[j]) {
          assert j > 0 ==> s[j] == rest[j - 1];
        }
      }
      if forall j :: 0 <= j < |s| ==> p(x, s[j]) {
        forall j | 0 <= j < |rest| ensures p(x, rest[j]) {
          assert rest[j] == s[j + 1];
        }
      }
    }
  }

  lemma {:induction false} PairwiseIs<T>(p: (T, T) -> bool, s: seq<T>)
    ensures Pairwise(p, s) <==> forall i, j :: 0 <= i < j < |s| ==> p(s[i], s[j])
  {
    if s != [] {
      var rest := s[1..];
      PairwiseIs(p, rest);
      ToAllIs(p, s[0], rest);
      if Pairwise(p, s) {
        forall i, j | 0 <= i < j < |s| ensures p(s[i], s[j]) {
          assert s[j] == rest[j - 1] && (i > 0 ==> s[i] == rest[i - 1]);
        }
      }
      if forall i, j :: 0 <= i < j < |s| ==> p(s[i], s[j]) {
        forall i, j | 0 <= i < j < |rest| ensures p(rest[i], rest[j]) {
          assert rest[i] == s[i + 1] && rest[j] == s[j + 1];
        }
        forall j | 0 <= j < |rest| ensures p(s[0], rest[j]) {
          assert rest[j] == s[j + 1];
        }
      }
    }
  }

  lemma {:induction false} ToAllFilter<T>(p: (T, T) -> bool, x: T, f: T -> bool, s: seq<T>)
    requires forall j :: 0 <= j < |s| && !f(s[j]) ==> p(x, s[j])
    ensures ToAll(p, x, s) <==> ToAll(p, x, Filter(f, s))
  {
    if s != [] {
      var all, left := Filter(f, s), Filter(f, s[1..]);
      assert forall j :: 0 <= j < |s[1..]| ==> s[1..][j] == s[j + 1];
      ToAllFilter(p, x, f, s[1..]);
      if f(s[0]) {
        assert all[0] == s[0] && all[1..] == left;
      } else {
        assert all == left;
      }
    }
  }

  /** What holds anyway of those that are left out need not be asked of them. */
  lemma {:induction false} PairwiseFilter<T>(p: (T, T) -> bool, f: T -> bool, s: seq<T>)
    requires forall i, j :: 0 <= i < |s| && 0 <= j < |s| && !(f(s[i]) && f(s[j])) ==> p(s[i], s[j])
    ensures Pairwise(p, s) <==> Pairwise(p, Filter(f, s))
  {
    if s != [] {
      var rest := s[1..];
      assert forall j :: 0 <= j < |rest| ==> rest[j] == s[j + 1];
      PairwiseFilter(p, f, rest);
      assert forall j :: 0 <= j < |rest| && !f(rest[j]) ==> p(s[0], rest[j]);
      ToAllFilter(p, s[0], f, rest);
      var all, left := Filter(f, s), Filter(f, rest);
      if f(s[0]) {
        assert all[0] == s[0] && all[1..] == left;
      } else {
        assert all == left && forall j :: 0 <= j < |rest| ==> p(s[0], rest[j]);
        ToAllIs(p, s[0], rest);
      }
    }
  }

  lemma ReverseMap<T, U>(f: T -> U, s: seq<T>)
    ensures Reverse(Map(f, s)) == Map(f, Reverse(s))
  {
  }

  lemma MapConcat<T, U>(f: T -> U, a: seq<T>, b: seq<T>)
    ensures Map(f, a + b) == Map(f, a) + Map(f, b)
  {
  }

  // ---------------------------------------------------------------- runs

  /** `states` is a run: every state is sound, and each label leads from one state to the next. */
  ghost predicate Chain<C, S>(sound: S -> bool, step: (C, S, S) -> bool, labels: seq<C>, states: seq<S>) {
    |states| == |labels| + 1
    && (forall i :: 0 <= i < |states| ==> sound(states[i]))
    && (forall i {:trigger labels[i]} :: 0 <= i < |labels| ==> step(labels[i], states[i], states[i + 1]))
  }

  lemma ChainTail<C, S>(sound: S -> bool, step: (C, S, S) -> bool, labels: seq<C>, states: seq<S>)
    requires Chain(sound, step, labels, states) && labels != []
    ensures Chain(sound, step, labels[1..], states[1..])
  {
    forall i | 0 <= i < |labels[1..]| ensures step(labels[1..][i], states[1..][i], states[1..][i + 1]) {
      assert labels[1..][i] == labels[i + 1];
    }
  }

  lemma ChainCons<C, S>(sound: S -> bool, step: (C, S, S) -> bool, c: C, s: S, labels: seq<C>, states: seq<S>)
    requires Chain(sound, step, labels, states) && sound(s) && step(c, s, states[0])
    ensures Chain(sound, step, [c] + labels, [s] + states)
  {
    var ls, ss := [c] + labels, [s] + states;
    forall i | 0 <= i < |ls| ensures step(ls[i], ss[i], ss[i + 1]) {
      if i > 0 { assert ls[i] == labels[i - 1] && ss[i] == states[i - 1] && ss[i + 1] == states[i]; }
    }
    forall i | 0 <= i < |ss| ensures sound(ss[i]) {
      if i > 0 { assert ss[i] == states[i - 1]; }
    }
  }

  /** What an observer of one component sees of a run: only the labels that concern the component. */
  lemma {:induction false} ProjectChain<C(!new), S(!new), V(!new)>(
      sound: S -> bool, step: (C, S, S) -> bool, see: S -> V, mine: C -> bool,
      soundV: V -> bool, stepV: (C, V, V) -> bool, labels: seq<C>, states: seq<S>) returns (seen: seq<V>)
    requires Chain(sound, step, labels, states)
    requires forall s :: sound(s) ==> soundV(see(s))
    requires forall c, s, t :: step(c, s, t) && sound(s) && mine(c) ==> stepV(c, see(s), see(t))
    requires forall c, s, t :: step(c, s, t) && sound(s) && !mine(c) ==> see(t) == see(s)
    ensures Chain(soundV, stepV, Filter(mine, labels), seen)
    ensures seen[0] == see(states[0]) && seen[|seen| - 1] == see(states[|labels|])
    decreases |labels|
  {
    if labels == [] {
      seen := [see(states[0])];
    } else {
      ChainTail(sound, step, labels, states);
      var rest := ProjectChain(sound, step, see, mine, soundV, stepV, labels[1..], states[1..]);
      assert step(labels[0], states[0], states[1]);
      if mine(labels[0]) {
        ChainCons(soundV, stepV, labels[0], see(states[0]), Filter(mine, labels[1..]), rest);
        seen := [see(states[0])] + rest;
      } else {
        seen := rest;
      }
    }
  }

  lemma ChooseEach<K, V(!new)>(keys: set<K>, p: (K, V) -> bool) returns (m: map<K, V>)
    requires forall k :: k in keys ==> exists v :: p(k, v)
    ensures m.Keys == keys && forall k :: k in keys ==> p(k, m[k])
  {
    m := map k | k in keys :: var v :| p(k, v); v;
  }

  // ---------------------------------------------------------------- running a list of steps

  /** Some way of taking the steps in order leads from `s` to `t`. */
  ghost predicate Runs<X, S(!new)>(step: (X, S, S) -> bool, xs: seq<X>, s: S, t: S)
    decreases |xs|
  {
    if xs == [] then s == t else exists m :: step(xs[0], s, m) && Runs(step, xs[1..], m, t)
  }

  lemma {:induction false} RunsSnoc<X, S(!new)>(step: (X, S, S) -> bool, xs: seq<X>, x: X, s: S, t: S)
    ensures Runs(step, xs + [x], s, t) <==> exists m :: Runs(step, xs, s, m) && step(x, m, t)
    decreases |xs|
  {
    var all := xs + [x];
    if xs == [] {
      assert all[1..] == [];
      assert Runs(step, all, s, t) <==> exists m :: step(x, s, m) && Runs(step, [], m, t);
      assert Runs(step, xs, s, s);
    } else {
      assert all[0] == xs[0] && all[1..] == xs[1..] + [x];
      forall n ensures Runs(step, all[1..], n, t) <==> exists m :: Runs(step, xs[1..], n, m) && step(x, m, t) {
        RunsSnoc(step, xs[1..], x, n, t);
      }
      if Runs(step, all, s, t) {
        var n :| step(xs[0], s, n) && Runs(step, all[1..], n, t);
        var m :| Runs(step, xs[1..], n, m) && step(x, m, t);
        assert Runs(step, xs, s, m);
      }
      if m :| Runs(step, xs, s, m) && step(x, m, t) {
        var n :| step(xs[0], s, n) && Runs(step, xs[1..], n, m);
        assert Runs(step, all[1..], n, t);
      }
    }
  }

  lemma TwoSteps<X, S(!new)>(step: (X, S, S) -> bool, x: X, y: X, s: S, m: S, t: S)
    requires step(x, s, m) && step(y, m, t)
    ensures Runs(step, [x, y], s, t)
  {
    var xs := [x, y];
    assert xs[1..] == [y] && [y][1..] == [];
    assert Runs(step, [], t, t);
    assert Runs(step, [y], m, t);
  }

  /** However many of the steps are taken from the head of `path`, they lead to the place on it that is
      as far along, and nowhere else. */
  ghost predicate Follows<X, S(!new)>(step: (X, S, S) -> bool, xs: seq<X>, path: seq<S>) {
    |path| == |xs| + 1
    && forall k, t :: 0 <= k <= |xs| ==> (Runs(step, xs[..k], path[0], t) <==> t == path[k])
  }

  lemma {:induction false} RunsAlong<X, S(!new)>(step: (X, S, S) -> bool, xs: seq<X>, path: seq<S>, k: nat, t: S)
    requires |path| == |xs| + 1 && k <= |xs|
    requires forall i, u :: 0 <= i < |xs| ==> (step(xs[i], path[i], u) <==> u == path[i + 1])
    ensures Runs(step, xs[..k], path[0], t) <==> t == path[k]
    decreases k
  {
    if k > 0 {
      var n := k - 1;
      assert xs[..k] == xs[..n] + [xs[n]];
      RunsSnoc(step, xs[..n], xs[n], path[0], t);
      forall m ensures Runs(step, xs[..n], path[0], m) <==> m == path[n] {
        RunsAlong(step, xs, path, n, m);
      }
      assert step(xs[n], path[n], t) <==> t == path[n + 1];
    }
  }

  /** The step leads on to `to` and nowhere else; if it is not `good`, it does not lead there. */
  ghost predicate Leads<X, S(!new)>(step: (X, S, S) -> bool, x: X, from: S, to: S, good: bool) {
    if good then forall u :: step(x, from, u) <==> u == to else !step(x, from, to)
  }

  /** The steps follow the path if and only if all of them are good. */
  lemma FollowsEach<X, S(!new)>(step: (X, S, S) -> bool, xs: seq<X>, path: seq<S>, good: seq<bool>)
    requires |path| == |xs| + 1 && |good| == |xs|
    requires forall i {:trigger xs[i]} :: 0 <= i < |xs| ==> Leads(step, xs[i], path[i], path[i + 1], good[i])
    ensures Follows(step, xs, path) <==> forall i :: 0 <= i < |xs| ==> good[i]
  {
    if forall i :: 0 <= i < |xs| ==> good[i] {
      forall i, u | 0 <= i < |xs| ensures step(xs[i], path[i], u) <==> u == path[i + 1] {
        assert Leads(step, xs[i], path[i], path[i + 1], good[i]);
      }
      forall k, t | 0 <= k <= |xs| ensures Runs(step, xs[..k], path[0], t) <==> t == path[k] {
        RunsAlong(step, xs, path, k, t);
      }
    }
    if Follows(step, xs, path) {
      forall i | 0 <= i < |xs| ensures good[i] {
        assert xs[..i + 1] == xs[..i] + [xs[i]];
        RunsSnoc(step, xs[..i], xs[i], path[0], path[i + 1]);
        assert Runs(step, xs[..i + 1], path[0], path[i + 1]);
        var m :| Runs(step, xs[..i], path[0], m) && step(xs[i], m, path[i + 1]);
        assert m == path[i];
      }
    }
  }

  predicate AllTrue(good: seq<bool>) { forall n :: 0 <= n < |good| ==> good[n] }

  /** The steps lead back, the last one first, as far as they are good. */
  ghost predicate LeadBack<X, S(!new)>(step: (X, S, S) -> bool, xs: seq<X>, states: seq<S>, good: seq<bool>) {
    |states| == |xs| + 1 && |good| == |xs| && forall n :: 0 <= n < |xs| ==> LeadsNth(step, xs, states, good, n)
  }

  /** Counted from the end. */
  ghost predicate LeadsNth<X, S(!new)>(step: (X, S, S) -> bool, xs: seq<X>, states: seq<S>, good: seq<bool>, n: nat)
    requires |states| == |xs| + 1 && |good| == |xs| && n < |xs|
  {
    Leads(step, xs[|xs| - 1 - n], states[n + 1], states[n], good[n])
  }

  lemma FollowsBack<X, S(!new)>(step: (X, S, S) -> bool, xs: seq<X>, states: seq<S>, good: seq<bool>)
    requires LeadBack(step, xs, states, good)
    ensures Follows(step, xs, Reverse(states)) <==> AllTrue(good)
  {
    var path, back := Reverse(states), Reverse(good);
    forall i {:trigger xs[i]} | 0 <= i < |xs| ensures Leads(step, xs[i], path[i], path[i + 1], back[i]) {
      var n := |xs| - 1 - i;
      assert LeadsNth(step, xs, states, good, n);
      assert back[i] == good[n] && path[i] == states[n + 1] && path[i + 1] == states[n];
    }
    FollowsEach(step, xs, path, back);
    assert forall n :: 0 <= n < |xs| ==> good[n] == back[|xs| - 1 - n];
  }

  lemma FollowsToTheEnd<X, S(!new)>(step: (X, S, S) -> bool, xs: seq<X>, path: seq<S>, t: S)
    requires Follows(step, xs, path)
    ensures Runs(step, xs, path[0], t) <==> t == path[|xs|]
  {
    assert xs[..|xs|] == xs;
    assert Runs(step, xs[..|xs|], path[0], t) <==> t == path[|xs|];
  }

  /** A step that leads nowhere stops the whole run. */
  lemma {:induction false} RunsInto<X, S(!new)>(step: (X, S, S) -> bool, xs: seq<X>, k: nat, s: S, t: S)
    requires k < |xs| && forall a, b :: !step(xs[k], a, b)
    ensures !Runs(step, xs, s, t)
    decreases |xs|
  {
    if k > 0 {
      forall m ensures !Runs(step, xs[1..], m, t) {
        assert xs[1..][k - 1] == xs[k];
        RunsInto(step, xs[1..], k - 1, m, t);
      }
    }
  }

  /** Every two elements at one place, and the states before and after it, are related. */
  ghost predicate Linked<A, B, S>(p: (A, B, S, S) -> bool, xs: seq<A>, ys: seq<B>, states: seq<S>) {
    |ys| == |xs| && |states| == |ys| + 1
    && forall j {:trigger ys[j]} :: 0 <= j < |ys| ==> p(xs[j], ys[j], states[j], states[j + 1])
  }

  lemma LinkedSnoc<A, B, S>(p: (A, B, S, S) -> bool, xs: seq<A>, ys: seq<B>, states: seq<S>, x: A, y: B, s: S)
    requires Linked(p, xs, ys, states) && p(x, y, states[|ys|], s)
    ensures Linked(p, xs + [x], ys + [y], states + [s])
  {
    var xs', ys', states' := xs + [x], ys + [y], states + [s];
    forall j | 0 <= j < |ys'| ensures p(xs'[j], ys'[j], states'[j], states'[j + 1]) {
      if j < |ys| {
        assert ys'[j] == ys[j] && xs'[j] == xs[j] && states'[j] == states[j] && states'[j + 1] == states[j + 1];
      }
    }
  }
}
