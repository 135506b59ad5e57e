/**
  Reordering steps of an arbitrary deterministic machine: if steps that do not conflict commute, then
  every schedule that keeps conflicting steps in order has the same outcome.
 */
module Schedules {
  /** Runs the steps one after the other and records what each one answered. */
  function Run<S, T(==), V>(step: (S, T) -> (S, V), s: S, ts: seq<T>): (S, map<T, V>)
    decreases ts
  {
    if ts == [] then (s, map[])
    else
      var (s', v) := step(s, ts[0]);
      var (last, answers) := Run(step, s', ts[1..]);
      (last, answers[ts[0] := v])
  }

  /** In either order, the two steps give the same answers and reach the same state. */
  ghost predicate Commute<S(!new), T, V>(step: (S, T) -> (S, V), t: T, u: T) {
    forall s ::
      && step(step(s, t).0, u).1 == step(s, u).1
      && step(step(s, u).0, t).1 == step(s, t).1
      && step(step(s, t).0, u).0 == step(step(s, u).0, t).0
  }

  ghost predicate Distinct<T(!new)>(s: seq<T>) {
    forall i, j :: 0 <= i < j < |s| ==> s[i] != s[j]
  }

  ghost predicate Before<T(!new)>(s: seq<T>, a: T, b: T) {
    exists i, j :: 0 <= i < j < |s| && s[i] == a && s[j] == b
  }

  ghost predicate SameMembers<T(!new)>(s: seq<T>, t: seq<T>) {
    forall x :: x in s <==> x in t
  }

  /** A schedule of the same distinct steps that keeps every pair that does not commute in the given order. */
  ghost predicate Respects<S(!new), T(!new), V>(step: (S, T) -> (S, V), order: seq<T>, schedule: seq<T>) {
    && SameMembers(order, schedule)
    && Distinct(order) && Distinct(schedule)
    && forall i, j :: 0 <= i < j < |order| && !Commute(step, order[i], order[j]) ==>
         Before(schedule, order[i], order[j])
  }

  function Without<T>(s: seq<T>, p: nat): seq<T>
    requires p < |s|
  {
    s[..p] + s[p + 1..]
  }

  lemma WithoutDistinct<T(!new)>(s: seq<T>, p: nat)
    requires p < |s| && Distinct(s)
    ensures Distinct(Without(s, p))
    ensures forall x :: x in Without(s, p) <==> x in s && x != s[p]
  {
    var w := Without(s, p);
    assert forall i :: 0 <= i < |w| ==> w[i] == s[if i < p then i else i + 1];
    forall x | x in s && x != s[p]
      ensures x in w
    {
      var q :| 0 <= q < |s| && s[q] == x;
      assert w[if q < p then q else q - 1] == x;
    }
    forall x | x in w
      ensures x in s && x != s[p]
    {
      var q :| 0 <= q < |w| && w[q] == x;
      assert s[if q < p then q else q + 1] == x;
    }
  }

  lemma WithoutBefore<T(!new)>(s: seq<T>, p: nat, a: T, b: T)
    requires p < |s| && Before(s, a, b) && a != s[p] && b != s[p]
    ensures Before(Without(s, p), a, b)
  {
    var i, j :| 0 <= i < j < |s| && s[i] == a && s[j] == b;
    var w := Without(s, p);
    assert w[if i < p then i else i - 1] == a && w[if j < p then j else j - 1] == b;
  }

  lemma RunFirst<S, T, V>(step: (S, T) -> (S, V), s: S, t: T, rest: seq<T>)
    ensures var (s', v) := step(s, t);
            var (last, answers) := Run(step, s', rest);
            Run(step, s, [t] + rest) == (last, answers[t := v])
  {
    assert ([t] + rest)[1..] == rest;
  }

  lemma SwapFirstTwo<S(!new), T, V>(step: (S, T) -> (S, V), s: S, t: T, u: T, rest: seq<T>)
    requires t != u && Commute(step, t, u)
    ensures Run(step, s, [t] + ([u] + rest)) == Run(step, s, [u] + ([t] + rest))
  {
    var (st, vt) := step(s, t);
    var (su, vu) := step(s, u);
    RunFirst(step, s, t, [u] + rest);
    RunFirst(step, st, u, rest);
    RunFirst(step, s, u, [t] + rest);
    RunFirst(step, su, t, rest);
    var tail := Run(step, step(st, u).0, rest).1;
    assert tail[u := vu][t := vt] == tail[t := vt][u := vu];
  }

  /** A step that commutes with each of those before it can be run first. */
  lemma {:induction false} MoveToFront<S(!new), T, V>(
    step: (S, T) -> (S, V), s: S, before: seq<T>, x: T, after: seq<T>)
    requires x !in before
    requires forall t :: t in before ==> Commute(step, t, x)
    ensures Run(step, s, before + ([x] + after)) == Run(step, s, [x] + (before + after))
    decreases before
  {
    if before == [] {
      assert before + ([x] + after) == [x] + (before + after);
    } else {
      var b, rest := before[0], before[1..];
      assert before == [b] + rest && b in before;
      MoveToFront(step, step(s, b).0, rest, x, after);
      assert before + ([x] + after) == [b] + (rest + ([x] + after));
      RunFirst(step, s, b, rest + ([x] + after));
      RunFirst(step, s, b, [x] + (rest + after));
      SwapFirstTwo(step, s, b, x, rest + after);
      assert before + after == [b] + (rest + after);
    }
  }

  lemma NothingBeforeConflicts<S(!new), T(!new), V>(
    step: (S, T) -> (S, V), order: seq<T>, schedule: seq<T>, p: nat)
    requires Respects(step, order, schedule)
    requires order != [] && p < |schedule| && schedule[p] == order[0]
    ensures order[0] !in schedule[..p]
    ensures forall t :: t in schedule[..p] ==> Commute(step, t, order[0])
  {
    forall t | t in schedule[..p]
      ensures Commute(step, t, order[0])
    {
      var q :| 0 <= q < p && schedule[q] == t;
      assert t in schedule && t in order;
      var j :| 0 <= j < |order| && order[j] == t;
      assert !Before(schedule, order[0], t);
      assert Commute(step, order[0], t);
    }
  }

  lemma RestRespects<S(!new), T(!new), V>(step: (S, T) -> (S, V), order: seq<T>, schedule: seq<T>, p: nat)
    requires Respects(step, order, schedule)
    requires order != [] && p < |schedule| && schedule[p] == order[0]
    ensures Respects(step, order[1..], Without(schedule, p))
  {
    var rest, s := order[1..], Without(schedule, p);
    assert Without(order, 0) == rest;
    WithoutDistinct(order, 0);
    WithoutDistinct(schedule, p);
    forall i, j | 0 <= i < j < |rest| && !Commute(step, rest[i], rest[j])
      ensures Before(s, rest[i], rest[j])
    {
      assert order[i + 1] == rest[i] && order[j + 1] == rest[j];
      WithoutBefore(schedule, p, rest[i], rest[j]);
    }
  }

  lemma NonEmptyHasMember<T(!new)>(s: seq<T>)
    ensures s != [] ==> exists x :: x in s
  {
    if s != [] {
      assert s[0] in s;
    }
  }

  /** Every schedule that keeps the non-commuting steps in order has the same answers and the same end. */
  lemma {:induction false} SameOutcome<S(!new), T(!new), V>(
    step: (S, T) -> (S, V), s: S, order: seq<T>, schedule: seq<T>)
    requires Respects(step, order, schedule)
    ensures Run(step, s, order) == Run(step, s, schedule)
    decreases order
  {
    if order == [] {
      NonEmptyHasMember(schedule);
    } else {
      var x := order[0];
      assert x in order;
      var p :| 0 <= p < |schedule| && schedule[p] == x;
      NothingBeforeConflicts(step, order, schedule, p);
      MoveToFront(step, s, schedule[..p], x, schedule[p + 1..]);
      assert schedule == schedule[..p] + ([x] + schedule[p + 1..]);
      RestRespects(step, order, schedule, p);
      SameOutcome(step, step(s, x).0, order[1..], Without(schedule, p));
      RunFirst(step, s, x, order[1..]);
      RunFirst(step, s, x, Without(schedule, p));
      assert order == [x] + order[1..];
    }
  }
}
