/**
Kahn's algorithm with a sorted frontier, over names.

`Drain` is the main loop. It is proved against `IsGreedy`: every emitted name is the least
one whose providers have all been emitted. That determines the order, so nothing about the
order in which names were registered or met in a map can show in the result.
*/
module Kahn {
  import opened Collections
  import opened Graphs
  import opened StringOrder

  /** The names not yet emitted whose providers all have been. */
  ghost function Available(edges: set<(string, string)>, names: set<string>, done: set<string>): set<string> {
    set n | n in names && n !in done && forall e | e in edges && e.0 == n :: e.1 in done
  }

  /** Each name is the least available one at its turn. */
  ghost predicate IsGreedy(edges: set<(string, string)>, names: set<string>, out: seq<string>) {
    forall k | 0 <= k < |out| :: IsLeast(out[k], Available(edges, names, Elements(out[..k])))
  }

  /** A greedy order that cannot be continued. */
  ghost predicate IsGreedyToTheEnd(edges: set<(string, string)>, names: set<string>, out: seq<string>) {
    IsGreedy(edges, names, out) && Available(edges, names, Elements(out)) == {}
  }

  // --------------------------------------------------------- the main loop

  /** Occurrences of `n` as a dependent of a provider not yet emitted, repeated edges included. */
  ghost function Unmet(edges: seq<(string, string)>, n: string, done: set<string>): nat {
    if edges == [] then 0
    else
      var e := edges[|edges| - 1];
      Unmet(edges[..|edges| - 1], n, done) + if e.0 == n && e.1 !in done then 1 else 0
  }

  ghost function Dependents(edges: seq<(string, string)>, q: string): seq<string> {
    if edges == [] then []
    else
      var e := edges[|edges| - 1];
      Dependents(edges[..|edges| - 1], q) + if e.1 == q then [e.0] else []
  }

  /** `inDegree` and `dependents` describe `edges`, a list over `names` without self-edges. */
  ghost predicate Indexes(edges: seq<(string, string)>, names: set<string>,
                          inDegree: map<string, int>, dependents: map<string, seq<string>>)
  {
    && inDegree.Keys == names
    && (forall e | e in edges :: e.0 in names && e.1 in names && e.0 != e.1)
    && (forall n | n in names :: inDegree[n] == Unmet(edges, n, {}))
    && (forall q :: Get(dependents, q) == Dependents(edges, q))
  }

  /** A missing key reads as the empty slice. */
  function Get(m: map<string, seq<string>>, k: string): seq<string> {
    if k in m then m[k] else []
  }

  lemma {:induction false} UnmetZero(edges: seq<(string, string)>, n: string, done: set<string>)
    ensures Unmet(edges, n, done) == 0 <==> forall e | e in edges && e.0 == n :: e.1 in done
  {
    if edges != [] {
      UnmetZero(edges[..|edges| - 1], n, done);
      assert edges == edges[..|edges| - 1] + [edges[|edges| - 1]];
    }
  }

  /** Emitting `q` meets exactly the occurrences listed in its dependents. */
  lemma {:induction false} UnmetStep(edges: seq<(string, string)>, n: string, done: set<string>, q: string)
    requires q !in done
    ensures Unmet(edges, n, done) == Unmet(edges, n, done + {q}) + multiset(Dependents(edges, q))[n]
  {
    if edges != [] {
      UnmetStep(edges[..|edges| - 1], n, done, q);
    }
  }

  lemma {:induction false} DependentsAreNames(edges: seq<(string, string)>, q: string, n: string)
    requires n in Dependents(edges, q)
    ensures (n, q) in edges
  {
    if edges[|edges| - 1] != (n, q) {
      DependentsAreNames(edges[..|edges| - 1], q, n);
    }
  }

  lemma OneMoreEdge(edges: seq<(string, string)>, e: (string, string), n: string)
    ensures Unmet(edges + [e], n, {}) == Unmet(edges, n, {}) + if n == e.0 then 1 else 0
    ensures Dependents(edges + [e], n) == Dependents(edges, n) + if n == e.1 then [e.0] else []
  {
    assert (edges + [e])[..|edges|] == edges;
  }

  method AddEdge(ghost edges: seq<(string, string)>, ghost names: set<string>, a: string, b: string,
                 inDegree0: map<string, int>, dependents0: map<string, seq<string>>)
    returns (inDegree: map<string, int>, dependents: map<string, seq<string>>)
    requires Indexes(edges, names, inDegree0, dependents0)
    requires a in names && b in names && a != b
    ensures Indexes(edges + [(a, b)], names, inDegree, dependents)
  {
    dependents := dependents0[b := Get(dependents0, b) + [a]];
    inDegree := inDegree0[a := inDegree0[a] + 1];
    hide Unmet, Dependents;
    ghost var edges' := edges + [(a, b)];
    forall n | n in names ensures inDegree[n] == Unmet(edges', n, {}) {
      OneMoreEdge(edges, (a, b), n);
    }
    forall q ensures Get(dependents, q) == Dependents(edges', q) {
      OneMoreEdge(edges, (a, b), q);
    }
  }

  /** The frontier: sorted, and holding exactly the names that may be emitted next. */
  ghost predicate Frontier(names: set<string>, inDegree: map<string, int>, done: set<string>, ready: seq<string>) {
    && inDegree.Keys == names
    && Ascending(ready)
    && Elements(ready) == set n | n in names && n !in done && inDegree[n] == 0
  }

  /** One fewer unmet requirement for `dep`, which joins the frontier when none is left. */
  method Decrement(ghost names: set<string>, ghost done: set<string>, dep: string,
                   inDegree0: map<string, int>, ready0: seq<string>)
    returns (inDegree: map<string, int>, ready: seq<string>)
    requires Frontier(names, inDegree0, done, ready0)
    requires dep in names && dep !in done && inDegree0[dep] > 0
    ensures inDegree == inDegree0[dep := inDegree0[dep] - 1] && inDegree.Keys == names
    ensures Frontier(names, inDegree, done, ready)
  {
    inDegree, ready := inDegree0[dep := inDegree0[dep] - 1], ready0;
    assert dep !in Elements(ready);
    if inDegree[dep] == 0 {
      ready := InsertSorted(ready, dep);
    }
  }

  /** Takes the emission of `done`'s newest name into account: one decrement per listed dependent. */
  method Release(ghost edges: seq<(string, string)>, ghost names: set<string>, ghost done: set<string>,
                 deps: seq<string>, inDegree0: map<string, int>, ready0: seq<string>)
    returns (inDegree: map<string, int>, ready: seq<string>)
    requires inDegree0.Keys == names && Frontier(names, inDegree0, done, ready0) && done <= names
    requires forall d | d in deps :: d in names
    requires forall n | n in names :: inDegree0[n] == Unmet(edges, n, done) + multiset(deps)[n]
    requires forall n | n in done :: inDegree0[n] == 0
    ensures Frontier(names, inDegree, done, ready)
    ensures forall n | n in names :: inDegree[n] == Unmet(edges, n, done)
    ensures forall n | n in done :: inDegree[n] == 0
  {
    hide Unmet, Frontier;
    inDegree, ready := inDegree0, ready0;
    assert deps[0..] == deps;
    for i := 0 to |deps|
      invariant inDegree.Keys == names && Frontier(names, inDegree, done, ready)
      invariant forall n | n in names :: inDegree[n] == Unmet(edges, n, done) + multiset(deps[i..])[n]
      invariant forall n | n in done :: inDegree[n] == 0
    {
      assert deps[i..] == [deps[i]] + deps[i + 1..];
      assert multiset(deps[i..]) == multiset{deps[i]} + multiset(deps[i + 1..]);
      inDegree, ready := Decrement(names, done, deps[i], inDegree, ready);
    }
    assert deps[|deps|..] == [];
  }

  method Drain(ghost edges: seq<(string, string)>, names: set<string>,
               inDegree0: map<string, int>, dependents: map<string, seq<string>>)
    returns (out: seq<string>, inDegree: map<string, int>)
    requires Indexes(edges, names, inDegree0, dependents)
    ensures IsGreedyToTheEnd(Elements(edges), names, out)
    ensures inDegree.Keys == names
    ensures (set n | n in inDegree && inDegree[n] > 0) == names - Elements(out)
  {
    hide Unmet, Dependents;
    inDegree, out := inDegree0, [];
    var ready := SortedKeys(set n | n in inDegree && inDegree[n] == 0);
    ghost var done: set<string> := {};
    while ready != []
      invariant done == Elements(out) && done <= names
      invariant Frontier(names, inDegree, done, ready)
      invariant forall n | n in names :: inDegree[n] == Unmet(edges, n, done)
      invariant forall n | n in done :: inDegree[n] == 0
      invariant IsGreedy(Elements(edges), names, out)
      decreases names - done
    {
      var name := ready[0];
      AscendingHead(ready);
      FrontierIsAvailable(edges, names, inDegree, done, ready);
      ready := ready[1..];
      assert (out + [name])[..|out|] == out;
      assert forall k | 0 <= k < |out| :: (out + [name])[..k] == out[..k];
      out := out + [name];
      var deps := Get(dependents, name);
      EmissionMeets(edges, names, done, name);
      done := done + {name};
      inDegree, ready := Release(edges, names, done, deps, inDegree, ready);
    }
    FrontierIsAvailable(edges, names, inDegree, done, ready);
    NoElements(ready);
  }

  lemma EmissionMeets(edges: seq<(string, string)>, names: set<string>, done: set<string>, q: string)
    requires q !in done && forall e | e in edges :: e.0 in names
    ensures forall n :: Unmet(edges, n, done) == Unmet(edges, n, done + {q}) + multiset(Dependents(edges, q))[n]
    ensures forall d | d in Dependents(edges, q) :: d in names
  {
    forall n ensures Unmet(edges, n, done) == Unmet(edges, n, done + {q}) + multiset(Dependents(edges, q))[n] {
      UnmetStep(edges, n, done, q);
    }
    forall d | d in Dependents(edges, q) ensures d in names {
      DependentsAreNames(edges, q, d);
    }
  }

  lemma FrontierIsAvailable(edges: seq<(string, string)>, names: set<string>, inDegree: map<string, int>,
                            done: set<string>, ready: seq<string>)
    requires Frontier(names, inDegree, done, ready)
    requires forall n | n in names :: inDegree[n] == Unmet(edges, n, done)
    ensures Elements(ready) == Available(Elements(edges), names, done)
  {
    forall n | n in names ensures inDegree[n] == 0 <==> forall e | e in Elements(edges) && e.0 == n :: e.1 in done {
      UnmetZero(edges, n, done);
    }
  }

  // --------------------------------------------- facts about greedy orders

  lemma GreedyIsDistinct(edges: set<(string, string)>, names: set<string>, out: seq<string>)
    requires IsGreedy(edges, names, out)
    ensures NoRepeats(out) && Elements(out) <= names
  {
    forall i, j | 0 <= i < j < |out| ensures out[i] != out[j] {
      assert out[i] in out[..j];
      assert IsLeast(out[j], Available(edges, names, Elements(out[..j])));
    }
    forall n | n in out ensures n in names {
      var k :| 0 <= k < |out| && out[k] == n;
      assert IsLeast(out[k], Available(edges, names, Elements(out[..k])));
    }
  }

  lemma CompleteIsDistinct(edges: set<(string, string)>, names: set<string>, out: seq<string>)
    requires IsGreedyToTheEnd(edges, names, out)
    ensures NoRepeats(out) && Elements(out) <= names
  {
    GreedyIsDistinct(edges, names, out);
  }

  /** A provider is emitted before everything that requires it. */
  lemma GreedyProvidersFirst(edges: set<(string, string)>, names: set<string>, out: seq<string>, k: nat, q: string)
    requires IsGreedy(edges, names, out) && k < |out| && (out[k], q) in edges
    ensures q in out[..k]
  {
    assert IsLeast(out[k], Available(edges, names, Elements(out[..k])));
  }

  /** No walk along requirements returns to a vertex when it starts at an emitted name. */
  lemma {:induction false} EmittedWalk(edges: set<(string, string)>, names: set<string>, out: seq<string>, k: nat,
      w: seq<string>)
    requires IsGreedy(edges, names, out) && k < |out|
    requires IsWalk(edges, w) && w[0] == out[k]
    ensures forall j | 0 < j < |w| :: w[j] in out[..k]
    ensures NoRepeats(w)
    decreases |w|
  {
    GreedyIsDistinct(edges, names, out);
    if |w| > 1 {
      GreedyProvidersFirst(edges, names, out, k, w[1]);
      var k' :| 0 <= k' < k && out[k'] == w[1];
      EmittedWalk(edges, names, out, k', w[1..]);
      assert w == [w[0]] + w[1..];
    }
  }

  /** What is left over is exactly what lies on a cycle or depends on one. */
  lemma LeftOverIsCyclic(edges: set<(string, string)>, names: set<string>, out: seq<string>, n: string)
    requires IsGreedyToTheEnd(edges, names, out) && n in names
    requires forall e | e in edges :: e.1 in names
    ensures n !in out <==> ReachesCycle(edges, n)
  {
    if n in out {
      var k :| 0 <= k < |out| && out[k] == n;
      if ReachesCycle(edges, n) {
        var w, i, j := CycleGivesRepeat(edges, n);
        EmittedWalk(edges, names, out, k, w);
      }
    } else {
      var trap := names - Elements(out);
      forall x | x in trap ensures StaysIn(edges, trap, x) {
        assert x !in Available(edges, names, Elements(out));
        var e :| e in edges && e.0 == x && e.1 !in Elements(out);
        assert e.1 in trap && (x, e.1) in edges;
      }
      TrappedReachesCycle(edges, trap, n);
    }
  }

  /** The rule leaves no choice: there is one greedy order. */
  lemma {:induction false} GreedyPrefix(edges: set<(string, string)>, names: set<string>, a: seq<string>,
      b: seq<string>, n: nat)
    requires IsGreedy(edges, names, a) && IsGreedy(edges, names, b) && n <= |a| && n <= |b|
    ensures a[..n] == b[..n]
  {
    if n > 0 {
      GreedyPrefix(edges, names, a, b, n - 1);
      assert IsLeast(a[n - 1], Available(edges, names, Elements(a[..n - 1])));
      LeastUnique(a[n - 1], b[n - 1], Available(edges, names, Elements(a[..n - 1])));
      assert a[..n] == a[..n - 1] + [a[n - 1]] && b[..n] == b[..n - 1] + [b[n - 1]];
    }
  }

  lemma GreedyNoLonger(edges: set<(string, string)>, names: set<string>, a: seq<string>, b: seq<string>)
    requires IsGreedy(edges, names, a) && IsGreedyToTheEnd(edges, names, b)
    ensures |a| <= |b|
  {
    if |a| > |b| {
      GreedyPrefix(edges, names, a, b, |b|);
      LongerLeavesWork(edges, names, a, b);
    }
  }

  lemma LongerLeavesWork(edges: set<(string, string)>, names: set<string>, a: seq<string>, b: seq<string>)
    requires IsGreedy(edges, names, a) && |b| < |a| && a[..|b|] == b[..|b|]
    ensures Available(edges, names, Elements(b)) != {}
  {
    assert b[..|b|] == b;
    assert IsLeast(a[|b|], Available(edges, names, Elements(a[..|b|])));
  }

  lemma GreedyUnique(edges: set<(string, string)>, names: set<string>, a: seq<string>, b: seq<string>)
    requires IsGreedyToTheEnd(edges, names, a) && IsGreedyToTheEnd(edges, names, b)
    ensures a == b
  {
    GreedyNoLonger(edges, names, a, b);
    GreedyNoLonger(edges, names, b, a);
    GreedyPrefix(edges, names, a, b, |a|);
    assert a[..|a|] == a && b[..|b|] == b;
  }
}
