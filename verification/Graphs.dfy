/** Walks, reachability and cycles in a finite directed graph given by its set of edges. */
module Graphs {

  ghost predicate IsWalk<T>(edges: set<(T, T)>, w: seq<T>) {
    |w| > 0 && forall k | 0 <= k < |w| - 1 :: (w[k], w[k + 1]) in edges
  }

  ghost predicate WalkFromTo<T>(edges: set<(T, T)>, w: seq<T>, a: T, b: T) {
    IsWalk(edges, w) && w[0] == a && w[|w| - 1] == b
  }

  ghost predicate Reaches<T(!new)>(edges: set<(T, T)>, a: T, b: T) {
    exists w: seq<T> :: WalkFromTo(edges, w, a, b)
  }

  ghost predicate OnCycle<T(!new)>(edges: set<(T, T)>, v: T) {
    exists w: seq<T> :: |w| > 1 && WalkFromTo(edges, w, v, v)
  }

  /** `a` lies on a cycle or leads to one. */
  ghost predicate ReachesCycle<T(!new)>(edges: set<(T, T)>, a: T) {
    exists v :: Reaches(edges, a, v) && OnCycle(edges, v)
  }

  lemma ReachesSelf<T(!new)>(edges: set<(T, T)>, a: T)
    ensures Reaches(edges, a, a)
  {
    assert WalkFromTo(edges, [a], a, a);
  }

  lemma ReachesStep<T(!new)>(edges: set<(T, T)>, a: T, b: T, c: T)
    requires (a, b) in edges && Reaches(edges, b, c)
    ensures Reaches(edges, a, c)
  {
    var w :| WalkFromTo(edges, w, b, c);
    assert WalkFromTo(edges, [a] + w, a, c);
  }

  lemma ReachesTransitive<T(!new)>(edges: set<(T, T)>, a: T, b: T, c: T)
    requires Reaches(edges, a, b) && Reaches(edges, b, c)
    ensures Reaches(edges, a, c)
  {
    var u :| WalkFromTo(edges, u, a, b);
    var v :| WalkFromTo(edges, v, b, c);
    assert WalkFromTo(edges, u + v[1..], a, c);
  }

  /** A walk that comes back to a vertex leads to a cycle. */
  lemma RepeatGivesCycle<T(!new)>(edges: set<(T, T)>, w: seq<T>, i: nat, j: nat)
    requires IsWalk(edges, w) && i < j < |w| && w[i] == w[j]
    ensures ReachesCycle(edges, w[0])
  {
    assert WalkFromTo(edges, w[..i + 1], w[0], w[i]);
    assert WalkFromTo(edges, w[i..j + 1], w[i], w[i]);
    assert Reaches(edges, w[0], w[i]) && OnCycle(edges, w[i]);
  }

  /** A vertex that leads to a cycle starts a walk that comes back to a vertex. */
  lemma CycleGivesRepeat<T(!new)>(edges: set<(T, T)>, a: T) returns (w: seq<T>, i: nat, j: nat)
    requires ReachesCycle(edges, a)
    ensures IsWalk(edges, w) && w[0] == a && i < j < |w| && w[i] == w[j]
  {
    var v :| Reaches(edges, a, v) && OnCycle(edges, v);
    var u :| WalkFromTo(edges, u, a, v);
    var c :| |c| > 1 && WalkFromTo(edges, c, v, v);
    w, i, j := u + c[1..], |u| - 1, |u| + |c| - 2;
  }

  lemma CycleStep<T(!new)>(edges: set<(T, T)>, a: T, b: T)
    requires (a, b) in edges && ReachesCycle(edges, b)
    ensures ReachesCycle(edges, a)
  {
    var v :| Reaches(edges, b, v) && OnCycle(edges, v);
    ReachesStep(edges, a, b, v);
  }

  /** An edge back to a vertex the walk came from closes a cycle. */
  lemma EdgeBack<T(!new)>(edges: set<(T, T)>, a: T, b: T)
    requires (a, b) in edges && Reaches(edges, b, a)
    ensures ReachesCycle(edges, a)
  {
    var u :| WalkFromTo(edges, u, b, a);
    var c := [a] + u;
    assert IsWalk(edges, c);
    RepeatGivesCycle(edges, c, 0, |c| - 1);
  }

  ghost predicate StaysIn<T(!new)>(edges: set<(T, T)>, trap: set<T>, x: T) {
    exists y :: y in trap && (x, y) in edges
  }

  /** From a vertex of a finite set, when no vertex of the set lacks a successor in it, a cycle is reachable. */
  lemma TrappedReachesCycle<T(!new)>(edges: set<(T, T)>, trap: set<T>, a: T)
    requires a in trap
    requires forall x | x in trap :: StaysIn(edges, trap, x)
    ensures ReachesCycle(edges, a)
  {
    hide StaysIn;
    var w := WalkInside(edges, trap, a, |trap|);
    var i, j := Pigeonhole(w, trap);
    RepeatGivesCycle(edges, w, i, j);
  }

  lemma {:induction false} WalkInside<T(!new)>(edges: set<(T, T)>, trap: set<T>, a: T, n: nat) returns (w: seq<T>)
    requires a in trap
    requires forall x | x in trap :: StaysIn(edges, trap, x)
    ensures IsWalk(edges, w) && w[0] == a && |w| == n + 1 && forall x | x in w :: x in trap
  {
    hide StaysIn;
    if n == 0 {
      w := [a];
    } else {
      var b := Successor(edges, trap, a);
      var v := WalkInside(edges, trap, b, n - 1);
      w := [a] + v;
    }
  }

  lemma Successor<T(!new)>(edges: set<(T, T)>, trap: set<T>, x: T) returns (y: T)
    requires StaysIn(edges, trap, x)
    ensures y in trap && (x, y) in edges
  {
    y :| y in trap && (x, y) in edges;
  }

  lemma {:induction false} Pigeonhole<T>(w: seq<T>, s: set<T>) returns (i: nat, j: nat)
    requires |w| > |s| && forall x | x in w :: x in s
    ensures i < j < |w| && w[i] == w[j]
  {
    var last := w[|w| - 1];
    var front := w[..|w| - 1];
    if last in front {
      i :| 0 <= i < |front| && front[i] == last;
      j := |w| - 1;
    } else {
      forall x | x in front ensures x in s - {last} {
        assert x in w;
      }
      i, j := Pigeonhole(front, s - {last});
    }
  }
}
