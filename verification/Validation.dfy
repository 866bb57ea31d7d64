/**
The directive validation walk: one guarded traversal of the loaded node graph. Nodes are named by
identity, so the graph may share nodes and may be cyclic. A call of the directive validator is
modelled by noting the node it was called for.
*/
module Validation {
  import opened Options
  import opened Collections
  import opened Graphs
  import opened Nodes

  /** A Go pointer. */
  datatype NodeId = NodeId(address: int)

  /** A slot's list may hold nil pointers. */
  datatype Node = Node(kind: Kind, directives: seq<string>, slots: map<Slot, seq<Option<NodeId>>>)

  type Heap = map<NodeId, Node>

  function At(n: Node, s: Slot): seq<Option<NodeId>> {
    if s in n.slots then n.slots[s] else []
  }

  /** Every pointer in every slot points at a node. */
  ghost predicate Closed(h: Heap) {
    forall x, s, c | x in h && Some(c) in At(h[x], s) :: c in h
  }

  /** `c` is held by a slot `Walk` descends into. */
  ghost predicate IsChild(h: Heap, x: NodeId, c: NodeId) {
    x in h && exists s :: s in WalkSlots(h[x].kind) && Some(c) in At(h[x], s)
  }

  ghost function WalkEdges(h: Heap): set<(NodeId, NodeId)> {
    set x, c | x in h && c in h && IsChild(h, x, c) :: (x, c)
  }

  /** The nodes validated so far are the seen nodes that carry directives, each once. */
  ghost predicate Accounts(h: Heap, seen: set<NodeId>, validated: seq<NodeId>) {
    && seen <= h.Keys && NoRepeats(validated)
    && forall n :: n in validated <==> n in seen && h[n].directives != []
  }

  /** All children of `x` have been seen. */
  ghost predicate Finished(h: Heap, seen: set<NodeId>, x: NodeId) {
    forall c | IsChild(h, x, c) :: c in seen
  }

  /** Everything seen since `before` is reachable from `x`, and finished, `x` itself perhaps not. */
  ghost predicate Grown(h: Heap, x: NodeId, before: set<NodeId>, seen: set<NodeId>) {
    && before <= seen
    && forall y | y in seen && y !in before :: Reaches(WalkEdges(h), x, y) && (y != x ==> Finished(h, seen, y))
  }

  ghost predicate SlotSeen(h: Heap, x: NodeId, s: Slot, seen: set<NodeId>) {
    x in h && forall c | Some(c) in At(h[x], s) :: c in seen
  }

  lemma AllSlotsSeen(h: Heap, x: NodeId, slots: seq<Slot>, seen: set<NodeId>)
    requires x in h && slots == WalkSlots(h[x].kind)
    requires forall j | 0 <= j < |slots| :: SlotSeen(h, x, slots[j], seen)
    ensures Finished(h, seen, x)
  {
    forall c | IsChild(h, x, c) ensures c in seen {
      var s :| s in slots && Some(c) in At(h[x], s);
      assert SlotSeen(h, x, s, seen);
    }
  }

  lemma NothingNew(h: Heap, x: NodeId, seen: set<NodeId>)
    ensures Grown(h, x, seen, seen)
  {}

  class Validator {
    const h: Heap
    var seen: set<NodeId>
    var validated: seq<NodeId>

    constructor (h: Heap)
      ensures this.h == h && seen == {} && validated == []
    {
      this.h := h;
      seen, validated := {}, [];
    }

    /** One call of `Walk` with the guarded visitor. */
    method Walk(n: Option<NodeId>)
      requires Closed(h) && Accounts(h, seen, validated)
      requires n.Some? ==> n.value in h
      modifies this
      ensures Accounts(h, seen, validated)
      ensures n.None? ==> seen == old(seen)
      ensures n.Some? ==> n.value in seen && Grown(h, n.value, old(seen), seen)
      ensures n.Some? && n.value !in old(seen) ==> Finished(h, seen, n.value)
      decreases h.Keys - seen, 1
    {
      hide Grown, WalkSlots, Accounts, Finished, Closed, At;
      if n.None? {
        return;
      }
      var x := n.value;
      NothingNew(h, x, seen);
      if x in seen {
        return;
      }
      Visit(x);
      var slots := WalkSlots(h[x].kind);
      for i := 0 to |slots|
        invariant Accounts(h, seen, validated) && old(seen) + {x} <= seen
        invariant Grown(h, x, old(seen), seen)
        invariant forall j | 0 <= j < i :: SlotSeen(h, x, slots[j], seen)
      {
        ghost var mid := seen;
        WalkSlot(x, slots[i], old(seen));
        forall j | 0 <= j < i ensures SlotSeen(h, x, slots[j], seen) {
          assert SlotSeen(h, x, slots[j], mid);
        }
      }
      AllSlotsSeen(h, x, slots, seen);
    }

    /** The visitor's own work on a node met for the first time. */
    method Visit(x: NodeId)
      requires x in h && x !in seen && Accounts(h, seen, validated)
      modifies this
      ensures Accounts(h, seen, validated) && seen == old(seen) + {x} && Grown(h, x, old(seen), seen)
    {
      seen := seen + {x};
      if h[x].directives != [] {
        validated := validated + [x];
      }
      ReachesSelf(WalkEdges(h), x);
    }

    /** The loop over one slot's list. */
    method WalkSlot(x: NodeId, s: Slot, ghost before: set<NodeId>)
      requires Closed(h) && Accounts(h, seen, validated)
      requires x in seen && x in h && x !in before && s in WalkSlots(h[x].kind) && Grown(h, x, before, seen)
      modifies this
      ensures Accounts(h, seen, validated) && old(seen) <= seen && Grown(h, x, before, seen)
      ensures SlotSeen(h, x, s, seen)
      decreases h.Keys - seen, 2
    {
      hide Grown, WalkSlots, Accounts;
      var list := At(h[x], s);
      for i := 0 to |list|
        invariant Accounts(h, seen, validated) && old(seen) <= seen && Grown(h, x, before, seen)
        invariant forall j, c | 0 <= j < i && list[j] == Some(c) :: c in seen
      {
        if list[i].Some? {
          assert list[i] in list;
          assert Some(list[i].value) in At(h[x], s);
          assert list[i].value in h;
        }
        ghost var mid := seen;
        Walk(list[i]);
        GrownThroughChild(h, x, s, list[i], before, mid, seen);
      }
    }
  }

  lemma GrownThroughChild(h: Heap, x: NodeId, s: Slot, c: Option<NodeId>, before: set<NodeId>, mid: set<NodeId>,
      seen: set<NodeId>)
    requires Closed(h) && x in h && s in WalkSlots(h[x].kind) && c in At(h[x], s)
    requires x in mid && Grown(h, x, before, mid)
    requires c.None? ==> seen == mid
    requires c.Some? ==> c.value in seen && Grown(h, c.value, mid, seen)
    requires c.Some? && c.value !in mid ==> Finished(h, seen, c.value)
    ensures Grown(h, x, before, seen) && mid <= seen
  {
    if c.Some? {
      assert Some(c.value) in At(h[x], s) && IsChild(h, x, c.value);
      assert (x, c.value) in WalkEdges(h);
      forall y | y in seen && y !in before ensures Reaches(WalkEdges(h), x, y) && (y != x ==> Finished(h, seen, y)) {
        if y in mid {
          assert Finished(h, mid, y) ==> Finished(h, seen, y);
        } else {
          ReachesStep(WalkEdges(h), x, c.value, y);
        }
      }
    }
  }

  /**
  Terminates on any finite graph and validates each directive-bearing node reachable from a stored
  package by the walk's child relation exactly once, and no other node.
  */
  method ValidateDirectives(h: Heap, packages: seq<NodeId>) returns (validated: seq<NodeId>)
    requires Closed(h) && forall p | p in packages :: p in h
    ensures NoRepeats(validated)
    ensures forall n :: n in validated <==>
                        n in h && h[n].directives != [] && FromPackages(h, packages, n)
    ensures AllValidated(h, packages) <==>
            forall n | n in h && h[n].directives != [] && Loaded(h, packages, n) :: n in validated
  {
    var v := new Validator(h);
    for i := 0 to |packages|
      invariant v.h == h && Accounts(h, v.seen, v.validated)
      invariant forall j | 0 <= j < i :: packages[j] in v.seen
      invariant Complete(h, packages, v.seen)
    {
      ghost var before := v.seen;
      assert packages[i] in packages && packages[i] in h;
      v.Walk(Some(packages[i]));
      CompleteNext(h, packages, packages[i], before, v.seen);
    }
    forall p, n | p in packages && Reaches(WalkEdges(h), p, n) ensures n in v.seen {
      var w :| WalkFromTo(WalkEdges(h), w, p, n);
      FinishedIsClosed(h, v.seen, w);
    }
    validated := v.validated;
  }

  ghost predicate FromPackages(h: Heap, packages: seq<NodeId>, x: NodeId) {
    exists p :: p in packages && Reaches(WalkEdges(h), p, x)
  }

  ghost predicate Complete(h: Heap, packages: seq<NodeId>, seen: set<NodeId>) {
    forall x | x in seen :: FromPackages(h, packages, x) && Finished(h, seen, x)
  }

  lemma CompleteNext(h: Heap, packages: seq<NodeId>, p: NodeId, before: set<NodeId>, seen: set<NodeId>)
    requires p in packages && Complete(h, packages, before) && Grown(h, p, before, seen)
    requires p !in before ==> Finished(h, seen, p)
    ensures Complete(h, packages, seen)
  {
    forall x | x in seen ensures FromPackages(h, packages, x) && Finished(h, seen, x) {
      if x in before {
        assert Finished(h, before, x);
      }
    }
  }

  lemma {:induction false} FinishedIsClosed(h: Heap, seen: set<NodeId>, w: seq<NodeId>)
    requires forall x | x in seen :: Finished(h, seen, x)
    requires IsWalk(WalkEdges(h), w) && w[0] in seen
    ensures w[|w| - 1] in seen
    decreases |w|
  {
    if |w| > 1 {
      assert (w[0], w[1]) in WalkEdges(h);
      assert IsChild(h, w[0], w[1]);
      FinishedIsClosed(h, seen, w[1..]);
    }
  }

  // ----------------------------------------------- what the walk does not reach

  /** A field that holds nodes and that `Walk` passes over, such as the methods of an enum or an alias. */
  predicate Skipped(k: Kind, s: Slot) {
    s in Slots(k) && s !in WalkSlots(k)
  }

  /** `c` is held by any field of `x`. */
  ghost predicate Holds(h: Heap, x: NodeId, c: NodeId) {
    x in h && exists s :: s in Slots(h[x].kind) && Some(c) in At(h[x], s)
  }

  ghost function HoldsEdges(h: Heap): set<(NodeId, NodeId)> {
    set x, c | x in h && c in h && Holds(h, x, c) :: (x, c)
  }

  /** `n` is part of the loaded packages. */
  ghost predicate Loaded(h: Heap, packages: seq<NodeId>, n: NodeId) {
    exists p :: p in packages && Reaches(HoldsEdges(h), p, n)
  }

  /** `n` carries directives and lies below what the field `s` of `x`, which the walk passes over, holds. */
  ghost predicate Hidden(h: Heap, x: NodeId, s: Slot, c: NodeId, n: NodeId) {
    && x in h && Skipped(h[x].kind, s) && Some(c) in At(h[x], s)
    && Reaches(HoldsEdges(h), c, n) && n in h && h[n].directives != []
  }

  /** Every directive of the loaded packages is validated. */
  ghost predicate AllValidated(h: Heap, packages: seq<NodeId>) {
    forall n | n in h && h[n].directives != [] && Loaded(h, packages, n) :: FromPackages(h, packages, n)
  }

  /** What a package holds is walked to, or lies below a skipped field of a node that is. */
  lemma {:induction false} WalkedOrHidden(h: Heap, p: NodeId, w: seq<NodeId>)
    requires Closed(h) && IsWalk(HoldsEdges(h), w) && Reaches(WalkEdges(h), p, w[0])
    ensures Reaches(WalkEdges(h), p, w[|w| - 1]) ||
            exists x, s, c :: x in h && Reaches(WalkEdges(h), p, x) && Skipped(h[x].kind, s) && Some(c) in At(h[x], s)
                              && Reaches(HoldsEdges(h), c, w[|w| - 1])
    decreases |w|
  {
    if |w| > 1 {
      var x, c := w[0], w[1];
      assert (x, c) in HoldsEdges(h);
      var s :| s in Slots(h[x].kind) && Some(c) in At(h[x], s);
      if Skipped(h[x].kind, s) {
        assert WalkFromTo(HoldsEdges(h), w[1..], c, w[|w| - 1]);
      } else {
        assert IsChild(h, x, c) && (x, c) in WalkEdges(h);
        ReachesSelf(WalkEdges(h), c);
        ReachesStep(WalkEdges(h), x, c, c);
        ReachesTransitive(WalkEdges(h), p, x, c);
        WalkedOrHidden(h, p, w[1..]);
      }
    }
  }

  lemma WalkedIsHeld(h: Heap, a: NodeId, b: NodeId)
    requires Reaches(WalkEdges(h), a, b)
    ensures Reaches(HoldsEdges(h), a, b)
  {
    forall x, c | (x, c) in WalkEdges(h) ensures (x, c) in HoldsEdges(h) {
      var s :| s in WalkSlots(h[x].kind) && Some(c) in At(h[x], s);
      WalkedAreSlots(h[x].kind, s);
    }
    var w :| WalkFromTo(WalkEdges(h), w, a, b);
    assert WalkFromTo(HoldsEdges(h), w, a, b);
  }

  lemma WalkedAreSlots(k: Kind, s: Slot)
    requires s in WalkSlots(k)
    ensures s in Slots(k)
  {}

  lemma HiddenIsLoaded(h: Heap, packages: seq<NodeId>, x: NodeId, s: Slot, c: NodeId, n: NodeId)
    requires Closed(h) && Loaded(h, packages, x) && Hidden(h, x, s, c, n)
    ensures Loaded(h, packages, n)
  {
    var p :| p in packages && Reaches(HoldsEdges(h), p, x);
    assert Holds(h, x, c) && (x, c) in HoldsEdges(h);
    ReachesStep(HoldsEdges(h), x, c, n);
    ReachesTransitive(HoldsEdges(h), p, x, n);
  }

  /**
  Every directive of the loaded packages is validated exactly when each one below a skipped field of
  a walked node is also on some walked path.
  */
  lemma AllValidatedExactly(h: Heap, packages: seq<NodeId>)
    requires Closed(h)
    ensures AllValidated(h, packages) <==>
            forall x, s, c, n | FromPackages(h, packages, x) && Hidden(h, x, s, c, n) :: FromPackages(h, packages, n)
  {
    hide Reaches;
    if AllValidated(h, packages) {
      forall x, s, c, n | FromPackages(h, packages, x) && Hidden(h, x, s, c, n) ensures FromPackages(h, packages, n) {
        var p :| p in packages && Reaches(WalkEdges(h), p, x);
        WalkedIsHeld(h, p, x);
        HiddenIsLoaded(h, packages, x, s, c, n);
      }
    }
    if forall x, s, c, n | FromPackages(h, packages, x) && Hidden(h, x, s, c, n) :: FromPackages(h, packages, n) {
      forall n | n in h && h[n].directives != [] && Loaded(h, packages, n) ensures FromPackages(h, packages, n) {
        var p :| p in packages && Reaches(HoldsEdges(h), p, n);
        HeldIsWalkedOrHidden(h, p, n);
        if !Reaches(WalkEdges(h), p, n) {
          var x, s, c :| Reaches(WalkEdges(h), p, x) && Hidden(h, x, s, c, n);
          assert FromPackages(h, packages, x);
        }
      }
    }
  }

  lemma HeldIsWalkedOrHidden(h: Heap, p: NodeId, n: NodeId)
    requires Closed(h) && Reaches(HoldsEdges(h), p, n) && n in h && h[n].directives != []
    ensures Reaches(WalkEdges(h), p, n) || exists x, s, c :: Reaches(WalkEdges(h), p, x) && Hidden(h, x, s, c, n)
  {
    var w :| WalkFromTo(HoldsEdges(h), w, p, n);
    ReachesSelf(WalkEdges(h), p);
    WalkedOrHidden(h, p, w);
    if !Reaches(WalkEdges(h), p, n) {
      var x, s, c :| x in h && Reaches(WalkEdges(h), p, x) && Skipped(h[x].kind, s) && Some(c) in At(h[x], s)
                     && Reaches(HoldsEdges(h), c, n);
      assert Hidden(h, x, s, c, n);
    }
  }

  // In a tree, such as a decoded package, every node is held by one field of one node, and packages by none.

  ghost predicate HeldBy(h: Heap, x: NodeId, s: Slot, c: NodeId) {
    x in h && s in Slots(h[x].kind) && Some(c) in At(h[x], s)
  }

  ghost predicate OneHolder(h: Heap, packages: seq<NodeId>) {
    && (forall x, s, y, t, c | HeldBy(h, x, s, c) && HeldBy(h, y, t, c) :: x == y && s == t)
    && (forall x, s, p | p in packages :: !HeldBy(h, x, s, p))
  }

  /** There a walked path to a node is the only path to it, so whatever holds the node is on it. */
  lemma {:induction false} WalkedAbove(h: Heap, packages: seq<NodeId>, w: seq<NodeId>)
    requires OneHolder(h, packages) && IsWalk(HoldsEdges(h), w) && FromPackages(h, packages, w[|w| - 1])
    ensures FromPackages(h, packages, w[0])
    decreases |w|
  {
    if |w| > 1 {
      var x, n := w[|w| - 2], w[|w| - 1];
      assert (x, n) in HoldsEdges(h);
      var s :| s in Slots(h[x].kind) && Some(n) in At(h[x], s);
      HolderIsWalked(h, packages, x, s, n);
      hide OneHolder, FromPackages, HoldsEdges;
      WalkedAbove(h, packages, w[..|w| - 1]);
    }
  }

  lemma HolderIsWalked(h: Heap, packages: seq<NodeId>, x: NodeId, s: Slot, n: NodeId)
    requires OneHolder(h, packages) && HeldBy(h, x, s, n) && FromPackages(h, packages, n)
    ensures FromPackages(h, packages, x) && !Skipped(h[x].kind, s)
  {
    var p :| p in packages && Reaches(WalkEdges(h), p, n);
    var u :| WalkFromTo(WalkEdges(h), u, p, n);
    assert |u| > 1;
    var y := u[|u| - 2];
    assert (y, u[|u| - 1]) in WalkEdges(h);
    var t :| t in WalkSlots(h[y].kind) && Some(n) in At(h[y], t);
    WalkedAreSlots(h[y].kind, t);
    assert HeldBy(h, y, t, n);
    assert WalkFromTo(WalkEdges(h), u[..|u| - 1], p, x);
  }

  /** Then every directive is validated exactly when no skipped field leads to one. */
  lemma AllValidatedInTree(h: Heap, packages: seq<NodeId>)
    requires Closed(h) && OneHolder(h, packages)
    ensures AllValidated(h, packages) <==>
            forall x, s, c, n | Loaded(h, packages, x) :: !Hidden(h, x, s, c, n)
  {
    hide Reaches, OneHolder;
    if AllValidated(h, packages) {
      forall x, s, c, n | Loaded(h, packages, x) ensures !Hidden(h, x, s, c, n) {
        if Hidden(h, x, s, c, n) {
          HiddenIsLoaded(h, packages, x, s, c, n);
          HiddenIsNotWalked(h, packages, x, s, c, n);
        }
      }
    }
    if forall x, s, c, n | Loaded(h, packages, x) :: !Hidden(h, x, s, c, n) {
      forall x | FromPackages(h, packages, x) ensures Loaded(h, packages, x) {
        var p :| p in packages && Reaches(WalkEdges(h), p, x);
        WalkedIsHeld(h, p, x);
      }
      AllValidatedExactly(h, packages);
    }
  }

  lemma HiddenIsNotWalked(h: Heap, packages: seq<NodeId>, x: NodeId, s: Slot, c: NodeId, n: NodeId)
    requires OneHolder(h, packages) && Hidden(h, x, s, c, n)
    ensures !FromPackages(h, packages, n)
  {
    if FromPackages(h, packages, n) {
      var w :| WalkFromTo(HoldsEdges(h), w, c, n);
      WalkedAbove(h, packages, w);
      HolderIsWalked(h, packages, x, s, c);
    }
  }

  /** A node that only skipped fields hold is never validated. */
  lemma OnlySkippedNeverValidated(h: Heap, packages: seq<NodeId>, n: NodeId)
    requires n !in packages && forall x :: !IsChild(h, x, n)
    ensures !FromPackages(h, packages, n)
  {
    if FromPackages(h, packages, n) {
      var p :| p in packages && Reaches(WalkEdges(h), p, n);
      ReachedFromParent(h, p, n);
    }
  }

  lemma ReachedFromParent(h: Heap, p: NodeId, n: NodeId)
    requires p != n && Reaches(WalkEdges(h), p, n)
    ensures exists x :: IsChild(h, x, n)
  {
    var w :| WalkFromTo(WalkEdges(h), w, p, n);
    assert (w[|w| - 2], w[|w| - 1]) in WalkEdges(h);
    assert IsChild(h, w[|w| - 2], n);
  }

  /** So a malformed directive on a method of an enum passes: the graph holds it, the walk does not reach it. */
  lemma EnumMethodUnchecked() returns (h: Heap, p: NodeId, m: NodeId)
    ensures Closed(h) && m in h && h[m].directives != [] && Reaches(HoldsEdges(h), p, m) && !FromPackages(h, [p], m)
  {
    var e := NodeId(1);
    p, m := NodeId(0), NodeId(2);
    h := map[p := Node(Package, [], map[Enums := [Some(e)]]),
             e := Node(Enum, [], map[Methods := [Some(m)]]),
             m := Node(Method, ["+gen:x"], map[])];
    assert Some(e) in At(h[p], Enums) && Some(m) in At(h[e], Methods);
    assert Holds(h, p, e) && Holds(h, e, m);
    ReachesSelf(HoldsEdges(h), m);
    ReachesStep(HoldsEdges(h), e, m, m);
    ReachesStep(HoldsEdges(h), p, e, m);
    forall x ensures !IsChild(h, x, m) {
      if x in h {
        forall s | s in WalkSlots(h[x].kind) ensures Some(m) !in At(h[x], s) {}
      }
    }
    OnlySkippedNeverValidated(h, [p], m);
  }
}
