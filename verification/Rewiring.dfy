/**
Owner back-pointers and their reconstruction after decoding.

A decoded package is a tree, so a node is named by its address: the child positions on the way
down from the package. Two graphs that differ only in where Go allocated them are then equal.
Encoding strips the owners, `RewireOwners` puts them back.
*/
module Rewiring {
  import TypeRefs
  import opened Nodes
  import opened Options

  /** `data` stands for the fields that encode as they are. */
  datatype Tree = Tree(kind: Kind, data: string, kids: seq<Kid>)
  datatype Kid = Kid(slot: Slot, node: Tree)

  type Address = seq<nat>

  /** A package in memory: its tree, and the owner of every node that has one set. */
  datatype Graph = Graph(tree: Tree, owner: map<Address, Address>)

  // ---------------------------------------------------- what rewiring covers

  /** The children whose Owner the helper for kind `k` assigns. */
  predicate Assigns(k: Kind, s: Slot) {
    match k
    case Package => s == Files || s == Imports
    case File => s == Imports
    case Struct => s == TypeParams || s == Fields || s == Embeds || s == Methods
    case Interface => s == TypeParams || s == Fields || s == Embeds || s == Methods
    case Method => s == TypeParams || s == Params || s == Returns
    case Function => s == TypeParams || s == Params || s == Returns
    case Enum => s == Variants || s == Methods
    case Alias => s == TypeParams || s == Methods
    case Ref(r) => s in RefSlots(r) && (s == Fields || s == Methods || s == Embeds)
    case _ => false
  }

  /** The children it descends into; a resolved embed is only followed from an interface declaration. */
  predicate Descends(host: Kind, k: Kind, s: Slot) {
    match k
    case Embed => s == Type || (s == Resolved && host == Interface)
    case Method => s in [TypeParams, Params, Returns, Receiver]
    case Enum => s in [Underlying, Variants, Methods]
    case Alias => s in [TypeParams, Target, Methods]
    case _ => s in WalkSlots(k)
  }

  /** The node at `a` below `t` gets its Owner assigned, when a node of kind `host` holds `t`. */
  ghost predicate IsWired(host: Kind, t: Tree, a: Address)
    decreases a
  {
    && a != [] && a[0] < |t.kids|
    && var kid := t.kids[a[0]];
       if |a| == 1 then Assigns(t.kind, kid.slot)
       else Descends(host, t.kind, kid.slot) && IsWired(t.kind, kid.node, a[1..])
  }

  /** The node at `a` below `t` has an Owner field. */
  ghost predicate IsOwned(t: Tree, a: Address)
    decreases a
  {
    && a != [] && a[0] < |t.kids|
    && var kid := t.kids[a[0]];
       if |a| == 1 then HasOwner(kid.node.kind) else IsOwned(kid.node, a[1..])
  }

  /** The address of the holding node. */
  function Parent(a: Address): Address {
    if a == [] then [] else a[..|a| - 1]
  }

  /** Every node with an Owner field has it set, to the node that holds it, and nothing else is set. */
  ghost predicate WellWired(g: Graph) {
    && (forall a :: a in g.owner <==> IsOwned(g.tree, a))
    && (forall a | a in g.owner :: g.owner[a] == Parent(a))
  }

  // ----------------------------------------------------------- the rewiring

  /** `a` is wired below `at`, under one of the first `n` children of `t`. */
  ghost predicate WiredUnder(host: Kind, t: Tree, at: Address, n: nat, a: Address) {
    |at| < |a| && at == a[..|at|] && a[|at|] < n && IsWired(host, t, a[|at|..])
  }

  ghost function WiredSet(host: Kind, t: Tree, at: Address, n: nat): iset<Address> {
    iset a | WiredUnder(host, t, at, n, a)
  }

  /** `after` is `before` with the owner of every node in `s` assigned. */
  ghost predicate Assigned(before: map<Address, Address>, after: map<Address, Address>, s: iset<Address>) {
    && (forall a :: a in after <==> a in before || a in s)
    && (forall a | a in after :: after[a] == if a in s then Parent(a) else before[a])
  }

  lemma AssignedBoth(m: map<Address, Address>, n: map<Address, Address>, p: map<Address, Address>, s: iset<Address>,
      t: iset<Address>)
    requires Assigned(m, n, s) && Assigned(n, p, t)
    ensures Assigned(m, p, s + t)
  {}

  class Owners {
    var owner: map<Address, Address>

    constructor ()
      ensures owner == map[]
    {
      owner := map[];
    }

    /** One helper call: assigns and descends over the children of `t`, which a `host` node holds at `at`. */
    method Rewire(host: Kind, t: Tree, at: Address)
      modifies this
      ensures Assigned(old(owner), owner, WiredSet(host, t, at, |t.kids|))
      decreases t, 1
    {
      hide WiredSet, KidSet;
      ghost var none := WiredSet(host, t, at, 0);
      assert none == iset{} by { NothingWired(host, t, at); }
      for i := 0 to |t.kids|
        invariant Assigned(old(owner), owner, WiredSet(host, t, at, i))
      {
        hide Assigned;
        ghost var before := owner;
        RewireKid(host, t, at, i);
        AssignedBoth(old(owner), before, owner, WiredSet(host, t, at, i), KidSet(host, t, at, i));
        WiredNext(host, t, at, i);
      }
    }

    method RewireKid(host: Kind, t: Tree, at: Address, i: nat)
      requires i < |t.kids|
      modifies this
      ensures Assigned(old(owner), owner, KidSet(host, t, at, i))
      decreases t, 0
    {
      hide WiredSet, Assigns, Descends;
      var kid, here := t.kids[i], at + [i];
      ghost var own: iset<Address> := iset{};
      ghost var below: iset<Address> := iset{};
      if Assigns(t.kind, kid.slot) {
        owner := owner[here := at];
        own := iset{here};
        assert Parent(here) == at;
      }
      ghost var mid := owner;
      assert Assigned(old(owner), mid, own);
      if Descends(host, t.kind, kid.slot) {
        Rewire(t.kind, kid.node, here);
        below := WiredSet(t.kind, kid.node, here, |kid.node.kids|);
      }
      AssignedBoth(old(owner), mid, owner, own, below);
    }
  }

  /** What is wired at the `i`th child and below it. */
  ghost function KidSet(host: Kind, t: Tree, at: Address, i: nat): iset<Address>
    requires i < |t.kids|
  {
    (if Assigns(t.kind, t.kids[i].slot) then iset{at + [i]} else iset{}) +
    (if Descends(host, t.kind, t.kids[i].slot) then WiredSet(t.kind, t.kids[i].node, at + [i], |t.kids[i].node.kids|)
        else iset{})
  }

  lemma NothingWired(host: Kind, t: Tree, at: Address)
    ensures WiredSet(host, t, at, 0) == iset{}
  {}

  lemma WiredNext(host: Kind, t: Tree, at: Address, i: nat)
    requires i < |t.kids|
    ensures WiredSet(host, t, at, i + 1) == WiredSet(host, t, at, i) + KidSet(host, t, at, i)
  {
    hide WiredUnder, Assigns, Descends;
    forall a ensures a in WiredSet(host, t, at, i + 1) <==> a in WiredSet(host, t, at, i) + KidSet(host, t, at, i) {
      WiredSplit(host, t, at, i, a);
    }
  }

  lemma WiredSplit(host: Kind, t: Tree, at: Address, i: nat, a: Address)
    requires i < |t.kids|
    ensures WiredUnder(host, t, at, i + 1, a) <==>
            || WiredUnder(host, t, at, i, a)
            || (a == at + [i] && Assigns(t.kind, t.kids[i].slot))
            || (&& Descends(host, t.kind, t.kids[i].slot)
                && WiredUnder(t.kind, t.kids[i].node, at + [i], |t.kids[i].node.kids|, a))
  {
    hide Assigns, Descends;
    if |at| < |a| && at == a[..|at|] && a[|at|] == i {
      assert a[..|at| + 1] == at + [i];
      var rel, kid := a[|at|..], t.kids[i];
      assert rel[0] == i && rel[1..] == a[|at| + 1..];
      if |a| == |at| + 1 {
        assert a == at + [i];
        assert IsWired(host, t, rel) == Assigns(t.kind, kid.slot);
      } else {
        assert IsWired(host, t, rel) == (Descends(host, t.kind, kid.slot) && IsWired(t.kind, kid.node, rel[1..]));
        assert rel[1..][0] == a[|at| + 1];
      }
    }
  }

  /** Re-attaches every owner reachable from the package; whatever was set elsewhere stays. */
  method RewireOwners(g: Graph) returns (r: Graph)
    ensures IsRewired(g, r)
  {
    var o := new Owners();
    o.owner := g.owner;
    o.Rewire(Package, g.tree, []);
    r := Graph(g.tree, o.owner);
    forall a ensures a in WiredSet(Package, g.tree, [], |g.tree.kids|) <==> IsWired(Package, g.tree, a) {
      assert a[0..] == a && a[..0] == [];
    }
  }

  ghost predicate IsRewired(g: Graph, r: Graph) {
    && r.tree == g.tree
    && (forall a :: a in r.owner <==> a in g.owner || IsWired(Package, g.tree, a))
    && (forall a | a in r.owner :: r.owner[a] == if IsWired(Package, g.tree, a) then Parent(a) else g.owner[a])
  }

  /** Every address below `t`. */
  ghost function Addresses(t: Tree): set<Address> {
    {[]} + set i, b | 0 <= i < |t.kids| && b in Addresses(t.kids[i].node) :: [i] + b
  }

  lemma {:induction false} WiredIsAddress(host: Kind, t: Tree, a: Address)
    requires IsWired(host, t, a)
    ensures a in Addresses(t)
    decreases a
  {
    hide Assigns, Descends;
    var b := a[1..];
    assert a == [a[0]] + b;
    if |a| > 1 {
      WiredIsAddress(t.kind, t.kids[a[0]].node, b);
    } else {
      assert b == [] && b in Addresses(t.kids[a[0]].node);
    }
  }

  /** Rewiring a decoded tree has a result. */
  lemma RewiringExists(t: Tree) returns (r: Graph)
    ensures IsRewired(Graph(t, map[]), r)
  {
    hide IsWired, Addresses;
    r := Graph(t, map a | a in Addresses(t) && IsWired(Package, t, a) :: Parent(a));
    forall a | IsWired(Package, t, a) ensures a in Addresses(t) {
      WiredIsAddress(Package, t, a);
    }
  }

  // ---------------------------------------------------------------- theorems

  /** Fields hold the kinds they may hold, and references use only the fields of their own kind. */
  ghost predicate WellKinded(t: Tree) {
    forall i | 0 <= i < |t.kids| ::
      var kid := t.kids[i];
      && kid.slot in Slots(t.kind) && Fits(kid.slot, kid.node.kind)
      && (t.kind.Ref? ==> kid.slot in RefSlots(t.kind.refKind))
      && WellKinded(kid.node)
  }

  ghost predicate OwnsNothing(t: Tree) {
    forall a :: !IsOwned(t, a)
  }

  /** Rewiring does not follow a resolved embed held by a struct or an anonymous type. */
  predicate Unfollowed(host: Kind, k: Kind, s: Slot) {
    k == Embed && s == Resolved && host != Interface
  }

  /** No such embed holds anything with an owner. */
  ghost predicate NoStrayResolved(host: Kind, t: Tree)
    decreases t
  {
    forall i | 0 <= i < |t.kids| ::
      if Unfollowed(host, t.kind, t.kids[i].slot) then OwnsNothing(t.kids[i].node)
      else NoStrayResolved(t.kind, t.kids[i].node)
  }

  /** The helpers assign exactly the owner fields of the children they meet, and follow all but stray embeds. */
  lemma HelpersCover(host: Kind, k: Kind, s: Slot, child: Kind)
    requires s in Slots(k) && Fits(s, child) && (k.Ref? ==> s in RefSlots(k.refKind))
    ensures Assigns(k, s) <==> HasOwner(child)
    ensures Descends(host, k, s) <==> !Unfollowed(host, k, s)
  {
    HelpersAssign(k, s);
    OwnersByField(s, child);
    HelpersFollow(host, k, s);
    hide *;
  }

  /** The fields whose nodes carry an Owner. */
  predicate HoldsOwned(s: Slot) {
    match s
    case Files => true
    case Imports => true
    case Variants => true
    case TypeParams => true
    case Fields => true
    case Embeds => true
    case Methods => true
    case Params => true
    case Returns => true
    case _ => false
  }

  lemma OwnersByField(s: Slot, child: Kind)
    requires Fits(s, child)
    ensures HoldsOwned(s) <==> HasOwner(child)
  {}

  lemma HelpersAssign(k: Kind, s: Slot)
    requires s in Slots(k) && (k.Ref? ==> s in RefSlots(k.refKind))
    ensures Assigns(k, s) <==> HoldsOwned(s)
  {
    hide RefSlots;
    if k.Ref? {
      RefHelperAssigns(k.refKind, s);
    } else if k.Struct? || k.Interface? || k.Method? || k.Function? || k.Enum? || k.Alias? {
      TypeHelperAssigns(k, s);
    }
  }

  lemma TypeHelperAssigns(k: Kind, s: Slot)
    requires s in Slots(k) && (k.Struct? || k.Interface? || k.Method? || k.Function? || k.Enum? || k.Alias?)
    ensures Assigns(k, s) <==> HoldsOwned(s)
  {
    hide RefSlots;
  }

  lemma RefHelperAssigns(r: TypeRefs.Kind, s: Slot)
    requires s in RefSlots(r)
    ensures Assigns(Ref(r), s) <==> HoldsOwned(s)
  {
    hide Slots;
  }

  lemma HelpersFollow(host: Kind, k: Kind, s: Slot)
    requires s in Slots(k) && (k.Ref? ==> s in RefSlots(k.refKind))
    ensures Descends(host, k, s) <==> !Unfollowed(host, k, s)
  {
    hide RefSlots, WalkSlots, Slots, Descends;
    if k.Method? || k.Enum? || k.Alias? || k.Embed? {
      SpelledOut(host, k, s);
    } else {
      AsWalked(host, k, s);
      WalkSlotsAre(k, s);
    }
  }

  lemma AsWalked(host: Kind, k: Kind, s: Slot)
    requires !(k.Method? || k.Enum? || k.Alias? || k.Embed?)
    ensures Descends(host, k, s) <==> s in WalkSlots(k)
  {
    hide WalkSlots;
  }

  lemma SpelledOut(host: Kind, k: Kind, s: Slot)
    requires s in Slots(k) && (k.Method? || k.Enum? || k.Alias? || k.Embed?)
    ensures Descends(host, k, s) <==> !Unfollowed(host, k, s)
  {
    hide WalkSlots;
  }

  /** Rewiring never sets an owner a node has no field for, stray embeds or not. */
  lemma {:induction false} WiredOnlyOwned(host: Kind, t: Tree, a: Address)
    requires WellKinded(t) && IsWired(host, t, a)
    ensures IsOwned(t, a)
    decreases a
  {
    hide Assigns, Descends, HasOwner;
    var kid := t.kids[a[0]];
    HelpersCover(host, t.kind, kid.slot, kid.node.kind);
    if |a| > 1 {
      WiredOnlyOwned(t.kind, kid.node, a[1..]);
    }
  }

  lemma {:induction false} WiredIsOwned(host: Kind, t: Tree, a: Address)
    requires WellKinded(t) && NoStrayResolved(host, t)
    ensures IsWired(host, t, a) <==> IsOwned(t, a)
    decreases a
  {
    hide Assigns, Descends, HasOwner;
    if a != [] && a[0] < |t.kids| {
      var kid := t.kids[a[0]];
      HelpersCover(host, t.kind, kid.slot, kid.node.kind);
      if |a| > 1 && !Unfollowed(host, t.kind, kid.slot) {
        WiredIsOwned(t.kind, kid.node, a[1..]);
      }
    }
  }

  /** A stray embed loses an owner: some node has the field and does not get it back. */
  lemma {:induction false} StrayLosesOwner(host: Kind, t: Tree) returns (a: Address)
    requires WellKinded(t) && !NoStrayResolved(host, t)
    ensures IsOwned(t, a) && !IsWired(host, t, a)
    decreases t
  {
    hide Assigns, Descends, HasOwner, IsWired, IsOwned, WellKinded;
    var i :| 0 <= i < |t.kids| && !(if Unfollowed(host, t.kind, t.kids[i].slot) then OwnsNothing(t.kids[i].node)
                                    else NoStrayResolved(t.kind, t.kids[i].node));
    var kid := t.kids[i];
    KidFits(t, i);
    HelpersCover(host, t.kind, kid.slot, kid.node.kind);
    var b: Address;
    if Unfollowed(host, t.kind, kid.slot) {
      b :| IsOwned(kid.node, b);
    } else {
      b := StrayLosesOwner(t.kind, kid.node);
    }
    a := [i] + b;
    LostBelow(host, t, i, b);
  }

  lemma KidFits(t: Tree, i: nat)
    requires WellKinded(t) && i < |t.kids|
    ensures t.kids[i].slot in Slots(t.kind) && Fits(t.kids[i].slot, t.kids[i].node.kind)
    ensures t.kind.Ref? ==> t.kids[i].slot in RefSlots(t.kind.refKind)
    ensures WellKinded(t.kids[i].node)
  {}

  lemma LostBelow(host: Kind, t: Tree, i: nat, b: Address)
    requires i < |t.kids| && IsOwned(t.kids[i].node, b)
    requires Descends(host, t.kind, t.kids[i].slot) ==> !IsWired(t.kind, t.kids[i].node, b)
    ensures IsOwned(t, [i] + b) && !IsWired(host, t, [i] + b)
  {
    hide Assigns, Descends, HasOwner;
    assert ([i] + b)[1..] == b && |b| > 0;
  }

  /** What encoding keeps. */
  function Strip(g: Graph): Graph {
    Graph(g.tree, map[])
  }

  /** The owners that are set are those rewiring sets, each to the node that holds it. */
  ghost predicate Restorable(g: Graph) {
    && (forall a :: a in g.owner <==> IsWired(Package, g.tree, a))
    && (forall a | a in g.owner :: g.owner[a] == Parent(a))
  }

  /** Decoding and rewiring gives back any package whatsoever, owner for owner, exactly when it is restorable. */
  lemma RewireRestoresExactly(g: Graph, r: Graph)
    requires IsRewired(Strip(g), r)
    ensures r == g <==> Restorable(g)
  {
    hide IsWired;
    if Restorable(g) {
      assert r.owner == g.owner;
    }
  }

  /** A package whose construction ends with a rewiring is restorable exactly when no owner beyond its reach was set. */
  lemma RewiredIsRestorableExactly(g: Graph, r: Graph)
    requires IsRewired(g, r)
    ensures Restorable(r) <==> forall a | a in g.owner :: IsWired(Package, g.tree, a)
  {
    hide IsWired;
    if Restorable(r) {
      forall a | a in g.owner ensures IsWired(Package, g.tree, a) {
        assert a in r.owner;
      }
    }
  }

  /** A well-wired package is, exactly when no struct or anonymous type embeds a resolved interface with owned parts. */
  lemma WellWiredIsRestorableExactly(g: Graph)
    requires WellWired(g) && WellKinded(g.tree)
    ensures Restorable(g) <==> NoStrayResolved(Package, g.tree)
  {
    hide IsWired, IsOwned, WellKinded, NoStrayResolved;
    if NoStrayResolved(Package, g.tree) {
      forall a ensures IsWired(Package, g.tree, a) <==> IsOwned(g.tree, a) {
        WiredIsOwned(Package, g.tree, a);
      }
    } else {
      var a := StrayLosesOwner(Package, g.tree);
      assert a in g.owner;
    }
  }

  lemma RewireUndoesStrip(g: Graph, r: Graph)
    requires WellWired(g) && WellKinded(g.tree) && IsRewired(Strip(g), r)
    ensures r == g <==> NoStrayResolved(Package, g.tree)
  {
    hide WellWired, WellKinded, NoStrayResolved, Restorable;
    RewireRestoresExactly(g, r);
    WellWiredIsRestorableExactly(g);
  }

  /**
  One import node listed by its file and by its package has one owner. When that is the file, as
  where a frontend attaches the import and does not rewire, the package's copy comes back owned by
  the package.
  */
  lemma SharedImportIsNotRestored(g: Graph, j: nat, r: Graph)
    requires g.tree.kind == Package && j < |g.tree.kids| && g.tree.kids[j].slot == Imports
    requires [j] in g.owner && g.owner[[j]] != [] && IsRewired(Strip(g), r)
    ensures !Restorable(g) && [j] in r.owner && r.owner[[j]] == [] && r != g
  {
    WiredImport(g, j);
  }

  /** The plain case: a package with one file that imports something, nothing stray, every owner set. */
  lemma SharedImportInput() returns (g: Graph)
    ensures WellKinded(g.tree) && NoStrayResolved(Package, g.tree)
    ensures (forall a :: a in g.owner <==> IsOwned(g.tree, a)) && [1] in g.owner && g.owner[[1]] == [0]
    ensures !Restorable(g)
  {
    hide *;
    var imp := Tree(Import, "x", []);
    var file := Tree(File, "f", [Kid(Imports, imp)]);
    g := Graph(Tree(Package, "p", [Kid(Files, file), Kid(Imports, imp)]), map[[0] := [], [0, 0] := [0], [1] := [0]]);
    SharedImportKinds(g.tree, imp, file);
    forall a ensures a in g.owner <==> IsOwned(g.tree, a) {
      OwnedInShared(g.tree, imp, file, a);
    }
    WiredImport(g, 1);
  }

  lemma WiredImport(g: Graph, j: nat)
    requires g.tree.kind == Package && j < |g.tree.kids| && g.tree.kids[j].slot == Imports
    requires [j] in g.owner && g.owner[[j]] != []
    ensures !Restorable(g) && IsWired(Package, g.tree, [j])
  {
    assert IsWired(Package, g.tree, [j]);
  }

  lemma SharedImportKinds(t: Tree, imp: Tree, file: Tree)
    requires imp == Tree(Import, imp.data, []) && file == Tree(File, file.data, [Kid(Imports, imp)])
    requires t == Tree(Package, t.data, [Kid(Files, file), Kid(Imports, imp)])
    ensures WellKinded(t) && NoStrayResolved(Package, t)
  {
    assert WellKinded(imp) && WellKinded(file);
    assert NoStrayResolved(File, imp) && NoStrayResolved(Package, imp) && NoStrayResolved(Package, file);
  }

  lemma OwnedInShared(t: Tree, imp: Tree, file: Tree, a: Address)
    requires imp == Tree(Import, imp.data, []) && file == Tree(File, file.data, [Kid(Imports, imp)])
    requires t == Tree(Package, t.data, [Kid(Files, file), Kid(Imports, imp)])
    ensures IsOwned(t, a) <==> a == [0] || a == [0, 0] || a == [1]
  {
    if a != [] && a[0] < 2 && |a| > 1 {
      var b := a[1..];
      assert a == [a[0]] + b;
      assert !IsOwned(imp, b);
      if a[0] == 0 && b[0] == 0 && |b| > 1 {
        assert !IsOwned(imp, b[1..]);
      }
      assert IsOwned(file, b) <==> b == [0] by {
        assert b == [b[0]] + b[1..];
      }
    } else if |a| == 1 {
      assert a == [a[0]];
    }
  }

  lemma OneKid(k: Kind, data: string, s: Slot, t: Tree)
    requires s in Slots(k) && Fits(s, t.kind) && !k.Ref? && (WellKinded(t) || t.kids == [])
    ensures WellKinded(Tree(k, data, [Kid(s, t)]))
  {
    hide Slots, Fits;
    var kids := [Kid(s, t)];
    assert kids[0] == Kid(s, t) && WellKinded(t);
  }

  lemma EmbedChainKinds()
    ensures Methods in Slots(Interface) && Resolved in Slots(Embed)
    ensures Embeds in Slots(Struct) && Structs in Slots(Package)
    ensures Fits(Methods, Method) && Fits(Resolved, Interface) && Fits(Embeds, Embed) && Fits(Structs, Struct)
    ensures HasOwner(Method) && !Descends(Struct, Embed, Resolved)
  {}

  lemma OwnedKid(t: Tree)
    requires |t.kids| > 0 && HasOwner(t.kids[0].node.kind)
    ensures IsOwned(t, [0])
  {}

  /** A struct that embeds a foreign interface with a method: the method's owner is lost. */
  lemma StructEmbedLosesOwner() returns (t: Tree, a: Address)
    ensures t.kind == Package && WellKinded(t) && IsOwned(t, a) && !IsWired(Package, t, a)
  {
    hide *;
    var iface := Tree(Interface, "i", [Kid(Methods, Tree(Method, "m", []))]);
    var embed := Tree(Embed, "e", [Kid(Resolved, iface)]);
    var str := Tree(Struct, "s", [Kid(Embeds, embed)]);
    t, a := Tree(Package, "p", [Kid(Structs, str)]), [0] + ([0] + ([0] + [0]));
    EmbedChainKinds();
    OneKid(Interface, "i", Methods, Tree(Method, "m", []));
    OneKid(Embed, "e", Resolved, iface);
    OneKid(Struct, "s", Embeds, embed);
    OneKid(Package, "p", Structs, str);
    OwnedKid(iface);
    LostBelow(Struct, embed, 0, [0]);
    LostBelow(Package, str, 0, [0] + [0]);
    LostBelow(Package, t, 0, [0] + ([0] + [0]));
  }

  /**
  A package with some owners set, to anything, and others missing is completed exactly when the
  owners rewiring does not reach are right already.
  */
  lemma RewireCompletes(g: Graph, part: Graph, r: Graph)
    requires WellWired(g) && WellKinded(g.tree)
    requires part.tree == g.tree && part.owner.Keys <= g.owner.Keys && IsRewired(part, r)
    ensures r == g <==>
            forall a | IsOwned(g.tree, a) && !IsWired(Package, g.tree, a) ::
                a in part.owner && part.owner[a] == Parent(a)
  {
    hide IsWired, IsOwned, WellKinded;
    forall a | IsWired(Package, g.tree, a) ensures IsOwned(g.tree, a) {
      WiredOnlyOwned(Package, g.tree, a);
    }
    if forall a | IsOwned(g.tree, a) && !IsWired(Package, g.tree, a) :: a in part.owner && part.owner[a] == Parent(a) {
      assert r.owner == g.owner;
    }
  }

  /** So rewiring a wired package changes nothing, stray embeds or not. */
  lemma RewireIsIdempotent(g: Graph, r: Graph)
    requires WellWired(g) && WellKinded(g.tree) && IsRewired(g, r)
    ensures r == g
  {
    hide IsWired, IsOwned, WellKinded;
    RewireCompletes(g, g, r);
  }

  // ------------------------------------------------------ owners, node by node

  /** Whatever rewiring reaches comes to be owned by the node that holds it; everything else is left alone. */
  lemma OwnerIsHolder(g: Graph, r: Graph, at: Address, i: nat)
    requires IsRewired(g, r)
    ensures IsWired(Package, g.tree, at + [i]) ==> at + [i] in r.owner && r.owner[at + [i]] == at
    ensures !IsWired(Package, g.tree, at + [i]) ==> (at + [i] in r.owner <==> at + [i] in g.owner)
    ensures !IsWired(Package, g.tree, at + [i]) && at + [i] in g.owner ==> r.owner[at + [i]] == g.owner[at + [i]]
  {
    hide IsWired;
    assert (at + [i])[..|at|] == at;
  }

  /** In a well-wired or restorable package an owner is the holder. */
  lemma OwnedByHolder(g: Graph, at: Address, i: nat)
    requires (WellWired(g) || Restorable(g)) && at + [i] in g.owner
    ensures g.owner[at + [i]] == at
  {
    hide IsWired, IsOwned;
    assert (at + [i])[..|at|] == at;
  }

  /** The fields of each declaration, and of the members below it, whose nodes have an owner. */
  ghost predicate OwnsField(k: Kind, s: Slot) {
    || (s == Files && k == Package)
    || (s == Imports && (k == Package || k == File))
    || (s == Variants && k == Enum)
    || (s == Fields && (k == Struct || k == Interface || k == Ref(TypeRefs.AnonStruct)))
    || (s == Embeds && (k == Struct || k == Interface))
    || (s == Embeds && (k == Ref(TypeRefs.AnonStruct) || k == Ref(TypeRefs.AnonInterface)))
    || (s == Methods && (k == Struct || k == Interface || k == Enum || k == Alias || k == Ref(TypeRefs.AnonInterface)))
    || (s == TypeParams && (k == Struct || k == Interface || k == Function || k == Method || k == Alias))
    || ((s == Params || s == Returns) && (k == Function || k == Method))
  }

  lemma AssignsExactly(k: Kind, s: Slot)
    ensures Assigns(k, s) <==> OwnsField(k, s)
  {
    hide RefSlots;
    if k.Ref? {
      hide UsesField;
      RefAssignsExactly(k.refKind, s);
    }
  }

  lemma RefAssignsExactly(r: TypeRefs.Kind, s: Slot)
    ensures Assigns(Ref(r), s) <==> OwnsField(Ref(r), s)
  {
    hide RefSlots;
    RefSlotsByField(r, s);
  }

  /** The last step of an address decides by field; the steps before it only have to be followed. */
  lemma {:induction false} WiredExactly(host: Kind, t: Tree, at: Address, i: nat)
    ensures IsWired(host, t, at + [i]) <==>
            && Follows(host, t, at) && Node(t, at).Some?
            && i < |Node(t, at).value.kids| && OwnsField(Node(t, at).value.kind, Node(t, at).value.kids[i].slot)
    decreases |at|
  {
    hide Assigns, Descends, OwnsField;
    if at == [] {
      assert at + [i] == [i];
      if i < |t.kids| {
        AssignsExactly(t.kind, t.kids[i].slot);
      }
    } else {
      assert (at + [i])[1..] == at[1..] + [i];
      if at[0] < |t.kids| {
        WiredExactly(t.kind, t.kids[at[0]].node, at[1..], i);
      }
    }
  }

  /** The node at an address. */
  ghost function Node(t: Tree, at: Address): Option<Tree>
    decreases |at|
  {
    if at == [] then Some(t) else if at[0] < |t.kids| then Node(t.kids[at[0]].node, at[1..]) else None
  }

  /** Every step leads through a field rewiring goes into; only an interface's embeds open their projection. */
  ghost predicate Follows(host: Kind, t: Tree, at: Address)
    decreases |at|
  {
    at == [] ||
    (at[0] < |t.kids| && Descends(host, t.kind, t.kids[at[0]].slot) && Follows(t.kind, t.kids[at[0]].node, at[1..]))
  }

  lemma DescendsExactly(host: Kind, k: Kind, s: Slot)
    requires s in Slots(k) && (k.Ref? ==> s in RefSlots(k.refKind))
    ensures Descends(host, k, s) <==> !(k == Embed && s == Resolved && host != Interface)
  {
    HelpersFollow(host, k, s);
  }
}
