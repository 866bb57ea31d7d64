/**
The manifest: which outputs the pipelines sharing one working directory claim, how a run's
outputs are merged into it, when a rewrite is skipped, and which entries a prune may remove.
*/
module Manifests {
  import opened Options
  import opened Collections
  import opened StringOrder
  import Paths

  const VERSION := 2

  datatype Target = Target(dir: string, filename: string, pkg: string, importPath: string)
  datatype Attribution = Attribution(name: string, outputTag: string)
  datatype ResolvedLayout = ResolvedLayout(layout: string, pkg: string, dir: string, filename: string,
                                           resolvedFrom: map<string, string>)
  datatype Output = Output(target: Target, plugins: seq<Attribution>, hash: string,
                           resolved: Option<ResolvedLayout>, pipeline: string)
  datatype Manifest = Manifest(version: int, brand: string, runId: string, outputs: seq<Output>)

  /** What identifies an entry. */
  datatype Key = Key(target: Target, pipeline: string)

  function KeyOf(o: Output): Key {
    Key(o.target, o.pipeline)
  }

  /** The file an entry claims, relative to the output root. */
  function PathOf(t: Target): string {
    Paths.Join(t.dir, t.filename)
  }

  ghost function PathsOf(os: seq<Output>): set<string> {
    set o | o in os :: PathOf(o.target)
  }

  ghost function KeysOf(os: seq<Output>): set<Key> {
    set o | o in os :: KeyOf(o)
  }

  // --------------------------------------------------------------- the order

  function Rank(k: Key): seq<string> {
    [k.target.dir, k.target.filename, k.target.pkg, k.target.importPath, k.pipeline]
  }

  predicate Before(a: Key, b: Key) {
    LexLess(Rank(a), Rank(b))
  }

  lemma BeforeTotal(a: Key, b: Key)
    ensures a == b <==> !Before(a, b) && !Before(b, a)
    ensures !(Before(a, b) && Before(b, a))
  {
    LexTotal(Rank(a), Rank(b));
    assert Rank(a) == Rank(b) ==> a == b by {
      assert Rank(a)[0] == a.target.dir && Rank(a)[1] == a.target.filename && Rank(a)[2] == a.target.pkg
             && Rank(a)[3] == a.target.importPath && Rank(a)[4] == a.pipeline;
    }
  }

  /** Entries for one target are ordered by pipeline. */
  lemma BeforeByPipeline(a: Key, b: Key)
    requires a.target == b.target && Less(a.pipeline, b.pipeline)
    ensures Before(a, b)
  {
    var t := a.target;
    LexPrefix([t.dir, t.filename, t.pkg, t.importPath], [a.pipeline], [b.pipeline]);
    assert Rank(a) == [t.dir, t.filename, t.pkg, t.importPath] + [a.pipeline];
    assert Rank(b) == [t.dir, t.filename, t.pkg, t.importPath] + [b.pipeline];
  }

  /** The order: directory, then filename, package, import path and pipeline. */
  lemma BeforeExactly(a: Key, b: Key)
    ensures var t, u := a.target, b.target;
            Before(a, b) <==>
            || Less(t.dir, u.dir)
            || (t.dir == u.dir && Less(t.filename, u.filename))
            || (t.dir == u.dir && t.filename == u.filename && Less(t.pkg, u.pkg))
            || (t.dir == u.dir && t.filename == u.filename && t.pkg == u.pkg && Less(t.importPath, u.importPath))
            || (t == u && Less(a.pipeline, b.pipeline))
  {
    hide Less;
    var x, y := Rank(a), Rank(b);
    assert LexLess([a.pipeline], [b.pipeline]) <==> Less(a.pipeline, b.pipeline) by {
      assert [a.pipeline][1..] == [] && [b.pipeline][1..] == [];
    }
    assert x[1..][1..] == x[2..] && x[2..][1..] == x[3..] && x[3..][1..] == x[4..] && x[4..] == [a.pipeline];
    assert y[1..][1..] == y[2..] && y[2..][1..] == y[3..] && y[3..][1..] == y[4..] && y[4..] == [b.pipeline];
    assert LexLess(x[3..], y[3..]) <==> Less(x[3], y[3]) || (x[3] == y[3] && LexLess(x[4..], y[4..]));
    assert LexLess(x[2..], y[2..]) <==> Less(x[2], y[2]) || (x[2] == y[2] && LexLess(x[3..], y[3..]));
    assert LexLess(x[1..], y[1..]) <==> Less(x[1], y[1]) || (x[1] == y[1] && LexLess(x[2..], y[2..]));
  }

  lemma BeforeTransitive(a: Key, b: Key, c: Key)
    requires Before(a, b) && Before(b, c)
    ensures Before(a, c)
  {
    LexTransitive(Rank(a), Rank(b), Rank(c));
  }

  /** In key order with no key twice. */
  ghost predicate Strict(os: seq<Output>) {
    forall i, j | 0 <= i < j < |os| :: Before(KeyOf(os[i]), KeyOf(os[j]))
  }

  function Insert(os: seq<Output>, o: Output): seq<Output> {
    if os == [] || !Before(KeyOf(o), KeyOf(os[|os| - 1])) then os + [o]
    else Insert(os[..|os| - 1], o) + [os[|os| - 1]]
  }

  /** `slices.SortFunc` by (Dir, Filename, Package, ImportPath, PipelineID). */
  function Sort(os: seq<Output>): seq<Output> {
    if os == [] then [] else Insert(Sort(os[..|os| - 1]), os[|os| - 1])
  }

  lemma {:induction false} InsertPermutes(os: seq<Output>, o: Output)
    ensures multiset(Insert(os, o)) == multiset(os) + multiset{o}
  {
    if os != [] {
      InsertPermutes(os[..|os| - 1], o);
      assert os == os[..|os| - 1] + [os[|os| - 1]];
    }
  }

  lemma {:induction false} SortPermutes(os: seq<Output>)
    ensures multiset(Sort(os)) == multiset(os)
  {
    if os != [] {
      SortPermutes(os[..|os| - 1]);
      InsertPermutes(Sort(os[..|os| - 1]), os[|os| - 1]);
      assert os == os[..|os| - 1] + [os[|os| - 1]];
    }
  }

  lemma {:induction false} InsertStrict(os: seq<Output>, o: Output)
    requires Strict(os) && KeyOf(o) !in KeysOf(os)
    ensures Strict(Insert(os, o))
  {
    hide Before;
    if os != [] {
      var front, last := os[..|os| - 1], os[|os| - 1];
      assert os == front + [last];
      BeforeTotal(KeyOf(o), KeyOf(last));
      if Before(KeyOf(o), KeyOf(last)) {
        InsertStrict(front, o);
        InsertPermutes(front, o);
        forall x | x in Insert(front, o) ensures Before(KeyOf(x), KeyOf(last)) {
          assert x in multiset(Insert(front, o));
        }
        SnocStrict(Insert(front, o), last);
      } else {
        assert last in os;
        forall x | x in os ensures Before(KeyOf(x), KeyOf(o)) {
          if x in front { BeforeTransitive(KeyOf(x), KeyOf(last), KeyOf(o)); }
        }
        SnocStrict(os, o);
      }
    }
  }

  lemma SnocStrict(os: seq<Output>, o: Output)
    requires Strict(os) && forall x | x in os :: Before(KeyOf(x), KeyOf(o))
    ensures Strict(os + [o])
  {}

  lemma MemberOfSort(os: seq<Output>)
    ensures Elements(Sort(os)) == Elements(os) && KeysOf(Sort(os)) == KeysOf(os) && |Sort(os)| == |os|
  {
    SortPermutes(os);
    forall o ensures o in Sort(os) <==> o in os {
      assert o in Sort(os) <==> o in multiset(Sort(os));
      assert o in os <==> o in multiset(os);
    }
    assert |Sort(os)| == |multiset(Sort(os))| == |multiset(os)|;
  }

  ghost predicate UniqueKeys(os: seq<Output>) {
    forall i, j | 0 <= i < j < |os| :: KeyOf(os[i]) != KeyOf(os[j])
  }

  lemma {:induction false} SortStrict(os: seq<Output>)
    requires UniqueKeys(os)
    ensures Strict(Sort(os))
  {
    if os != [] {
      var front, last := os[..|os| - 1], os[|os| - 1];
      SortStrict(front);
      MemberOfSort(front);
      InsertStrict(Sort(front), last);
    }
  }

  lemma StrictIsUnique(os: seq<Output>)
    requires Strict(os)
    ensures UniqueKeys(os)
  {
    forall i, j | 0 <= i < j < |os| ensures KeyOf(os[i]) != KeyOf(os[j]) {
      BeforeTotal(KeyOf(os[i]), KeyOf(os[j]));
    }
  }

  /** A strictly sorted list is determined by its keys. */
  lemma {:induction false} StrictKeysDetermine(a: seq<Output>, b: seq<Output>)
    requires Strict(a) && Strict(b) && KeysOf(a) == KeysOf(b)
    ensures |a| == |b| && forall k | 0 <= k < |a| :: KeyOf(a[k]) == KeyOf(b[k])
  {
    hide Before;
    NoKeys(a);
    NoKeys(b);
    if a != [] {
      SameLastKey(a, b);
      StrictKeysDetermine(a[..|a| - 1], b[..|b| - 1]);
      forall k | 0 <= k < |a| ensures KeyOf(a[k]) == KeyOf(b[k]) {
        if k < |a| - 1 {
          assert a[..|a| - 1][k] == a[k] && b[..|b| - 1][k] == b[k];
        }
      }
    }
  }

  lemma SameLastKey(a: seq<Output>, b: seq<Output>)
    requires Strict(a) && Strict(b) && KeysOf(a) == KeysOf(b) && a != [] && b != []
    ensures KeyOf(a[|a| - 1]) == KeyOf(b[|b| - 1])
    ensures KeysOf(a[..|a| - 1]) == KeysOf(b[..|b| - 1])
  {
    hide Before;
    LastKey(a);
    LastKey(b);
    BeforeTotal(KeyOf(a[|a| - 1]), KeyOf(b[|b| - 1]));
  }

  lemma NoKeys(os: seq<Output>)
    ensures KeysOf(os) == {} <==> os == []
  {
    if os != [] {
      assert KeyOf(os[0]) in KeysOf(os);
    }
  }

  lemma LastKey(a: seq<Output>)
    requires Strict(a) && a != []
    ensures KeyOf(a[|a| - 1]) in KeysOf(a)
    ensures forall k | k in KeysOf(a) && k != KeyOf(a[|a| - 1]) :: Before(k, KeyOf(a[|a| - 1]))
    ensures KeysOf(a[..|a| - 1]) == KeysOf(a) - {KeyOf(a[|a| - 1])}
  {
    StrictIsUnique(a);
    assert a == a[..|a| - 1] + [a[|a| - 1]];
  }

  // --------------------------------------------------------------- the merge

  /** What a run knows when it merges: whether its sink has a root, what it loaded, what is on disk. */
  datatype View = View(rooted: bool, scope: set<string>, disk: set<string>)

  function TrimTest(ip: string): string {
    if |ip| >= 5 && ip[|ip| - 5..] == "_test" then ip[..|ip| - 5] else ip
  }

  /** Loaded, not produced, and its file is gone: nothing left to say about it. */
  predicate Converged(v: View, o: Output) {
    v.rooted && v.scope != {} && TrimTest(o.target.importPath) in v.scope && PathOf(o.target) !in v.disk
  }

  /** The prior entries that survive a merge, in their order. */
  function Kept(prev: seq<Output>, current: set<Key>, v: View): seq<Output> {
    if prev == [] then []
    else
      var o := prev[|prev| - 1];
      Kept(prev[..|prev| - 1], current, v) + if KeyOf(o) in current || Converged(v, o) then [] else [o]
  }

  ghost function MergedOutputs(prev: seq<Output>, current: seq<Output>, v: View): seq<Output> {
    Sort(Kept(prev, KeysOf(current), v) + current)
  }

  ghost function Merged(prev: Option<Manifest>, current: Manifest, v: View): Manifest {
    if prev.None? then current
    else Manifest(VERSION, current.brand, current.runId, MergedOutputs(prev.value.outputs, current.outputs, v))
  }

  method Merge(prev: Option<Manifest>, current: Manifest, v: View) returns (m: Manifest)
    ensures m == Merged(prev, current, v)
    ensures prev.None? ==> m == current
    ensures prev.Some? ==> m.version == 2 && m.brand == current.brand && m.runId == current.runId
  {
    if prev.None? {
      return current;
    }
    var keys := {};
    for i := 0 to |current.outputs|
      invariant keys == KeysOf(current.outputs[..i])
    {
      assert current.outputs[..i + 1] == current.outputs[..i] + [current.outputs[i]];
      keys := keys + {KeyOf(current.outputs[i])};
    }
    assert current.outputs[..|current.outputs|] == current.outputs;
    var outputs := [];
    var os := prev.value.outputs;
    for i := 0 to |os|
      invariant outputs == Kept(os[..i], keys, v)
    {
      assert os[..i + 1][..i] == os[..i];
      if KeyOf(os[i]) in keys || Converged(v, os[i]) {
        continue;
      }
      outputs := outputs + [os[i]];
    }
    assert os[..|os|] == os;
    for i := 0 to |current.outputs|
      invariant outputs == Kept(os, keys, v) + current.outputs[..i]
    {
      outputs := outputs + [current.outputs[i]];
    }
    m := Manifest(VERSION, current.brand, current.runId, Sort(outputs));
  }

  lemma {:induction false} KeptMembers(prev: seq<Output>, current: set<Key>, v: View, o: Output)
    ensures o in Kept(prev, current, v) <==> o in prev && KeyOf(o) !in current && !Converged(v, o)
  {
    if prev != [] {
      KeptMembers(prev[..|prev| - 1], current, v, o);
      assert prev == prev[..|prev| - 1] + [prev[|prev| - 1]];
    }
  }

  lemma {:induction false} KeptUnique(prev: seq<Output>, current: set<Key>, v: View)
    requires UniqueKeys(prev)
    ensures UniqueKeys(Kept(prev, current, v))
  {
    if prev != [] {
      var front := prev[..|prev| - 1];
      KeptUnique(front, current, v);
      forall x | x in Kept(front, current, v) ensures KeyOf(x) != KeyOf(prev[|prev| - 1]) {
        KeptMembers(front, current, v, x);
      }
    }
  }

  /** The merged list in terms of its entries: current ones, and prior ones neither replaced nor converged. */
  lemma MergeMembers(prev: seq<Output>, current: seq<Output>, v: View, o: Output)
    ensures o in MergedOutputs(prev, current, v) <==>
            o in current || (o in prev && KeyOf(o) !in KeysOf(current) && !Converged(v, o))
  {
    MemberOfSort(Kept(prev, KeysOf(current), v) + current);
    assert o in MergedOutputs(prev, current, v) <==> o in Elements(MergedOutputs(prev, current, v));
    KeptMembers(prev, KeysOf(current), v, o);
  }

  lemma MergeStrict(prev: seq<Output>, current: seq<Output>, v: View)
    requires Strict(prev) && Strict(current)
    ensures Strict(MergedOutputs(prev, current, v))
  {
    var kept := Kept(prev, KeysOf(current), v);
    StrictIsUnique(prev);
    StrictIsUnique(current);
    KeptUnique(prev, KeysOf(current), v);
    forall x | x in kept ensures KeyOf(x) !in KeysOf(current) {
      KeptMembers(prev, KeysOf(current), v, x);
    }
    forall i, j | 0 <= i < j < |kept + current| ensures KeyOf((kept + current)[i]) != KeyOf((kept + current)[j]) {
      if i < |kept| <= j {
        assert kept[i] in kept && current[j - |kept|] in current;
      }
    }
    SortStrict(kept + current);
  }

  // ----------------------------------------------------- skipping the write

  /** The comparison by which a run decides that the manifest on disk may stay; reads no PipelineID and no RunID. */
  predicate ContentEqual(a: Manifest, b: Manifest) {
    && a.version == b.version && a.brand == b.brand
    && |a.outputs| == |b.outputs|
    && forall i | 0 <= i < |a.outputs| :: OutputEqual(a.outputs[i], b.outputs[i])
  }

  predicate OutputEqual(a: Output, b: Output) {
    && a.target == b.target && a.hash == b.hash && a.plugins == b.plugins
    && match (a.resolved, b.resolved)
       case (None, None) => true
       case (Some(x), Some(y)) => LayoutEqual(x, y)
       case (_, _) => false
  }

  /** A key the second map lacks reads as the empty layer. */
  predicate LayoutEqual(a: ResolvedLayout, b: ResolvedLayout) {
    && a.layout == b.layout && a.pkg == b.pkg && a.dir == b.dir && a.filename == b.filename
    && |a.resolvedFrom| == |b.resolvedFrom|
    && forall k | k in a.resolvedFrom :: a.resolvedFrom[k] == if k in b.resolvedFrom then b.resolvedFrom[k] else ""
  }
}
