/** The list merge refines map algebra, is idempotent and commutes; skipping a write loses nothing. */
module ManifestTheorems {
  import opened Options
  import opened Collections
  import opened Manifests
  import Paths

  lemma SameKeySameEntry(os: seq<Output>, a: Output, b: Output)
    requires UniqueKeys(os) && a in os && b in os && KeyOf(a) == KeyOf(b)
    ensures a == b
  {
    var i :| 0 <= i < |os| && os[i] == a;
    var j :| 0 <= j < |os| && os[j] == b;
  }

  /** A strictly sorted list is determined by its entries. */
  lemma StrictDetermined(a: seq<Output>, b: seq<Output>)
    requires Strict(a) && Strict(b) && forall o :: o in a <==> o in b
    ensures a == b
  {
    hide Before;
    assert KeysOf(a) == KeysOf(b);
    StrictKeysDetermine(a, b);
    StrictIsUnique(a);
    forall k | 0 <= k < |a| ensures a[k] == b[k] {
      assert b[k] in a;
      SameKeySameEntry(a, a[k], b[k]);
    }
  }

  // ------------------------------------------------------------- map algebra

  ghost function Find(os: seq<Output>, k: Key): (o: Output)
    requires k in KeysOf(os)
    ensures o in os && KeyOf(o) == k
  {
    var o :| o in os && KeyOf(o) == k;
    o
  }

  ghost function AsMap(os: seq<Output>): map<Key, Output> {
    map k | k in KeysOf(os) :: Find(os, k)
  }

  lemma AsMapEntry(os: seq<Output>, o: Output)
    requires UniqueKeys(os) && o in os
    ensures KeyOf(o) in AsMap(os) && AsMap(os)[KeyOf(o)] == o
  {
    SameKeySameEntry(os, o, Find(os, KeyOf(o)));
  }

  lemma InKeys(os: seq<Output>, o: Output)
    requires o in os
    ensures KeyOf(o) in KeysOf(os)
  {}

  lemma NotInKeys(os: seq<Output>, k: Key)
    requires k !in AsMap(os)
    ensures k !in KeysOf(os)
  {}

  lemma AsMapMember(os: seq<Output>, k: Key)
    ensures k in AsMap(os) ==> AsMap(os)[k] in os && KeyOf(AsMap(os)[k]) == k
  {}

  /** Current entries override the prior ones that have not converged. */
  lemma MergeIsMapAlgebra(prev: seq<Output>, current: seq<Output>, v: View)
    requires Strict(prev) && Strict(current)
    ensures Strict(MergedOutputs(prev, current, v))
    ensures AsMap(MergedOutputs(prev, current, v)) ==
            (map k | k in AsMap(prev) && !Converged(v, AsMap(prev)[k]) :: AsMap(prev)[k]) + AsMap(current)
  {
    hide Strict, UniqueKeys, Converged, MergedOutputs, AsMap, KeysOf, KeyOf;
    var m := MergedOutputs(prev, current, v);
    var want := (map k | k in AsMap(prev) && !Converged(v, AsMap(prev)[k]) :: AsMap(prev)[k]) + AsMap(current);
    MergeStrict(prev, current, v);
    StrictIsUnique(prev);
    StrictIsUnique(current);
    StrictIsUnique(m);
    forall k | k in AsMap(m) ensures k in want && want[k] == AsMap(m)[k] {
      var o := AsMap(m)[k];
      AsMapMember(m, k);
      MergeMembers(prev, current, v, o);
      if o in current {
        AsMapEntry(current, o);
      } else {
        AsMapEntry(prev, o);
        if k in AsMap(current) {
          AsMapMember(current, k);
          InKeys(current, AsMap(current)[k]);
        }
      }
    }
    forall k | k in want ensures k in AsMap(m) {
      var o := want[k];
      AsMapMember(prev, k);
      AsMapMember(current, k);
      if k in AsMap(current) {
        MergeMembers(prev, current, v, o);
      } else {
        NotInKeys(current, k);
        MergeMembers(prev, current, v, o);
      }
      AsMapEntry(m, o);
    }
  }

  /** So a merge does drop: an entry of a loaded package whose file is gone, without anything replacing it. */
  lemma ConvergedIsDropped() returns (prev: seq<Output>, v: View)
    ensures |prev| == 1 && Strict(prev) && WellFormed(prev[0]) && MergedOutputs(prev, [], v) == []
  {
    prev := [Output(Target("d", "f.go", "d", "m"), [], "h", None, "p")];
    v := View(true, {"m"}, {});
    assert TrimTest("m") == "m" && Converged(v, prev[0]);
  }

  // ---------------------------------------------------- which entries a merge keeps

  /** The run loaded the package the output was generated for; test outputs carry a suffix no package has. */
  ghost predicate Loaded(ip: string, scope: set<string>) {
    exists src :: src in scope && (ip == src + "_test" || (ip == src && forall x :: ip != x + "_test"))
  }

  lemma TrimTestExactly(ip: string, scope: set<string>)
    ensures TrimTest(ip) in scope <==> Loaded(ip, scope)
  {
    hide TrimTest;
    forall x {
      TrimUndoes(ip, x);
    }
    TrimTrims(ip);
  }

  lemma TrimUndoes(ip: string, x: string)
    ensures ip == x + "_test" ==> TrimTest(ip) == x
  {
    if ip == x + "_test" {
      assert ip[|ip| - 5..] == "_test" && ip[..|ip| - 5] == x;
    }
  }

  lemma TrimTrims(ip: string)
    ensures TrimTest(ip) == ip || ip == TrimTest(ip) + "_test"
  {}

  /**
  An entry is in the merge exactly when the run produced it, or it was there before, the run produced
  nothing for the same target and pipeline, and its file is there or the run had no say over it:
  no root to look under, or its package not loaded.
  */
  lemma MergeExactly(prev: seq<Output>, current: seq<Output>, v: View, o: Output)
    ensures o in MergedOutputs(prev, current, v) <==>
            || o in current
            || (&& o in prev && (forall c | c in current :: c.target != o.target || c.pipeline != o.pipeline)
                && (!v.rooted || !Loaded(o.target.importPath, v.scope) || PathOf(o.target) in v.disk))
  {
    hide PathOf, TrimTest, MergedOutputs;
    MergeMembers(prev, current, v, o);
    TrimTestExactly(o.target.importPath, v.scope);
    assert KeyOf(o) in KeysOf(current) <==>
           exists c :: c in current && c.target == o.target && c.pipeline == o.pipeline;
  }

  /** So entries of packages the run did not load are preserved. */
  lemma OutOfScopeIsPreserved(prev: seq<Output>, current: seq<Output>, v: View, o: Output)
    requires o in prev && forall c | c in current :: c.target != o.target || c.pipeline != o.pipeline
    requires forall src | src in v.scope :: o.target.importPath != src && o.target.importPath != src + "_test"
    ensures o in MergedOutputs(prev, current, v)
  {
    MergeExactly(prev, current, v, o);
  }

  /** The file a target stands for: its directory's components and its filename below them. */
  lemma PathExactly(t: Target)
    requires Paths.IsName(t.filename)
    ensures Paths.IsRooted(PathOf(t)) == Paths.IsRooted(t.dir)
    ensures Paths.Components(PathOf(t)) == Paths.Components(t.dir) + [t.filename]
  {
    assert Paths.Glue([t.filename]) == t.filename;
    hide Paths.Components;
    Paths.JoinNames(t.dir, [t.filename]);
  }

  // ------------------------------------------------ idempotence, commutation

  /** A second run with the same outputs against the same disk changes no entry. */
  lemma MergeIdempotent(prev: seq<Output>, current: seq<Output>, v: View)
    requires Strict(prev) && Strict(current)
    ensures MergedOutputs(MergedOutputs(prev, current, v), current, v) == MergedOutputs(prev, current, v)
  {
    hide Before;
    var once := MergedOutputs(prev, current, v);
    MergeStrict(prev, current, v);
    MergeStrict(once, current, v);
    forall o ensures o in MergedOutputs(once, current, v) <==> o in once {
      MergeMembers(prev, current, v, o);
      MergeMembers(once, current, v, o);
    }
    StrictDetermined(MergedOutputs(once, current, v), once);
  }

  /** Nor does merging into nothing, which takes the current entries as they are. */
  lemma MergeIntoItself(current: seq<Output>, v: View)
    requires Strict(current)
    ensures MergedOutputs(current, current, v) == current
  {
    hide Before;
    MergeStrict(current, current, v);
    forall o ensures o in MergedOutputs(current, current, v) <==> o in current {
      MergeMembers(current, current, v, o);
      if o in current {
        assert KeyOf(o) in KeysOf(current);
      }
    }
    StrictDetermined(MergedOutputs(current, current, v), current);
  }

  lemma ContentEqualReflexive(a: Manifest, runId: string)
    ensures ContentEqual(a, a.(runId := runId))
  {}

  /** So the manifest is not written again: it already says what the second run would write. */
  lemma SecondRunSkips(prev: Option<Manifest>, current: Manifest, v: View, runId: string)
    requires prev.Some? ==> Strict(prev.value.outputs)
    requires Strict(current.outputs) && current.version == VERSION
    ensures ContentEqual(Merged(prev, current, v), Merged(Some(Merged(prev, current, v)), current.(runId := runId), v))
  {
    var once := Merged(prev, current, v);
    if prev.Some? {
      MergeIdempotent(prev.value.outputs, current.outputs, v);
    } else {
      MergeIntoItself(current.outputs, v);
    }
    ContentEqualReflexive(once, runId);
  }

  ghost predicate AllFrom(os: seq<Output>, pipeline: string) {
    forall o | o in os :: o.pipeline == pipeline
  }

  lemma OnDiskNotConverged(os: seq<Output>, v: View, o: Output)
    requires o in os && PathsOf(os) <= v.disk
    ensures !Converged(v, o)
  {
    assert PathOf(o.target) in PathsOf(os);
  }

  /** Two pipelines' runs against one disk holding both outputs leave the same entries in either order. */
  lemma MergesCommute(prev: seq<Output>, a: seq<Output>, b: seq<Output>, va: View, vb: View, p: string, q: string)
    requires Strict(prev) && Strict(a) && Strict(b)
    requires AllFrom(a, p) && AllFrom(b, q) && p != q
    requires va.disk == vb.disk && PathsOf(a) <= va.disk && PathsOf(b) <= va.disk
    ensures MergedOutputs(MergedOutputs(prev, a, va), b, vb) == MergedOutputs(MergedOutputs(prev, b, vb), a, va)
  {
    hide Before;
    var ma, mb := MergedOutputs(prev, a, va), MergedOutputs(prev, b, vb);
    MergeStrict(prev, a, va);
    MergeStrict(prev, b, vb);
    MergeStrict(ma, b, vb);
    MergeStrict(mb, a, va);
    forall o ensures o in MergedOutputs(ma, b, vb) <==> o in MergedOutputs(mb, a, va) {
      MergeMembers(prev, a, va, o);
      MergeMembers(prev, b, vb, o);
      MergeMembers(ma, b, vb, o);
      MergeMembers(mb, a, va, o);
      if o in a { OnDiskNotConverged(a, vb, o); }
      if o in b { OnDiskNotConverged(b, va, o); }
    }
    StrictDetermined(MergedOutputs(ma, b, vb), MergedOutputs(mb, a, va));
  }

  // ------------------------------------------------------ skipping is sound

  /** The four keys the layout phase always writes. */
  const LAYOUT_KEYS: set<string> := {"layout", "package", "dir", "filename"}

  ghost predicate WellFormed(o: Output) {
    o.resolved.Some? ==> o.resolved.value.resolvedFrom.Keys == LAYOUT_KEYS
  }

  /** Between entries of one pipeline the comparison is equality exactly when the recorded layer keys agree. */
  lemma OutputEqualExactly(a: Output, b: Output)
    requires OutputEqual(a, b) && a.pipeline == b.pipeline
    ensures a == b <==> (a.resolved.Some? ==> a.resolved.value.resolvedFrom.Keys == b.resolved.value.resolvedFrom.Keys)
  {
    if a.resolved.Some? && a.resolved.value.resolvedFrom.Keys == b.resolved.value.resolvedFrom.Keys {
      assert a.resolved.value.resolvedFrom == b.resolved.value.resolvedFrom;
    }
  }

  lemma {:induction false} KeysCount(os: seq<Output>)
    requires UniqueKeys(os)
    ensures |KeysOf(os)| == |os|
  {
    if os != [] {
      var front, last := os[..|os| - 1], os[|os| - 1];
      KeysCount(front);
      assert os == front + [last];
      assert KeysOf(os) == KeysOf(front) + {KeyOf(last)};
    }
  }

  /** When the comparison holds no prior entry was dropped. */
  lemma EqualDropsNothing(prev: seq<Output>, current: seq<Output>, v: View, d: Output)
    requires v.rooted ==> PathsOf(current) <= v.disk
    requires |prev| == |MergedOutputs(prev, current, v)|
    requires forall i | 0 <= i < |prev| :: prev[i].target == MergedOutputs(prev, current, v)[i].target
    requires d in prev
    ensures !Converged(v, d)
  {
    var i :| 0 <= i < |prev| && prev[i] == d;
    var x := MergedOutputs(prev, current, v)[i];
    MergeMembers(prev, current, v, x);
    if x in current && v.rooted {
      OnDiskNotConverged(current, v, x);
    }
  }

  /**
  Leaving the manifest alone is sound although the comparison never reads PipelineID: it holds
  exactly when the entries on disk are the merged ones, pipeline identifiers included.
  */
  lemma SkipIsSound(prev: Manifest, current: Manifest, v: View)
    requires Strict(prev.outputs) && Strict(current.outputs)
    requires v.rooted ==> PathsOf(current.outputs) <= v.disk
    requires forall o | o in prev.outputs || o in current.outputs :: WellFormed(o)
    ensures ContentEqual(prev, Merged(Some(prev), current, v)) <==>
            prev == Merged(Some(prev), current, v).(runId := prev.runId)
  {
    if ContentEqual(prev, Merged(Some(prev), current, v)) {
      EqualIsSame(prev, current, v);
    } else {
      ContentEqualReflexive(prev, current.runId);
    }
  }

  lemma EqualIsSame(prev: Manifest, current: Manifest, v: View)
    requires Strict(prev.outputs) && Strict(current.outputs)
    requires v.rooted ==> PathsOf(current.outputs) <= v.disk
    requires forall o | o in prev.outputs || o in current.outputs :: WellFormed(o)
    requires ContentEqual(prev, Merged(Some(prev), current, v))
    ensures prev.outputs == MergedOutputs(prev.outputs, current.outputs, v)
  {
    hide Before, OutputEqual;
    var was, now := prev.outputs, MergedOutputs(prev.outputs, current.outputs, v);
    MergeStrict(was, current.outputs, v);
    forall i | 0 <= i < |was| ensures was[i].target == now[i].target {
      EqualTargets(was[i], now[i]);
    }
    forall k | k in KeysOf(was) ensures k in KeysOf(now) {
      var d :| d in was && KeyOf(d) == k;
      EqualDropsNothing(was, current.outputs, v, d);
      MergeMembers(was, current.outputs, v, d);
      if k in KeysOf(current.outputs) {
        var c :| c in current.outputs && KeyOf(c) == k;
        MergeMembers(was, current.outputs, v, c);
      }
    }
    StrictIsUnique(was);
    StrictIsUnique(now);
    KeysCount(was);
    KeysCount(now);
    SubsetSize(KeysOf(was), KeysOf(now));
    StrictKeysDetermine(was, now);
    forall i | 0 <= i < |was| ensures was[i] == now[i] {
      MergeMembers(was, current.outputs, v, now[i]);
      assert KeyOf(was[i]) == KeyOf(now[i]);
      EqualWellFormed(was[i], now[i]);
    }
  }

  lemma EqualTargets(a: Output, b: Output)
    requires OutputEqual(a, b)
    ensures a.target == b.target
  {}

  lemma EqualWellFormed(a: Output, b: Output)
    requires OutputEqual(a, b) && KeyOf(a) == KeyOf(b) && WellFormed(a) && WellFormed(b)
    ensures a == b
  {
    OutputEqualExactly(a, b);
  }
}
