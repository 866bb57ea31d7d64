/** What every interleaving of runs, prunes and user changes keeps, and what a prune leaves behind. */
module WorkspaceTheorems {
  import opened Options
  import opened Manifests
  import opened ManifestTheorems
  import opened Workspace

  ghost function Entries(s: State): seq<Output> {
    if s.manifest.Some? then s.manifest.value.outputs else []
  }

  /** Every generated file still on disk is claimed by some manifest entry. */
  ghost predicate Tracked(s: State) {
    s.generated <= s.disk && s.generated <= PathsOf(Entries(s))
  }

  // -------------------------------------------------------------- one run

  lemma SameTargetsSamePaths(a: seq<Output>, b: seq<Output>)
    requires |a| == |b| && forall i | 0 <= i < |a| :: a[i].target == b[i].target
    ensures PathsOf(a) == PathsOf(b)
  {
    forall p ensures p in PathsOf(a) <==> p in PathsOf(b) {
      if p in PathsOf(a) {
        var i :| 0 <= i < |a| && PathOf(a[i].target) == p;
        assert b[i] in b;
      }
      if p in PathsOf(b) {
        var i :| 0 <= i < |b| && PathOf(b[i].target) == p;
        assert a[i] in a;
      }
    }
  }

  /** With a readable prior manifest the merged one claims everything generated so far. */
  lemma LastClaims(s: State, r: Run)
    requires Tracked(s) && r.readable
    ensures s.generated + Written(r) <= PathsOf(Last(s, r).outputs)
  {
    hide PathOf;
    if s.manifest.Some? {
      var v := View(r.rooted, r.scope, s.disk + Written(r));
      forall p | p in s.generated + Written(r) ensures p in PathsOf(Last(s, r).outputs) {
        var o :| (o in Entries(s) || o in r.current.outputs) && PathOf(o.target) == p;
        MergeMembers(Entries(s), r.current.outputs, v, o);
        if o !in r.current.outputs && KeyOf(o) in KeysOf(r.current.outputs) {
          var c :| c in r.current.outputs && KeyOf(c) == KeyOf(o);
          MergeMembers(Entries(s), r.current.outputs, v, c);
          assert c.target == o.target;
        }
      }
    }
  }

  /** Whether the run leaves a manifest that describes it. */
  ghost predicate Persists(s: State, r: Run) {
    !r.dryRun && (r.writable || Skips(s, r))
  }

  /**
  A run keeps every generated file tracked exactly when: the manifest it cannot persist already
  claims what it wrote, or the one it persists was merged with a readable prior manifest, or the
  prior files are all among those it wrote.
  */
  lemma RunTracksExactly(s: State, r: Run)
    requires Tracked(s)
    ensures Tracked(AfterRun(s, r)) <==>
            if !Persists(s, r) then Written(r) <= PathsOf(Entries(s))
            else r.readable || s.generated <= PathsOf(r.current.outputs)
  {
    hide PathOf, OutputEqual;
    if Persists(s, r) && r.readable {
      LastClaims(s, r);
      if Skips(s, r) {
        forall i | 0 <= i < |Entries(s)| ensures Entries(s)[i].target == Last(s, r).outputs[i].target {
          EqualTargets(Entries(s)[i], Last(s, r).outputs[i]);
        }
        SameTargetsSamePaths(Entries(s), Last(s, r).outputs);
      }
    }
  }

  /** A readable prior manifest, a manifest write that succeeds, and no dry run onto a real disk. */
  ghost predicate Healthy(r: Run) {
    r.readable && r.writable && (r.dryRun ==> !r.rooted)
  }

  // ------------------------------------------------------------- one prune

  lemma {:induction false} StaleMembers(os: seq<Output>, emitted: set<Target>, pipeline: string,
                                        scope: set<string>, gone: set<string>, o: Output)
    ensures o in Stale(os, emitted, pipeline, scope, gone) <==>
            o in os && pipeline != "" && Authority(o, pipeline, scope, gone) && o.target !in emitted
  {
    if os != [] {
      StaleMembers(os[..|os| - 1], emitted, pipeline, scope, gone, o);
      assert os == os[..|os| - 1] + [os[|os| - 1]];
    }
  }

  /** Orphans keep the manifest's order. */
  lemma {:induction false} StaleAppend(a: seq<Output>, b: seq<Output>, emitted: set<Target>, pipeline: string,
                                       scope: set<string>, gone: set<string>)
    ensures Stale(a + b, emitted, pipeline, scope, gone) ==
            Stale(a, emitted, pipeline, scope, gone) + Stale(b, emitted, pipeline, scope, gone)
  {
    if b == [] {
      assert a + b == a;
    } else {
      assert (a + b)[..|a + b| - 1] == a + b[..|b| - 1];
      StaleAppend(a, b[..|b| - 1], emitted, pipeline, scope, gone);
    }
  }

  lemma {:induction false} WithoutMembers(os: seq<Output>, keys: set<Key>, o: Output)
    ensures o in Without(os, keys) <==> o in os && KeyOf(o) !in keys
  {
    if os != [] {
      WithoutMembers(os[..|os| - 1], keys, o);
      assert os == os[..|os| - 1] + [os[|os| - 1]];
    }
  }

  /** Every file whose entry leaves the manifest is off the disk. */
  lemma DroppedAreGone(s: State, r: Run, p: PruneOptions, k: Key)
    requires !r.dryRun && k in Dropped(s, r, p)
    ensures PathOf(k.target) !in AfterPrune(s, r, p).disk
  {
    hide PathOf;
    var stale := StaleAfter(s, r, p);
    var s1 := AfterRun(s, r);
    var o :| o in stale && o.target !in Survivors(stale, s1.disk, s1.marked, p.removable) && KeyOf(o) == k;
  }

  /** A prune keeps every generated file tracked, whether or not its own rewrite succeeds. */
  lemma PruneTracks(s: State, r: Run, p: PruneOptions)
    requires Tracked(s) && Healthy(r)
    ensures Tracked(AfterPrune(s, r, p))
  {
    hide PathOf, AfterRun;
    RunTracksExactly(s, r);
    var s1, s2 := AfterRun(s, r), AfterPrune(s, r, p);
    assert s1.generated == s.generated + Written(r) by { RunGenerates(s, r); }
    assert Tracked(s1) by { HealthyPersists(s, r); }
    if !r.dryRun && Dropped(s, r, p) != {} && p.writable {
      LastClaims(s, r);
      forall path | path in s2.generated ensures path in PathsOf(Entries(s2)) {
        var o :| o in Last(s, r).outputs && PathOf(o.target) == path;
        WithoutMembers(Last(s, r).outputs, Dropped(s, r, p), o);
        if KeyOf(o) in Dropped(s, r, p) {
          DroppedAreGone(s, r, p, KeyOf(o));
        }
      }
    }
  }

  lemma RunGenerates(s: State, r: Run)
    ensures AfterRun(s, r).generated == s.generated + Written(r)
  {}

  lemma HealthyPersists(s: State, r: Run)
    requires Healthy(r)
    ensures Persists(s, r) || Written(r) == {}
  {}

  // ---------------------------------------------------------- whole runs

  datatype Op =
    | DoRun(run: Run)
    | DoPrune(run: Run, options: PruneOptions)
    | DoDelete(path: string)
    | DoWrite(path: string, mark: bool)

  ghost function Step(s: State, op: Op): State {
    match op
    case DoRun(r) => AfterRun(s, r)
    case DoPrune(r, p) => AfterPrune(s, r, p)
    case DoDelete(path) => s.(disk := s.disk - {path}, generated := s.generated - {path})
    case DoWrite(path, mark) =>
      s.(disk := s.disk + {path}, marked := if mark then s.marked + {path} else s.marked - {path})
  }

  ghost function Play(s: State, ops: seq<Op>): State {
    if ops == [] then s else Step(Play(s, ops[..|ops| - 1]), ops[|ops| - 1])
  }

  ghost predicate HealthyOp(op: Op) {
    match op
    case DoRun(r) => Healthy(r)
    case DoPrune(r, _) => Healthy(r)
    case _ => true
  }

  ghost predicate ValidOp(op: Op) {
    match op
    case DoRun(r) => ValidRun(r)
    case DoPrune(r, _) => ValidRun(r)
    case _ => true
  }

  lemma StepTracks(s: State, op: Op)
    requires Tracked(s) && HealthyOp(op)
    ensures Tracked(Step(s, op))
  {
    hide AfterRun, AfterPrune;
    match op
    case DoRun(r) =>
      RunTracksExactly(s, r);
      HealthyPersists(s, r);
    case DoPrune(r, p) => PruneTracks(s, r, p);
    case DoDelete(_) =>
    case DoWrite(_, _) =>
  }

  /**
  Over every interleaving of runs and prunes by any number of pipelines and of changes the user
  makes to files, every generated file still on disk stays claimed by the manifest.
  */
  lemma {:induction false} AlwaysTracked(s: State, ops: seq<Op>)
    requires Tracked(s) && forall op | op in ops :: HealthyOp(op)
    ensures Tracked(Play(s, ops))
  {
    if ops != [] {
      AlwaysTracked(s, ops[..|ops| - 1]);
      StepTracks(Play(s, ops[..|ops| - 1]), ops[|ops| - 1]);
    }
  }

  /** The directory itself: carrying out the operations is playing them. */
  method Replay(d: Directory, ops: seq<Op>)
    requires Tracked(d.Value()) && forall op | op in ops :: HealthyOp(op)
    modifies d
    ensures d.Value() == Play(old(d.Value()), ops) && Tracked(d.Value())
  {
    hide AfterRun, AfterPrune, Tracked, Last, StaleAfter;
    for i := 0 to |ops|
      invariant d.Value() == Play(old(d.Value()), ops[..i])
    {
      assert ops[..i + 1][..i] == ops[..i];
      match ops[i] {
        case DoRun(r) => d.Execute(r);
        case DoPrune(r, p) => var _ := d.Prune(r, p);
        case DoDelete(path) => d.UserDelete(path);
        case DoWrite(path, mark) => d.UserWrite(path, mark);
      }
    }
    assert ops[..|ops|] == ops;
    AlwaysTracked(old(d.Value()), ops);
  }

  /** The manifest on disk is strictly sorted, every entry recorded with the layout phase's keys. */
  ghost predicate Canonical(os: seq<Output>) {
    Strict(os) && forall o | o in os :: WellFormed(o)
  }

  lemma {:induction false} WithoutStrict(os: seq<Output>, keys: set<Key>)
    requires Strict(os)
    ensures Strict(Without(os, keys))
  {
    hide Before;
    if os != [] {
      var front, last := os[..|os| - 1], os[|os| - 1];
      WithoutStrict(front, keys);
      forall x | x in Without(front, keys) ensures Before(KeyOf(x), KeyOf(last)) {
        WithoutMembers(front, keys, x);
      }
      if KeyOf(last) !in keys {
        SnocStrict(Without(front, keys), last);
      }
    }
  }

  lemma LastCanonical(s: State, r: Run)
    requires Canonical(Entries(s)) && ValidRun(r)
    ensures Canonical(Last(s, r).outputs)
  {
    hide Before, WellFormed;
    var v := View(r.rooted, r.scope, s.disk + Written(r));
    if Prior(s, r).Some? {
      MergeStrict(Entries(s), r.current.outputs, v);
      forall o | o in Last(s, r).outputs ensures WellFormed(o) {
        MergeMembers(Entries(s), r.current.outputs, v, o);
      }
    }
  }

  lemma StepCanonical(s: State, op: Op)
    requires Canonical(Entries(s)) && ValidOp(op)
    ensures Canonical(Entries(Step(s, op)))
  {
    hide Strict, WellFormed, ContentEqual;
    match op
    case DoRun(r) => LastCanonical(s, r);
    case DoPrune(r, p) =>
      LastCanonical(s, r);
      WithoutStrict(Last(s, r).outputs, Dropped(s, r, p));
      forall o | o in Without(Last(s, r).outputs, Dropped(s, r, p)) ensures WellFormed(o) {
        WithoutMembers(Last(s, r).outputs, Dropped(s, r, p), o);
      }
    case DoDelete(_) =>
    case DoWrite(_, _) =>
  }

  /** No interleaving, healthy or not, leaves a manifest out of order or with a key twice. */
  lemma {:induction false} AlwaysCanonical(s: State, ops: seq<Op>)
    requires Canonical(Entries(s)) && forall op | op in ops :: ValidOp(op)
    ensures Canonical(Entries(Play(s, ops)))
  {
    if ops != [] {
      AlwaysCanonical(s, ops[..|ops| - 1]);
      StepCanonical(Play(s, ops[..|ops| - 1]), ops[|ops| - 1]);
    }
  }

  // ------------------------------------------------- what a prune leaves behind

  /** One of the packages, or the test variant of one. */
  ghost predicate BelongsTo(ip: string, packages: set<string>) {
    ip != "" && exists src :: src in packages && (ip == src || ip == src + "_test")
  }

  lemma InScopeExactly(ip: string, packages: set<string>)
    ensures InScope(ip, packages) <==> BelongsTo(ip, packages)
  {
    hide TrimTest;
    forall src {
      TrimUndoes(ip, src);
    }
    TrimTrims(ip);
  }

  /** The prune may decide over the entry: it is the pipeline's own, and its package was loaded or is gone. */
  ghost predicate Decides(o: Output, r: Run, p: PruneOptions) {
    && r.pipeline != "" && o.pipeline == r.pipeline
    && (BelongsTo(o.target.importPath, r.scope) || BelongsTo(o.target.importPath, p.gone))
  }

  lemma DecidesIsAuthority(o: Output, r: Run, p: PruneOptions)
    ensures Decides(o, r, p) <==> r.pipeline != "" && Authority(o, r.pipeline, r.scope, p.gone)
  {
    hide InScope, BelongsTo;
    InScopeExactly(o.target.importPath, r.scope);
    InScopeExactly(o.target.importPath, p.gone);
  }

  /** The entry's file is there once the run has written, and lacks the marker or cannot be removed. */
  ghost predicate Guarded(o: Output, s: State, r: Run, p: PruneOptions) {
    && PathOf(o.target) in s.disk + Written(r)
    && (PathOf(o.target) !in s.marked + Written(r) || PathOf(o.target) !in p.removable)
  }

  lemma {:induction false} NothingDropped(os: seq<Output>)
    ensures Without(os, {}) == os
  {
    if os != [] {
      NothingDropped(os[..|os| - 1]);
      assert os == os[..|os| - 1] + [os[|os| - 1]];
    }
  }

  /** The entries after a run that persisted are the merged ones, written or left alone. */
  lemma RunEntries(s: State, r: Run)
    requires Canonical(Entries(s)) && ValidRun(r) && Healthy(r) && !r.dryRun
    ensures Entries(AfterRun(s, r)) == Last(s, r).outputs
  {
    if Skips(s, r) {
      SkipIsSound(s.manifest.value, r.current, View(r.rooted, r.scope, s.disk + Written(r)));
    }
  }

  lemma PruneEntries(s: State, r: Run, p: PruneOptions)
    requires Canonical(Entries(s)) && ValidRun(r) && Healthy(r) && !r.dryRun && p.writable
    ensures Entries(AfterPrune(s, r, p)) == Without(Last(s, r).outputs, Dropped(s, r, p))
  {
    hide AfterRun, Stale, Merged;
    RunEntries(s, r);
    if Dropped(s, r, p) == {} {
      NothingDropped(Last(s, r).outputs);
    }
  }

  /** Which merged entries a prune drops. */
  lemma DroppedExactly(s: State, r: Run, p: PruneOptions, o: Output)
    requires o in Last(s, r).outputs
    ensures KeyOf(o) in Dropped(s, r, p) <==> Decides(o, r, p) && o.target !in Emitted(r) && !Guarded(o, s, r, p)
  {
    hide PathOf, Stale, Merged, Authority;
    var last, stale, s1 := Last(s, r).outputs, StaleAfter(s, r, p), AfterRun(s, r);
    var survivors := Survivors(stale, s1.disk, s1.marked, p.removable);
    forall x | KeyOf(x) == KeyOf(o)
      ensures x in stale <==> x in last && Decides(o, r, p) && o.target !in Emitted(r)
      ensures x in stale ==> (x.target in survivors <==> Guarded(o, s, r, p))
    {
      StaleMembers(last, Emitted(r), r.pipeline, r.scope, p.gone, x);
      SameKeySameAuthority(x, o, r, p);
      DecidesIsAuthority(o, r, p);
    }
  }

  /** Which entries the run merged from. */
  lemma LastExactly(s: State, r: Run, o: Output)
    ensures o in Last(s, r).outputs <==>
            o in r.current.outputs ||
            (r.readable && o in Entries(s) && KeyOf(o) !in KeysOf(r.current.outputs)
             && !Converged(View(r.rooted, r.scope, s.disk + Written(r)), o))
  {
    if Prior(s, r).Some? {
      MergeMembers(Entries(s), r.current.outputs, View(r.rooted, r.scope, s.disk + Written(r)), o);
    }
  }

  lemma CurrentIsEmitted(r: Run, o: Output)
    requires ValidRun(r)
    ensures o in r.current.outputs ==> o.target in Emitted(r) && KeyOf(o) in KeysOf(r.current.outputs)
    ensures o.pipeline == r.pipeline ==> (o.target in Emitted(r) <==> KeyOf(o) in KeysOf(r.current.outputs))
  {
    hide Strict, WellFormed;
    if o.pipeline == r.pipeline && o.target in Emitted(r) {
      var c :| c in r.current.outputs && c.target == o.target;
      assert KeyOf(c) == KeyOf(o);
    }
  }

  /**
  The manifest a prune leaves, from the one before it: what the run emitted, and of the prior
  entries it did not replace those whose file a guard protects, where the pipeline decides, and
  those that have not converged, where it does not. The order is the canonical one.
  */
  lemma PruneLeavesExactly(s: State, r: Run, p: PruneOptions, o: Output)
    requires Canonical(Entries(s)) && ValidRun(r) && Healthy(r) && !r.dryRun && p.writable
    ensures Canonical(Entries(AfterPrune(s, r, p)))
    ensures o in Entries(AfterPrune(s, r, p)) <==>
            o in r.current.outputs ||
            (o in Entries(s) && KeyOf(o) !in KeysOf(r.current.outputs) &&
             if Decides(o, r, p) then Guarded(o, s, r, p)
             else !Converged(View(r.rooted, r.scope, s.disk + Written(r)), o))
  {
    StepCanonical(s, DoPrune(r, p));
    hide Canonical, AfterPrune, Last, Decides, Deletable, PathOf, ValidRun, Dropped;
    PruneEntries(s, r, p);
    WithoutMembers(Last(s, r).outputs, Dropped(s, r, p), o);
    LastExactly(s, r, o);
    CurrentIsEmitted(r, o);
    DecidedIsOwn(o, r, p);
    if o in Last(s, r).outputs {
      DroppedExactly(s, r, p, o);
    }
  }

  lemma DecidedIsOwn(o: Output, r: Run, p: PruneOptions)
    ensures Decides(o, r, p) ==> o.pipeline == r.pipeline
  {}

  lemma SameKeySameAuthority(x: Output, y: Output, r: Run, p: PruneOptions)
    requires KeyOf(x) == KeyOf(y)
    ensures Authority(x, r.pipeline, r.scope, p.gone) <==> Authority(y, r.pipeline, r.scope, p.gone)
  {}

  /** After a prune, repeating the run finds nothing to prune but what the guards protected the first time. */
  lemma SecondPruneFindsOnlyGuarded(s: State, r: Run, p: PruneOptions, again: Run, o: Output)
    requires Canonical(Entries(s)) && ValidRun(r) && Healthy(r) && !r.dryRun && p.writable
    requires again == r.(current := r.current.(runId := again.current.runId))
    ensures o in StaleAfter(AfterPrune(s, r, p), again, p) <==>
            o in Entries(s) && Decides(o, r, p) && o.target !in Emitted(r) && Guarded(o, s, r, p)
  {
    var s2 := AfterPrune(s, r, p);
    GuardedStays(s, r, p, o);
    hide Canonical, AfterPrune, Last, Stale, Authority, ValidRun, PathOf, Guarded;
    PruneLeavesExactly(s, r, p, o);
    StaleMembers(Last(s2, again).outputs, Emitted(again), r.pipeline, r.scope, p.gone, o);
    DecidesIsAuthority(o, r, p);
    LastExactly(s2, again, o);
    CurrentIsEmitted(r, o);
    DecidedIsOwn(o, r, p);
  }

  lemma GuardedStays(s: State, r: Run, p: PruneOptions, o: Output)
    requires !r.dryRun
    ensures Guarded(o, s, r, p) ==> PathOf(o.target) in AfterPrune(s, r, p).disk
  {
    hide PathOf, Stale, Last;
  }

  // ------------------------------------------------- files the run just wrote

  /** The prior manifest claims the path under a target that the run, which decides over it, did not emit. */
  ghost predicate HasStaleTwin(s: State, r: Run, p: PruneOptions, path: string) {
    exists was :: was in Entries(s) && Decides(was, r, p) && was.target !in Emitted(r) && PathOf(was.target) == path
  }

  /**
  A prune deletes a file that is there exactly when it is marked and can be removed, and the prior
  manifest could be read and claims it under a target the pipeline decides over and did not emit.
  Whether anything else claims the file plays no part.
  */
  lemma PruneDeletesExactly(s: State, r: Run, p: PruneOptions, path: string)
    requires !r.dryRun && path in s.disk + Written(r)
    ensures path !in AfterPrune(s, r, p).disk <==>
            path in s.marked + Written(r) && path in p.removable && r.readable && HasStaleTwin(s, r, p, path)
  {
    hide PathOf, Stale, Last, Authority;
    var stale := StaleAfter(s, r, p);
    forall o ensures o in stale && PathOf(o.target) == path <==>
                     r.readable && o in Entries(s) && Decides(o, r, p) && o.target !in Emitted(r)
                     && PathOf(o.target) == path
    {
      StaleMembers(Last(s, r).outputs, Emitted(r), r.pipeline, r.scope, p.gone, o);
      DecidesIsAuthority(o, r, p);
      LastExactly(s, r, o);
      if o in r.current.outputs {
        assert o.target in Emitted(r);
      } else if o.target !in Emitted(r) {
        assert KeyOf(o) !in KeysOf(r.current.outputs);
      }
    }
    if HasStaleTwin(s, r, p, path) && r.readable {
      var was :| was in Entries(s) && Decides(was, r, p) && was.target !in Emitted(r) && PathOf(was.target) == path;
      assert was in stale;
    }
  }

  /** In particular the files its own run has just written, which are marked. */
  lemma PruneDeletesEmittedExactly(s: State, r: Run, p: PruneOptions, path: string)
    requires r.rooted && !r.dryRun && path in PathsOf(r.current.outputs)
    ensures path !in AfterPrune(s, r, p).disk <==> path in p.removable && r.readable && HasStaleTwin(s, r, p, path)
  {
    hide HasStaleTwin, AfterPrune;
    PruneDeletesExactly(s, r, p, path);
  }

  /**
  Another pipeline's file is no exception. Its entry always stays, and the file goes exactly when
  the pruning pipeline has a stale entry for the same path.
  */
  lemma OthersFileExactly(s: State, r: Run, p: PruneOptions, other: Output)
    requires Canonical(Entries(s)) && ValidRun(r) && Healthy(r) && !r.dryRun && p.writable
    requires other in Entries(s) && other.pipeline != r.pipeline && PathOf(other.target) in s.disk
    ensures other in Entries(AfterPrune(s, r, p))
    ensures var path := PathOf(other.target);
            path !in AfterPrune(s, r, p).disk <==>
            path in s.marked + Written(r) && path in p.removable && HasStaleTwin(s, r, p, path)
  {
    hide PathOf, Canonical, AfterPrune, Converged, HasStaleTwin, WellFormed, Strict;
    PruneDeletesExactly(s, r, p, PathOf(other.target));
    OnDiskStays(View(r.rooted, r.scope, s.disk + Written(r)), other);
    PruneLeavesExactly(s, r, p, other);
  }

  /** Two pipelines claim one target, one stops emitting it, and its prune removes the file the other claims. */
  lemma SharedTargetLosesFile() returns (s: State, r: Run, p: PruneOptions, other: Output)
    ensures Canonical(Entries(s)) && Tracked(s) && ValidRun(r) && Healthy(r)
    ensures other in Entries(s) && other.pipeline != r.pipeline && PathOf(other.target) in s.disk
    ensures PathOf(other.target) !in AfterPrune(s, r, p).disk && other in Entries(AfterPrune(s, r, p))
  {
    hide PathOf, Strict, WellFormed, AfterPrune, TrimTest;
    var t := Target("d", "f.go", "d", "m/d");
    var was := Output(t, [], "h", None, "a");
    other := Output(t, [], "h", None, "b");
    var path := PathOf(t);
    s := State({path}, {path}, Some(Manifest(VERSION, "x", "1", [was, other])), {path});
    r := Run("a", {"m/d"}, Manifest(VERSION, "x", "2", []), true, false, true, true);
    p := PruneOptions({}, {path}, true);
    SharedTargetInput(t, was, other);
    assert was in Entries(s) && other in Entries(s) && InScope("m/d", r.scope);
    assert Decides(was, r, p) && was.target !in Emitted(r);
    OthersFileExactly(s, r, p, other);
  }

  lemma SharedTargetInput(t: Target, was: Output, other: Output)
    requires was == Output(t, [], "h", None, "a") && other == Output(t, [], "h", None, "b")
    ensures Strict([was, other]) && WellFormed(was) && WellFormed(other) && Strict([])
  {
    BeforeByPipeline(KeyOf(was), KeyOf(other));
  }

  lemma OnDiskStays(v: View, o: Output)
    requires PathOf(o.target) in v.disk
    ensures !Converged(v, o)
  {}

  /** No prior entry names the path of an emitted target under another target: no file changed its package. */
  ghost predicate KeepsTargets(before: seq<Output>, current: seq<Output>) {
    forall a, b | a in before && b in current && PathOf(a.target) == PathOf(b.target) :: a.target == b.target
  }

  /** Then a prune deletes nothing the run has written. */
  lemma PruneSparesEmitted(s: State, r: Run, p: PruneOptions)
    requires r.rooted && !r.dryRun && KeepsTargets(Entries(s), r.current.outputs)
    ensures PathsOf(r.current.outputs) <= AfterPrune(s, r, p).disk
  {
    hide PathOf, Decides, AfterPrune;
    forall path | path in PathsOf(r.current.outputs) ensures path in AfterPrune(s, r, p).disk {
      PruneDeletesEmittedExactly(s, r, p, path);
      var c :| c in r.current.outputs && PathOf(c.target) == path;
      assert c.target in Emitted(r);
    }
  }

  /** Where a prune does delete such a file, the manifest goes on claiming it. */
  lemma StaleTwinLosesFile(s: State, r: Run, p: PruneOptions, now: Output)
    requires Canonical(Entries(s)) && ValidRun(r) && Healthy(r) && r.rooted && !r.dryRun && p.writable
    requires now in r.current.outputs && PathOf(now.target) in p.removable && HasStaleTwin(s, r, p, PathOf(now.target))
    ensures PathOf(now.target) !in AfterPrune(s, r, p).disk
    ensures now in Entries(AfterPrune(s, r, p))
  {
    hide PathOf, Decides, AfterPrune, Canonical, ValidRun, HasStaleTwin;
    PruneDeletesEmittedExactly(s, r, p, PathOf(now.target));
    PruneLeavesExactly(s, r, p, now);
  }

  /** A renamed package is the plain case: the entry under the old package is stale, its path just written. */
  lemma RenamedPackageLosesFile() returns (s: State, r: Run, p: PruneOptions, now: Output)
    ensures Canonical(Entries(s)) && Tracked(s) && ValidRun(r) && Healthy(r) && now in r.current.outputs
    ensures PathOf(now.target) !in AfterPrune(s, r, p).disk && now in Entries(AfterPrune(s, r, p))
  {
    var was := Output(Target("d", "f.go", "old", "m/d"), [], "h", None, "p");
    now := Output(Target("d", "f.go", "new", "m/d"), [], "h", None, "p");
    var path := PathOf(now.target);
    assert PathOf(was.target) == path;
    s := State({path}, {path}, Some(Manifest(VERSION, "b", "1", [was])), {path});
    r := Run("p", {"m/d"}, Manifest(VERSION, "b", "2", [now]), true, false, true, true);
    p := PruneOptions({}, {path}, true);
    assert was in [was] && now in [now];
    assert InScope("m/d", r.scope);
    assert was in Entries(s) && Decides(was, r, p) && was.target !in Emitted(r);
    StaleTwinLosesFile(s, r, p, now);
  }

  // --------------------------------------------- what a run and a dry run leave

  ghost predicate Writes(r: Run, path: string) {
    r.rooted && exists o :: o in r.current.outputs && PathOf(o.target) == path
  }

  /** What a run leaves besides the entries: the files, and a manifest it may not or cannot touch. */
  lemma RunFrame(s: State, r: Run, path: string)
    ensures path in AfterRun(s, r).disk <==> path in s.disk || Writes(r, path)
    ensures path in AfterRun(s, r).marked <==> path in s.marked || Writes(r, path)
    ensures path in AfterRun(s, r).generated <==> path in s.generated || Writes(r, path)
    ensures r.dryRun || !r.writable ==> AfterRun(s, r).manifest == s.manifest
    ensures !r.dryRun && r.writable && (!r.readable || s.manifest.None?) ==> AfterRun(s, r).manifest == Some(r.current)
    ensures r.dryRun && !r.rooted ==> AfterRun(s, r) == s
  {
    hide PathOf, MergedOutputs;
  }

  /** The entries a run leaves, from those before it. */
  lemma RunEntriesExactly(s: State, r: Run, o: Output)
    requires Canonical(Entries(s)) && ValidRun(r) && Healthy(r) && !r.dryRun
    ensures o in Entries(AfterRun(s, r)) <==>
            || o in r.current.outputs
            || (&& o in Entries(s)
                && (forall c | c in r.current.outputs :: c.target != o.target || c.pipeline != o.pipeline)
                && (|| !r.rooted || !Loaded(o.target.importPath, r.scope)
                    || PathOf(o.target) in s.disk || Writes(r, PathOf(o.target))))
  {
    hide Canonical, PathOf, ValidRun, MergedOutputs, AfterRun, Loaded;
    RunEntries(s, r);
    if s.manifest.Some? {
      MergeExactly(Entries(s), r.current.outputs, View(r.rooted, r.scope, s.disk + Written(r)), o);
    }
  }

  /** The file is rewritten exactly when that changes more than the run identifier. */
  lemma RunRewritesExactly(s: State, r: Run)
    requires Canonical(Entries(s)) && ValidRun(r) && Healthy(r) && !r.dryRun && s.manifest.Some?
    ensures var m, n := s.manifest.value, AfterRun(s, r).manifest;
            n == if m.version == 2 && m.brand == r.current.brand && Entries(AfterRun(s, r)) == m.outputs then Some(m)
                 else Some(Manifest(2, r.current.brand, r.current.runId, Entries(AfterRun(s, r))))
  {
    hide Strict, WellFormed, PathOf, MergedOutputs, ContentEqual;
    RunEntries(s, r);
    SkipIsSound(s.manifest.value, r.current, View(r.rooted, r.scope, s.disk + Written(r)));
  }

  /** A dry run reports and touches nothing: no file goes, the manifest stays, and without a root nothing comes. */
  lemma DryPruneTouchesNothing(s: State, r: Run, p: PruneOptions, path: string)
    requires r.dryRun
    ensures path in AfterPrune(s, r, p).disk <==> path in s.disk || Writes(r, path)
    ensures AfterPrune(s, r, p).manifest == s.manifest
    ensures !r.rooted ==> AfterPrune(s, r, p) == s
  {
    hide AfterRun, Writes, Last, Stale;
    RunFrame(s, r, path);
  }

  /** What a prune leaves besides files and entries: markers, what is left of the generated files, and the header. */
  lemma PruneFrame(s: State, r: Run, p: PruneOptions, path: string)
    requires ValidRun(r)
    ensures path in AfterPrune(s, r, p).marked <==> path in s.marked || Writes(r, path)
    ensures !r.dryRun ==>
              (path in AfterPrune(s, r, p).generated <==>
               path in AfterPrune(s, r, p).disk && (path in s.generated || Writes(r, path)))
    ensures AfterPrune(s, r, p).manifest != s.manifest ==>
              var m := AfterPrune(s, r, p).manifest;
              m.Some? && m.value.version == 2 && m.value.brand == r.current.brand && m.value.runId == r.current.runId
  {
    hide PathOf, Stale, MergedOutputs, Strict, WellFormed;
    RunFrame(s, r, path);
  }

  // ------------------------------------------------------ the two scope tests

  /** A package in scope claims its outputs and their external-test variants, in the merge and in the prune. */
  lemma TestOutputsFollowSource(ip: string, scope: set<string>)
    requires ip in scope && ip != "" && TrimTest(ip) == ip
    ensures InScope(ip, scope) && InScope(ip + "_test", scope)
    ensures TrimTest(ip) in scope && TrimTest(ip + "_test") in scope
  {
    assert (ip + "_test")[|ip|..] == "_test" && (ip + "_test")[..|ip|] == ip;
  }

  /**
  The merge and the prune decide "was this package loaded" differently. They agree exactly unless
  the loaded package's own path ends in `_test`, which the merge strips before it looks, or the
  path is empty, which the prune never accepts.
  */
  lemma ScopeTestsAgreeExactly(ip: string, scope: set<string>)
    ensures (InScope(ip, scope) <==> TrimTest(ip) in scope) <==>
            !(TrimTest(ip) != ip && ip in scope && TrimTest(ip) !in scope) && !(ip == "" && "" in scope)
  {}
}
