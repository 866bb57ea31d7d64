/**
One working directory shared by any number of pipelines: the disk, the manifest, and the
operations that change them. `Directory` is the imperative form; the `After…` functions are
the transitions its methods are proved to make, and the theorems are about those.
*/
module Workspace {
  import opened Options
  import opened Manifests
  import opened ManifestTheorems

  /**
  `marked` are the paths whose first line carries the generated marker. `generated` are the paths
  on disk that some run wrote and nothing has deleted since; only the theorems look at it.
  */
  datatype State = State(disk: set<string>, marked: set<string>, manifest: Option<Manifest>, generated: set<string>)

  /**
  One run of one pipeline, with what the outside decides: what it loaded (`scope`), what its
  recording sink captured (`current`), whether the sink writes below a root, and whether the
  manifest can be read and written.
  */
  datatype Run = Run(pipeline: string, scope: set<string>, current: Manifest,
                     rooted: bool, dryRun: bool, readable: bool, writable: bool)

  /** What `asManifest` guarantees of the captured outputs; see `Recording`. */
  ghost predicate ValidRun(r: Run) {
    && r.current.version == VERSION && Strict(r.current.outputs) && AllFrom(r.current.outputs, r.pipeline)
    && forall o | o in r.current.outputs :: WellFormed(o)
  }

  ghost function Written(r: Run): set<string> {
    if r.rooted then PathsOf(r.current.outputs) else {}
  }

  ghost function Prior(s: State, r: Run): Option<Manifest> {
    if r.readable then s.manifest else None
  }

  /** The merged manifest, kept in memory whether or not it is written. */
  ghost function Last(s: State, r: Run): Manifest {
    Merged(Prior(s, r), r.current, View(r.rooted, r.scope, s.disk + Written(r)))
  }

  ghost predicate Skips(s: State, r: Run) {
    Prior(s, r).Some? && ContentEqual(Prior(s, r).value, Last(s, r))
  }

  ghost function AfterRun(s: State, r: Run): State {
    State(s.disk + Written(r), s.marked + Written(r),
          if r.dryRun || Skips(s, r) || !r.writable then s.manifest else Some(Last(s, r)),
          s.generated + Written(r))
  }

  // ------------------------------------------------------------------ prune

  /** Import paths established to be gone, paths that can be removed, and whether the rewrite succeeds. */
  datatype PruneOptions = PruneOptions(gone: set<string>, removable: set<string>, writable: bool)

  predicate InScope(ip: string, scope: set<string>) {
    ip != "" && (ip in scope || (TrimTest(ip) != ip && TrimTest(ip) in scope))
  }

  datatype Reason = Unclaimed | SourceGone
  datatype Orphan = Orphan(output: Output, reason: Reason)

  /** The pipeline may decide over the entry: it loaded the package, or the package is gone. */
  predicate Authority(o: Output, pipeline: string, scope: set<string>, gone: set<string>) {
    o.pipeline == pipeline && (InScope(o.target.importPath, scope) || InScope(o.target.importPath, gone))
  }

  function Stale(os: seq<Output>, emitted: set<Target>, pipeline: string, scope: set<string>,
      gone: set<string>): seq<Output> {
    if os == [] then []
    else
      var o := os[|os| - 1];
      Stale(os[..|os| - 1], emitted, pipeline, scope, gone) +
      if pipeline != "" && Authority(o, pipeline, scope, gone) && o.target !in emitted then [o] else []
  }

  method PruneAll(os: seq<Output>, emitted: set<Target>, pipeline: string, scope: set<string>, gone: set<string>)
    returns (r: seq<Orphan>)
    ensures |r| == |Stale(os, emitted, pipeline, scope, gone)|
    ensures forall i | 0 <= i < |r| :: r[i].output == Stale(os, emitted, pipeline, scope, gone)[i]
    ensures forall x | x in r :: x.reason == Unclaimed <==> InScope(x.output.target.importPath, scope)
  {
    r := [];
    if pipeline == "" {
      NoPipelineNoOrphans(os, emitted, scope, gone);
      return;
    }
    for k := 0 to |os|
      invariant |r| == |Stale(os[..k], emitted, pipeline, scope, gone)|
      invariant forall i | 0 <= i < |r| :: r[i].output == Stale(os[..k], emitted, pipeline, scope, gone)[i]
      invariant forall x | x in r :: x.reason == Unclaimed <==> InScope(x.output.target.importPath, scope)
    {
      var o := os[k];
      assert os[..k + 1][..k] == os[..k];
      if o.pipeline != pipeline || o.target in emitted {
        continue;
      }
      if InScope(o.target.importPath, scope) {
        r := r + [Orphan(o, Unclaimed)];
      } else if InScope(o.target.importPath, gone) {
        r := r + [Orphan(o, SourceGone)];
      }
    }
    assert os[..|os|] == os;
  }

  lemma {:induction false} NoPipelineNoOrphans(os: seq<Output>, emitted: set<Target>, scope: set<string>,
      gone: set<string>)
    ensures Stale(os, emitted, "", scope, gone) == []
  {
    if os != [] {
      NoPipelineNoOrphans(os[..|os| - 1], emitted, scope, gone);
    }
  }

  ghost predicate Deletable(o: Output, marked: set<string>, removable: set<string>) {
    PathOf(o.target) in marked && PathOf(o.target) in removable
  }

  /** The disk after the delete pass, and the targets that were present and could not be deleted. */
  ghost function DiskAfter(stale: seq<Output>, disk: set<string>, marked: set<string>,
      removable: set<string>): set<string> {
    disk - set o | o in stale && Deletable(o, marked, removable) :: PathOf(o.target)
  }

  ghost function Survivors(stale: seq<Output>, disk: set<string>, marked: set<string>,
      removable: set<string>): set<Target> {
    set o | o in stale && PathOf(o.target) in disk && !Deletable(o, marked, removable) :: o.target
  }

  ghost function DroppedKeys(stale: seq<Output>, survivors: set<Target>): set<Key> {
    set o | o in stale && o.target !in survivors :: KeyOf(o)
  }

  function Without(os: seq<Output>, keys: set<Key>): seq<Output> {
    if os == [] then []
    else
      var o := os[|os| - 1];
      Without(os[..|os| - 1], keys) + if KeyOf(o) in keys then [] else [o]
  }

  ghost function Emitted(r: Run): set<Target> {
    set o | o in r.current.outputs :: o.target
  }

  ghost function StaleAfter(s: State, r: Run, p: PruneOptions): seq<Output> {
    Stale(Last(s, r).outputs, Emitted(r), r.pipeline, r.scope, p.gone)
  }

  ghost function Dropped(s: State, r: Run, p: PruneOptions): set<Key> {
    var s1, stale := AfterRun(s, r), StaleAfter(s, r, p);
    DroppedKeys(stale, Survivors(stale, s1.disk, s1.marked, p.removable))
  }

  /** A prune is a run followed by the delete pass and the manifest rewrite; a dry run does neither. */
  ghost function AfterPrune(s: State, r: Run, p: PruneOptions): State {
    var s1, last := AfterRun(s, r), Last(s, r);
    if r.dryRun then s1
    else
      var disk := DiskAfter(StaleAfter(s, r, p), s1.disk, s1.marked, p.removable);
      State(disk, s1.marked,
            if Dropped(s, r, p) == {} || !p.writable then s1.manifest
            else Some(Manifest(VERSION, last.brand, last.runId, Without(last.outputs, Dropped(s, r, p)))),
            s1.generated * disk)
  }

  // ------------------------------------------------------ the imperative form

  lemma UnionNext(a: set<string>, b: set<string>, x: string)
    ensures (a + b) + {x} == a + (b + {x})
  {}

  lemma PathsSoFar(os: seq<Output>, i: nat)
    requires i <= |os|
    ensures PathsOf(os[..0]) == {}
    ensures i < |os| ==> PathsOf(os[..i + 1]) == PathsOf(os[..i]) + {PathOf(os[i].target)}
  {
    if i < |os| {
      assert os[..i + 1] == os[..i] + [os[i]];
    }
  }

  /** How many stale entries name a file that is there and cannot be deleted, and how many name none. */
  ghost function Refused(stale: seq<Output>, disk: set<string>, marked: set<string>, removable: set<string>): nat {
    if stale == [] then 0
    else
      var o := stale[|stale| - 1];
      Refused(stale[..|stale| - 1], disk, marked, removable) +
      if PathOf(o.target) in disk && !Deletable(o, marked, removable) then 1 else 0
  }

  ghost function Absent(stale: seq<Output>, disk: set<string>): nat {
    if stale == [] then 0
    else Absent(stale[..|stale| - 1], disk) + if PathOf(stale[|stale| - 1].target) in disk then 0 else 1
  }

  datatype Report = Report(deleted: nat, gone: nat, skipped: nat)

  /** The report of a delete pass from `disk0` to `disk`: each stale entry is counted once, under what became of it. */
  ghost predicate Accounts(report: Report, stale: seq<Output>, disk0: set<string>, disk: set<string>,
                           marked: set<string>, removable: set<string>, dryRun: bool) {
    && report.deleted + report.gone + report.skipped == |stale|
    && report.skipped == Refused(stale, disk0, marked, if dryRun then marked else removable)
    && if dryRun then report.gone == Absent(stale, disk0) else |disk| + report.deleted == |disk0|
  }

  /** A delete pass over `stale`. */
  ghost predicate Passed(report: Report, survivors: set<Target>, stale: seq<Output>, disk0: set<string>,
                         disk: set<string>, marked: set<string>, removable: set<string>, dryRun: bool) {
    && Accounts(report, stale, disk0, disk, marked, removable, dryRun)
    && (dryRun ==> disk == disk0)
    && (!dryRun ==> disk == DiskAfter(stale, disk0, marked, removable))
    && (!dryRun ==> survivors == Survivors(stale, disk0, marked, removable))
  }

  lemma NothingPassed(stale: seq<Output>, disk: set<string>, marked: set<string>, removable: set<string>, dryRun: bool)
    ensures Passed(Report(0, 0, 0), {}, stale[..0], disk, disk, marked, removable, dryRun)
  {}

  lemma CountsNext(stale: seq<Output>, o: Output, disk: set<string>, marked: set<string>, removable: set<string>)
    ensures Refused(stale + [o], disk, marked, removable) ==
            Refused(stale, disk, marked, removable) +
            if PathOf(o.target) in disk && !Deletable(o, marked, removable) then 1 else 0
    ensures Absent(stale + [o], disk) == Absent(stale, disk) + if PathOf(o.target) in disk then 0 else 1
  {
    assert (stale + [o])[..|stale|] == stale;
  }

  lemma PassNext(stale: seq<Output>, o: Output, disk0: set<string>, marked: set<string>, removable: set<string>)
    ensures var path, disk := PathOf(o.target), DiskAfter(stale, disk0, marked, removable);
            var survivors := Survivors(stale, disk0, marked, removable);
            && DiskAfter(stale + [o], disk0, marked, removable) ==
               (if path in disk && Deletable(o, marked, removable) then disk - {path} else disk)
            && Survivors(stale + [o], disk0, marked, removable) ==
               (if path in disk && !Deletable(o, marked, removable) then survivors + {o.target} else survivors)
            && (path in disk0 && !Deletable(o, marked, removable) <==> path in disk && !Deletable(o, marked, removable))
  {
    var path, disk := PathOf(o.target), DiskAfter(stale, disk0, marked, removable);
    if path in disk0 && path !in disk {
      var x :| x in stale && Deletable(x, marked, removable) && PathOf(x.target) == path;
    }
  }

  /** One stale entry more. */
  lemma PassedNext(report: Report, survivors: set<Target>, stale: seq<Output>, i: nat, disk0: set<string>,
                   disk: set<string>, marked: set<string>, removable: set<string>, dryRun: bool)
    requires i < |stale| && Passed(report, survivors, stale[..i], disk0, disk, marked, removable, dryRun)
    ensures var o := stale[i];
            var path := PathOf(o.target);
            if path !in disk then
              Passed(report.(gone := report.gone + 1), survivors, stale[..i + 1], disk0, disk, marked, removable,
                  dryRun)
            else if path !in marked || (!dryRun && path !in removable) then
              Passed(report.(skipped := report.skipped + 1), survivors + {o.target}, stale[..i + 1], disk0, disk,
                  marked, removable, dryRun)
            else
              Passed(report.(deleted := report.deleted + 1), survivors, stale[..i + 1], disk0,
                     if dryRun then disk else disk - {path}, marked, removable, dryRun)
  {
    hide PathOf, DiskAfter, Survivors, Refused, Absent;
    var o := stale[i];
    assert stale[..i + 1] == stale[..i] + [o];
    if dryRun {
      CountsNext(stale[..i], o, disk0, marked, marked);
    } else {
      CountsNext(stale[..i], o, disk0, marked, removable);
      PassNext(stale[..i], o, disk0, marked, removable);
    }
  }

  class Directory {
    var disk: set<string>
    var marked: set<string>
    var manifest: Option<Manifest>
    var last: Option<Manifest>
    ghost var generated: set<string>

    ghost function Value(): State
      reads this
    {
      State(disk, marked, manifest, generated)
    }

    constructor (disk: set<string>, marked: set<string>, manifest: Option<Manifest>)
      ensures Value() == State(disk, marked, manifest, {})
    {
      this.disk, this.marked, this.manifest, this.last, this.generated := disk, marked, manifest, None, {};
    }

    method Execute(r: Run)
      modifies this
      ensures Value() == AfterRun(old(Value()), r)
      ensures last == Some(Last(old(Value()), r))
    {
      hide Merged, ContentEqual, PathsOf;
      WriteOutputs(r);
      var prev := if r.readable then manifest else None;
      var merged := Merge(prev, r.current, View(r.rooted, r.scope, disk));
      last := Some(merged);
      if r.dryRun {
        return;
      }
      if prev.Some? && ContentEqual(prev.value, merged) {
        return;
      }
      if r.writable {
        manifest := Some(merged);
      }
    }

    /** The backend's writes, as far as the recording sink captured them. */
    method WriteOutputs(r: Run)
      modifies this`disk, this`marked, this`generated
      ensures disk == old(disk) + Written(r) && marked == old(marked) + Written(r)
      ensures generated == old(generated) + Written(r)
    {
      if !r.rooted {
        return;
      }
      hide PathsOf, PathOf;
      var os := r.current.outputs;
      ghost var paths: set<string> := PathsOf(os[..0]);
      assert paths == {} by { PathsSoFar(os, 0); }
      for i := 0 to |os|
        invariant paths == PathsOf(os[..i])
        invariant disk == old(disk) + paths && marked == old(marked) + paths && generated == old(generated) + paths
      {
        var path := PathOf(os[i].target);
        PathsSoFar(os, i);
        UnionNext(old(disk), paths, path);
        UnionNext(old(marked), paths, path);
        UnionNext(old(generated), paths, path);
        paths := paths + {path};
        disk, marked, generated := disk + {path}, marked + {path}, generated + {path};
      }
      assert os[..|os|] == os;
    }

    method Prune(r: Run, p: PruneOptions) returns (report: Report)
      modifies this
      ensures Value() == AfterPrune(old(Value()), r, p)
      ensures Accounts(report, StaleAfter(old(Value()), r, p), AfterRun(old(Value()), r).disk, disk, marked,
          p.removable, r.dryRun)
    {
      hide Accounts, DiskAfter, Survivors, DroppedKeys, Without, Stale, PathOf, Merged, ContentEqual;
      Execute(r);
      var emitted := set o | o in r.current.outputs :: o.target;
      var orphans := PruneAll(last.value.outputs, emitted, r.pipeline, r.scope, p.gone);
      var stale := seq(|orphans|, i requires 0 <= i < |orphans| => orphans[i].output);
      assert stale == StaleAfter(old(Value()), r, p);
      var survivors;
      report, survivors := Apply(stale, r.dryRun, p.removable);
      if !r.dryRun {
        Rewrite(stale, survivors, p.writable);
      }
    }

    /** The delete pass; a dry run only counts. */
    method Apply(stale: seq<Output>, dryRun: bool, removable: set<string>)
        returns (report: Report, survivors: set<Target>)
      modifies this`disk, this`generated
      ensures Passed(report, survivors, stale, old(disk), disk, marked, removable, dryRun)
      ensures generated == if dryRun then old(generated) else old(generated) * disk
    {
      hide *;
      report, survivors := Report(0, 0, 0), {};
      ghost var disk0 := disk;
      NothingPassed(stale, disk0, marked, removable, dryRun);
      for i := 0 to |stale|
        invariant Passed(report, survivors, stale[..i], disk0, disk, marked, removable, dryRun)
        invariant generated == old(generated)
      {
        var o := stale[i];
        var path := PathOf(o.target);
        PassedNext(report, survivors, stale, i, disk0, disk, marked, removable, dryRun);
        if path !in disk {
          report := report.(gone := report.gone + 1);
        } else if path !in marked {
          report := report.(skipped := report.skipped + 1);
          survivors := survivors + {o.target};
        } else if dryRun {
          report := report.(deleted := report.deleted + 1);
        } else if path !in removable {
          report := report.(skipped := report.skipped + 1);
          survivors := survivors + {o.target};
        } else {
          disk := disk - {path};
          report := report.(deleted := report.deleted + 1);
        }
      }
      assert stale[..|stale|] == stale;
      if !dryRun {
        generated := generated * disk;
      }
    }

    /** Every stale entry leaves the manifest unless its target survived the delete pass. */
    method Rewrite(stale: seq<Output>, survivors: set<Target>, writable: bool)
      requires last.Some?
      modifies this`manifest
      ensures manifest == if DroppedKeys(stale, survivors) == {} || !writable then old(manifest)
                          else Some(Manifest(VERSION, last.value.brand, last.value.runId,
                                             Without(last.value.outputs, DroppedKeys(stale, survivors))))
    {
      var drop := {};
      for i := 0 to |stale|
        invariant drop == DroppedKeys(stale[..i], survivors)
      {
        assert stale[..i + 1] == stale[..i] + [stale[i]];
        if stale[i].target !in survivors {
          drop := drop + {KeyOf(stale[i])};
        }
      }
      assert stale[..|stale|] == stale;
      if drop == {} {
        return;
      }
      var os, updated := last.value.outputs, [];
      for i := 0 to |os|
        invariant updated == Without(os[..i], drop)
      {
        assert os[..i + 1][..i] == os[..i];
        if KeyOf(os[i]) !in drop {
          updated := updated + [os[i]];
        }
      }
      assert os[..|os|] == os;
      if writable {
        manifest := Some(Manifest(VERSION, last.value.brand, last.value.runId, updated));
      }
    }

    /** The user removes a file. */
    method UserDelete(path: string)
      modifies this
      ensures Value() == old(Value()).(disk := old(disk) - {path}, generated := old(generated) - {path})
    {
      disk, generated := disk - {path}, generated - {path};
    }

    /** The user writes a file, with or without the generated marker. */
    method UserWrite(path: string, mark: bool)
      modifies this
      ensures Value() == old(Value()).(disk := old(disk) + {path},
                                       marked := if mark then old(marked) + {path} else old(marked) - {path})
    {
      disk := disk + {path};
      marked := if mark then marked + {path} else marked - {path};
    }
  }
}
