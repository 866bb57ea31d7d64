/**
Two recorders of the layout phase that avoid work on the common path, and the plain maps they
stand for: routing decisions per target, memoised on the previous call, and import paths per
origin and plugin, with the single-tag case held inline.
*/
module Recorders {
  import opened Options
  import Manifests
  import Composition

  type Target = Manifests.Target
  type Layers = Composition.Layers

  // ------------------------------------------------------ routing decisions

  /** `layout` is the one field of the recorded value that is not a function of the target. */
  datatype Decision = Decision(target: Target, layout: string, layers: Layers)
  datatype Entry = Entry(layout: string, layers: Layers)
  datatype Memo = Memo(target: Target, layers: Layers)

  /** The plain map: per target the first decision. */
  ghost function FirstWins(ds: seq<Decision>): map<Target, Entry> {
    if ds == [] then map[]
    else
      var m, d := FirstWins(ds[..|ds| - 1]), ds[|ds| - 1];
      if d.target in m then m else m[d.target := Entry(d.layout, d.layers)]
  }

  /** `ds[j]` is the first decision for its target. */
  ghost predicate IsFirst(ds: seq<Decision>, j: int) {
    0 <= j < |ds| && forall i | 0 <= i < j :: ds[i].target != ds[j].target
  }

  /** The decision just before had the same target and the same layers. */
  ghost predicate Repeats(ds: seq<Decision>, k: int) {
    0 < k < |ds| && ds[k - 1].target == ds[k].target && ds[k - 1].layers == ds[k].layers
  }

  /** `ds[j]` is the first decision for the target of `ds[k]`, and `ds[k]` differs from it. */
  ghost predicate Departs(ds: seq<Decision>, j: int, k: int) {
    IsFirst(ds, j) && 0 <= k < |ds| && ds[j].target == ds[k].target && ds[j] != ds[k]
  }

  /** `ds[k]` differs from the first decision for its target and does not repeat the one just before it. */
  ghost predicate Reported(ds: seq<Decision>, k: int) {
    !Repeats(ds, k) && exists j :: Departs(ds, j, k)
  }

  ghost function Reports(ds: seq<Decision>): set<int> {
    set k | 0 <= k < |ds| && Reported(ds, k)
  }

  class ResolvedRecorder {
    var entries: map<Target, Entry>
    var last: Option<Memo>
    ghost var history: seq<Decision>

    /** The memo is the last decision, whether or not it was looked up. */
    ghost predicate Valid()
      reads this
    {
      && entries == FirstWins(history)
      && last == (if history == [] then None
                  else Some(Memo(history[|history| - 1].target, history[|history| - 1].layers)))
    }

    constructor ()
      ensures Valid() && history == []
    {
      entries, last, history := map[], None, [];
    }

    /** Notes a decision; `report` is whether it raises the divergence diagnostic. */
    method Record(d: Decision) returns (report: bool)
      requires Valid()
      modifies this
      ensures Valid() && history == old(history) + [d]
      ensures report <==> Reported(history, |old(history)|)
    {
      hide FirstWins, Reported;
      FirstWinsNext(history, d);
      ReportedNext(history, d);
      report := false;
      history := history + [d];
      if last == Some(Memo(d.target, d.layers)) {
        ghost var _ := FirstWinsHolds(old(history), |old(history)| - 1);
        return;
      }
      if d.target in entries {
        if entries[d.target].layers != d.layers || entries[d.target].layout != d.layout {
          report := true;
        }
        last := Some(Memo(d.target, d.layers));
        return;
      }
      entries := entries[d.target := Entry(d.layout, d.layers)];
      last := Some(Memo(d.target, d.layers));
    }
  }

  lemma FirstWinsNext(ds: seq<Decision>, d: Decision)
    ensures FirstWins(ds + [d]) ==
            if d.target in FirstWins(ds) then FirstWins(ds) else FirstWins(ds)[d.target := Entry(d.layout, d.layers)]
  {
    assert (ds + [d])[..|ds|] == ds;
  }

  /** The map's entries are the first decisions, and every target has one. */
  lemma {:induction false} FirstWinsHolds(ds: seq<Decision>, k: nat) returns (j: nat)
    requires k < |ds|
    ensures ds[k].target in FirstWins(ds)
    ensures j <= k && IsFirst(ds, j) && ds[j].target == ds[k].target
    ensures FirstWins(ds)[ds[k].target] == Entry(ds[j].layout, ds[j].layers)
  {
    var front, d := ds[..|ds| - 1], ds[|ds| - 1];
    if k < |front| {
      j := FirstWinsHolds(front, k);
    } else if d.target in FirstWins(front) {
      var i := OnlyRecorded(front, d.target);
      j := FirstWinsHolds(front, i);
    } else {
      j := k;
      forall i | 0 <= i < j ensures ds[i].target != d.target {
        var _ := FirstWinsHolds(front, i);
      }
    }
  }

  lemma {:induction false} OnlyRecorded(ds: seq<Decision>, t: Target) returns (i: nat)
    requires t in FirstWins(ds)
    ensures i < |ds| && ds[i].target == t
  {
    if ds[|ds| - 1].target == t {
      i := |ds| - 1;
    } else {
      i := OnlyRecorded(ds[..|ds| - 1], t);
    }
  }

  /** A new decision is reported exactly when it is no repetition and is not the entry on record. */
  lemma ReportedNext(ds: seq<Decision>, d: Decision)
    ensures Reported(ds + [d], |ds|) <==>
            && !Repeats(ds + [d], |ds|)
            && d.target in FirstWins(ds) && FirstWins(ds)[d.target] != Entry(d.layout, d.layers)
  {
    hide FirstWins, Repeats;
    var all := ds + [d];
    if d.target in FirstWins(ds) {
      var k := OnlyRecorded(ds, d.target);
      var i := FirstWinsHolds(ds, k);
      assert all[..|ds|] == ds && all[i] == ds[i] && all[k] == ds[k];
      assert IsFirst(all, i) && all[i].target == d.target;
      forall j | Departs(all, j, |ds|) ensures j == i {}
      assert Departs(all, i, |ds|) <==> FirstWins(ds)[d.target] != Entry(d.layout, d.layers);
    } else {
      forall j ensures !Departs(all, j, |ds|) {
        if 0 <= j < |ds| {
          var _ := FirstWinsHolds(ds, j);
        }
      }
    }
  }

  lemma ReportsNext(ds: seq<Decision>, d: Decision)
    ensures Reports(ds + [d]) == Reports(ds) + if Reported(ds + [d], |ds|) then {|ds|} else {}
  {
    hide Reported;
    forall k | 0 <= k < |ds| ensures Reported(ds + [d], k) <==> Reported(ds, k) {
      ReportedBefore(ds, d, k);
    }
  }

  lemma ReportedBefore(ds: seq<Decision>, d: Decision, k: int)
    requires 0 <= k < |ds|
    ensures Reported(ds + [d], k) <==> Reported(ds, k)
  {
    var all := ds + [d];
    forall j ensures Departs(all, j, k) <==> Departs(ds, j, k) {
      if 0 <= j < |ds| {
        assert forall i | 0 <= i <= j :: all[i] == ds[i];
        assert IsFirst(all, j) <==> IsFirst(ds, j);
      }
    }
  }

  /** Over every stream the memoising recorder holds the plain map and reports at exactly the positions in `Reports`. */
  method RecordDecisions(ds: seq<Decision>) returns (entries: map<Target, Entry>, reported: set<int>)
    ensures entries == FirstWins(ds) && reported == Reports(ds)
  {
    hide Reported;
    var r := new ResolvedRecorder();
    reported := {};
    for i := 0 to |ds|
      invariant fresh(r) && r.Valid() && r.history == ds[..i] && reported == Reports(ds[..i])
    {
      assert ds[..i + 1] == ds[..i] + [ds[i]];
      ReportsNext(ds[..i], ds[i]);
      var report := r.Record(ds[i]);
      if report {
        reported := reported + {i};
      }
    }
    assert ds[..|ds|] == ds;
    entries := r.entries;
  }

  // What the reports say about the stream.

  ghost predicate LayersDiverge(ds: seq<Decision>) {
    exists a, b :: a in ds && b in ds && a.target == b.target && a.layers != b.layers
  }

  /** Two decisions for one target differ. */
  ghost predicate Diverge(ds: seq<Decision>) {
    exists a, b :: a in ds && b in ds && a.target == b.target && a != b
  }

  /** Where a decision's layers are not those of the first for its target, it or one before it is reported. */
  lemma {:induction false} DepartureIsReported(ds: seq<Decision>, j: nat, k: nat) returns (i: nat)
    requires IsFirst(ds, j) && k < |ds| && ds[j].target == ds[k].target && ds[j].layers != ds[k].layers
    ensures i < |ds| && Reported(ds, i)
    decreases k
  {
    if Repeats(ds, k) {
      i := DepartureIsReported(ds, j, k - 1);
    } else {
      i := k;
      assert Departs(ds, j, k);
    }
  }

  lemma {:induction false} FirstFor(ds: seq<Decision>, k: nat) returns (j: nat)
    requires k < |ds|
    ensures IsFirst(ds, j) && ds[j].target == ds[k].target
    decreases k
  {
    if IsFirst(ds, k) {
      j := k;
    } else {
      var i :| 0 <= i < k && ds[i].target == ds[k].target;
      j := FirstFor(ds, i);
    }
  }

  /**
  Decisions that differ in layers never go unreported, and nothing is reported unless two decisions
  for one target differ; so where layers determine the layout the two coincide.
  */
  lemma ReportsMeanDivergence(ds: seq<Decision>)
    ensures LayersDiverge(ds) ==> Reports(ds) != {}
    ensures Reports(ds) != {} ==> Diverge(ds)
    ensures LayersDetermineLayout(ds) ==> (Reports(ds) != {} <==> Diverge(ds))
  {
    hide Reported;
    if LayersDiverge(ds) {
      var a, b :| a in ds && b in ds && a.target == b.target && a.layers != b.layers;
      var x :| 0 <= x < |ds| && ds[x] == a;
      var y :| 0 <= y < |ds| && ds[y] == b;
      var j := FirstFor(ds, x);
      var i := DepartureIsReported(ds, j, if ds[j].layers != a.layers then x else y);
      assert i in Reports(ds);
    }
    if k :| k in Reports(ds) {
      ReportIsDivergence(ds, k);
    }
  }

  lemma ReportIsDivergence(ds: seq<Decision>, k: int)
    requires Reported(ds, k)
    ensures Diverge(ds)
  {
    var j :| Departs(ds, j, k);
    assert ds[j] in ds && ds[k] in ds;
  }

  ghost predicate LayersDetermineLayout(ds: seq<Decision>) {
    forall a, b | a in ds && b in ds && a.target == b.target && a.layers == b.layers :: a.layout == b.layout
  }

  /** Where they do not, the memo hides a divergence in layout alone. */
  lemma LayoutDivergenceIsMissed(a: Decision, b: Decision)
    requires a.target == b.target && a.layers == b.layers && a.layout != b.layout
    ensures Diverge([a, b]) && Reports([a, b]) == {}
  {
    var ds := [a, b];
    assert a in ds && b in ds && Repeats(ds, 1);
    forall j ensures !Departs(ds, j, 0) {}
  }

  // ------------------------------------------------------------ import paths

  /** `origin` is the source node's identity, absent for synthetic entities. */
  datatype Output = Output(origin: Option<int>, plugin: string, tag: string, importPath: string)
  datatype Slot = Slot(origin: int, plugin: string)

  /** One tag inline, the others in `more`; no constructor at all means nothing was recorded. */
  datatype OutputPaths = OutputPaths(tag: string, path: string, more: map<string, string>)

  /** The exported view: a fresh map of everything recorded. */
  function ByTag(o: OutputPaths): map<string, string> {
    map[o.tag := o.path] + o.more
  }

  /** The plain map: per slot the last path recorded under each tag. */
  ghost function LastWins(os: seq<Output>, key: Slot): map<string, string> {
    if os == [] then map[]
    else
      var m, o := LastWins(os[..|os| - 1], key), os[|os| - 1];
      if o.origin == Some(key.origin) && o.plugin == key.plugin then m[o.tag := o.importPath] else m
  }

  /** The inline forms stand for the plain maps; a slot without one has nothing recorded. */
  ghost predicate StandsFor(loc: map<Slot, OutputPaths>, os: seq<Output>, key: Slot) {
    && (key in loc <==> LastWins(os, key) != map[])
    && (key in loc ==> ByTag(loc[key]) == LastWins(os, key) && loc[key].tag !in loc[key].more)
  }

  class PathRecorder {
    var loc: map<Slot, OutputPaths>
    ghost var history: seq<Output>

    ghost predicate Valid()
      reads this
    {
      forall key :: StandsFor(loc, history, key)
    }

    constructor ()
      ensures Valid() && history == []
    {
      loc, history := map[], [];
    }

    method Record(o: Output)
      requires Valid()
      modifies this
      ensures Valid() && history == old(history) + [o]
    {
      hide StandsFor;
      ghost var before, os := loc, history;
      history := history + [o];
      if o.origin.Some? {
        var key := Slot(o.origin.value, o.plugin);
        if key !in loc {
          loc := loc[key := OutputPaths(o.tag, o.importPath, map[])];
        } else {
          var cur := loc[key];
          if o.tag == cur.tag {
            cur := cur.(path := o.importPath);
          } else {
            cur := cur.(more := cur.more[o.tag := o.importPath]);
          }
          loc := loc[key := cur];
        }
      }
      forall key ensures StandsFor(loc, history, key) {
        StandsForNext(before, os, o, key);
      }
    }
  }

  lemma StandsForNext(loc: map<Slot, OutputPaths>, os: seq<Output>, o: Output, key: Slot)
    requires StandsFor(loc, os, key)
    ensures if o.origin.None? then StandsFor(loc, os + [o], key)
            else
              var k := Slot(o.origin.value, o.plugin);
              if k !in loc then StandsFor(loc[k := OutputPaths(o.tag, o.importPath, map[])], os + [o], key)
              else if o.tag == loc[k].tag then StandsFor(loc[k := loc[k].(path := o.importPath)], os + [o], key)
              else StandsFor(loc[k := loc[k].(more := loc[k].more[o.tag := o.importPath])], os + [o], key)
  {
    assert (os + [o])[..|os|] == os;
    var m := LastWins(os, key);
    assert o.tag in m[o.tag := o.importPath];
  }

  /** Over every stream of outputs, empty import paths included. */
  method RecordPaths(os: seq<Output>) returns (loc: map<Slot, OutputPaths>)
    ensures forall key :: key in loc <==> LastWins(os, key) != map[]
    ensures forall key | key in loc :: ByTag(loc[key]) == LastWins(os, key)
  {
    var r := new PathRecorder();
    for i := 0 to |os|
      invariant fresh(r) && r.Valid() && r.history == os[..i]
    {
      assert os[..i + 1] == os[..i] + [os[i]];
      r.Record(os[i]);
    }
    assert os[..|os|] == os;
    loc := r.loc;
    forall key ensures key in loc <==> LastWins(os, key) != map[]
               ensures key in loc ==> ByTag(loc[key]) == LastWins(os, key)
    {
      assert StandsFor(loc, os, key);
    }
  }

  /** Position `i` records `path` under the slot and tag, and no later one records anything there. */
  ghost predicate LastAt(os: seq<Output>, origin: int, plugin: string, tag: string, i: int) {
    && 0 <= i < |os| && os[i].origin == Some(origin) && os[i].plugin == plugin && os[i].tag == tag
    && forall j | i < j < |os| :: os[j].origin != Some(origin) || os[j].plugin != plugin || os[j].tag != tag
  }

  /** The plain map holds under each tag the path of the last output for that origin, plugin and tag. */
  lemma {:induction false} LastWinsExactly(os: seq<Output>, origin: int, plugin: string, tag: string)
    ensures tag in LastWins(os, Slot(origin, plugin)) <==> exists i :: LastAt(os, origin, plugin, tag, i)
    ensures forall i | LastAt(os, origin, plugin, tag, i) ::
              tag in LastWins(os, Slot(origin, plugin)) && LastWins(os, Slot(origin, plugin))[tag] == os[i].importPath
  {
    if os != [] {
      var front, o := os[..|os| - 1], os[|os| - 1];
      LastWinsExactly(front, origin, plugin, tag);
      if o.origin == Some(origin) && o.plugin == plugin && o.tag == tag {
        assert LastAt(os, origin, plugin, tag, |front|);
      } else {
        forall i ensures LastAt(os, origin, plugin, tag, i) <==> LastAt(front, origin, plugin, tag, i) {}
      }
    }
  }

  /** The exported view: the inline tag and the others, which never repeat it. */
  lemma ByTagExactly(o: OutputPaths, tag: string)
    requires o.tag !in o.more
    ensures tag in ByTag(o) <==> tag == o.tag || tag in o.more
    ensures ByTag(o)[o.tag] == o.path && (tag in o.more ==> ByTag(o)[tag] == o.more[tag])
  {}
}
