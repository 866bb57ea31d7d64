/**
The method set of an interface, through transitively embedded interfaces.

Interfaces are named by identity (`IfaceId` is the Go pointer), so the embed graph may share
interfaces and may be cyclic. `Collector` is the imperative walk with its `seen` and
`visiting` sets; `Trace` is the pure pre-order walk it is proved against.
*/
module MethodSets {
  import opened Options
  import TypeRefs

  type IfaceId = int

  /** `id` keeps two pointers to equal contents apart. */
  datatype Method = Method(id: int, name: string)
  datatype Embed = Embed(id: int, typ: TypeRefs.Ref, resolved: Option<IfaceId>)
  datatype Interface = Interface(methods: seq<Option<Method>>, embeds: seq<Option<Embed>>)

  /** The resolver's two results, in every combination it may return. */
  datatype Lookup = Lookup(iface: Option<IfaceId>, found: bool)

  datatype World = World(ifaces: map<IfaceId, Interface>, resolve: Option<TypeRefs.Ref -> Lookup>)

  datatype Reason = Unresolved | NonInterface | Cyclic | Generic

  datatype Entry = Entry(meth: Method, from: Option<Embed>)
  datatype Issue = Issue(embed: Embed, reason: Reason)
  datatype MethodSetResult = MethodSetResult(methods: seq<Method>, entries: seq<Entry>, issues: seq<Issue>)

  /** What an embed amounts to before cycles are considered. */
  datatype Step = Skip | Blocked(reason: Reason) | Walk(target: IfaceId)

  function LookUp(w: World, e: Embed): Lookup {
    var asked := if w.resolve.Some? then w.resolve.value(e.typ) else Lookup(None, false);
    if !asked.found && e.resolved.Some? then Lookup(e.resolved, true) else asked
  }

  function Classify(w: World, e: Option<Embed>): Step {
    if e.None? || e.value.typ.NoRef? then Skip
    else if !TypeRefs.MayDenoteInterface(e.value.typ) then Skip
    else if |e.value.typ.typeArgs| > 0 then Blocked(Generic)
    else
      var l := LookUp(w, e.value);
      if l.iface.None? && !l.found then Blocked(Unresolved)
      else if l.iface.None? then Blocked(NonInterface)
      else Walk(l.iface.value)
  }

  /** Every interface pointer the walk can meet points at an interface. */
  ghost predicate Closed(w: World) {
    forall i, e | i in w.ifaces && e in w.ifaces[i].embeds && Classify(w, e).Walk? ::
      Classify(w, e).target in w.ifaces
  }

  ghost function Edges(w: World): set<(IfaceId, IfaceId)> {
    set i, e | i in w.ifaces && e in w.ifaces[i].embeds && Classify(w, e).Walk? :: (i, Classify(w, e).target)
  }

  ghost predicate Declares(w: World, i: IfaceId, m: Method) {
    i in w.ifaces && Some(m) in w.ifaces[i].methods && m.name != ""
  }

  // ------------------------------------------------------- the pure walk

  datatype Event =
    | Decl(iface: IfaceId, meth: Method, from: Option<Embed>)
    | Block(iface: IfaceId, embed: Embed, reason: Reason)

  ghost function Own(i: IfaceId, ms: seq<Option<Method>>, from: Option<Embed>): seq<Event> {
    if ms == [] then [] else Own(i, ms[..|ms| - 1], from) + OwnItem(i, ms[|ms| - 1], from)
  }

  ghost function OwnItem(i: IfaceId, m: Option<Method>, from: Option<Embed>): seq<Event> {
    if m.None? || m.value.name == "" then [] else [Decl(i, m.value, from)]
  }

  ghost function Trace(w: World, i: IfaceId, path: set<IfaceId>, from: Option<Embed>): seq<Event>
    requires Closed(w) && i in w.ifaces && i !in path
    decreases w.ifaces.Keys - path, 0
  {
    Own(i, w.ifaces[i].methods, from) + EmbedTrace(w, i, |w.ifaces[i].embeds|, path + {i}, from)
  }

  /** The walk below the first `n` embeds of `i`, where `path` is the chain down to `i`. */
  ghost function EmbedTrace(w: World, i: IfaceId, n: nat, path: set<IfaceId>, from: Option<Embed>): seq<Event>
    requires Closed(w) && i in w.ifaces && n <= |w.ifaces[i].embeds| && i in path
    decreases w.ifaces.Keys - path, n + 1
  {
    if n == 0 then []
    else EmbedTrace(w, i, n - 1, path, from) + StepTrace(w, i, w.ifaces[i].embeds[n - 1], path, from)
  }

  ghost function StepTrace(w: World, i: IfaceId, e: Option<Embed>, path: set<IfaceId>, from: Option<Embed>): seq<Event>
    requires Closed(w) && i in w.ifaces && e in w.ifaces[i].embeds && i in path
    decreases w.ifaces.Keys - path, 1
  {
    match Classify(w, e)
    case Skip => []
    case Blocked(r) => [Block(i, e.value, r)]
    case Walk(t) =>
      if t in path then [Block(i, e.value, Cyclic)]
      else Trace(w, t, path, if from.Some? then from else e)
  }

  /** The declarations of a walk with every later one of the same name removed. */
  ghost function Firsts(log: seq<Event>): seq<Entry> {
    if log == [] then []
    else
      var before, ev := Firsts(log[..|log| - 1]), log[|log| - 1];
      if ev.Decl? && ev.meth.name !in Names(log[..|log| - 1]) then before + [Entry(ev.meth, ev.from)] else before
  }

  ghost function Names(log: seq<Event>): set<string> {
    set ev | ev in log && ev.Decl? :: ev.meth.name
  }

  ghost function Issues(log: seq<Event>): seq<Issue> {
    if log == [] then []
    else
      var before, ev := Issues(log[..|log| - 1]), log[|log| - 1];
      if ev.Block? then before + [Issue(ev.embed, ev.reason)] else before
  }

  /** The two result slices describe the same methods in the same order. */
  ghost predicate InStep(ms: seq<Method>, entries: seq<Entry>) {
    |ms| == |entries| && forall k | 0 <= k < |ms| :: ms[k] == entries[k].meth
  }

  // ------------------------------------------------------- the imperative walk

  class Collector {
    const w: World
    var seen: set<string>
    var visiting: set<IfaceId>
    var methods: seq<Method>
    var entries: seq<Entry>
    var issues: seq<Issue>
    ghost var log: seq<Event>

    ghost predicate Valid()
      reads this
    {
      && entries == Firsts(log)
      && InStep(methods, entries)
      && seen == Names(log)
      && issues == Issues(log)
    }

    constructor (w: World)
      ensures Valid() && this.w == w && log == [] && visiting == {}
    {
      this.w := w;
      seen, visiting := {}, {};
      methods, entries, issues, log := [], [], [], [];
      new;
      assert Names([]) == {};
    }

    method Add(i: IfaceId, m: Option<Method>, from: Option<Embed>)
      requires Valid()
      modifies this
      ensures Valid() && visiting == old(visiting)
      ensures log == old(log) + OwnItem(i, m, from)
    {
      if m.None? || m.value.name == "" {
        return;
      }
      hide Firsts, Names, Issues, InStep;
      Snoc(log, Decl(i, m.value, from));
      StillInStep(methods, entries, m.value, from);
      if m.value.name !in seen {
        seen := seen + {m.value.name};
        methods := methods + [m.value];
        entries := entries + [Entry(m.value, from)];
      }
      log := log + [Decl(i, m.value, from)];
    }

    method Report(i: IfaceId, e: Embed, r: Reason)
      requires Valid()
      modifies this
      ensures Valid() && visiting == old(visiting)
      ensures log == old(log) + [Block(i, e, r)]
    {
      hide Firsts, Names, Issues;
      Snoc(log, Block(i, e, r));
      issues := issues + [Issue(e, r)];
      log := log + [Block(i, e, r)];
    }

    method Collect(i: IfaceId, from: Option<Embed>)
      requires Valid() && Closed(w) && i in w.ifaces && i !in visiting
      modifies this
      ensures Valid() && visiting == old(visiting)
      ensures log == old(log) + Trace(w, i, old(visiting), from)
      decreases w.ifaces.Keys - visiting, 0
    {
      hide Firsts, Names, Issues, InStep, Trace, EmbedTrace, StepTrace, Own, Closed;
      visiting := visiting + {i};
      CollectOwn(i, from);
      var es := w.ifaces[i].embeds;
      ghost var path, base := visiting, log;
      NoEmbedTrace(w, i, path, from);
      for k := 0 to |es|
        invariant Valid() && visiting == path
        invariant log == base + EmbedTrace(w, i, k, path, from)
      {
        EmbedTraceNext(w, i, k, path, from);
        CollectEmbed(i, es[k], from);
      }
      visiting := visiting - {i};
      TraceParts(w, i, old(visiting), from);
    }

    /** The loop over `i`'s declarations. */
    method CollectOwn(i: IfaceId, from: Option<Embed>)
      requires Valid() && i in w.ifaces
      modifies this
      ensures Valid() && visiting == old(visiting)
      ensures log == old(log) + Own(i, w.ifaces[i].methods, from)
    {
      hide Firsts, Names, Issues;
      var ms := w.ifaces[i].methods;
      for k := 0 to |ms|
        invariant Valid() && visiting == old(visiting)
        invariant log == old(log) + Own(i, ms[..k], from)
      {
        Add(i, ms[k], from);
        assert log == old(log) + (Own(i, ms[..k], from) + OwnItem(i, ms[k], from));
        assert Own(i, ms[..k + 1], from) == Own(i, ms[..k], from) + OwnItem(i, ms[k], from) by {
          assert ms[..k + 1][..k] == ms[..k];
        }
      }
      assert ms[..|ms|] == ms;
    }

    /** One turn of the loop over `i`'s embeds. */
    method CollectEmbed(i: IfaceId, e: Option<Embed>, from: Option<Embed>)
      requires Valid() && Closed(w) && i in w.ifaces && e in w.ifaces[i].embeds && i in visiting
      modifies this
      ensures Valid() && visiting == old(visiting)
      ensures log == old(log) + StepTrace(w, i, e, old(visiting), from)
      decreases w.ifaces.Keys - visiting, 1
    {
      if e.None? || e.value.typ.NoRef? || !TypeRefs.MayDenoteInterface(e.value.typ) {
        return;
      }
      if |e.value.typ.typeArgs| > 0 {
        Report(i, e.value, Generic);
        return;
      }
      var embedded, found := None, false;
      if w.resolve.Some? {
        var l := w.resolve.value(e.value.typ);
        embedded, found := l.iface, l.found;
      }
      if !found && e.value.resolved.Some? {
        embedded, found := e.value.resolved, true;
      }
      if embedded.None? && !found {
        Report(i, e.value, Unresolved);
      } else if embedded.None? {
        Report(i, e.value, NonInterface);
      } else if embedded.value in visiting {
        Report(i, e.value, Cyclic);
      } else {
        assert Classify(w, e) == Walk(embedded.value);
        Collect(embedded.value, if from.Some? then from else e);
      }
    }
  }

  lemma StillInStep(ms: seq<Method>, entries: seq<Entry>, m: Method, from: Option<Embed>)
    requires InStep(ms, entries)
    ensures InStep(ms + [m], entries + [Entry(m, from)])
  {}

  lemma NoEmbedTrace(w: World, i: IfaceId, path: set<IfaceId>, from: Option<Embed>)
    requires Closed(w) && i in w.ifaces && i in path
    ensures EmbedTrace(w, i, 0, path, from) == []
  {}

  lemma EmbedTraceNext(w: World, i: IfaceId, k: nat, path: set<IfaceId>, from: Option<Embed>)
    requires Closed(w) && i in w.ifaces && i in path && k < |w.ifaces[i].embeds|
    ensures EmbedTrace(w, i, k + 1, path, from) ==
            EmbedTrace(w, i, k, path, from) + StepTrace(w, i, w.ifaces[i].embeds[k], path, from)
  {
    hide StepTrace;
  }

  lemma TraceParts(w: World, i: IfaceId, path: set<IfaceId>, from: Option<Embed>)
    requires Closed(w) && i in w.ifaces && i !in path
    ensures Trace(w, i, path, from) ==
            Own(i, w.ifaces[i].methods, from) + EmbedTrace(w, i, |w.ifaces[i].embeds|, path + {i}, from)
  {
    hide EmbedTrace, Own;
  }

  lemma Snoc(log: seq<Event>, ev: Event)
    ensures Names(log + [ev]) == Names(log) + if ev.Decl? then {ev.meth.name} else {}
    ensures Firsts(log + [ev]) ==
            Firsts(log) + if ev.Decl? && ev.meth.name !in Names(log) then [Entry(ev.meth, ev.from)] else []
    ensures Issues(log + [ev]) == Issues(log) + if ev.Block? then [Issue(ev.embed, ev.reason)] else []
  {
    assert (log + [ev])[..|log|] == log;
  }

  /** A nil interface has the empty result. */
  method MethodSet(w: World, root: Option<IfaceId>) returns (r: MethodSetResult)
    requires Closed(w)
    requires root.Some? ==> root.value in w.ifaces
    ensures root.None? ==> r == MethodSetResult([], [], [])
    ensures root.Some? ==> IsMethodSet(w, root.value, r)
  {
    if root.None? {
      return MethodSetResult([], [], []);
    }
    var c := new Collector(w);
    c.Collect(root.value, None);
    assert c.log == Walked(w, root.value);
    r := MethodSetResult(c.methods, c.entries, c.issues);
  }

  ghost function Walked(w: World, root: IfaceId): seq<Event>
    requires Closed(w) && root in w.ifaces
  {
    Trace(w, root, {}, None)
  }

  /** `r` is the pre-order flattening below `root`, first declarations only. */
  ghost predicate IsMethodSet(w: World, root: IfaceId, r: MethodSetResult)
    requires Closed(w) && root in w.ifaces
  {
    && r.entries == Firsts(Walked(w, root))
    && InStep(r.methods, r.entries)
    && r.issues == Issues(Walked(w, root))
  }
}
