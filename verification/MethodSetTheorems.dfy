/**
What the walk of `MethodSets` finds, stated over the embed graph: which names it returns,
where each is attributed, when it reports a cycle, and what an answer without issues means.
*/
module MethodSetTheorems {
  import opened Options
  import opened Graphs
  import opened MethodSets

  // ---------------------------------------------------- membership in a walk

  lemma {:induction false} OwnEvents(i: IfaceId, ms: seq<Option<Method>>, from: Option<Embed>, ev: Event)
    ensures ev in Own(i, ms, from) <==>
            ev.Decl? && ev.iface == i && ev.from == from && Some(ev.meth) in ms && ev.meth.name != ""
  {
    if ms != [] {
      OwnEvents(i, ms[..|ms| - 1], from, ev);
      assert ms == ms[..|ms| - 1] + [ms[|ms| - 1]];
    }
  }

  /** An event below `n` embeds of `i` comes from one of them. */
  lemma {:induction false} EventEmbed(w: World, i: IfaceId, n: nat, path: set<IfaceId>, from: Option<Embed>, ev: Event)
    returns (k: nat)
    requires Closed(w) && i in w.ifaces && n <= |w.ifaces[i].embeds| && i in path
    requires ev in EmbedTrace(w, i, n, path, from)
    ensures k < n && ev in StepTrace(w, i, w.ifaces[i].embeds[k], path, from)
  {
    if ev in StepTrace(w, i, w.ifaces[i].embeds[n - 1], path, from) {
      k := n - 1;
    } else {
      k := EventEmbed(w, i, n - 1, path, from, ev);
    }
  }

  /** Every embed's events are part of the whole. */
  lemma {:induction false} EmbedEvents(w: World, i: IfaceId, n: nat, k: nat, path: set<IfaceId>, from: Option<Embed>,
      ev: Event)
    requires Closed(w) && i in w.ifaces && k < n <= |w.ifaces[i].embeds| && i in path
    requires ev in StepTrace(w, i, w.ifaces[i].embeds[k], path, from)
    ensures ev in EmbedTrace(w, i, n, path, from)
  {
    if k < n - 1 {
      EmbedEvents(w, i, n - 1, k, path, from, ev);
    }
  }

  /** What `i` itself contributes to any walk that arrives at it, before cycles are considered. */
  ghost predicate Local(w: World, i: IfaceId, ev: Event) {
    && ev.iface == i && i in w.ifaces
    && match ev
       case Decl(_, m, _) => Some(m) in w.ifaces[i].methods && m.name != ""
       case Block(_, e, r) => Some(e) in w.ifaces[i].embeds && Classify(w, Some(e)) == Blocked(r)
  }

  // ------------------------------------------------------------- soundness

  ghost predicate Explained(w: World, i: IfaceId, ev: Event) {
    && Reaches(Edges(w), i, ev.iface)
    && (Local(w, ev.iface, ev) || (ev.Block? && ev.reason == Cyclic && ClosesCycle(w, ev.iface, ev.embed)))
  }

  /** `e` is an embed of `i` and leads back to `i`. */
  ghost predicate ClosesCycle(w: World, i: IfaceId, e: Embed) {
    && i in w.ifaces && Some(e) in w.ifaces[i].embeds
    && Classify(w, Some(e)).Walk? && Reaches(Edges(w), Classify(w, Some(e)).target, i)
  }

  /** Whatever a walk from `i` reports belongs to an interface reachable from `i`. */
  lemma {:induction false} TraceSound(w: World, i: IfaceId, path: set<IfaceId>, from: Option<Embed>, ev: Event)
    requires Closed(w) && i in w.ifaces && i !in path
    requires forall p | p in path :: Reaches(Edges(w), p, i)
    requires ev in Trace(w, i, path, from)
    ensures Explained(w, i, ev)
    decreases w.ifaces.Keys - path
  {
    ReachesSelf(Edges(w), i);
    OwnEvents(i, w.ifaces[i].methods, from, ev);
    if ev !in Own(i, w.ifaces[i].methods, from) {
      var k := EventEmbed(w, i, |w.ifaces[i].embeds|, path + {i}, from, ev);
      var e := w.ifaces[i].embeds[k];
      var s := Classify(w, e);
      if s.Walk? {
        assert (i, s.target) in Edges(w);
        ReachesSelf(Edges(w), s.target);
        ReachesStep(Edges(w), i, s.target, s.target);
        if s.target !in path + {i} {
          forall p | p in path + {i} ensures Reaches(Edges(w), p, s.target) {
            ReachesTransitive(Edges(w), p, i, s.target);
          }
          TraceSound(w, s.target, path + {i}, if from.Some? then from else e, ev);
          ExplainedStep(w, i, s.target, ev);
        }
      }
    }
  }

  lemma ExplainedStep(w: World, i: IfaceId, t: IfaceId, ev: Event)
    requires (i, t) in Edges(w) && Explained(w, t, ev)
    ensures Explained(w, i, ev)
  {
    ReachesStep(Edges(w), i, t, ev.iface);
  }

  // ---------------------------------------------------------- completeness

  /** The last occurrence of `i` on the walk `p`. */
  ghost function LastAt(p: seq<IfaceId>, i: IfaceId): (k: nat)
    requires i in p
    ensures k < |p| && p[k] == i && i !in p[k + 1..]
  {
    if p[|p| - 1] == i then |p| - 1
    else
      assert p == p[..|p| - 1] + [p[|p| - 1]];
      var k := LastAt(p[..|p| - 1], i);
      assert p[k + 1..] == p[..|p| - 1][k + 1..] + [p[|p| - 1]];
      k
  }

  /** The same declaration or issue, whatever embed it is attributed to. */
  ghost predicate SameButFrom(a: Event, b: Event) {
    if b.Decl? then a.Decl? && a.iface == b.iface && a.meth == b.meth else a == b
  }

  /**
  Skipping interfaces on the current path loses nothing: along any walk of the embed graph
  that stays off `path`, the walk's last interface contributes all of its local events.
  */
  lemma {:induction false} TraceComplete(w: World, path: set<IfaceId>, from: Option<Embed>, p: seq<IfaceId>, ev: Event)
    returns (got: Event)
    requires Closed(w) && IsWalk(Edges(w), p) && p[0] in w.ifaces
    requires forall x | x in p :: x !in path
    requires Local(w, p[|p| - 1], ev)
    ensures got in Trace(w, p[0], path, from)
    ensures SameButFrom(got, ev)
    decreases |p|
  {
    var i := p[0];
    var es := w.ifaces[i].embeds;
    var k := LastAt(p, i);
    if k == |p| - 1 {
      got := if ev.Decl? then ev.(from := from) else ev;
      OwnEvents(i, w.ifaces[i].methods, from, got);
      if ev.Block? {
        var n :| 0 <= n < |es| && es[n] == Some(ev.embed);
        EmbedEvents(w, i, |es|, n, path + {i}, from, ev);
      }
    } else {
      var q := p[k + 1..];
      assert (p[k], p[k + 1]) in Edges(w);
      var e :| e in es && Classify(w, e) == Walk(q[0]);
      var n :| 0 <= n < |es| && es[n] == e;
      got := TraceComplete(w, path + {i}, if from.Some? then from else e, q, ev);
      EmbedEvents(w, i, |es|, n, path + {i}, from, got);
    }
  }

  /** A walk without a cyclic issue never meets an interface twice, on any route. */
  lemma {:induction false} NoIssueNoRepeat(w: World, path: set<IfaceId>, from: Option<Embed>, p: seq<IfaceId>)
    requires Closed(w) && IsWalk(Edges(w), p) && p[0] in w.ifaces && p[0] !in path
    requires forall ev | ev in Trace(w, p[0], path, from) && ev.Block? :: ev.reason != Cyclic
    ensures forall x | x in p :: x !in path
    ensures forall a, b | 0 <= a < b < |p| :: p[a] != p[b]
    decreases |p|
  {
    if |p| > 1 {
      var i, q := p[0], p[1..];
      var es := w.ifaces[i].embeds;
      assert (p[0], p[1]) in Edges(w);
      var e :| e in es && Classify(w, e) == Walk(q[0]);
      var n :| 0 <= n < |es| && es[n] == e;
      if q[0] in path + {i} {
        EmbedEvents(w, i, |es|, n, path + {i}, from, Block(i, e.value, Cyclic));
        assert false;
      }
      var from' := if from.Some? then from else e;
      forall ev | ev in Trace(w, q[0], path + {i}, from') && ev.Block? ensures ev.reason != Cyclic {
        EmbedEvents(w, i, |es|, n, path + {i}, from, ev);
      }
      NoIssueNoRepeat(w, path + {i}, from', q);
      assert p == [i] + q;
    }
  }

  // ------------------------------------------------------- first declarations

  ghost predicate HasName(entries: seq<Entry>, name: string) {
    exists x :: x in entries && x.meth.name == name
  }

  ghost predicate DistinctNames(entries: seq<Entry>) {
    forall a, b | 0 <= a < b < |entries| :: entries[a].meth.name != entries[b].meth.name
  }

  /** `x` is the declaration at position `k`, and no earlier declaration has its name. */
  ghost predicate IsFirst(log: seq<Event>, k: nat, x: Entry) {
    && k < |log| && log[k].Decl? && log[k].meth == x.meth && log[k].from == x.from
    && x.meth.name !in Names(log[..k])
  }

  /** The result keeps one entry per declared name. */
  lemma {:induction false} FirstsNames(log: seq<Event>)
    ensures forall name :: HasName(Firsts(log), name) <==> name in Names(log)
    ensures DistinctNames(Firsts(log))
  {
    if log == [] {
      assert Names(log) == {};
    } else {
      var before, ev := log[..|log| - 1], log[|log| - 1];
      assert log == before + [ev];
      FirstsNames(before);
      Snoc(before, ev);
      hide Firsts, Names;
      if ev.Decl? {
        var x := Entry(ev.meth, ev.from);
        assert forall name :: HasName(Firsts(before) + [x], name) <==>
            HasName(Firsts(before), name) || name == ev.meth.name
          by { assert x in Firsts(before) + [x]; }
        assert forall y | y in Firsts(before) :: HasName(Firsts(before), y.meth.name);
      }
    }
  }

  /** Each entry is the first declaration of its name. */
  lemma {:induction false} EntryIsFirst(log: seq<Event>, x: Entry) returns (k: nat)
    requires x in Firsts(log)
    ensures IsFirst(log, k, x)
  {
    var before, ev := log[..|log| - 1], log[|log| - 1];
    assert log == before + [ev];
    Snoc(before, ev);
    hide Firsts, Names;
    if x in Firsts(before) {
      k := EntryIsFirst(before, x);
      assert log[..k] == before[..k];
    } else {
      k := |before|;
    }
  }

  /** Later events never displace earlier entries, and never repeat an earlier name. */
  lemma {:induction false} FirstsPrefix(a: seq<Event>, b: seq<Event>)
    ensures Firsts(a) <= Firsts(a + b)
    ensures forall x | x in Firsts(a + b)[|Firsts(a)|..] :: x.meth.name !in Names(a)
  {
    if b == [] {
      assert a + b == a;
    } else {
      var b', ev := b[..|b| - 1], b[|b| - 1];
      assert a + b == (a + b') + [ev];
      FirstsPrefix(a, b');
      Snoc(a + b', ev);
      assert Names(a) <= Names(a + b');
    }
  }

  lemma {:induction false} IssueEvents(log: seq<Event>, x: Issue)
    ensures x in Issues(log) <==> exists ev :: ev in log && ev.Block? && ev.embed == x.embed && ev.reason == x.reason
  {
    if log != [] {
      IssueEvents(log[..|log| - 1], x);
      assert log == log[..|log| - 1] + [log[|log| - 1]];
    }
  }

  // ---------------------------------------------------------- main theorems

  /** `i` is the root or embedded by it, directly or through other interfaces. */
  ghost predicate Below(w: World, root: IfaceId, i: IfaceId) {
    Reaches(Edges(w), root, i)
  }

  /**
  The resolved names are exactly the names declared by the interfaces reachable through
  walkable embeds, cyclic graph or not, and each name is resolved once.
  */
  lemma NamesAreThoseReachable(w: World, root: IfaceId, r: MethodSetResult, name: string)
    requires Closed(w) && root in w.ifaces && IsMethodSet(w, root, r)
    ensures HasName(r.entries, name) <==> exists i, m :: Below(w, root, i) && Declares(w, i, m) && m.name == name
    ensures DistinctNames(r.entries) && !HasName(r.entries, "")
  {
    var log := Walked(w, root);
    FirstsNames(log);
    if "" in Names(log) {
      var ev :| ev in log && ev.Decl? && ev.meth.name == "";
      TraceSound(w, root, {}, None, ev);
    }
    if name in Names(log) {
      var ev :| ev in log && ev.Decl? && ev.meth.name == name;
      TraceSound(w, root, {}, None, ev);
      assert Below(w, root, ev.iface) && Declares(w, ev.iface, ev.meth);
    }
    if i, m :| Below(w, root, i) && Declares(w, i, m) && m.name == name {
      var p :| WalkFromTo(Edges(w), p, root, i);
      var got := TraceComplete(w, {}, None, p, Decl(i, m, None));
      assert got in log && got.meth.name == name;
    }
  }

  ghost predicate Reports(r: MethodSetResult, reason: Reason) {
    exists x :: x in r.issues && x.reason == reason
  }

  /** A cyclic embed is reported exactly when a cycle of walkable embeds is reachable. */
  lemma CyclicExactly(w: World, root: IfaceId, r: MethodSetResult)
    requires Closed(w) && root in w.ifaces && IsMethodSet(w, root, r)
    ensures Reports(r, Cyclic) <==> ReachesCycle(Edges(w), root)
  {
    var log := Walked(w, root);
    if Reports(r, Cyclic) {
      var x :| x in r.issues && x.reason == Cyclic;
      IssueEvents(log, x);
      var ev :| ev in log && ev.Block? && ev.embed == x.embed && ev.reason == x.reason;
      TraceSound(w, root, {}, None, ev);
      var back := Classify(w, Some(ev.embed)).target;
      assert (ev.iface, back) in Edges(w);
      EdgeBack(Edges(w), ev.iface, back);
      CycleFrom(Edges(w), root, ev.iface);
    } else if ReachesCycle(Edges(w), root) {
      var p, a, b := CycleGivesRepeat(Edges(w), root);
      forall ev | ev in log && ev.Block? ensures ev.reason != Cyclic {
        IssueEvents(log, Issue(ev.embed, ev.reason));
      }
      NoIssueNoRepeat(w, {}, None, p);
    }
  }

  lemma CycleFrom<T(!new)>(edges: set<(T, T)>, a: T, b: T)
    requires Reaches(edges, a, b) && ReachesCycle(edges, b)
    ensures ReachesCycle(edges, a)
  {
    var v :| Reaches(edges, b, v) && OnCycle(edges, v);
    ReachesTransitive(edges, a, b, v);
  }

  /** Every other issue names an embed of a reachable interface, and every such embed is named. */
  lemma BlockedExactly(w: World, root: IfaceId, r: MethodSetResult, e: Embed, reason: Reason)
    requires Closed(w) && root in w.ifaces && IsMethodSet(w, root, r)
    requires reason != Cyclic
    ensures Issue(e, reason) in r.issues <==>
            exists i :: Below(w, root, i) && i in w.ifaces && Some(e) in w.ifaces[i].embeds
                        && Classify(w, Some(e)) == Blocked(reason)
  {
    var log := Walked(w, root);
    IssueEvents(log, Issue(e, reason));
    if Issue(e, reason) in r.issues {
      var ev :| ev in log && ev.Block? && ev.embed == e && ev.reason == reason;
      TraceSound(w, root, {}, None, ev);
      assert Below(w, root, ev.iface);
    }
    if i :| Below(w, root, i) && i in w.ifaces && Some(e) in w.ifaces[i].embeds
            && Classify(w, Some(e)) == Blocked(reason) {
      var p :| WalkFromTo(Edges(w), p, root, i);
      var got := TraceComplete(w, {}, None, p, Block(i, e, reason));
      assert got in log;
    }
  }

  // What an embed answers, read off its type, the resolver and the projection alone.

  /** A named type or an anonymous interface; anything else in embed position is a type-set term. */
  ghost predicate Denotes(e: Embed) {
    e.typ.Ref? && (e.typ.kind == TypeRefs.Named || e.typ.kind == TypeRefs.AnonInterface)
  }

  ghost predicate Finds(w: World, e: Embed) {
    w.resolve.Some? && w.resolve.value(e.typ).found
  }

  ghost predicate Yields(w: World, e: Embed, t: IfaceId) {
    w.resolve.Some? && w.resolve.value(e.typ).iface == Some(t)
  }

  /** The embed's interface is `t`: the resolver's, and the projection only where the resolver finds nothing. */
  ghost predicate LeadsTo(w: World, e: Embed, t: IfaceId) {
    && Denotes(e) && e.typ.typeArgs == []
    && if !Finds(w, e) && e.resolved.Some? then e.resolved == Some(t) else Yields(w, e, t)
  }

  lemma StepExactly(w: World, e: Embed)
    ensures forall t :: Classify(w, Some(e)) == Walk(t) <==> LeadsTo(w, e, t)
    ensures Classify(w, Some(e)) == Blocked(Generic) <==> Denotes(e) && e.typ.typeArgs != []
    ensures Classify(w, Some(e)) == Blocked(Unresolved) <==>
            Denotes(e) && e.typ.typeArgs == [] && !Finds(w, e) && e.resolved.None? && forall t :: !Yields(w, e, t)
    ensures Classify(w, Some(e)) == Blocked(NonInterface) <==>
            Denotes(e) && e.typ.typeArgs == [] && Finds(w, e) && forall t :: !Yields(w, e, t)
    ensures Classify(w, Some(e)) != Blocked(Cyclic)
    ensures Denotes(e) || Classify(w, Some(e)) == Skip
  {
    if w.resolve.Some? && w.resolve.value(e.typ).iface.Some? {
      assert Yields(w, e, w.resolve.value(e.typ).iface.value);
    }
  }

  /** The walk goes from an interface to exactly the interfaces its embeds lead to. */
  lemma EdgesExactly(w: World, i: IfaceId, t: IfaceId)
    ensures (i, t) in Edges(w) <==> i in w.ifaces && exists e :: Some(e) in w.ifaces[i].embeds && LeadsTo(w, e, t)
  {
    hide LeadsTo, Classify;
    forall e: Embed {
      StepExactly(w, e);
    }
    if (i, t) in Edges(w) {
      var e :| e in w.ifaces[i].embeds && Classify(w, e) == Walk(t);
      SkipsNil(w, e);
      assert LeadsTo(w, e.value, t);
    }
  }

  lemma SkipsNil(w: World, e: Option<Embed>)
    ensures e.None? ==> Classify(w, e) == Skip
  {}

  /**
  The issues of an embed below the root: type arguments make it generic; without them it is
  unresolved where nothing was found and there is no projection, and no interface where the resolver
  found something else. A type-set term is never an issue, and only an embed that leads somewhere
  can be cyclic.
  */
  lemma EmbedIssuesExactly(w: World, root: IfaceId, r: MethodSetResult, i: IfaceId, e: Embed)
    requires Closed(w) && root in w.ifaces && IsMethodSet(w, root, r)
    requires Below(w, root, i) && i in w.ifaces && Some(e) in w.ifaces[i].embeds
    ensures Issue(e, Generic) in r.issues <==> Denotes(e) && e.typ.typeArgs != []
    ensures Issue(e, Unresolved) in r.issues <==>
            Denotes(e) && e.typ.typeArgs == [] && !Finds(w, e) && e.resolved.None? && forall t :: !Yields(w, e, t)
    ensures Issue(e, NonInterface) in r.issues <==>
            Denotes(e) && e.typ.typeArgs == [] && Finds(w, e) && forall t :: !Yields(w, e, t)
    ensures Issue(e, Cyclic) in r.issues ==> exists t :: LeadsTo(w, e, t)
  {
    hide Classify, LeadsTo, Denotes, Finds, Yields, IsMethodSet, Closed;
    StepExactly(w, e);
    BlockedExactly(w, root, r, e, Generic);
    BlockedExactly(w, root, r, e, Unresolved);
    BlockedExactly(w, root, r, e, NonInterface);
    if Issue(e, Cyclic) in r.issues {
      var j := CyclicIssueCloses(w, root, r, e);
    }
  }

  /** A cyclic issue names an embed below the root that leads back to the interface holding it. */
  lemma CyclicIssueCloses(w: World, root: IfaceId, r: MethodSetResult, e: Embed) returns (i: IfaceId)
    requires Closed(w) && root in w.ifaces && IsMethodSet(w, root, r) && Issue(e, Cyclic) in r.issues
    ensures Below(w, root, i) && ClosesCycle(w, i, e)
  {
    var log := Walked(w, root);
    IssueEvents(log, Issue(e, Cyclic));
    var ev :| ev in log && ev.Block? && ev.embed == e && ev.reason == Cyclic;
    TraceSound(w, root, {}, None, ev);
    StepExactly(w, e);
    i := ev.iface;
  }

  /**
  `OK()` means what a generator relies on: below the root there is no embed cycle, and every
  embed that may denote an interface was resolved to one and carries no type arguments.
  */
  lemma OkExactly(w: World, root: IfaceId, r: MethodSetResult)
    requires Closed(w) && root in w.ifaces && IsMethodSet(w, root, r)
    ensures r.issues == [] <==>
            && !ReachesCycle(Edges(w), root)
            && forall i, e | Below(w, root, i) && i in w.ifaces && Some(e) in w.ifaces[i].embeds && Denotes(e) ::
                 e.typ.typeArgs == [] && exists t :: LeadsTo(w, e, t)
  {
    forall e: Embed {
      StepExactly(w, e);
    }
    CyclicExactly(w, root, r);
    if r.issues == [] {
      forall i, e | Below(w, root, i) && i in w.ifaces && Some(e) in w.ifaces[i].embeds && Denotes(e)
        ensures e.typ.typeArgs == [] && exists t :: LeadsTo(w, e, t) {
        if Classify(w, Some(e)).Blocked? {
          BlockedExactly(w, root, r, e, Classify(w, Some(e)).reason);
        }
      }
    } else {
      var x := r.issues[0];
      if x.reason == Cyclic {
        assert Reports(r, Cyclic);
      } else {
        BlockedExactly(w, root, r, x.embed, x.reason);
      }
    }
  }

  // ------------------------------------------------------------ attribution

  /** Once a walk is below a top-level embed, everything is attributed to that embed. */
  lemma {:induction false} TraceKeepsFrom(w: World, i: IfaceId, path: set<IfaceId>, from: Option<Embed>, ev: Event)
    requires Closed(w) && i in w.ifaces && i !in path && from.Some?
    requires ev in Trace(w, i, path, from) && ev.Decl?
    ensures ev.from == from
    decreases w.ifaces.Keys - path
  {
    OwnEvents(i, w.ifaces[i].methods, from, ev);
    if ev !in Own(i, w.ifaces[i].methods, from) {
      var k := EventEmbed(w, i, |w.ifaces[i].embeds|, path + {i}, from, ev);
      TraceKeepsFrom(w, Classify(w, w.ifaces[i].embeds[k]).target, path + {i}, from, ev);
    }
  }

  /** The declaring interface is reachable through `e`, an embed the root itself writes down. */
  ghost predicate ArrivesThrough(w: World, root: IfaceId, e: Embed, m: Method)
    requires root in w.ifaces
  {
    && Some(e) in w.ifaces[root].embeds
    && Classify(w, Some(e)).Walk?
    && exists j :: Reaches(Edges(w), Classify(w, Some(e)).target, j) && Declares(w, j, m)
  }

  /** Attribution of one event of the whole walk. */
  lemma EventAttribution(w: World, root: IfaceId, ev: Event)
    requires Closed(w) && root in w.ifaces && ev in Walked(w, root) && ev.Decl?
    ensures ev.from.None? ==> Declares(w, root, ev.meth)
    ensures ev.from.Some? ==> ArrivesThrough(w, root, ev.from.value, ev.meth)
  {
    OwnEvents(root, w.ifaces[root].methods, None, ev);
    if ev !in Own(root, w.ifaces[root].methods, None) {
      var k := EventEmbed(w, root, |w.ifaces[root].embeds|, {} + {root}, None, ev);
      var e := w.ifaces[root].embeds[k];
      var t := Classify(w, e).target;
      assert (root, t) in Edges(w);
      ReachesSelf(Edges(w), t);
      ReachesStep(Edges(w), root, t, t);
      TraceKeepsFrom(w, t, {} + {root}, e, ev);
      TraceSound(w, t, {} + {root}, e, ev);
    }
  }

  /**
  An entry has no embed exactly when the root declares a method of that name, which is then the
  method resolved; otherwise its embed is one of the root's, and the declaring interface is
  reachable through it.
  */
  lemma Attribution(w: World, root: IfaceId, r: MethodSetResult, x: Entry)
    requires Closed(w) && root in w.ifaces && IsMethodSet(w, root, r) && x in r.entries
    ensures x.from.None? <==> exists m :: Declares(w, root, m) && m.name == x.meth.name
    ensures x.from.None? ==> Declares(w, root, x.meth)
    ensures x.from.Some? ==> ArrivesThrough(w, root, x.from.value, x.meth)
  {
    var log := Walked(w, root);
    var own := Own(root, w.ifaces[root].methods, None);
    var k := EntryIsFirst(log, x);
    EventAttribution(w, root, log[k]);
    if m :| Declares(w, root, m) && m.name == x.meth.name {
      OwnEvents(root, w.ifaces[root].methods, None, Decl(root, m, None));
      assert x.meth.name in Names(own);
      FirstsPrefix(own, log[|own|..]);
      assert log == own + log[|own|..];
      assert x in Firsts(own);
      var j := EntryIsFirst(own, x);
      OwnEvents(root, w.ifaces[root].methods, None, own[j]);
    }
  }

  // ----------------------------------------------------------------- order

  lemma {:induction false} FirstsOrder(log: seq<Event>, j: nat, k: nat) returns (p: nat, q: nat)
    requires j < k < |Firsts(log)|
    ensures p < q && IsFirst(log, p, Firsts(log)[j]) && IsFirst(log, q, Firsts(log)[k])
  {
    var front := log[..|log| - 1];
    if k < |Firsts(front)| {
      p, q := FirstsOrder(front, j, k);
    } else {
      p := EntryIsFirst(front, Firsts(front)[j]);
      q := EntryIsFirst(log, Firsts(log)[k]);
      if q < |front| {
        assert log[q] in front && Firsts(log)[k].meth.name in Names(front);
      }
    }
  }

  /** The embed whose turn position `q` of the walk below the embeds falls into. */
  lemma {:induction false} TurnOf(w: World, i: IfaceId, n: nat, path: set<IfaceId>, from: Option<Embed>, q: nat)
    returns (b: nat)
    requires Closed(w) && i in w.ifaces && n <= |w.ifaces[i].embeds| && i in path
    requires q < |EmbedTrace(w, i, n, path, from)|
    ensures b < n && |EmbedTrace(w, i, b, path, from)| <= q < |EmbedTrace(w, i, b + 1, path, from)|
    ensures EmbedTrace(w, i, n, path, from)[q] in StepTrace(w, i, w.ifaces[i].embeds[b], path, from)
  {
    hide StepTrace, Closed;
    EmbedTraceNext(w, i, n - 1, path, from);
    if q < |EmbedTrace(w, i, n - 1, path, from)| {
      b := TurnOf(w, i, n - 1, path, from, q);
    } else {
      b := n - 1;
    }
  }

  lemma {:induction false} TurnsGrow(w: World, i: IfaceId, a: nat, b: nat, path: set<IfaceId>, from: Option<Embed>)
    requires Closed(w) && i in w.ifaces && a <= b <= |w.ifaces[i].embeds| && i in path
    ensures EmbedTrace(w, i, a, path, from) <= EmbedTrace(w, i, b, path, from)
  {
    hide StepTrace, Closed;
    if a < b {
      EmbedTraceNext(w, i, b - 1, path, from);
      TurnsGrow(w, i, a, b - 1, path, from);
    }
  }

  /** A declaration met in an embed's turn is attributed to that embed. */
  lemma TurnIsAttributed(w: World, root: IfaceId, b: nat, ev: Event)
    requires Closed(w) && root in w.ifaces && b < |w.ifaces[root].embeds|
    requires ev in StepTrace(w, root, w.ifaces[root].embeds[b], {} + {root}, None) && ev.Decl?
    ensures ev.from.Some? && w.ifaces[root].embeds[b] == ev.from
  {
    TraceKeepsFrom(w, Classify(w, w.ifaces[root].embeds[b]).target, {} + {root}, w.ifaces[root].embeds[b], ev);
  }

  /** `a` is where the list first has a method of `m`'s name, and that is `m`. */
  ghost predicate DeclaredAt(ms: seq<Option<Method>>, a: int, m: Method) {
    && 0 <= a < |ms| && ms[a] == Some(m)
    && forall b | 0 <= b < a && ms[b].Some? :: ms[b].value.name != m.name
  }

  lemma {:induction false} OwnPositions(i: IfaceId, ms: seq<Option<Method>>, from: Option<Embed>, q: nat)
    returns (a: nat)
    requires q < |Own(i, ms, from)|
    ensures a < |ms| && ms[a].Some? && Own(i, ms, from)[q] == Decl(i, ms[a].value, from)
    ensures |Own(i, ms[..a], from)| == q
  {
    var front := ms[..|ms| - 1];
    if q < |Own(i, front, from)| {
      a := OwnPositions(i, front, from, q);
      assert front[..a] == ms[..a];
    } else {
      a := |ms| - 1;
    }
  }

  lemma {:induction false} OwnGrows(i: IfaceId, ms: seq<Option<Method>>, a: nat, b: nat, from: Option<Embed>)
    requires a <= b <= |ms|
    ensures Own(i, ms[..a], from) <= Own(i, ms[..b], from)
  {
    if a < b {
      OwnGrows(i, ms, a, b - 1, from);
      assert ms[..b][..b - 1] == ms[..b - 1];
    }
  }

  /**
  The order of the set: the root's own methods first, as it declares them, then those of its embeds,
  embed by embed as the root writes them.
  */
  lemma OrderExactly(w: World, root: IfaceId, r: MethodSetResult, j: nat, k: nat)
    requires Closed(w) && root in w.ifaces && IsMethodSet(w, root, r) && j < k < |r.entries|
    ensures var x, y, own, es := r.entries[j], r.entries[k], w.ifaces[root].methods, w.ifaces[root].embeds;
            && (y.from.None? ==> x.from.None?)
            && (y.from.None? ==> exists a, b :: a < b && DeclaredAt(own, a, x.meth) && DeclaredAt(own, b, y.meth))
            && (x.from.Some? ==> exists a, b :: 0 <= a <= b < |es| && es[a] == x.from && es[b] == y.from)
    ensures r.methods[j] == r.entries[j].meth && r.methods[k] == r.entries[k].meth
  {
    hide Trace, StepTrace, Closed, Firsts, Issues;
    var x, y := r.entries[j], r.entries[k];
    var own := Own(root, w.ifaces[root].methods, None);
    var es := w.ifaces[root].embeds;
    var below := EmbedTrace(w, root, |es|, {} + {root}, None);
    var log := Walked(w, root);
    TraceParts(w, root, {}, None);
    var p, q := FirstsOrder(log, j, k);
    if q >= |own| {
      var b := TurnOf(w, root, |es|, {} + {root}, None, q - |own|);
      TurnIsAttributed(w, root, b, log[q]);
      if p >= |own| {
        var a := TurnOf(w, root, |es|, {} + {root}, None, p - |own|);
        TurnIsAttributed(w, root, a, log[p]);
        if b < a {
          TurnsGrow(w, root, b + 1, a, {} + {root}, None);
        }
        assert es[a] == x.from && es[b] == y.from;
      } else {
        OwnEvents(root, w.ifaces[root].methods, None, log[p]);
      }
    } else {
      var a := OwnFirst(w, root, p, x);
      var b := OwnFirst(w, root, q, y);
      if b <= a {
        OwnGrows(root, w.ifaces[root].methods, b, a, None);
      }
    }
  }

  lemma OwnFirst(w: World, root: IfaceId, q: nat, x: Entry) returns (a: nat)
    requires Closed(w) && root in w.ifaces && q < |Own(root, w.ifaces[root].methods, None)|
    requires IsFirst(Walked(w, root), q, x)
    ensures DeclaredAt(w.ifaces[root].methods, a, x.meth) && x.from.None?
    ensures |Own(root, w.ifaces[root].methods[..a], None)| == q
  {
    hide EmbedTrace, Closed;
    var ms := w.ifaces[root].methods;
    TraceParts(w, root, {}, None);
    a := OwnPositions(root, ms, None, q);
    assert Walked(w, root)[..q] == Own(root, ms, None)[..q];
    forall b | 0 <= b < a && ms[b].Some? ensures ms[b].value.name != x.meth.name {
      if ms[b].value.name == x.meth.name {
        OwnEvents(root, ms, None, Own(root, ms, None)[q]);
        EarlierOwn(root, ms, a, b, q);
      }
    }
  }

  /** A method declared earlier is met earlier. */
  lemma EarlierOwn(i: IfaceId, ms: seq<Option<Method>>, a: nat, b: nat, q: nat)
    requires b < a < |ms| && ms[b].Some? && ms[b].value.name != "" && |Own(i, ms[..a], None)| == q
    ensures q <= |Own(i, ms, None)| && ms[b].value.name in Names(Own(i, ms, None)[..q])
  {
    OwnGrows(i, ms, a, |ms|, None);
    assert ms[..|ms|] == ms && Own(i, ms, None)[..q] == Own(i, ms[..a], None);
    OwnEvents(i, ms[..a], None, Decl(i, ms[b].value, None));
    assert ms[..a][b] == ms[b];
  }

  /** Where several embeds offer a name the first one has it: none before it reaches a declaration around the root. */
  lemma FirstEmbedWins(w: World, root: IfaceId, r: MethodSetResult, x: Entry, a: nat, t: IfaceId, p: seq<IfaceId>)
    returns (b: nat)
    requires Closed(w) && root in w.ifaces && IsMethodSet(w, root, r) && x in r.entries && x.from.Some?
    requires a < |w.ifaces[root].embeds| && w.ifaces[root].embeds[a].Some?
    requires LeadsTo(w, w.ifaces[root].embeds[a].value, t)
    requires IsWalk(Edges(w), p) && p[0] == t && root !in p
    requires exists m :: Declares(w, p[|p| - 1], m) && m.name == x.meth.name
    ensures b <= a && w.ifaces[root].embeds[b] == x.from
  {
    hide Trace, Firsts, Issues, LeadsTo, Classify;
    var e := w.ifaces[root].embeds[a].value;
    StepExactly(w, e);
    var es := w.ifaces[root].embeds;
    var own := Own(root, w.ifaces[root].methods, None);
    var log := Walked(w, root);
    TraceParts(w, root, {}, None);
    var q := EntryIsFirst(log, x);
    EventAttribution(w, root, log[q]);
    if q < |own| {
      OwnEvents(root, w.ifaces[root].methods, None, log[q]);
    }
    b := TurnOf(w, root, |es|, {} + {root}, None, q - |own|);
    TurnIsAttributed(w, root, b, log[q]);
    if a < b {
      MetInTurn(w, root, a, t, p, x.meth.name);
      TurnsGrow(w, root, a + 1, b, {} + {root}, None);
      TurnsGrow(w, root, b, |es|, {} + {root}, None);
      var met := EmbedTrace(w, root, a + 1, {} + {root}, None);
      assert own + met <= log[..q];
      NamesOfPrefix(own + met, log[..q], x.meth.name);
    }
  }

  lemma NamesOfPrefix(a: seq<Event>, b: seq<Event>, name: string)
    requires a <= b && name in Names(a)
    ensures name in Names(b)
  {
    assert b == a + b[|a|..];
  }

  /** What an embed leads to around the root is met in its turn. */
  lemma MetInTurn(w: World, root: IfaceId, a: nat, t: IfaceId, p: seq<IfaceId>, name: string)
    requires Closed(w) && root in w.ifaces && a < |w.ifaces[root].embeds|
    requires Classify(w, w.ifaces[root].embeds[a]) == Walk(t) && IsWalk(Edges(w), p) && p[0] == t && root !in p
    requires exists m :: Declares(w, p[|p| - 1], m) && m.name == name
    ensures name in Names(Own(root, w.ifaces[root].methods, None) + EmbedTrace(w, root, a + 1, {} + {root}, None))
  {
    hide Trace, EmbedTrace, Classify, Own;
    var e := w.ifaces[root].embeds[a];
    var m :| Declares(w, p[|p| - 1], m) && m.name == name;
    var got := TraceComplete(w, {} + {root}, e, p, Decl(p[|p| - 1], m, None));
    assert got in StepTrace(w, root, e, {} + {root}, None);
    EmbedTraceNext(w, root, a, {} + {root}, None);
  }
}
