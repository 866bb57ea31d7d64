/** Plugin scheduling: priority buckets in ascending order, and Kahn's algorithm inside each. */
module Scheduler {
  import opened Options
  import opened Collections
  import opened Graphs
  import opened StringOrder
  import opened Kahn

  datatype Capability = Capability(priority: int, supplies: seq<string>, needs: seq<string>)

  /** A plugin without `cap` does not implement the capability interface. */
  datatype Plugin = Plugin(name: string, cap: Option<Capability>)

  datatype Error =
    | DuplicateProvider(capability: string, first: string, second: string)
    | Cycle(names: seq<string>)

  datatype Result<+T> = Ok(value: T) | Err(error: Error)

  const DEFAULT_PRIORITY := 300

  function Priority(p: Plugin): int {
    if p.cap.Some? then p.cap.value.priority else DEFAULT_PRIORITY
  }

  predicate Provides(p: Plugin, c: string) {
    p.cap.Some? && c in p.cap.value.supplies
  }

  predicate Needs(p: Plugin, c: string) {
    p.cap.Some? && c in p.cap.value.needs
  }

  /** Registration rejects two plugins of one name in one role. */
  ghost predicate DistinctNames(ps: seq<Plugin>) {
    forall i, j | 0 <= i < j < |ps| :: ps[i].name != ps[j].name
  }

  // ------------------------------------------------------------- the order

  /** `(a, b)`: plugin `a` requires a capability that another plugin `b` of the bucket provides. */
  ghost function Requirements(ps: set<Plugin>): set<(string, string)> {
    set p, q | p in ps && q in ps && p.name != q.name && RequiresFrom(p, q) :: (p.name, q.name)
  }

  ghost predicate RequiresFrom(p: Plugin, q: Plugin) {
    exists c :: Needs(p, c) && Provides(q, c)
  }

  ghost function NamesOf(ps: set<Plugin>): set<string> {
    set p | p in ps :: p.name
  }

  // ------------------------------------------------------------- one bucket

  /** No capability is claimed twice, neither by two plugins nor twice by one. */
  ghost predicate UniqueProviders(ps: set<Plugin>) {
    && (forall p, q, c | p in ps && q in ps && Provides(p, c) && Provides(q, c) :: p == q)
    && (forall p | p in ps && p.cap.Some? :: NoRepeats(p.cap.value.supplies))
  }

  ghost predicate IsIndex(ps: set<Plugin>, index: map<string, Plugin>) {
    && (forall c | c in index :: index[c] in ps && Provides(index[c], c))
    && (forall p, c | p in ps && Provides(p, c) :: c in index)
  }

  method BuildProvidesIndex(ps: seq<Plugin>) returns (r: Result<map<string, Plugin>>)
    requires DistinctNames(ps)
    ensures r.Ok? ==> UniqueProviders(Elements(ps)) && IsIndex(Elements(ps), r.value)
    ensures r.Err? ==> IsDuplicate(Elements(ps), r.error)
  {
    var index: map<string, Plugin> := map[];
    for i := 0 to |ps|
      invariant UniqueProviders(Elements(ps[..i])) && IsIndex(Elements(ps[..i]), index)
    {
      assert Elements(ps[..i + 1]) == Elements(ps[..i]) + {ps[i]};
      if ps[i].cap.None? {
        continue;
      }
      var claimed := ClaimAll(ps, i, index);
      if claimed.Err? {
        return claimed;
      }
      index := claimed.value;
    }
    assert ps[..|ps|] == ps;
    r := Ok(index);
  }

  /** The inner loop: records every capability of `ps[i]`, or reports the first one already recorded. */
  method ClaimAll(ps: seq<Plugin>, i: nat, index0: map<string, Plugin>) returns (r: Result<map<string, Plugin>>)
    requires DistinctNames(ps) && i < |ps| && ps[i].cap.Some?
    requires IsIndex(Elements(ps[..i]), index0)
    ensures r.Err? ==> IsDuplicate(Elements(ps), r.error)
    ensures r.Ok? ==> NoRepeats(ps[i].cap.value.supplies) && forall c | Provides(ps[i], c) :: c !in index0
    ensures r.Ok? ==> r.value.Keys == index0.Keys + Elements(ps[i].cap.value.supplies)
    ensures r.Ok? ==> forall c | c in r.value :: r.value[c] == if c in index0 then index0[c] else ps[i]
  {
    hide IsIndex, IsDuplicate;
    var p, names := ps[i], ps[i].cap.value.supplies;
    var index := index0;
    for j := 0 to |names|
      invariant index.Keys == index0.Keys + Elements(names[..j])
      invariant index0.Keys !! Elements(names[..j]) && NoRepeats(names[..j])
      invariant forall c | c in index :: index[c] == if c in index0 then index0[c] else p
    {
      assert Elements(names[..j + 1]) == Elements(names[..j]) + {names[j]};
      if names[j] in index {
        ClaimedTwice(ps, i, j, index0, index);
        return Err(DuplicateProvider(names[j], index[names[j]].name, p.name));
      }
      index := index[names[j] := p];
    }
    assert names[..|names|] == names;
    r := Ok(index);
  }

  /** The report names a capability and the two plugins that claim it, or the one that claims it twice. */
  ghost predicate IsDuplicate(ps: set<Plugin>, e: Error) {
    && e.DuplicateProvider?
    && exists p, q :: p in ps && q in ps && p.name == e.first && q.name == e.second && ClaimTwice(p, q, e.capability)
  }

  ghost predicate ClaimTwice(p: Plugin, q: Plugin, c: string) {
    && Provides(p, c) && Provides(q, c)
    && (p == q ==>
          var names := p.cap.value.supplies;
          exists i, j :: 0 <= i < j < |names| && names[i] == c == names[j])
  }

  lemma ClaimedTwice(ps: seq<Plugin>, i: nat, j: nat, index0: map<string, Plugin>, index: map<string, Plugin>)
    requires DistinctNames(ps) && i < |ps| && ps[i].cap.Some? && j < |ps[i].cap.value.supplies|
    requires IsIndex(Elements(ps[..i]), index0)
    requires index.Keys == index0.Keys + Elements(ps[i].cap.value.supplies[..j])
    requires forall c | c in index :: index[c] == if c in index0 then index0[c] else ps[i]
    requires ps[i].cap.value.supplies[j] in index
    ensures IsDuplicate(Elements(ps), DuplicateProvider(ps[i].cap.value.supplies[j],
                                                        index[ps[i].cap.value.supplies[j]].name, ps[i].name))
  {
    var p, names := ps[i], ps[i].cap.value.supplies;
    var c := names[j];
    var q := index[c];
    assert p in Elements(ps) && Provides(p, c);
    if c in index0 {
      var k :| 0 <= k < |ps[..i]| && ps[..i][k] == q;
      assert ps[k] in Elements(ps) && ps[k].name != p.name;
      assert ClaimTwice(q, p, c);
    } else {
      var k :| 0 <= k < j && names[k] == c;
      assert names[k] == c == names[j] && ClaimTwice(p, p, c);
    }
  }

  // The edges in the order the two nested loops meet them.

  ghost function PluginEdges(p: Plugin, needs: seq<string>, index: map<string, Plugin>): seq<(string, string)> {
    if needs == [] then []
    else
      var c := needs[|needs| - 1];
      PluginEdges(p, needs[..|needs| - 1], index) +
      if c in index && index[c].name != p.name then [(p.name, index[c].name)] else []
  }

  ghost function EdgeList(ps: seq<Plugin>, index: map<string, Plugin>): seq<(string, string)> {
    if ps == [] then []
    else
      var p := ps[|ps| - 1];
      EdgeList(ps[..|ps| - 1], index) + if p.cap.Some? then PluginEdges(p, p.cap.value.needs, index) else []
  }

  lemma {:induction false} PluginEdgeIff(p: Plugin, needs: seq<string>, index: map<string, Plugin>, e: (string, string))
    ensures e in PluginEdges(p, needs, index) <==>
            e.0 == p.name && exists c :: c in needs && c in index && index[c].name == e.1 && e.1 != p.name
  {
    if needs != [] {
      PluginEdgeIff(p, needs[..|needs| - 1], index, e);
      assert needs == needs[..|needs| - 1] + [needs[|needs| - 1]];
    }
  }

  lemma {:induction false} EdgeIff(ps: seq<Plugin>, index: map<string, Plugin>, e: (string, string))
    ensures e in EdgeList(ps, index) <==>
            exists p :: p in ps && p.cap.Some? && e in PluginEdges(p, p.cap.value.needs, index)
  {
    if ps != [] {
      EdgeIff(ps[..|ps| - 1], index, e);
      assert ps == ps[..|ps| - 1] + [ps[|ps| - 1]];
    }
  }

  lemma EdgeListIsRequirements(ps: seq<Plugin>, index: map<string, Plugin>)
    requires UniqueProviders(Elements(ps)) && IsIndex(Elements(ps), index)
    ensures Elements(EdgeList(ps, index)) == Requirements(Elements(ps))
  {
    forall e ensures e in EdgeList(ps, index) <==> e in Requirements(Elements(ps)) {
      EdgeIff(ps, index, e);
      if e in EdgeList(ps, index) {
        var p :| p in ps && p.cap.Some? && e in PluginEdges(p, p.cap.value.needs, index);
        PluginEdgeIff(p, p.cap.value.needs, index, e);
        var c :| c in p.cap.value.needs && c in index && index[c].name == e.1 && e.1 != p.name;
        assert Needs(p, c) && Provides(index[c], c);
        assert RequiresFrom(p, index[c]);
      }
      if e in Requirements(Elements(ps)) {
        var p, q :| p in ps && q in ps && p.name != q.name && RequiresFrom(p, q) && e == (p.name, q.name);
        var c :| Needs(p, c) && Provides(q, c);
        assert index[c] == q;
        PluginEdgeIff(p, p.cap.value.needs, index, e);
      }
    }
  }

  method BuildGraph(ps: seq<Plugin>, index: map<string, Plugin>)
    returns (inDegree: map<string, int>, dependents: map<string, seq<string>>)
    requires IsIndex(Elements(ps), index)
    ensures Indexes(EdgeList(ps, index), NamesOf(Elements(ps)), inDegree, dependents)
  {
    hide Indexes;
    inDegree, dependents := NoEdges(ps);
    for i := 0 to |ps|
      invariant Indexes(EdgeList(ps[..i], index), NamesOf(Elements(ps)), inDegree, dependents)
    {
      assert EdgeList(ps[..i + 1], index) == EdgeList(ps[..i], index) +
        if ps[i].cap.Some? then PluginEdges(ps[i], ps[i].cap.value.needs, index) else []
        by { assert ps[..i + 1][..i] == ps[..i]; }
      if ps[i].cap.None? {
        assert EdgeList(ps[..i + 1], index) == EdgeList(ps[..i], index);
        continue;
      }
      inDegree, dependents :=
        AddPluginEdges(EdgeList(ps[..i], index), Elements(ps), ps[i], index, inDegree, dependents);
    }
    assert ps[..|ps|] == ps;
  }

  /** The inner loop: one edge per requirement another plugin of the bucket provides. */
  method AddPluginEdges(ghost edges0: seq<(string, string)>, ghost ps: set<Plugin>,
                        p: Plugin, index: map<string, Plugin>,
                        inDegree0: map<string, int>, dependents0: map<string, seq<string>>)
    returns (inDegree: map<string, int>, dependents: map<string, seq<string>>)
    requires IsIndex(ps, index) && p in ps && p.cap.Some?
    requires Indexes(edges0, NamesOf(ps), inDegree0, dependents0)
    ensures Indexes(edges0 + PluginEdges(p, p.cap.value.needs, index), NamesOf(ps), inDegree, dependents)
  {
    hide Indexes;
    inDegree, dependents := inDegree0, dependents0;
    ghost var edges := edges0;
    var needs := p.cap.value.needs;
    for j := 0 to |needs|
      invariant edges == edges0 + PluginEdges(p, needs[..j], index)
      invariant Indexes(edges, NamesOf(ps), inDegree, dependents)
    {
      var c := needs[j];
      assert needs[..j + 1][..j] == needs[..j];
      if c !in index || index[c].name == p.name {
        continue;
      }
      inDegree, dependents := AddEdge(edges, NamesOf(ps), p.name, index[c].name, inDegree, dependents);
      edges := edges + [(p.name, index[c].name)];
    }
    assert needs[..|needs|] == needs;
  }

  method NoEdges(ps: seq<Plugin>) returns (inDegree: map<string, int>, dependents: map<string, seq<string>>)
    ensures Indexes([], NamesOf(Elements(ps)), inDegree, dependents)
  {
    inDegree, dependents := map[], map[];
    for i := 0 to |ps|
      invariant inDegree.Keys == NamesOf(Elements(ps[..i])) && forall n | n in inDegree :: inDegree[n] == 0
    {
      assert Elements(ps[..i + 1]) == Elements(ps[..i]) + {ps[i]};
      inDegree := inDegree[ps[i].name := 0];
    }
    assert ps[..|ps|] == ps;
  }

  ghost function NameSeq(ps: seq<Plugin>): (ns: seq<string>)
    ensures |ns| == |ps| && forall k | 0 <= k < |ns| :: ns[k] == ps[k].name
  {
    seq(|ps|, k requires 0 <= k < |ps| => ps[k].name)
  }

  /** `out` lists the bucket, each plugin the least available at its turn. */
  ghost predicate IsBucketOrder(ps: set<Plugin>, out: seq<Plugin>) {
    && Elements(out) == ps && DistinctNames(out)
    && IsGreedyToTheEnd(Requirements(ps), NamesOf(ps), NameSeq(out))
  }

  /** Everything a bucket's outcome says, in terms of the set of its plugins alone. */
  ghost predicate BucketOutcome(ps: set<Plugin>, r: Result<seq<Plugin>>) {
    match r
    case Ok(out) => UniqueProviders(ps) && IsBucketOrder(ps, out)
    case Err(DuplicateProvider(_, _, _)) => IsDuplicate(ps, r.error)
    case Err(Cycle(names)) =>
      && UniqueProviders(ps) && names != [] && Ascending(names)
      && Elements(names) == set n | n in NamesOf(ps) && ReachesCycle(Requirements(ps), n)
  }

  method TopoSortBucket(ps: seq<Plugin>) returns (r: Result<seq<Plugin>>)
    requires DistinctNames(ps)
    ensures BucketOutcome(Elements(ps), r)
  {
    var index := BuildProvidesIndex(ps);
    if index.Err? {
      return Err(index.error);
    }
    hide *;
    var byName := ByName(ps);
    var inDegree, dependents := BuildGraph(ps, index.value);
    ghost var edges := EdgeList(ps, index.value);
    EdgeListIsRequirements(ps, index.value);
    var names;
    names, inDegree := Drain(edges, byName.Keys, inDegree, dependents);
    CompleteIsDistinct(Elements(edges), byName.Keys, names);
    GreedyLength(ps, names);
    if |names| < |ps| {
      var cyclic := SortedKeys(set n | n in inDegree && inDegree[n] > 0);
      ReportIsCyclic(ps, names, cyclic);
      return Err(Cycle(cyclic));
    }
    var out := seq(|names|, k requires 0 <= k < |names| && names[k] in byName => byName[names[k]]);
    AllEmitted(ps, names, out);
    r := Ok(out);
  }

  method ByName(ps: seq<Plugin>) returns (m: map<string, Plugin>)
    ensures m.Keys == NamesOf(Elements(ps))
    ensures forall n | n in m :: m[n] in ps && m[n].name == n
  {
    m := map[];
    for i := 0 to |ps|
      invariant m.Keys == NamesOf(Elements(ps[..i]))
      invariant forall n | n in m :: m[n] in ps && m[n].name == n
    {
      assert Elements(ps[..i + 1]) == Elements(ps[..i]) + {ps[i]};
      m := m[ps[i].name := ps[i]];
    }
    assert ps[..|ps|] == ps;
  }

  // --------------------------------------------- from names back to plugins

  lemma {:induction false} NamesSize(ps: seq<Plugin>)
    requires DistinctNames(ps)
    ensures |NamesOf(Elements(ps))| == |ps|
  {
    var ns := NameSeq(ps);
    DistinctSize(ns);
    forall n ensures n in NamesOf(Elements(ps)) <==> n in ns {
      if n in ns {
        var k :| 0 <= k < |ns| && ns[k] == n;
        assert ps[k] in Elements(ps);
      }
    }
    assert Elements(ns) == NamesOf(Elements(ps));
  }

  /** All plugins were emitted exactly when all names were. */
  lemma GreedyLength(ps: seq<Plugin>, names: seq<string>)
    requires DistinctNames(ps) && NoRepeats(names) && Elements(names) <= NamesOf(Elements(ps))
    ensures |names| <= |ps|
    ensures |names| == |ps| <==> Elements(names) == NamesOf(Elements(ps))
  {
    DistinctSize(names);
    NamesSize(ps);
    SubsetSize(Elements(names), NamesOf(Elements(ps)));
  }

  lemma ReportIsCyclic(ps: seq<Plugin>, names: seq<string>, cyclic: seq<string>)
    requires UniqueProviders(Elements(ps)) && Ascending(cyclic)
    requires IsGreedyToTheEnd(Requirements(Elements(ps)), NamesOf(Elements(ps)), names)
    requires Elements(cyclic) == NamesOf(Elements(ps)) - Elements(names)
    requires Elements(names) != NamesOf(Elements(ps)) && Elements(names) <= NamesOf(Elements(ps))
    ensures BucketOutcome(Elements(ps), Err(Cycle(cyclic)))
  {
    NoElements(cyclic);
    forall n | n in NamesOf(Elements(ps))
      ensures n in Elements(cyclic) <==> ReachesCycle(Requirements(Elements(ps)), n) {
      LeftOverIsCyclic(Requirements(Elements(ps)), NamesOf(Elements(ps)), names, n);
    }
    var n :| n in NamesOf(Elements(ps)) && n !in Elements(names);
    assert n in Elements(cyclic);
  }

  lemma AllEmitted(ps: seq<Plugin>, names: seq<string>, out: seq<Plugin>)
    requires UniqueProviders(Elements(ps))
    requires DistinctNames(ps) && NoRepeats(names) && Elements(names) == NamesOf(Elements(ps))
    requires IsGreedyToTheEnd(Requirements(Elements(ps)), NamesOf(Elements(ps)), names)
    requires |out| == |names| && forall k | 0 <= k < |out| :: out[k] in ps && out[k].name == names[k]
    ensures BucketOutcome(Elements(ps), Ok(out))
  {
    assert NameSeq(out) == names;
    forall p | p in ps ensures p in out {
      assert p.name in Elements(names);
      var k :| 0 <= k < |names| && names[k] == p.name;
      var a :| 0 <= a < |ps| && ps[a] == p;
      var b :| 0 <= b < |ps| && ps[b] == out[k];
    }
  }

  // -------------------------------------------------------------- one phase

  datatype Bucket = Bucket(priority: int, plugins: seq<Plugin>)
  datatype Schedule = Schedule(flat: seq<Plugin>, buckets: seq<Bucket>)

  ghost function InBucket(ps: set<Plugin>, k: int): set<Plugin> {
    set p | p in ps && Priority(p) == k
  }

  ghost function Priorities(ps: set<Plugin>): set<int> {
    set p | p in ps :: Priority(p)
  }

  ghost predicate AscendingInts(s: seq<int>) {
    forall i, j | 0 <= i < j < |s| :: s[i] < s[j]
  }

  ghost function Concat(bs: seq<Bucket>): seq<Plugin> {
    if bs == [] then [] else Concat(bs[..|bs| - 1]) + bs[|bs| - 1].plugins
  }

  ghost function Keys(bs: seq<Bucket>): (ks: seq<int>)
    ensures |ks| == |bs| && forall k | 0 <= k < |ks| :: ks[k] == bs[k].priority
  {
    seq(|bs|, k requires 0 <= k < |bs| => bs[k].priority)
  }

  /** The buckets up to `ps`'s priorities in `done`, each in its order. */
  ghost predicate Scheduled(ps: set<Plugin>, done: set<int>, s: Schedule) {
    && AscendingInts(Keys(s.buckets)) && Elements(Keys(s.buckets)) == done
    && s.flat == Concat(s.buckets)
    && forall b | b in s.buckets :: BucketOutcome(InBucket(ps, b.priority), Ok(b.plugins))
  }

  ghost predicate Orderable(ps: set<Plugin>) {
    exists out :: BucketOutcome(ps, Ok(out))
  }

  /** A failure is that of the lowest bucket that cannot be ordered. */
  ghost predicate PhaseOutcome(ps: set<Plugin>, r: Result<Schedule>) {
    match r
    case Ok(s) => Scheduled(ps, Priorities(ps), s)
    case Err(e) => exists k :: k in Priorities(ps) && FailsAt(ps, k, e)
  }

  ghost predicate FailsAt(ps: set<Plugin>, k: int, e: Error) {
    && BucketOutcome(InBucket(ps, k), Err(e))
    && forall j | j in Priorities(ps) && j < k :: Orderable(InBucket(ps, j))
  }

  ghost predicate Grouped(ps: set<Plugin>, m: map<int, seq<Plugin>>) {
    && m.Keys == Priorities(ps)
    && forall k | k in m :: DistinctNames(m[k]) && Elements(m[k]) == InBucket(ps, k)
  }

  method GroupByPriority(ps: seq<Plugin>) returns (m: map<int, seq<Plugin>>)
    requires DistinctNames(ps)
    ensures Grouped(Elements(ps), m)
  {
    m := map[];
    for i := 0 to |ps|
      invariant Grouped(Elements(ps[..i]), m)
    {
      hide Grouped;
      var k := Priority(ps[i]);
      assert Elements(ps[..i + 1]) == Elements(ps[..i]) + {ps[i]};
      GroupOneMore(Elements(ps[..i]), m, ps[i]);
      m := m[k := (if k in m then m[k] else []) + [ps[i]]];
    }
    assert ps[..|ps|] == ps;
  }

  lemma GroupOneMore(ps: set<Plugin>, m: map<int, seq<Plugin>>, p: Plugin)
    requires Grouped(ps, m) && forall q | q in ps :: q.name != p.name
    ensures Grouped(ps + {p}, m[Priority(p) := (if Priority(p) in m then m[Priority(p)] else []) + [p]])
  {
    var group := if Priority(p) in m then m[Priority(p)] else [];
    assert Elements(group) == InBucket(ps, Priority(p));
    forall j | 0 <= j < |group| ensures group[j].name != p.name {
      assert group[j] in Elements(group);
    }
    assert Elements(group + [p]) == Elements(group) + {p};
    assert InBucket(ps, Priority(p)) + {p} == InBucket(ps + {p}, Priority(p));
    forall k | k in m && k != Priority(p) ensures InBucket(ps + {p}, k) == InBucket(ps, k) {}
  }

  method InsertInt(s: seq<int>, k: int) returns (r: seq<int>)
    requires AscendingInts(s) && k !in s
    ensures AscendingInts(r) && Elements(r) == Elements(s) + {k}
  {
    var i := 0;
    while i < |s| && s[i] < k
      invariant 0 <= i <= |s| && forall j | 0 <= j < i :: s[j] < k
    {
      i := i + 1;
    }
    forall j | i <= j < |s| ensures k < s[j] {}
    InsertedInt(s, k, i);
    r := s[..i] + [k] + s[i..];
  }

  lemma InsertedInt(s: seq<int>, k: int, i: nat)
    requires AscendingInts(s) && i <= |s| && (forall j | 0 <= j < i :: s[j] < k) && forall j | i <= j < |s| :: k < s[j]
    ensures AscendingInts(s[..i] + [k] + s[i..])
    ensures Elements(s[..i] + [k] + s[i..]) == Elements(s) + {k}
  {
    var r := s[..i] + [k] + s[i..];
    forall a, b | 0 <= a < b < |r| ensures r[a] < r[b] {}
    assert s == s[..i] + s[i..];
    forall x ensures x in Elements(r) <==> x in Elements(s) + {k} {}
  }

  method SortedPriorities(keys: set<int>) returns (r: seq<int>)
    ensures AscendingInts(r) && Elements(r) == keys
  {
    r := [];
    var left := keys;
    while left != {}
      invariant left <= keys && AscendingInts(r) && Elements(r) == keys - left
      decreases left
    {
      var k := Any(left);
      assert k !in Elements(r);
      r := InsertInt(r, k);
      left := left - {k};
    }
  }

  method ResolvePhase(ps: seq<Plugin>) returns (r: Result<Schedule>)
    requires DistinctNames(ps)
    ensures PhaseOutcome(Elements(ps), r)
  {
    var byPrio := GroupByPriority(ps);
    var keys := SortedPriorities(byPrio.Keys);
    var s := Schedule([], []);
    hide BucketOutcome;
    for i := 0 to |keys|
      invariant Scheduled(Elements(ps), Elements(keys[..i]), s)
    {
      var k := keys[i];
      assert k in Elements(keys);
      var ordered := TopoSortBucket(byPrio[k]);
      if ordered.Err? {
        FirstFailure(Elements(ps), keys, i, s, ordered.error);
        return Err(ordered.error);
      }
      ScheduledNext(Elements(ps), keys, i, s, ordered.value);
      s := Schedule(s.flat + ordered.value, s.buckets + [Bucket(k, ordered.value)]);
    }
    assert keys[..|keys|] == keys;
    r := Ok(s);
  }

  lemma ScheduledNext(ps: set<Plugin>, keys: seq<int>, i: nat, s: Schedule, out: seq<Plugin>)
    requires AscendingInts(keys) && i < |keys|
    requires Scheduled(ps, Elements(keys[..i]), s)
    requires BucketOutcome(InBucket(ps, keys[i]), Ok(out))
    ensures Scheduled(ps, Elements(keys[..i + 1]), Schedule(s.flat + out, s.buckets + [Bucket(keys[i], out)]))
  {
    hide BucketOutcome;
    var b := Bucket(keys[i], out);
    var ks := Keys(s.buckets);
    assert Keys(s.buckets + [b]) == ks + [keys[i]];
    forall j | 0 <= j < |ks| ensures ks[j] < keys[i] {
      assert ks[j] in Elements(keys[..i]);
    }
    assert (s.buckets + [b])[..|s.buckets|] == s.buckets;
    assert Elements(keys[..i + 1]) == Elements(keys[..i]) + {keys[i]};
    assert Elements(ks + [keys[i]]) == Elements(ks) + {keys[i]};
  }

  lemma FirstFailure(ps: set<Plugin>, keys: seq<int>, i: nat, s: Schedule, e: Error)
    requires AscendingInts(keys) && Elements(keys) == Priorities(ps) && i < |keys|
    requires Scheduled(ps, Elements(keys[..i]), s)
    requires BucketOutcome(InBucket(ps, keys[i]), Err(e))
    ensures PhaseOutcome(ps, Err(e))
  {
    hide BucketOutcome;
    assert keys[i] in Elements(keys);
    forall j | j in Priorities(ps) && j < keys[i] ensures Orderable(InBucket(ps, j)) {
      var a :| 0 <= a < |keys| && keys[a] == j;
      assert j in Elements(keys[..i]);
      assert j in Keys(s.buckets);
      var x :| 0 <= x < |s.buckets| && s.buckets[x].priority == j;
      assert BucketOutcome(InBucket(ps, s.buckets[x].priority), Ok(s.buckets[x].plugins));
    }
    assert FailsAt(ps, keys[i], e);
  }
}
