/** When a schedule exists, what it guarantees, and that nothing but the set of plugins determines it. */
module SchedulerTheorems {
  import opened Collections
  import opened Graphs
  import opened StringOrder
  import opened Kahn
  import opened Scheduler

  /** A bucket can be ordered exactly when no capability is claimed twice and no requirement is cyclic. */
  lemma OrderableExactly(ps: set<Plugin>, r: Result<seq<Plugin>>)
    requires BucketOutcome(ps, r)
    ensures r.Ok? <==> UniqueProviders(ps) && forall n | n in NamesOf(ps) :: !ReachesCycle(Requirements(ps), n)
    ensures r.Err? && r.error.DuplicateProvider? <==> !UniqueProviders(ps)
  {
    if r.Ok? {
      forall n | n in NamesOf(ps) ensures !ReachesCycle(Requirements(ps), n) {
        var p :| p in ps && p.name == n;
        assert p in Elements(r.value);
        var k :| 0 <= k < |r.value| && r.value[k] == p;
        assert NameSeq(r.value)[k] == n;
        LeftOverIsCyclic(Requirements(ps), NamesOf(ps), NameSeq(r.value), n);
      }
    } else if r.error.Cycle? {
      assert r.error.names[0] in Elements(r.error.names);
    }
  }

  /** In a bucket's order every provider precedes every plugin that requires it. */
  lemma ProvidersPrecede(ps: set<Plugin>, out: seq<Plugin>, i: nat, j: nat)
    requires IsBucketOrder(ps, out) && i < |out| && j < |out|
    requires out[i].name != out[j].name && RequiresFrom(out[i], out[j])
    ensures j < i
  {
    assert out[i] in Elements(out) && out[j] in Elements(out);
    GreedyProvidersFirst(Requirements(ps), NamesOf(ps), NameSeq(out), i, out[j].name);
    var k :| 0 <= k < i && NameSeq(out)[k] == out[j].name;
    assert k == j;
  }

  /** Equal, or both a duplicate claim: which of several claims is named depends on the order met. */
  predicate SameOutcome<T(==)>(a: Result<T>, b: Result<T>) {
    a == b || (a.Err? && b.Err? && a.error.DuplicateProvider? && b.error.DuplicateProvider?)
  }

  lemma BucketUnique(ps: set<Plugin>, a: Result<seq<Plugin>>, b: Result<seq<Plugin>>)
    requires BucketOutcome(ps, a) && BucketOutcome(ps, b)
    ensures SameOutcome(a, b)
  {
    OrderableExactly(ps, a);
    OrderableExactly(ps, b);
    if a.Ok? {
      GreedyUnique(Requirements(ps), NamesOf(ps), NameSeq(a.value), NameSeq(b.value));
      forall k | 0 <= k < |a.value| ensures a.value[k] == b.value[k] {
        assert a.value[k] in Elements(b.value);
        assert NameSeq(a.value)[k] == NameSeq(b.value)[k];
        var j :| 0 <= j < |b.value| && b.value[j] == a.value[k];
      }
      assert a.value == b.value;
    } else if a.error.Cycle? {
      AscendingUnique(a.error.names, b.error.names);
    }
  }

  lemma {:induction false} AscendingIntsUnique(a: seq<int>, b: seq<int>)
    requires AscendingInts(a) && AscendingInts(b) && Elements(a) == Elements(b)
    ensures a == b
  {
    NoElements(a);
    NoElements(b);
    if a != [] {
      LastIsGreatest(a);
      LastIsGreatest(b);
      assert a[|a| - 1] == b[|b| - 1];
      AscendingIntsUnique(a[..|a| - 1], b[..|b| - 1]);
      assert a == a[..|a| - 1] + [a[|a| - 1]] && b == b[..|b| - 1] + [b[|b| - 1]];
    }
  }

  lemma LastIsGreatest(s: seq<int>)
    requires AscendingInts(s) && s != []
    ensures s[|s| - 1] in Elements(s) && forall x | x in Elements(s) :: x <= s[|s| - 1]
    ensures Elements(s[..|s| - 1]) == Elements(s) - {s[|s| - 1]}
  {
    assert s == s[..|s| - 1] + [s[|s| - 1]];
  }

  lemma SchedulesEqual(ps: set<Plugin>, a: Schedule, b: Schedule)
    requires Scheduled(ps, Priorities(ps), a) && Scheduled(ps, Priorities(ps), b)
    ensures a == b
  {
    hide BucketOutcome;
    AscendingIntsUnique(Keys(a.buckets), Keys(b.buckets));
    forall k | 0 <= k < |a.buckets| ensures a.buckets[k] == b.buckets[k] {
      assert Keys(a.buckets)[k] == Keys(b.buckets)[k];
      assert a.buckets[k] in a.buckets && b.buckets[k] in b.buckets;
      BucketUnique(InBucket(ps, a.buckets[k].priority), Ok(a.buckets[k].plugins), Ok(b.buckets[k].plugins));
    }
    assert a.buckets == b.buckets;
  }

  lemma ScheduledIsOrderable(ps: set<Plugin>, s: Schedule, k: int)
    requires Scheduled(ps, Priorities(ps), s) && k in Priorities(ps)
    ensures Orderable(InBucket(ps, k))
  {
    hide BucketOutcome;
    assert k in Keys(s.buckets);
    var x :| 0 <= x < |s.buckets| && s.buckets[x].priority == k;
    assert s.buckets[x] in s.buckets;
  }

  /** The outcome is a function of the set of plugins: registration order does not matter. */
  lemma PhaseIsDeterministic(ps: seq<Plugin>, qs: seq<Plugin>, a: Result<Schedule>, b: Result<Schedule>)
    requires multiset(ps) == multiset(qs)
    requires PhaseOutcome(Elements(ps), a) && PhaseOutcome(Elements(qs), b)
    ensures SameOutcome(a, b)
  {
    hide BucketOutcome;
    forall p ensures p in ps <==> p in qs {
      assert p in ps <==> p in multiset(ps);
      assert p in qs <==> p in multiset(qs);
    }
    var s := Elements(ps);
    assert s == Elements(qs);
    if a.Ok? && b.Ok? {
      SchedulesEqual(s, a.value, b.value);
    } else if a.Ok? {
      OkExcludesErr(s, a.value, b.error);
    } else if b.Ok? {
      OkExcludesErr(s, b.value, a.error);
    } else {
      var j :| j in Priorities(s) && FailsAt(s, j, a.error);
      var k :| k in Priorities(s) && FailsAt(s, k, b.error);
      if j < k {
        NotBoth(InBucket(s, j), a.error);
      } else if k < j {
        NotBoth(InBucket(s, k), b.error);
      } else {
        BucketUnique(InBucket(s, j), Err(a.error), Err(b.error));
      }
    }
  }

  lemma NotBoth(ps: set<Plugin>, e: Error)
    requires BucketOutcome(ps, Err(e))
    ensures !Orderable(ps)
  {
    forall out | BucketOutcome(ps, Ok(out)) ensures false {
      BucketUnique(ps, Ok(out), Err(e));
    }
  }

  lemma OkExcludesErr(ps: set<Plugin>, s: Schedule, e: Error)
    requires Scheduled(ps, Priorities(ps), s)
    ensures !PhaseOutcome(ps, Err(e))
  {
    hide BucketOutcome;
    forall k | k in Priorities(ps) ensures !FailsAt(ps, k, e) {
      ScheduledIsOrderable(ps, s, k);
      if FailsAt(ps, k, e) {
        NotBoth(InBucket(ps, k), e);
      }
    }
  }

  // The same on the plugins' own declarations.

  /** `p` requires a capability that `q` lists as provided. */
  ghost predicate AsksOf(p: Plugin, q: Plugin) {
    p.cap.Some? && q.cap.Some? && exists c :: c in p.cap.value.needs && c in q.cap.value.supplies
  }

  lemma RequirementsExactly(ps: set<Plugin>, a: string, b: string)
    ensures (a, b) in Requirements(ps) <==>
            a != b && exists p, q :: p in ps && q in ps && p.name == a && q.name == b && AsksOf(p, q)
  {
    forall p, q: Plugin ensures RequiresFrom(p, q) <==> AsksOf(p, q) {
      if RequiresFrom(p, q) {
        var c :| Needs(p, c) && Provides(q, c);
        assert c in p.cap.value.needs && c in q.cap.value.supplies;
      }
      if AsksOf(p, q) {
        var c :| c in p.cap.value.needs && c in q.cap.value.supplies;
        assert Needs(p, c) && Provides(q, c);
      }
    }
  }

  /**
  A bucket's order, on declarations: what a plugin asks for comes before it, and where a plugin
  comes before one with a smaller name, the latter asks for something that was still to come.
  */
  lemma BucketOrderExactly(ps: set<Plugin>, out: seq<Plugin>, i: nat, j: nat)
    requires IsBucketOrder(ps, out) && i < j < |out|
    ensures !AsksOf(out[i], out[j])
    ensures Less(out[i].name, out[j].name) || exists k :: i <= k < j && AsksOf(out[j], out[k])
  {
    hide IsBucketOrder, Requirements, AsksOf, IsGreedy, Leq;
    var edges, names := Requirements(ps), NameSeq(out);
    OrderIsGreedy(ps, out);
    AskedAt(ps, out, i, names[j]);
    AskedAt(ps, out, j, names[i]);
    if AsksOf(out[i], out[j]) {
      GreedyProvidersFirst(edges, NamesOf(ps), names, i, names[j]);
    }
    if !Less(out[i].name, out[j].name) {
      LeqTotal(out[i].name, out[j].name);
      var q := WaitsFor(edges, NamesOf(ps), names, i, j);
      GreedyProvidersFirst(edges, NamesOf(ps), names, j, q);
      AskedAt(ps, out, j, q);
      var k :| 0 <= k < |out| && names[k] == q && AsksOf(out[j], out[k]);
    }
  }

  lemma OrderIsGreedy(ps: set<Plugin>, out: seq<Plugin>)
    requires IsBucketOrder(ps, out)
    ensures IsGreedy(Requirements(ps), NamesOf(ps), NameSeq(out)) && DistinctNames(out)
  {}

  /** Requirements between plugins of the bucket, by position. */
  lemma AskedAt(ps: set<Plugin>, out: seq<Plugin>, j: nat, q: string)
    requires IsBucketOrder(ps, out) && j < |out|
    ensures (out[j].name, q) in Requirements(ps) <==>
            q != out[j].name && exists k :: 0 <= k < |out| && out[k].name == q && AsksOf(out[j], out[k])
  {
    hide IsGreedyToTheEnd, Requirements, AsksOf;
    RequirementsExactly(ps, out[j].name, q);
    assert out[j] in Elements(out);
    if p, b :| p in ps && b in ps && p.name == out[j].name && b.name == q && AsksOf(p, b) {
      assert p in Elements(out) && b in Elements(out);
      var x :| 0 <= x < |out| && out[x] == p;
      var k :| 0 <= k < |out| && out[k] == b;
      assert x == j;
    }
    if k :| 0 <= k < |out| && out[k].name == q && AsksOf(out[j], out[k]) {
      assert out[k] in Elements(out);
    }
  }

  /** A smaller name that comes later was not available. */
  lemma WaitsFor(edges: set<(string, string)>, names: set<string>, out: seq<string>, i: nat, j: nat) returns (q: string)
    requires IsGreedy(edges, names, out) && i < j < |out| && !Leq(out[i], out[j])
    ensures (out[j], q) in edges && q !in out[..i]
  {
    GreedyIsDistinct(edges, names, out);
    assert IsLeast(out[i], Available(edges, names, Elements(out[..i])));
    assert out[j] in Elements(out) && out[j] !in out[..i];
    var e :| e in edges && e.0 == out[j] && e.1 !in Elements(out[..i]);
    q := e.1;
  }

  /** Plugins that ask nothing of each other keep their registration order exactly when it is alphabetical. */
  lemma RegistrationOrderExactly(ps: seq<Plugin>, out: seq<Plugin>)
    requires DistinctNames(ps) && IsBucketOrder(Elements(ps), out)
    requires forall p, q | p in ps && q in ps :: !AsksOf(p, q)
    ensures out == ps <==> Ascending(NameSeq(ps))
  {
    hide AsksOf, Leq;
    assert Elements(out) == Elements(ps) && DistinctNames(out);
    forall p ensures p in out <==> p in ps {
      assert p in out <==> p in Elements(out);
    }
    forall i, j | 0 <= i < j < |out| ensures Less(out[i].name, out[j].name) {
      BucketOrderExactly(Elements(ps), out, i, j);
      assert out[j] in out;
    }
    if Ascending(NameSeq(ps)) {
      SameNames(ps, out);
      AscendingUnique(NameSeq(ps), NameSeq(out));
      forall k | 0 <= k < |ps| ensures ps[k] == out[k] {
        assert NameSeq(ps)[k] == NameSeq(out)[k] && ps[k] in out;
        var x :| 0 <= x < |out| && out[x] == ps[k];
      }
    }
  }

  lemma SameNames(a: seq<Plugin>, b: seq<Plugin>)
    requires forall p :: p in a <==> p in b
    ensures Elements(NameSeq(a)) == Elements(NameSeq(b))
  {
    forall n ensures n in Elements(NameSeq(a)) <==> n in Elements(NameSeq(b)) {
      if n in Elements(NameSeq(a)) {
        var k :| 0 <= k < |a| && NameSeq(a)[k] == n;
        assert a[k] in b;
        var j :| 0 <= j < |b| && b[j] == a[k];
        assert NameSeq(b)[j] == n;
      }
      if n in Elements(NameSeq(b)) {
        var k :| 0 <= k < |b| && NameSeq(b)[k] == n;
        assert b[k] in a;
        var j :| 0 <= j < |a| && a[j] == b[k];
        assert NameSeq(a)[j] == n;
      }
    }
  }

  /** The declared priority, or the default of a plugin that declares none. */
  ghost predicate Declares(p: Plugin, k: int) {
    if p.cap.Some? then k == p.cap.value.priority else k == 300
  }

  /** A phase on declarations: buckets ascend by declared priority, each holds exactly the plugins declaring it. */
  lemma PhaseOnDeclarations(ps: set<Plugin>, s: Schedule)
    requires Scheduled(ps, Priorities(ps), s)
    ensures forall i, j, a, b | 0 <= i < j < |s.flat| && Declares(s.flat[i], a) && Declares(s.flat[j], b) :: a <= b
    ensures forall i, j | 0 <= i < j < |s.buckets| :: s.buckets[i].priority < s.buckets[j].priority
    ensures forall b, p | b in s.buckets :: p in b.plugins <==> p in ps && Declares(p, b.priority)
    ensures forall p, k | p in ps && Declares(p, k) :: exists b :: b in s.buckets && b.priority == k && p in b.plugins
  {
    hide BucketOutcome, Orderable;
    FlatAscends(ps, s);
    forall p, k ensures Declares(p, k) <==> Priority(p) == k {}
    forall i, j | 0 <= i < j < |s.buckets| ensures s.buckets[i].priority < s.buckets[j].priority {
      assert Keys(s.buckets)[i] < Keys(s.buckets)[j];
    }
    forall b, p | b in s.buckets ensures p in b.plugins <==> p in ps && Declares(p, b.priority) {
      BucketHolds(InBucket(ps, b.priority), b.plugins);
      assert p in b.plugins <==> p in Elements(b.plugins);
    }
    forall p, k | p in ps && Declares(p, k) ensures exists b :: b in s.buckets && b.priority == k && p in b.plugins {
      assert Priority(p) in Priorities(ps);
      var x :| 0 <= x < |s.buckets| && Keys(s.buckets)[x] == k;
      assert s.buckets[x] in s.buckets;
    }
  }

  ghost function Declaring(ps: set<Plugin>, k: int): set<Plugin> {
    set p | p in ps && Declares(p, k)
  }

  /** A failing phase: the lowest declared priority whose plugins cannot be ordered, with their error. */
  lemma FailureOnDeclarations(ps: set<Plugin>, e: Error)
    requires PhaseOutcome(ps, Err(e))
    ensures exists k :: && Declaring(ps, k) != {} && BucketOutcome(Declaring(ps, k), Err(e))
                        && forall j | j < k && Declaring(ps, j) != {} :: Orderable(Declaring(ps, j))
  {
    hide BucketOutcome, Orderable;
    forall k ensures Declaring(ps, k) == InBucket(ps, k) && (Declaring(ps, k) != {} <==> k in Priorities(ps)) {
      assert forall p | p in ps && Priority(p) == k :: p in Declaring(ps, k);
    }
    var k :| k in Priorities(ps) && FailsAt(ps, k, e);
  }

  /** Place `i` of `p`'s list and place `j` of `q`'s name one capability. */
  ghost predicate BothList(p: Plugin, i: int, q: Plugin, j: int, c: string) {
    && p.cap.Some? && 0 <= i < |p.cap.value.supplies| && p.cap.value.supplies[i] == c
    && q.cap.Some? && 0 <= j < |q.cap.value.supplies| && q.cap.value.supplies[j] == c
  }

  /** Providers are unique exactly when no capability is listed at two places. */
  lemma UniqueExactly(ps: set<Plugin>)
    ensures UniqueProviders(ps) <==>
            forall p, i, q, j, c | p in ps && q in ps && BothList(p, i, q, j, c) :: p == q && i == j
  {
    if UniqueProviders(ps) {
      forall p, i, q, j, c | p in ps && q in ps && BothList(p, i, q, j, c) ensures p == q && i == j {
        assert Provides(p, c) && Provides(q, c);
      }
    }
    if forall p, i, q, j, c | p in ps && q in ps && BothList(p, i, q, j, c) :: p == q && i == j {
      forall p, q, c | p in ps && q in ps && Provides(p, c) && Provides(q, c) ensures p == q {
        var i :| 0 <= i < |p.cap.value.supplies| && p.cap.value.supplies[i] == c;
        var j :| 0 <= j < |q.cap.value.supplies| && q.cap.value.supplies[j] == c;
        assert BothList(p, i, q, j, c);
      }
      forall p | p in ps && p.cap.Some? ensures NoRepeats(p.cap.value.supplies) {
        var names := p.cap.value.supplies;
        forall i, j | 0 <= i < j < |names| ensures names[i] != names[j] {
          assert BothList(p, i, p, j, names[i]) || names[i] != names[j];
        }
      }
    }
  }

  /** A duplicate report names a capability listed at two places, and the plugins that list it there. */
  lemma DuplicateExactly(ps: set<Plugin>, e: Error)
    requires IsDuplicate(ps, e)
    ensures e.DuplicateProvider?
    ensures exists p, i, q, j :: && p in ps && q in ps && p.name == e.first && q.name == e.second
                                 && BothList(p, i, q, j, e.capability) && (p != q || i < j)
  {
    var p, q :| p in ps && q in ps && p.name == e.first && q.name == e.second && ClaimTwice(p, q, e.capability);
    var c := e.capability;
    if p == q {
      var i, j :| 0 <= i < j < |p.cap.value.supplies| && p.cap.value.supplies[i] == c == p.cap.value.supplies[j];
      assert BothList(p, i, q, j, c);
    } else {
      var i :| 0 <= i < |p.cap.value.supplies| && p.cap.value.supplies[i] == c;
      var j :| 0 <= j < |q.cap.value.supplies| && q.cap.value.supplies[j] == c;
      assert BothList(p, i, q, j, c);
    }
  }

  /** The flat schedule runs through the buckets in ascending priority and holds every plugin once. */
  lemma FlatAscends(ps: set<Plugin>, s: Schedule)
    requires Scheduled(ps, Priorities(ps), s)
    ensures forall i, j | 0 <= i < j < |s.flat| :: Priority(s.flat[i]) <= Priority(s.flat[j])
    ensures Elements(s.flat) == ps && NoRepeats(s.flat)
  {
    hide BucketOutcome, Orderable;
    ConcatAscends(ps, s.buckets);
    forall p ensures p in s.flat <==> p in ps {
      ConcatMembers(ps, s.buckets, p);
      assert p in ps ==> Priority(p) in Priorities(ps);
    }
  }

  lemma BucketHolds(ps: set<Plugin>, out: seq<Plugin>)
    requires BucketOutcome(ps, Ok(out))
    ensures Elements(out) == ps && NoRepeats(out)
  {}

  lemma {:induction false} ConcatMembers(ps: set<Plugin>, bs: seq<Bucket>, p: Plugin)
    requires forall b | b in bs :: BucketOutcome(InBucket(ps, b.priority), Ok(b.plugins))
    ensures p in Concat(bs) <==> p in ps && Priority(p) in Keys(bs)
  {
    hide BucketOutcome;
    if bs != [] {
      var front, b := bs[..|bs| - 1], bs[|bs| - 1];
      assert bs == front + [b];
      assert Keys(bs) == Keys(front) + [b.priority];
      ConcatMembers(ps, front, p);
      BucketHolds(InBucket(ps, b.priority), b.plugins);
      assert p in b.plugins <==> p in Elements(b.plugins);
    }
  }

  lemma {:induction false} ConcatAscends(ps: set<Plugin>, bs: seq<Bucket>)
    requires AscendingInts(Keys(bs))
    requires forall b | b in bs :: BucketOutcome(InBucket(ps, b.priority), Ok(b.plugins))
    ensures forall i, j | 0 <= i < j < |Concat(bs)| :: Priority(Concat(bs)[i]) <= Priority(Concat(bs)[j])
    ensures NoRepeats(Concat(bs))
  {
    hide BucketOutcome;
    if bs != [] {
      var front, b := bs[..|bs| - 1], bs[|bs| - 1];
      assert forall x | x in front :: x in bs;
      forall i, j | 0 <= i < j < |front| ensures Keys(front)[i] < Keys(front)[j] {
        assert Keys(bs)[i] < Keys(bs)[j];
      }
      ConcatAscends(ps, front);
      BucketHolds(InBucket(ps, b.priority), b.plugins);
      forall p | p in b.plugins ensures Priority(p) == b.priority {
        assert p in Elements(b.plugins);
      }
      forall p | p in Concat(front) ensures Priority(p) < b.priority {
        ConcatMembers(ps, front, p);
        var k :| 0 <= k < |front| && Keys(front)[k] == Priority(p);
        assert Keys(bs)[k] < Keys(bs)[|front|];
      }
      JoinAscends(Concat(front), b.plugins, b.priority);
    }
  }

  lemma JoinAscends(xs: seq<Plugin>, ys: seq<Plugin>, k: int)
    requires forall i, j | 0 <= i < j < |xs| :: Priority(xs[i]) <= Priority(xs[j])
    requires NoRepeats(xs) && NoRepeats(ys)
    requires forall p | p in xs :: Priority(p) < k
    requires forall p | p in ys :: Priority(p) == k
    ensures forall i, j | 0 <= i < j < |xs + ys| :: Priority((xs + ys)[i]) <= Priority((xs + ys)[j])
    ensures NoRepeats(xs + ys)
  {
    forall i, j | 0 <= i < j < |xs + ys|
      ensures Priority((xs + ys)[i]) <= Priority((xs + ys)[j]) && (xs + ys)[i] != (xs + ys)[j]
    {
      if i < |xs| { assert xs[i] in xs; }
      if j >= |xs| { assert ys[j - |xs|] in ys; }
    }
  }
}
