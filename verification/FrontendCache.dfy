/**
Frontend caching: a unit's packages come from the cache when it can answer and from a conversion
otherwise. What the store receives must not depend on which.
*/
module FrontendCache {
  import opened Options
  import opened Nodes
  import opened Rewiring
  import opened CacheKeys

  /** A cache entry: an encoded list of packages, or bytes that do not decode. */
  datatype Payload = Json(trees: seq<Tree>) | Malformed

  datatype Converted = Packages(graphs: seq<Graph>) | Failed

  datatype Outcome = Loaded | ConversionFailed | StoreRejected

  /** What encoding keeps of each package. */
  function Trees(gs: seq<Graph>): (ts: seq<Tree>)
    ensures |ts| == |gs| && forall i | 0 <= i < |ts| :: ts[i] == gs[i].tree
  {
    seq(|gs|, i requires 0 <= i < |gs| => gs[i].tree)
  }

  // ------------------------------------------------------------ without a cache

  /** The store as the list of packages it accepted; `accepts` is its own decision. */
  datatype Added = Added(store: seq<Graph>, outcome: Outcome)

  ghost function AddAll(store: seq<Graph>, gs: seq<Graph>, accepts: (seq<Graph>, Graph) -> bool): Added
    decreases |gs|
  {
    if gs == [] then Added(store, Loaded)
    else if !accepts(store, gs[0]) then Added(store, StoreRejected)
    else AddAll(store + [gs[0]], gs[1..], accepts)
  }

  /** The store grows by the packages up to the first it does not accept, which is then the outcome. */
  lemma {:induction false} AddAllExactly(store: seq<Graph>, gs: seq<Graph>, accepts: (seq<Graph>, Graph) -> bool)
    returns (n: nat)
    ensures n <= |gs| && AddAll(store, gs, accepts).store == store + gs[..n]
    ensures forall i | 0 <= i < n :: accepts(store + gs[..i], gs[i])
    ensures AddAll(store, gs, accepts).outcome == Loaded <==> n == |gs|
    ensures n < |gs| ==> !accepts(store + gs[..n], gs[n]) && AddAll(store, gs, accepts).outcome == StoreRejected
    decreases |gs|
  {
    if gs == [] || !accepts(store, gs[0]) {
      n := 0;
      assert store + gs[..0] == store;
    } else {
      var m := AddAllExactly(store + [gs[0]], gs[1..], accepts);
      n := m + 1;
      forall i | 0 < i <= n ensures store + gs[..i] == store + [gs[0]] + gs[1..][..i - 1] {}
      assert store + gs[..0] == store;
    }
  }

  ghost function Plain(store: seq<Graph>, c: Converted, accepts: (seq<Graph>, Graph) -> bool): Added {
    match c
    case Failed => Added(store, ConversionFailed)
    case Packages(gs) => AddAll(store, gs, accepts)
  }

  // --------------------------------------------------------------- with a cache

  /** A conversion whose packages survive encoding; of an empty one nothing is kept. */
  ghost predicate Encodable(c: Converted) {
    c.Packages? ==> forall g | g in c.graphs :: Restorable(g)
  }

  /** What reading a list of packages back gives. */
  ghost predicate ReadBack(gs: seq<Graph>, trees: seq<Tree>) {
    |gs| == |trees| && forall i | 0 <= i < |gs| :: IsRewired(Graph(trees[i], map[]), gs[i])
  }

  /** Whether the cache keeps anything, and what the store accepts. */
  datatype Setting = Setting(retains: bool, accepts: (seq<Graph>, Graph) -> bool)

  datatype Moment = Moment(cache: map<string, Payload>, store: seq<Graph>)

  /** The entry a request finds, if it decodes to something. */
  ghost function Entry(env: Setting, cache: map<string, Payload>, q: Request, inputs: Option<string>)
    : Option<seq<Tree>>
  {
    if env.retains && inputs.Some? && RequestKey(q, inputs.value) in cache then
      var p := cache[RequestKey(q, inputs.value)];
      if p.Json? && p.trees != [] then Some(p.trees) else None
    else None
  }

  /** One load: from the entry found, or else by converting, after which a non-empty result is kept. */
  ghost predicate Serves(env: Setting, m: Moment, q: Request, inputs: Option<string>, c: Converted, putOk: bool,
                         n: Moment, outcome: Outcome) {
    match Entry(env, m.cache, q, inputs)
    case Some(trees) =>
      && n.cache == m.cache
      && exists gs :: ReadBack(gs, trees) && Added(n.store, outcome) == AddAll(m.store, gs, env.accepts)
    case None =>
      && Added(n.store, outcome) == Plain(m.store, c, env.accepts)
      && n.cache == if env.retains && inputs.Some? && outcome == Loaded && Kept(c) && putOk
                    then m.cache[RequestKey(q, inputs.value) := Json(Trees(c.graphs))] else m.cache
  }

  ghost predicate Kept(c: Converted) {
    c.Packages? && c.graphs != []
  }

  class Frontend {
    /** False for a cache that can keep nothing. */
    const retains: bool
    const accepts: (seq<Graph>, Graph) -> bool
    var cache: map<string, Payload>
    var store: seq<Graph>

    constructor (retains: bool, accepts: (seq<Graph>, Graph) -> bool, cache: map<string, Payload>)
      ensures store == [] && this.cache == cache && this.retains == retains && this.accepts == accepts
    {
      this.retains, this.accepts, this.cache, this.store := retains, accepts, cache, [];
    }

    /**
    Loads one unit. `inputs` is the hash of its inputs, absent when none could be computed;
    `converted` is what converting it yields; `putOk` is whether the cache takes a write.
    */
    method CacheLoad(q: Request, inputs: Option<string>, converted: Converted, putOk: bool) returns (outcome: Outcome)
      modifies this`cache, this`store
      ensures Serves(Setting(retains, accepts), Moment(old(cache), old(store)), q, inputs, converted, putOk,
                     Moment(cache, store), outcome)
      ensures inputs.None? || !retains ==>
                cache == old(cache) && Added(store, outcome) == Plain(old(store), converted, accepts)
      ensures cache == old(cache) ||
              (&& inputs.Some? && putOk && outcome == Loaded && converted.Packages? && converted.graphs != []
               && cache == old(cache)[RequestKey(q, inputs.value) := Json(Trees(converted.graphs))])
      ensures retains && inputs.Some? && putOk && outcome == Loaded && converted.Packages? && converted.graphs != [] ==>
                RequestKey(q, inputs.value) in cache && cache[RequestKey(q, inputs.value)].Json?
      ensures forall us | && Cacheable(us) && Consistent(old(cache), us)
                          && Genuine(LoadUnit(q, inputs, converted, putOk), us) ::
                Added(store, outcome) == Plain(old(store), converted, accepts) && Consistent(cache, us)
    {
      outcome := Serve(q, inputs, converted, putOk);
      CacheAfter(Setting(retains, accepts), Moment(old(cache), old(store)), q, inputs, converted, putOk,
                 Moment(cache, store), outcome);
      hide *;
      forall us | Cacheable(us) && Consistent(old(cache), us) && Genuine(LoadUnit(q, inputs, converted, putOk), us)
        ensures Added(store, outcome) == Plain(old(store), converted, accepts) && Consistent(cache, us) {
        LoadIsPlain(Setting(retains, accepts), us, Moment(old(cache), old(store)), q, inputs, converted, putOk,
                    Moment(cache, store), outcome);
      }
    }

    method Serve(q: Request, inputs: Option<string>, converted: Converted, putOk: bool) returns (outcome: Outcome)
      modifies this`cache, this`store
      ensures Serves(Setting(retains, accepts), Moment(old(cache), old(store)), q, inputs, converted, putOk,
                     Moment(cache, store), outcome)
    {
      hide RequestKey, ReadBack;
      var key := None;
      if retains && inputs.Some? {
        var k := NewKey(KeyParts(q, inputs.value));
        assert k == RequestKey(q, inputs.value) by { KeyIs(q, inputs.value); }
        key := Some(k);
        if k in cache {
          var pkgs := Decode(cache[k]);
          if pkgs.Some? {
            outcome := AddPackages(pkgs.value);
            return;
          }
        }
      }
      if converted.Failed? {
        return ConversionFailed;
      }
      outcome := AddPackages(converted.graphs);
      if outcome != Loaded {
        return;
      }
      if key.Some? && |converted.graphs| > 0 && putOk {
        cache := cache[key.value := Json(Trees(converted.graphs))];
      }
    }

    method AddPackages(gs: seq<Graph>) returns (outcome: Outcome)
      modifies this`store
      ensures Added(store, outcome) == AddAll(old(store), gs, accepts)
    {
      for i := 0 to |gs|
        invariant AddAll(old(store), gs, accepts) == AddAll(store, gs[i..], accepts)
      {
        if !accepts(store, gs[i]) {
          return StoreRejected;
        }
        assert gs[i..][1..] == gs[i + 1..];
        store := store + [gs[i]];
      }
      outcome := Loaded;
    }
  }

  /** What a load leaves in the cache. */
  lemma CacheAfter(env: Setting, m: Moment, q: Request, inputs: Option<string>, c: Converted, putOk: bool,
                   n: Moment, outcome: Outcome)
    requires Serves(env, m, q, inputs, c, putOk, n, outcome)
    ensures inputs.None? || !env.retains ==>
              n.cache == m.cache && Added(n.store, outcome) == Plain(m.store, c, env.accepts)
    ensures n.cache == m.cache ||
            (&& inputs.Some? && putOk && outcome == Loaded && c.Packages? && c.graphs != []
             && n.cache == m.cache[RequestKey(q, inputs.value) := Json(Trees(c.graphs))])
    ensures env.retains && inputs.Some? && putOk && outcome == Loaded && c.Packages? && c.graphs != [] ==>
              RequestKey(q, inputs.value) in n.cache && n.cache[RequestKey(q, inputs.value)].Json?
  {
    hide RequestKey, ReadBack, AddAll;
  }

  lemma KeyIs(q: Request, hash: string)
    ensures RequestKey(q, hash) == Key(KeyParts(q, hash))
  {}

  /** Reads an entry back; one that does not decode, or decodes to nothing, is a miss. */
  method Decode(p: Payload) returns (pkgs: Option<seq<Graph>>)
    ensures pkgs.Some? <==> p.Json? && p.trees != []
    ensures pkgs.Some? ==> ReadBack(pkgs.value, p.trees)
  {
    hide IsRewired;
    if p.Malformed? || |p.trees| == 0 {
      return None;
    }
    var gs: seq<Graph> := [];
    for i := 0 to |p.trees|
      invariant |gs| == i && forall j | 0 <= j < i :: IsRewired(Graph(p.trees[j], map[]), gs[j])
    {
      var g := RewireOwners(Graph(p.trees[i], map[]));
      gs := gs + [g];
    }
    pkgs := Some(gs);
  }

  /** A hit gives the packages as they were converted, owners included, exactly when they survive encoding. */
  lemma HitIsConversionExactly(gs: seq<Graph>, c: Converted)
    requires c.Packages? && ReadBack(gs, Trees(c.graphs))
    ensures gs == c.graphs <==> Encodable(c)
  {
    hide Restorable, IsRewired;
    forall i | 0 <= i < |gs| ensures gs[i] == c.graphs[i] <==> Restorable(c.graphs[i]) {
      assert Graph(Trees(c.graphs)[i], map[]) == Strip(c.graphs[i]);
      RewireRestoresExactly(c.graphs[i], gs[i]);
    }
    if Encodable(c) {
      forall i | 0 <= i < |gs| ensures gs[i] == c.graphs[i] {
        assert c.graphs[i] in c.graphs;
      }
    }
    if gs == c.graphs {
      forall g | g in c.graphs ensures Restorable(g) {
        var i :| 0 <= i < |gs| && c.graphs[i] == g;
      }
    }
  }

  // ------------------------------------------------------------- whole sessions

  /** The units that ever ask, each with a hash of its inputs, and what converting each yields. */
  datatype Units = Units(asks: (Request, string) -> bool, convert: (Request, string) -> Converted)

  /** Units loaded over any number of runs sharing the cache; entries may vanish or rot in between. */
  datatype Step =
    | NewRun
    | LoadUnit(q: Request, inputs: Option<string>, converted: Converted, putOk: bool)
    | Evict(key: string)
    | Corrupt(key: string)

  /** The hash of the inputs determines the conversion. */
  ghost predicate Genuine(step: Step, us: Units) {
    step.LoadUnit? && step.inputs.Some? ==>
      us.asks(step.q, step.inputs.value) && step.converted == us.convert(step.q, step.inputs.value)
  }

  /** The store and the outcomes when nothing is ever cached. */
  ghost function Uncached(steps: seq<Step>, accepts: (seq<Graph>, Graph) -> bool): (seq<Graph>, seq<Outcome>) {
    if steps == [] then ([], []) else UncachedStep(Uncached(steps[..|steps| - 1], accepts), steps[|steps| - 1], accepts)
  }

  ghost function UncachedStep(s: (seq<Graph>, seq<Outcome>), step: Step, accepts: (seq<Graph>, Graph) -> bool)
    : (seq<Graph>, seq<Outcome>)
  {
    match step
    case NewRun => ([], s.1)
    case LoadUnit(_, _, c, _) => (Plain(s.0, c, accepts).store, s.1 + [Plain(s.0, c, accepts).outcome])
    case Evict(_) => s
    case Corrupt(_) => s
  }

  ghost predicate StepsTo(env: Setting, m: Moment, os: seq<Outcome>, step: Step, n: Moment, os': seq<Outcome>) {
    match step
    case NewRun => n == Moment(m.cache, []) && os' == os
    case LoadUnit(q, inputs, c, putOk) =>
      os' != [] && os == os'[..|os'| - 1] && Serves(env, m, q, inputs, c, putOk, n, os'[|os'| - 1])
    case Evict(key) => n == Moment(m.cache - {key}, m.store) && os' == os
    case Corrupt(key) => n == Moment(m.cache[key := Malformed], m.store) && os' == os
  }

  /** The steps lead from the cache, with nothing loaded yet, to `n`, with these outcomes. */
  ghost predicate Runs(env: Setting, cache: map<string, Payload>, steps: seq<Step>, n: Moment, os: seq<Outcome>)
    decreases |steps|
  {
    if steps == [] then n == Moment(cache, []) && os == []
    else
      var front, step := steps[..|steps| - 1], steps[|steps| - 1];
      exists m, before :: Runs(env, cache, front, m, before) && StepsTo(env, m, before, step, n, os)
  }

  method Session(f: Frontend, steps: seq<Step>) returns (outcomes: seq<Outcome>)
    requires f.store == []
    modifies f
    ensures Runs(Setting(f.retains, f.accepts), old(f.cache), steps, Moment(f.cache, f.store), outcomes)
    ensures forall us | Cacheable(us) && Consistent(old(f.cache), us) && (forall s | s in steps :: Genuine(s, us)) ::
              (f.store, outcomes) == Uncached(steps, f.accepts) && Consistent(f.cache, us)
  {
    hide Serves, Cacheable, Consistent, Uncached;
    outcomes := [];
    ghost var env := Setting(f.retains, f.accepts);
    for i := 0 to |steps|
      invariant Runs(env, old(f.cache), steps[..i], Moment(f.cache, f.store), outcomes)
    {
      ghost var m, before := Moment(f.cache, f.store), outcomes;
      match steps[i] {
        case NewRun =>
          f.store := [];
        case LoadUnit(q, inputs, converted, putOk) =>
          var outcome := f.CacheLoad(q, inputs, converted, putOk);
          outcomes := outcomes + [outcome];
        case Evict(key) =>
          f.cache := f.cache - {key};
        case Corrupt(key) =>
          f.cache := f.cache[key := Malformed];
      }
      RunsNext(env, old(f.cache), steps, i, m, before, Moment(f.cache, f.store), outcomes);
    }
    assert steps[..|steps|] == steps;
    hide *;
    forall us | Cacheable(us) && Consistent(old(f.cache), us) && (forall s | s in steps :: Genuine(s, us))
      ensures (f.store, outcomes) == Uncached(steps, f.accepts) && Consistent(f.cache, us) {
      CacheableIsTransparent(env, us, old(f.cache), steps, Moment(f.cache, f.store), outcomes);
    }
  }

  lemma RunsNext(env: Setting, cache: map<string, Payload>, steps: seq<Step>, i: nat, m: Moment, before: seq<Outcome>,
                 n: Moment, os: seq<Outcome>)
    requires i < |steps| && Runs(env, cache, steps[..i], m, before) && StepsTo(env, m, before, steps[i], n, os)
    ensures Runs(env, cache, steps[..i + 1], n, os)
  {
    hide StepsTo;
    assert steps[..i + 1][..i] == steps[..i] && steps[..i + 1][i] == steps[i];
  }

  // ------------------------------------------------------------- transparency

  ghost predicate SameKey(q: Request, hash: string, q': Request, hash': string) {
    RequestKey(q, hash) == RequestKey(q', hash')
  }

  /** What a unit leaves in the cache survives encoding and is what every unit with its key converts to. */
  ghost predicate Cacheable(us: Units) {
    forall q, hash, q', hash' | us.asks(q, hash) && us.asks(q', hash') && SameKey(q, hash, q', hash')
                                && Kept(us.convert(q, hash)) ::
      Encodable(us.convert(q, hash)) && us.convert(q', hash') == us.convert(q, hash)
  }

  ghost predicate Agrees(p: Payload, c: Converted) {
    p.Json? && p.trees != [] ==> c.Packages? && p.trees == Trees(c.graphs)
  }

  /** Whatever decodes under a unit's key is what converting the unit yields. */
  ghost predicate Consistent(cache: map<string, Payload>, us: Units) {
    forall q, hash | us.asks(q, hash) && RequestKey(q, hash) in cache ::
      Agrees(cache[RequestKey(q, hash)], us.convert(q, hash))
  }

  /** Units whose key parts are neither empty nor hold a colon never share one. */
  lemma KeyablesAreCacheable(us: Units)
    requires forall q, hash | us.asks(q, hash) :: Keyable(q, hash) && Encodable(us.convert(q, hash))
    ensures Cacheable(us)
  {
    hide Keyable, RequestKey, Encodable;
    forall q, hash, q', hash' | us.asks(q, hash) && us.asks(q', hash') && SameKey(q, hash, q', hash')
      ensures us.convert(q', hash') == us.convert(q, hash)
    {
      KeyIsInjective(q, hash, q', hash');
    }
  }

  /** Writing what a unit converts to keeps the cache consistent exactly when every unit with its key agrees. */
  lemma StaysConsistentExactly(cache: map<string, Payload>, us: Units, q: Request, hash: string)
    requires Consistent(cache, us) && us.asks(q, hash) && us.convert(q, hash).Packages?
    ensures var entry := Json(Trees(us.convert(q, hash).graphs));
            Consistent(cache[RequestKey(q, hash) := entry], us) <==>
            forall q', hash' | us.asks(q', hash') && RequestKey(q', hash') == RequestKey(q, hash) ::
              Agrees(entry, us.convert(q', hash'))
  {
    hide RequestKey, Agrees;
    var key, entry := RequestKey(q, hash), Json(Trees(us.convert(q, hash).graphs));
    var after := cache[key := entry];
    if Consistent(after, us) {
      forall q', hash' | us.asks(q', hash') && RequestKey(q', hash') == key
        ensures Agrees(entry, us.convert(q', hash')) {
        assert RequestKey(q', hash') in after;
      }
    }
    if forall q', hash' | us.asks(q', hash') && RequestKey(q', hash') == key :: Agrees(entry, us.convert(q', hash')) {
      forall q', hash' | us.asks(q', hash') && RequestKey(q', hash') in after
        ensures Agrees(after[RequestKey(q', hash')], us.convert(q', hash')) {
        assert RequestKey(q', hash') == key || RequestKey(q', hash') in cache;
      }
    }
  }

  /** One load over a consistent cache: what the store gets and the outcome are those of a conversion. */
  lemma LoadIsPlain(env: Setting, us: Units, m: Moment, q: Request, inputs: Option<string>, c: Converted, putOk: bool,
                    n: Moment, outcome: Outcome)
    requires Cacheable(us) && Consistent(m.cache, us) && Genuine(LoadUnit(q, inputs, c, putOk), us)
    requires Serves(env, m, q, inputs, c, putOk, n, outcome)
    ensures Added(n.store, outcome) == Plain(m.store, c, env.accepts) && Consistent(n.cache, us)
  {
    hide RequestKey, ReadBack, Encodable;
    if Entry(env, m.cache, q, inputs).Some? {
      var trees := Entry(env, m.cache, q, inputs).value;
      var gs :| ReadBack(gs, trees) && Added(n.store, outcome) == AddAll(m.store, gs, env.accepts);
      assert Agrees(m.cache[RequestKey(q, inputs.value)], c);
      assert Kept(c) && SameKey(q, inputs.value, q, inputs.value);
      HitIsConversionExactly(gs, c);
    } else if n.cache != m.cache {
      var hash := inputs.value;
      forall q', hash' | us.asks(q', hash') && RequestKey(q', hash') == RequestKey(q, hash)
        ensures Agrees(Json(Trees(c.graphs)), us.convert(q', hash')) {
        assert SameKey(q, hash, q', hash');
      }
      StaysConsistentExactly(m.cache, us, q, hash);
    }
  }

  lemma StepIsPlain(env: Setting, us: Units, m: Moment, before: seq<Outcome>, step: Step, n: Moment, os: seq<Outcome>)
    requires Cacheable(us) && Consistent(m.cache, us) && Genuine(step, us) && StepsTo(env, m, before, step, n, os)
    ensures (n.store, os) == UncachedStep((m.store, before), step, env.accepts) && Consistent(n.cache, us)
  {
    hide Cacheable, Serves, Plain, RequestKey;
    if step.LoadUnit? {
      LoadIsPlain(env, us, m, step.q, step.inputs, step.converted, step.putOk, n, os[|os| - 1]);
      assert os == before + [os[|os| - 1]];
    }
  }

  /** Over every session from a consistent cache the store and every outcome are those of no cache at all. */
  lemma {:induction false} CacheableIsTransparent(env: Setting, us: Units, cache: map<string, Payload>,
                                                  steps: seq<Step>, n: Moment, os: seq<Outcome>)
    requires Cacheable(us) && Consistent(cache, us) && (forall s | s in steps :: Genuine(s, us))
    requires Runs(env, cache, steps, n, os)
    ensures (n.store, os) == Uncached(steps, env.accepts) && Consistent(n.cache, us)
    decreases |steps|
  {
    hide Cacheable, Consistent, StepsTo, Genuine, UncachedStep;
    if steps != [] {
      var front, step := steps[..|steps| - 1], steps[|steps| - 1];
      var m, before :| Runs(env, cache, front, m, before) && StepsTo(env, m, before, step, n, os);
      CacheableIsTransparent(env, us, cache, front, m, before);
      StepIsPlain(env, us, m, before, step, n, os);
    }
  }

  const ACCEPT_ALL: (seq<Graph>, Graph) -> bool := (store, g) => true

  /** No session over a retaining cache, empty at first, and an accepting store shows that there is a cache. */
  ghost predicate Transparent(us: Units) {
    forall steps, n, os | && (forall s | s in steps :: Genuine(s, us))
                          && Runs(Setting(true, ACCEPT_ALL), map[], steps, n, os) ::
      (n.store, os) == Uncached(steps, ACCEPT_ALL)
  }

  lemma {:induction false} AcceptedAll(store: seq<Graph>, gs: seq<Graph>)
    ensures AddAll(store, gs, ACCEPT_ALL) == Added(store + gs, Loaded)
    decreases |gs|
  {
    if gs != [] {
      AcceptedAll(store + [gs[0]], gs[1..]);
      assert store + [gs[0]] + gs[1..] == store + gs;
    } else {
      assert store + gs == store;
    }
  }

  lemma {:induction false} ReadBackExists(trees: seq<Tree>) returns (gs: seq<Graph>)
    ensures ReadBack(gs, trees)
  {
    hide IsRewired;
    if trees == [] {
      gs := [];
    } else {
      var front := ReadBackExists(trees[..|trees| - 1]);
      var last := RewiringExists(trees[|trees| - 1]);
      gs := front + [last];
    }
  }

  /** Loading one unit and then, in the next run, one with the same key. */
  function Twice(us: Units, q: Request, hash: string, q': Request, hash': string): seq<Step> {
    [LoadUnit(q, Some(hash), us.convert(q, hash), true), NewRun, LoadUnit(q', Some(hash'), us.convert(q', hash'), true)]
  }

  lemma MissIsKept(q: Request, hash: string, c: Converted)
    requires Kept(c)
    ensures Serves(Setting(true, ACCEPT_ALL), Moment(map[], []), q, Some(hash), c, true,
                   Moment(map[RequestKey(q, hash) := Json(Trees(c.graphs))], c.graphs), Loaded)
  {
    hide AddAll, RequestKey;
    AcceptedAll([], c.graphs);
    assert [] + c.graphs == c.graphs;
  }

  lemma HitIsServed(cache: map<string, Payload>, q: Request, hash: string, c: Converted, gs: seq<Graph>)
    requires RequestKey(q, hash) in cache && cache[RequestKey(q, hash)].Json?
    requires cache[RequestKey(q, hash)].trees != [] && ReadBack(gs, cache[RequestKey(q, hash)].trees)
    ensures Serves(Setting(true, ACCEPT_ALL), Moment(cache, []), q, Some(hash), c, true, Moment(cache, gs), Loaded)
  {
    hide AddAll, RequestKey, ReadBack;
    AcceptedAll([], gs);
    assert [] + gs == gs;
  }

  /** The second load is a hit. */
  lemma SecondLoadIsServed(us: Units, q: Request, hash: string, q': Request, hash': string)
    returns (gs: seq<Graph>, n: Moment)
    requires Kept(us.convert(q, hash)) && SameKey(q, hash, q', hash')
    ensures ReadBack(gs, Trees(us.convert(q, hash).graphs)) && n.store == gs
    ensures Runs(Setting(true, ACCEPT_ALL), map[], Twice(us, q, hash, q', hash'), n, [Loaded, Loaded])
  {
    hide RequestKey, ReadBack, Serves, Runs;
    var env, steps, c := Setting(true, ACCEPT_ALL), Twice(us, q, hash, q', hash'), us.convert(q, hash);
    var cache := map[RequestKey(q, hash) := Json(Trees(c.graphs))];
    gs := ReadBackExists(Trees(c.graphs));
    n := Moment(cache, gs);
    NothingRun(env, steps);
    MissIsKept(q, hash, c);
    assert [Loaded][..0] == [] && [Loaded, Loaded][..1] == [Loaded];
    RunsNext(env, map[], steps, 0, Moment(map[], []), [], Moment(cache, c.graphs), [Loaded]);
    RunsNext(env, map[], steps, 1, Moment(cache, c.graphs), [Loaded], Moment(cache, []), [Loaded]);
    HitIsServed(cache, q', hash', us.convert(q', hash'), gs);
    RunsNext(env, map[], steps, 2, Moment(cache, []), [Loaded], n, [Loaded, Loaded]);
    assert steps[..3] == steps;
  }

  lemma NothingRun(env: Setting, steps: seq<Step>)
    ensures Runs(env, map[], steps[..0], Moment(map[], []), [])
  {}

  lemma UncachedNext(steps: seq<Step>, i: nat, accepts: (seq<Graph>, Graph) -> bool)
    requires i < |steps|
    ensures Uncached(steps[..i + 1], accepts) == UncachedStep(Uncached(steps[..i], accepts), steps[i], accepts)
  {
    hide UncachedStep;
    assert steps[..i + 1][..i] == steps[..i];
  }

  lemma TwiceUncached(us: Units, q: Request, hash: string, q': Request, hash': string)
    requires Kept(us.convert(q, hash))
    ensures var c := us.convert(q', hash');
            Uncached(Twice(us, q, hash, q', hash'), ACCEPT_ALL) ==
            if c.Packages? then (c.graphs, [Loaded, Loaded]) else ([], [Loaded, ConversionFailed])
  {
    var steps, c := Twice(us, q, hash, q', hash'), us.convert(q', hash');
    assert Uncached(steps[..0], ACCEPT_ALL) == ([], []);
    hide AddAll, Uncached;
    AcceptedAll([], us.convert(q, hash).graphs);
    if c.Packages? {
      AcceptedAll([], c.graphs);
      assert [] + c.graphs == c.graphs;
    }
    UncachedNext(steps, 0, ACCEPT_ALL);
    assert Uncached(steps[..1], ACCEPT_ALL).1 == [Loaded];
    UncachedNext(steps, 1, ACCEPT_ALL);
    assert Uncached(steps[..2], ACCEPT_ALL) == ([], [Loaded]);
    UncachedNext(steps, 2, ACCEPT_ALL);
    assert Uncached(steps[..3], ACCEPT_ALL) == UncachedStep(([], [Loaded]), steps[2], ACCEPT_ALL);
    assert [Loaded] + [Loaded] == [Loaded, Loaded] && [Loaded] + [ConversionFailed] == [Loaded, ConversionFailed];
    assert steps[..3] == steps;
  }

  /**
  The cache is transparent exactly for units whose kept conversions survive encoding and are those of
  every unit with the same key.
  */
  lemma TransparentExactly(us: Units)
    ensures Transparent(us) <==> Cacheable(us)
  {
    hide Runs, Uncached, Encodable, ReadBack, RequestKey, Consistent;
    if Cacheable(us) {
      EmptyIsConsistent(us);
      forall steps, n, os | && (forall s | s in steps :: Genuine(s, us))
                            && Runs(Setting(true, ACCEPT_ALL), map[], steps, n, os)
        ensures (n.store, os) == Uncached(steps, ACCEPT_ALL) {
        CacheableIsTransparent(Setting(true, ACCEPT_ALL), us, map[], steps, n, os);
      }
    }
    if Transparent(us) {
      forall q, hash, q', hash' | us.asks(q, hash) && us.asks(q', hash') && SameKey(q, hash, q', hash')
                                  && Kept(us.convert(q, hash))
        ensures Encodable(us.convert(q, hash)) && us.convert(q', hash') == us.convert(q, hash)
      {
        ServedAlike(us, q, hash, q, hash);
        ServedAlike(us, q, hash, q', hash');
        HitIsConversionExactly(us.convert(q', hash').graphs, us.convert(q, hash));
      }
    }
  }

  lemma EmptyIsConsistent(us: Units)
    ensures Consistent(map[], us)
  {}

  lemma ServedAlike(us: Units, q: Request, hash: string, q': Request, hash': string)
    requires Transparent(us) && us.asks(q, hash) && us.asks(q', hash') && SameKey(q, hash, q', hash')
    requires Kept(us.convert(q, hash))
    ensures us.convert(q', hash').Packages? && ReadBack(us.convert(q', hash').graphs, Trees(us.convert(q, hash).graphs))
    ensures q' == q && hash' == hash ==> Encodable(us.convert(q, hash))
  {
    hide Runs, Uncached, Encodable, ReadBack, RequestKey;
    var gs, n := SecondLoadIsServed(us, q, hash, q', hash');
    TwiceUncached(us, q, hash, q', hash');
    assert forall s | s in Twice(us, q, hash, q', hash') :: Genuine(s, us);
    HitIsConversionExactly(gs, us.convert(q, hash));
  }

  /** So no cache is transparent for a unit with an import whose package's copy is owned by something else. */
  lemma SharedImportShows(us: Units, q: Request, hash: string, g: Graph, j: nat)
    requires us.asks(q, hash) && us.convert(q, hash).Packages? && g in us.convert(q, hash).graphs
    requires g.tree.kind == Package && j < |g.tree.kids| && g.tree.kids[j].slot == Imports
    requires [j] in g.owner && g.owner[[j]] != []
    ensures !Transparent(us)
  {
    hide Restorable, RequestKey, Transparent;
    WiredImport(g, j);
    assert SameKey(q, hash, q, hash) && Kept(us.convert(q, hash)) && !Encodable(us.convert(q, hash));
    TransparentExactly(us);
  }
}
