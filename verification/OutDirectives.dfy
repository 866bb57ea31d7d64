/** Choosing among the routing directives that apply to one output. */
module OutDirectives {
  import opened Options
  import opened Collections

  datatype Scope = PackageScope | EntityScope

  datatype Spec = Spec(path: string, pluginName: string, tag: string, pkg: string, scope: Scope)

  const SCOPE_WEIGHT := 4

  function Score(s: Spec): int {
    (if s.pluginName != "" then 1 else 0) + (if s.tag != "" then 1 else 0) +
    (if s.scope == EntityScope then SCOPE_WEIGHT else 0)
  }

  predicate Applies(s: Spec, plugin: string, tag: string) {
    (s.pluginName == "" || s.pluginName == plugin) && (s.tag == "" || s.tag == tag)
  }

  /** `s` applies and nothing that applies scores higher. */
  ghost predicate IsTop(specs: seq<Spec>, plugin: string, tag: string, s: Spec) {
    && s in specs && Applies(s, plugin, tag)
    && forall x | x in specs && Applies(x, plugin, tag) :: Score(x) <= Score(s)
  }

  ghost predicate IsFirstTop(specs: seq<Spec>, plugin: string, tag: string, s: Spec) {
    && IsTop(specs, plugin, tag, s)
    && exists k | 0 <= k < |specs| :: specs[k] == s && forall j | 0 <= j < k :: !IsTop(specs, plugin, tag, specs[j])
  }

  ghost predicate Ambiguous(specs: seq<Spec>, plugin: string, tag: string) {
    exists a, b :: IsTop(specs, plugin, tag, a) && IsTop(specs, plugin, tag, b) && a != b
  }

  /** The first of the most specific specs, and whether a different one is as specific. */
  method SelectOutDirective(specs: seq<Spec>, plugin: string, tag: string) returns (best: Option<Spec>, conflict: bool)
    ensures best.None? <==> forall s | s in specs :: !Applies(s, plugin, tag)
    ensures best.Some? ==> IsFirstTop(specs, plugin, tag, best.value)
    ensures conflict <==> Ambiguous(specs, plugin, tag)
  {
    best, conflict := None, false;
    ghost var at: nat := 0;
    for k := 0 to |specs|
      invariant best.None? ==> !conflict && forall j | 0 <= j < k :: !Applies(specs[j], plugin, tag)
      invariant best.Some? ==> at < k && specs[at] == best.value && Applies(best.value, plugin, tag)
      invariant best.Some? ==> forall j | 0 <= j < at && Applies(specs[j], plugin, tag) ::
          Score(specs[j]) < Score(best.value)
      invariant best.Some? ==> forall j | 0 <= j < k && Applies(specs[j], plugin, tag) ::
          Score(specs[j]) <= Score(best.value)
      invariant best.Some? ==>
        (conflict <==>
         exists j | 0 <= j < k && Applies(specs[j], plugin, tag) ::
           Score(specs[j]) == Score(best.value) && specs[j] != best.value)
    {
      var s := specs[k];
      if !Applies(s, plugin, tag) {
        continue;
      }
      if best.None? || Score(s) > Score(best.value) {
        best, conflict, at := Some(s), false, k;
      } else if Score(s) == Score(best.value) && s != best.value {
        conflict := true;
      }
    }
    if best.Some? {
      assert IsTop(specs, plugin, tag, best.value);
      assert specs[at] == best.value && forall j | 0 <= j < at :: !IsTop(specs, plugin, tag, specs[j]);
      if conflict {
        var j :| 0 <= j < |specs| && Applies(specs[j], plugin, tag) && Score(specs[j]) == Score(best.value)
            && specs[j] != best.value;
        assert IsTop(specs, plugin, tag, specs[j]);
      }
    }
  }

  /** The filters a spec sets are those of the output. */
  ghost predicate Concerns(s: Spec, plugin: string, tag: string) {
    (s.pluginName != "" ==> s.pluginName == plugin) && (s.tag != "" ==> s.tag == tag)
  }

  function Filters(s: Spec): int {
    if s.pluginName != "" && s.tag != "" then 2 else if s.pluginName != "" || s.tag != "" then 1 else 0
  }

  /** A spec yields to another: it is on the package and the other on the declaration, or it sets fewer filters. */
  ghost predicate Yields(s: Spec, x: Spec) {
    (s.scope == PackageScope && x.scope == EntityScope) || (s.scope == x.scope && Filters(s) < Filters(x))
  }

  /** No spec is used exactly when none is concerned. */
  lemma NoneExactly(specs: seq<Spec>, plugin: string, tag: string)
    ensures (forall s | s in specs :: !Applies(s, plugin, tag)) <==> forall s | s in specs :: !Concerns(s, plugin, tag)
  {
    forall s ensures Applies(s, plugin, tag) <==> Concerns(s, plugin, tag) {}
  }

  /** The spec used is the first concerned one that yields to no other; ambiguous when a different one is as good. */
  lemma ChoiceExactly(specs: seq<Spec>, plugin: string, tag: string, best: Spec)
    ensures IsFirstTop(specs, plugin, tag, best) <==>
            exists k | 0 <= k < |specs| ::
              && specs[k] == best && Concerns(best, plugin, tag)
              && (forall x | x in specs && Concerns(x, plugin, tag) :: !Yields(best, x))
              && (forall j | 0 <= j < k && Concerns(specs[j], plugin, tag) :: Yields(specs[j], best))
    ensures Ambiguous(specs, plugin, tag) <==>
            exists a, b :: && a in specs && b in specs && a != b && Concerns(a, plugin, tag) && Concerns(b, plugin, tag)
                           && forall x | x in specs && Concerns(x, plugin, tag) :: !Yields(a, x) && !Yields(b, x)
  {
    forall s ensures Applies(s, plugin, tag) <==> Concerns(s, plugin, tag) {}
    forall s, x ensures Yields(s, x) <==> Score(s) < Score(x) {
      YieldsByScore(s, x);
    }
    hide Score, Yields, Applies, Concerns;
    forall s ensures IsTop(specs, plugin, tag, s) <==>
                     s in specs && Concerns(s, plugin, tag)
                     && forall x | x in specs && Concerns(x, plugin, tag) :: !Yields(s, x) {}
    if IsFirstTop(specs, plugin, tag, best) {
      var k :| 0 <= k < |specs| && specs[k] == best && forall j | 0 <= j < k :: !IsTop(specs, plugin, tag, specs[j]);
      forall j | 0 <= j < k && Concerns(specs[j], plugin, tag) ensures Yields(specs[j], best) {
        assert !IsTop(specs, plugin, tag, specs[j]);
      }
    }
  }

  lemma YieldsByScore(s: Spec, x: Spec)
    ensures Yields(s, x) <==> Score(s) < Score(x)
  {}

  /** The choice does not depend on the order of the specs unless it is reported as ambiguous. */
  lemma ChoiceIgnoresOrder(a: seq<Spec>, b: seq<Spec>, plugin: string, tag: string, x: Spec, y: Spec)
    requires Elements(a) == Elements(b)
    requires IsFirstTop(a, plugin, tag, x) && IsFirstTop(b, plugin, tag, y)
    ensures Ambiguous(a, plugin, tag) <==> Ambiguous(b, plugin, tag)
    ensures !Ambiguous(a, plugin, tag) ==> x == y
  {
    forall s ensures IsTop(a, plugin, tag, s) <==> IsTop(b, plugin, tag, s) {
      assert forall t :: t in a <==> t in Elements(a);
      assert forall t :: t in b <==> t in Elements(b);
    }
    if Ambiguous(a, plugin, tag) {
      var s, t :| IsTop(a, plugin, tag, s) && IsTop(a, plugin, tag, t) && s != t;
      assert IsTop(b, plugin, tag, s) && IsTop(b, plugin, tag, t);
    }
    if Ambiguous(b, plugin, tag) {
      var s, t :| IsTop(b, plugin, tag, s) && IsTop(b, plugin, tag, t) && s != t;
      assert IsTop(a, plugin, tag, s) && IsTop(a, plugin, tag, t);
    }
    assert IsTop(a, plugin, tag, y);
  }

  /** A directive on the declaration beats every directive on its package, whatever either filters on. */
  lemma EntityBeatsPackage(specs: seq<Spec>, plugin: string, tag: string, best: Spec, e: Spec)
    requires IsTop(specs, plugin, tag, best)
    requires e in specs && Applies(e, plugin, tag) && e.scope == EntityScope
    ensures best.scope == EntityScope
  {
    assert Score(e) <= Score(best);
  }

  // The documentation ranks both filters above the plugin filter, that above the tag filter, and that above none.

  function DocumentedRank(s: Spec): int {
    (if s.pluginName != "" then 2 else 0) + (if s.tag != "" then 1 else 0) +
    (if s.scope == EntityScope then SCOPE_WEIGHT else 0)
  }

  predicate PluginOnly(s: Spec) {
    s.pluginName != "" && s.tag == ""
  }

  predicate TagOnly(s: Spec) {
    s.pluginName == "" && s.tag != ""
  }

  /** `s` applies and nothing that applies is documented to rank higher. */
  ghost predicate IsRankTop(specs: seq<Spec>, plugin: string, tag: string, s: Spec) {
    && s in specs && Applies(s, plugin, tag)
    && forall x | x in specs && Applies(x, plugin, tag) :: DocumentedRank(x) <= DocumentedRank(s)
  }

  ghost predicate RankAmbiguous(specs: seq<Spec>, plugin: string, tag: string) {
    exists a, b :: IsRankTop(specs, plugin, tag, a) && IsRankTop(specs, plugin, tag, b) && a != b
  }

  /** A plugin-only and a tag-only spec of the same scope as `best` both apply. */
  ghost predicate Ties(specs: seq<Spec>, plugin: string, tag: string, best: Spec) {
    exists p, t :: p in specs && t in specs && Applies(p, plugin, tag) && Applies(t, plugin, tag)
                   && PluginOnly(p) && TagOnly(t) && p.scope == best.scope == t.scope
  }

  /** Score and documented rank order two specs alike, except plugin-only against tag-only in one scope. */
  lemma ScoreAgainstRank(a: Spec, b: Spec)
    ensures && (Score(a) < Score(b) <==> DocumentedRank(a) < DocumentedRank(b))
            && (Score(a) == Score(b) <==> DocumentedRank(a) == DocumentedRank(b))
            <==> !(a.scope == b.scope && ((PluginOnly(a) && TagOnly(b)) || (TagOnly(a) && PluginOnly(b))))
  {}

  /** A plugin-only and a tag-only spec share the top score. */
  ghost predicate MixedTop(specs: seq<Spec>, plugin: string, tag: string) {
    exists p, t :: IsTop(specs, plugin, tag, p) && IsTop(specs, plugin, tag, t) && PluginOnly(p) && TagOnly(t)
  }

  /**
  The code keeps to the documented ranking exactly when the top score is not shared by a plugin-only
  and a tag-only spec. Those it calls ambiguous, where the documentation has the plugin-only one win.
  */
  lemma RankingHoldsExactly(specs: seq<Spec>, plugin: string, tag: string)
    ensures (forall s | IsTop(specs, plugin, tag, s) :: IsRankTop(specs, plugin, tag, s)) <==>
            !MixedTop(specs, plugin, tag)
    ensures Ambiguous(specs, plugin, tag) <==> RankAmbiguous(specs, plugin, tag) || MixedTop(specs, plugin, tag)
  {
    forall s | IsRankTop(specs, plugin, tag, s) ensures IsTop(specs, plugin, tag, s) {
      RankTopIsTop(specs, plugin, tag, s);
    }
    if MixedTop(specs, plugin, tag) {
      var p, t :| IsTop(specs, plugin, tag, p) && IsTop(specs, plugin, tag, t) && PluginOnly(p) && TagOnly(t);
      assert Score(p) == Score(t) && DocumentedRank(t) < DocumentedRank(p);
    } else {
      forall s | IsTop(specs, plugin, tag, s) ensures IsRankTop(specs, plugin, tag, s) {
        TopIsRankTop(specs, plugin, tag, s);
      }
    }
  }

  lemma RankTopIsTop(specs: seq<Spec>, plugin: string, tag: string, s: Spec)
    requires IsRankTop(specs, plugin, tag, s)
    ensures IsTop(specs, plugin, tag, s)
  {
    forall x | x in specs && Applies(x, plugin, tag) ensures Score(x) <= Score(s) {
      ScoreAgainstRank(x, s);
    }
  }

  lemma TopIsRankTop(specs: seq<Spec>, plugin: string, tag: string, s: Spec)
    requires IsTop(specs, plugin, tag, s) && !MixedTop(specs, plugin, tag)
    ensures IsRankTop(specs, plugin, tag, s)
  {
    forall x | x in specs && Applies(x, plugin, tag) ensures DocumentedRank(x) <= DocumentedRank(s) {
      ScoreAgainstRank(x, s);
      if x.scope == s.scope && PluginOnly(x) && TagOnly(s) {
        assert IsTop(specs, plugin, tag, x);
      }
    }
  }

  /** The spec used fails to be one the documentation ranks highest exactly when such a tag-only one comes first. */
  lemma ChoiceKeepsRankExactly(specs: seq<Spec>, plugin: string, tag: string, best: Spec)
    requires IsFirstTop(specs, plugin, tag, best)
    ensures IsRankTop(specs, plugin, tag, best) <==> !(TagOnly(best) && Ties(specs, plugin, tag, best))
    ensures Ambiguous(specs, plugin, tag) <==>
            RankAmbiguous(specs, plugin, tag) || ((PluginOnly(best) || TagOnly(best)) && Ties(specs, plugin, tag, best))
  {
    hide IsFirstTop;
    assert IsTop(specs, plugin, tag, best) by { FirstIsTop(specs, plugin, tag, best); }
    forall s | s in specs && Applies(s, plugin, tag)
      ensures IsTop(specs, plugin, tag, s) <==> Score(s) == Score(best)
    {}
    if (PluginOnly(best) || TagOnly(best)) && Ties(specs, plugin, tag, best) {
      var p, t :| p in specs && t in specs && Applies(p, plugin, tag) && Applies(t, plugin, tag)
                  && PluginOnly(p) && TagOnly(t) && p.scope == best.scope == t.scope;
      assert IsTop(specs, plugin, tag, p) && IsTop(specs, plugin, tag, t);
    } else {
      SameTops(specs, plugin, tag, best);
    }
  }

  lemma FirstIsTop(specs: seq<Spec>, plugin: string, tag: string, s: Spec)
    requires IsFirstTop(specs, plugin, tag, s)
    ensures IsTop(specs, plugin, tag, s)
  {}

  lemma SameTops(specs: seq<Spec>, plugin: string, tag: string, best: Spec)
    requires IsTop(specs, plugin, tag, best) && !((PluginOnly(best) || TagOnly(best)) && Ties(specs, plugin, tag, best))
    ensures forall s :: IsTop(specs, plugin, tag, s) <==> IsRankTop(specs, plugin, tag, s)
  {
    forall x | x in specs && Applies(x, plugin, tag)
      ensures DocumentedRank(x) <= DocumentedRank(best)
      ensures Score(x) == Score(best) <==> DocumentedRank(x) == DocumentedRank(best)
    {
      ScoreAgainstRank(x, best);
    }
  }

  /** A plugin filter does not outrank a tag filter: the two tie, and the tie is ambiguous. */
  lemma PluginAndTagTie(p: Spec, t: Spec, plugin: string, tag: string)
    requires p.scope == t.scope && plugin != "" && tag != ""
    requires p.pluginName == plugin && p.tag == "" && t.pluginName == "" && t.tag == tag
    ensures Ambiguous([p, t], plugin, tag)
  {
    assert IsTop([p, t], plugin, tag, p) && IsTop([p, t], plugin, tag, t);
  }
}
