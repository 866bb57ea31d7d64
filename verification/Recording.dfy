/** The sink wrapper that captures a run's writes and turns them into the run's manifest. */
module Recording {
  import opened Options
  import opened Collections
  import opened Manifests
  import opened ManifestTheorems

  /** What the store and the layout phase know about a target. */
  datatype Info = Info(plugins: seq<Attribution>, resolved: Option<ResolvedLayout>)

  function Describe(t: Target, body: string, pipeline: string, info: Target -> Info, digest: string -> string): Output {
    Output(t, info(t).plugins, "sha256:" + digest(body), info(t).resolved, pipeline)
  }

  class RecordingSink {
    var files: map<Target, string>

    constructor ()
      ensures files == map[]
    {
      files := map[];
    }

    /** Captures the payload when the inner sink took it; a later write to the target replaces it. */
    method Write(t: Target, body: string, innerOk: bool) returns (ok: bool)
      modifies this
      ensures ok == innerOk
      ensures files == if innerOk then old(files)[t := body] else old(files)
    {
      if !innerOk {
        return false;
      }
      files := files[t := body];
      ok := true;
    }

    /** One entry per captured target, in the manifest's order, whatever order the map yields them in. */
    method AsManifest(runId: string, brand: string, pipeline: string, info: Target -> Info, digest: string -> string)
      returns (m: Manifest)
      ensures m.version == VERSION && m.brand == brand && m.runId == runId
      ensures Strict(m.outputs) && AllFrom(m.outputs, pipeline)
      ensures forall o :: o in m.outputs <==>
                          && o.target in files && o.pipeline == pipeline
                          && o.hash == "sha256:" + digest(files[o.target])
                          && o.plugins == info(o.target).plugins && o.resolved == info(o.target).resolved
      ensures (forall t :: info(t).resolved.Some? ==>
                             info(t).resolved.value.resolvedFrom.Keys == {"filename", "layout", "dir", "package"}) ==>
                forall o | o in m.outputs :: WellFormed(o)
    {
      var outputs: seq<Output> := [];
      var left := files.Keys;
      while left != {}
        invariant left <= files.Keys && UniqueKeys(outputs)
        invariant forall o :: o in outputs <==> o.target in files && o.target !in left &&
                                                o == Describe(o.target, files[o.target], pipeline, info, digest)
        decreases left
      {
        var t :| t in left;
        var o := Describe(t, files[t], pipeline, info, digest);
        forall x | x in outputs ensures KeyOf(x) != KeyOf(o) {}
        outputs := outputs + [o];
        left := left - {t};
      }
      SortStrict(outputs);
      MemberOfSort(outputs);
      assert forall o :: o in Sort(outputs) <==> o in Elements(Sort(outputs));
      m := Manifest(VERSION, brand, runId, Sort(outputs));
    }
  }
}
