# Eidos: a verified model of the generation pipeline's core

Eidos is a code generation framework: frontends load source packages into a node graph, plugins
annotate it and emit declarations, a layout phase routes every declaration to an output file, and
a manifest remembers which files the pipeline owns so that `prune` can delete what is no longer
produced. This project models the parts of that machinery whose correctness spans several
functions or several runs, and proves what they keep.

| modules | what they model |
|---|---|
| `TypeRefs` | structural equality of type references |
| `MethodSets`, `MethodSetTheorems`, `Graphs` | flattening an interface with its embeds |
| `Kahn`, `Scheduler`, `SchedulerTheorems` | priority buckets and the topological order inside each |
| `Manifests`, `ManifestTheorems`, `Recording` | the manifest, its merge, the write-skip test, the recording sink |
| `Workspace`, `WorkspaceTheorems` | one working directory: runs, prunes and user edits over time |
| `Paths`, `Routing`, `OutDirectives`, `Composition` | where an output goes |
| `OnePackage`, `Recorders` | the checks and tables of the layout phase |
| `Nodes`, `Validation`, `Rewiring` | walking the node graph, and rebuilding its owner links |
| `CacheKeys`, `FrontendCache` | the frontend cache |
| `Options`, `Collections`, `StringOrder` | shared vocabulary |

Code that updates state step by step is a method or a class, proved against a specification
function or predicate; the theorems are then about that specification, for every input or for
every sequence of operations.

## Where the code and its comments differ

The model follows the code. Where that matters, a lemma shows it.

- The comment on the merge (`pipeline/run.go:324-325`) says entries are never dropped. The code
  drops an entry of a loaded package whose file is gone (`pipeline/run.go:370-372`);
  `ConvergedIsDropped` gives an input and
  `MergeIsMapAlgebra` states the merge with that case.
- A target carries package and import path besides directory and filename, and prune compares whole
  targets. A prior entry with the same file under another package is therefore stale, and the delete
  pass removes the file the run has just written: `RenamedPackageLosesFile` gives the input and
  `PruneDeletesEmittedExactly` the exact condition on the prior manifest and the run's outputs.
- The comment above `selectOutDirective` (`pipeline/layout.go:1468-1470`) ranks a plugin filter above
  a tag filter; the score gives both the same weight, so the two are ambiguous: `PluginAndTagTie` gives
  the input and `RankingHoldsExactly` says when the documented ranking is kept.
- The precedence list of `composeTarget` (`pipeline/layout.go:446-447`) says that `-p` wins
  unconditionally. A directive is applied later, and its `pkg=` or the last directory of its path
  replaces the package; a `_test.go` filename appends to it. `PolicyPackageWinsExactly` has the exact
  condition and `DirectoryReplacesFlag` an input.
- The comment on that directory case (`pipeline/layout.go:603-604`) says the package stays attributed to
  the framework. The layer is in fact left as the policy set it, so a replaced `-p` stays on record as
  the command line's: `DirectoryAttribution`.
- The recorder compares the layout selector only when its memo misses, so two adjacent decisions that
  differ in nothing else go unreported: `LayoutDivergenceIsMissed` gives the input, and
  `RecordDecisions` states exactly which decisions are reported.
- The comment on the default priority (`priority/priority.go:60-63`) says plugins without one run in registration
  order within their bucket. They are ordered by name like all others: `RegistrationOrderExactly`.
- `ErrCycle` lists every plugin left with unmet requirements, which includes those only downstream of
  a cycle: `LeftOverIsCyclic` states the list as "reaches a cycle".
- Directive validation promises every directive in the loaded packages, but the walk does not enter the
  methods of enums and aliases, a method's receiver or an embed's resolved interface:
  `EnumMethodUnchecked` gives an input, `AllValidatedExactly` and `AllValidatedInTree` say when the
  promise holds.
- The merge strips a `_test` suffix before its scope test, while prune also accepts the path as it
  stands: `ScopeTestsAgreeExactly` says for which packages the two differ.
- Cache keys drop empty parts and do not quote colons, so different requests can share a key:
  `EmptyPartsCollide` and `ColonsCollide`; `CollideExactly` says when.
- `RewireOwners` is described as re-wiring every reachable node, but follows the resolved interface of an
  embed only when an interface declaration holds the embed: `StructEmbedLosesOwner` gives an input and
  `WellWiredIsRestorableExactly` the condition.
- A cache hit is meant to be indistinguishable from a conversion. The TypeScript frontend lists one import
  node in its file and in its package, owned by the file, and does not rewire; a hit has two nodes, the
  package's owned by the package. `SharedImportInput` is that package, `SharedImportShows` that no cache is
  transparent for it, and `TransparentExactly` says for which units one is. The Go and protobuf
  frontends allocate package imports afresh and end with `RewireOwners`, which
  `RewiredIsRestorableExactly` is about.
- Prune describes other pipelines' entries as off-limits. Their entries are, but not their files: two
  pipelines may claim one target, and the delete pass does not ask whether another entry still claims the
  path. `SharedTargetLosesFile` gives the input and `OthersFileExactly` the condition.

## Model

| member | source | states |
|---|---|---|
| `TypeRefs.EqualIsSameShape` | node/type_ref.go:247-363 | Two references are `Equal` exactly when their normal forms (names, positions and unused fields erased) coincide and every kind in them is a declared one |
| `TypeRefs.EqualIsEquivalence` | node/type_ref.go:247-363 | `Equal` is symmetric and transitive, and reflexive exactly on references built from declared kinds |
| `TypeRefs.EqualByKind` | node/type_ref.go:247-363 | For each kind, which fields decide, and that lists are compared at every place: names, tags and types of fields, variadic flags, a missing return as one without a type; undeclared kinds are never equal |
| `MethodSets.Collector.Collect` | node/method_set.go:233-308 | The in-place recursive walk appends exactly the events of the specification trace, keeps the accumulated methods, entries and issues in step with it, and restores the path set |
| `MethodSets.MethodSet` | node/method_set.go:220-229 | The result is the first declarations and the issues of the root's trace; a missing interface gives the empty result |
| `MethodSetTheorems.TraceSound` | node/method_set.go:233-308 | Every event of the walk happens at an interface reachable from the root; a cyclic one names an embed that leads back to the interface holding it |
| `MethodSetTheorems.TraceComplete` | node/method_set.go:233-308 | Whatever lies at the end of an embed walk that avoids the current path is met, although interfaces already on the path are cut off |
| `MethodSetTheorems.NamesAreThoseReachable` | node/method_set.go:220-229 | A name is in the method set if and only if an interface reachable through embeds declares it; no name is listed twice and none is empty |
| `MethodSetTheorems.CyclicExactly` | node/method_set.go:300-304 | A cycle is reported if and only if the root reaches an embed cycle |
| `MethodSetTheorems.BlockedExactly` | node/method_set.go:274-298 | Any other issue is reported if and only if a reachable interface holds that embed and the embed is generic, unresolved or not an interface |
| `MethodSetTheorems.EmbedIssuesExactly` | node/method_set.go:255-306 | For an embed below the root, from its type, the resolver and the projection alone: generic iff it may denote an interface and has type arguments; without them unresolved iff nothing was found and there is no projection, and no interface iff the resolver found something else; any other type is never an issue |
| `MethodSetTheorems.EdgesExactly` | node/method_set.go:278-305 | The walk goes from an interface to exactly what its embeds lead to: the resolver's interface, and the projection only where the resolver finds nothing |
| `MethodSetTheorems.CyclicIssueCloses` | node/method_set.go:301-304 | A cyclic issue names an embed below the root that leads back to the interface holding it |
| `MethodSetTheorems.OkExactly` | node/method_set.go:140 | The result is OK if and only if no cycle is reachable and every reachable embed that may denote an interface has no type arguments and leads to one |
| `MethodSetTheorems.Attribution` | node/method_set.go:119-131 | An entry has no embed exactly when the root declares that name itself; otherwise its embed is one of the root's own and the method is declared behind it |
| `MethodSetTheorems.OrderExactly` | node/method_set.go:183-189 | The root's own methods come first and as declared, then those of its embeds, embed by embed as written; methods and entries run in step |
| `MethodSetTheorems.FirstEmbedWins` | node/method_set.go:191-197 | Where several embeds offer a name, it is attributed to the first that reaches a declaration around the root |
| `StringOrder.InsertSorted` | pipeline/resolve.go:195-201 | Inserting by binary search keeps a sorted slice sorted and adds the one element, present or not; a strict order stays strict for a new element |
| `StringOrder.LessExactly` | pipeline/resolve.go:142 | The order of names: a proper prefix, or smaller at the first character that differs |
| `Kahn.Drain` | pipeline/resolve.go:136-155 | The emitted order always takes the least available name, runs until none is available, and the names left with a positive in-degree are exactly those not emitted |
| `Kahn.LeftOverIsCyclic` | pipeline/resolve.go:157-165 | A name stays unemitted if and only if its requirements lead to a cycle |
| `Kahn.GreedyUnique` | pipeline/resolve.go:88-98 | There is only one such order |
| `Scheduler.BuildProvidesIndex` | pipeline/resolve.go:173-189 | Success means every capability has one claim and the index maps it to its provider; failure names a capability and the two different plugins that claim it, or the one that lists it twice |
| `Scheduler.EdgeListIsRequirements` | pipeline/resolve.go:109-134 | The edges built are the requirement relation of the bucket: self-requirements and capabilities nobody in the bucket provides are ignored |
| `Scheduler.TopoSortBucket` | pipeline/resolve.go:98-168 | The result is the least-name-first topological order, the duplicate claim, or the ascending list of the names that reach a cycle |
| `Scheduler.ResolvePhase` | pipeline/resolve.go:29-59 | Buckets come in ascending priority, each ordered, the flat order is their concatenation, and an error is that of the lowest failing bucket |
| `SchedulerTheorems.OrderableExactly` | pipeline/resolve.go:98-168 | A bucket is ordered if and only if providers are unique and no plugin reaches a requirement cycle; the duplicate error occurs if and only if they are not unique |
| `SchedulerTheorems.ProvidersPrecede` | pipeline/resolve.go:88-92 | In a bucket's order every provider stands before the plugins that require from it |
| `SchedulerTheorems.RequirementsExactly` | pipeline/resolve.go:119-133 | One plugin comes after another exactly where it requires a capability the other lists as provided and the two have different names |
| `SchedulerTheorems.BucketOrderExactly` | pipeline/resolve.go:88-92 | No plugin asks for what comes later, and where one precedes another of smaller name, the latter asks for something still to come |
| `SchedulerTheorems.RegistrationOrderExactly` | pipeline/resolve.go:91-92 | Independent plugins keep their registration order if and only if it is alphabetical |
| `SchedulerTheorems.UniqueExactly` | pipeline/resolve.go:180-186 | Providers are unique if and only if no capability is listed at two places |
| `SchedulerTheorems.DuplicateExactly` | pipeline/resolve.go:181-184 | A duplicate report names a capability listed at two places and the plugins that list it there |
| `SchedulerTheorems.BucketUnique` | pipeline/resolve.go:88-92 | The bucket's plugins determine the outcome |
| `SchedulerTheorems.PhaseIsDeterministic` | pipeline/resolve.go:29-59 | Registering the same plugins in another order gives the same schedule, or the same cycle error, or again a duplicate-provider error |
| `SchedulerTheorems.FlatAscends` | pipeline/resolve.go:47-58 | The flat order holds every plugin once and never descends in priority |
| `SchedulerTheorems.PhaseOnDeclarations` | pipeline/resolve.go:74-79 | Over the declared priorities, 300 for a plugin that declares none: the flat order never descends, bucket priorities ascend, and each bucket holds exactly the plugins declaring its priority |
| `SchedulerTheorems.FailureOnDeclarations` | pipeline/resolve.go:50-54 | A failure is that of the lowest declared priority whose plugins cannot be ordered |
| `Manifests.Merge` | pipeline/run.go:348-394 | The loops compute the merge function; no prior manifest gives the current one verbatim, otherwise version 2, brand and run identifier are those of the current run |
| `Manifests.BeforeExactly` | pipeline/run.go:378-392 | The order of entries: directory, then filename, package, import path and pipeline |
| `ManifestTheorems.MergeIsMapAlgebra` | pipeline/run.go:348-394 | Seen as a map from (target, pipeline), the merge is the prior map without its converged entries, overridden by the current map; the order stays strict |
| `ManifestTheorems.MergeExactly` | pipeline/run.go:359-421 | An entry is in the merge iff the run produced it, or it was there, the run produced nothing for its target and pipeline, and there is no root, its package was not loaded, or its file is there |
| `ManifestTheorems.OutOfScopeIsPreserved` | pipeline/run.go:407-410 | Entries of packages the run did not load are preserved |
| `ManifestTheorems.PathExactly` | pipeline/run.go:221-225 | The file of a target is its filename below the components of its directory |
| `ManifestTheorems.ConvergedIsDropped` | pipeline/run.go:370-372 | The input: an entry of a loaded package whose file is gone, which a merge with no outputs drops |
| `ManifestTheorems.MergeIdempotent` | pipeline/run.go:348-394 | Merging the same outputs a second time changes nothing |
| `ManifestTheorems.MergeIntoItself` | pipeline/run.go:348-394 | A manifest merged into itself is itself, whatever the scope and the disk |
| `ManifestTheorems.MergesCommute` | pipeline/run.go:348-394 | Merges of two different pipelines commute over a disk that holds what both wrote |
| `ManifestTheorems.SecondRunSkips` | pipeline/run.go:153-159 | A repeated run finds the merged manifest equal to the one on disk up to the run identifier, so the write is skipped |
| `ManifestTheorems.OutputEqualExactly` | pipeline/run.go:453-486 | Outputs of one pipeline that compare equal are equal if and only if their layer maps have the same keys |
| `ManifestTheorems.SkipIsSound` | pipeline/run.go:429-445 | The write is skipped if and only if the file already holds the merged manifest up to the run identifier, although the comparison does not look at pipeline identifiers |
| `Recording.RecordingSink.Write` | pipeline/manifest_sink.go:60-70 | A body is captured, replacing an earlier one for the target, if and only if the wrapped sink accepted it |
| `Recording.RecordingSink.AsManifest` | pipeline/manifest_sink.go:98-151 | The manifest holds one entry per captured target, in strict order, described by its body and layout and stamped with the pipeline |
| `Workspace.PruneAll` | manifest/prune.go:112-132 | The orphans are the stale entries in manifest order, and the reason is unclaimed exactly for those in scope |
| `WorkspaceTheorems.InScopeExactly` | manifest/prune.go:204-220 | An import path is in scope iff it is not empty and is a loaded package or the test variant of one |
| `WorkspaceTheorems.StaleAppend` | manifest/prune.go:92-94 | Orphans keep the manifest's order |
| `Workspace.Directory.Execute` | pipeline/run.go:141-164 | A run moves the directory to `AfterRun`: files written, manifest merged, and the write skipped on a dry run, on equality or on a write failure |
| `Workspace.Directory.Prune` | cli/prune.go:90-129 | A prune moves the directory to `AfterPrune`, and its report counts every stale entry once, under what became of it |
| `Workspace.Directory.Apply` | cli/prune.go:185-254 | The delete pass removes exactly the stale files that are marked and removable, and the survivors are the targets that were there and could not be removed |
| `Workspace.Directory.Rewrite` | cli/prune.go:263-304 | The rewritten manifest is the last one without the stale entries whose target did not survive |
| `WorkspaceTheorems.LastClaims` | pipeline/run.go:396-410 | In a directory whose generated files are all claimed, and when the prior manifest could be read, the merged one claims every generated file on disk |
| `WorkspaceTheorems.RunTracksExactly` | pipeline/run.go:141-164 | A run leaves every generated file claimed by the manifest if and only if it persisted over a readable or dispensable prior, or wrote only files already claimed |
| `WorkspaceTheorems.RunFrame` | pipeline/run.go:141-164 | What a run leaves besides entries: files and markers grow by what a rooted run wrote, a dry run or a failed write leaves the manifest alone, an unreadable one is replaced by the current, and a dry run without a root changes nothing |
| `WorkspaceTheorems.RunEntriesExactly` | pipeline/run.go:348-421 | The entries after a run, from those before it, the run's outputs, its scope and the disk |
| `WorkspaceTheorems.RunRewritesExactly` | pipeline/run.go:158-160 | The manifest is rewritten if and only if version, brand or entries change |
| `WorkspaceTheorems.PruneTracks` | cli/prune.go:263-304 | A prune leaves every generated file claimed, also when its rewrite fails |
| `WorkspaceTheorems.DryPruneTouchesNothing` | cli/prune.go:228-249 | A dry run deletes nothing and leaves the manifest; without a root the directory is as before |
| `WorkspaceTheorems.PruneFrame` | cli/prune.go:263-304 | A prune leaves markers as the run did, forgets exactly the generated files it deleted, and a manifest it changes carries version 2, brand and run identifier of the run |
| `WorkspaceTheorems.AlwaysTracked` | pipeline/run.go:396-410 | Over every sequence of runs, prunes and user edits, of any pipelines, every generated file on disk stays claimed by the manifest, as long as runs can read and write it |
| `WorkspaceTheorems.Replay` | pipeline/run.go:141-164 | The imperative directory, driven through any such sequence, makes the same moves and stays tracked |
| `WorkspaceTheorems.AlwaysCanonical` | pipeline/run.go:375-392 | Over every sequence of operations the manifest stays strictly sorted with one entry per (target, pipeline) |
| `WorkspaceTheorems.PruneLeavesExactly` | cli/prune.go:263-304 | The manifest after a prune, from the one before: an entry is there if and only if the run emitted it, or it was there before, was not replaced, and its file is on disk and guarded where the pipeline decides, or has not converged where it does not; the order is canonical |
| `WorkspaceTheorems.SecondPruneFindsOnlyGuarded` | cli/prune.go:139-167 | A second prune over the same sources finds stale exactly the entries whose files a guard protected the first time |
| `WorkspaceTheorems.PruneDeletesExactly` | cli/prune.go:185-254 | A file on disk is deleted if and only if it is marked, removable, and the prior manifest could be read and claims the path under a target the pipeline decides over and did not emit |
| `WorkspaceTheorems.PruneDeletesEmittedExactly` | cli/prune.go:185-254 | So a file the run has just written is deleted if and only if it is removable and such a prior entry exists |
| `WorkspaceTheorems.OthersFileExactly` | manifest/prune.go:96-99 | An entry of another pipeline always stays, and its file is deleted if and only if the pruning pipeline has a stale entry for the same path and the guards pass |
| `WorkspaceTheorems.SharedTargetLosesFile` | manifest/prune.go:96-99 | The input: two pipelines claim one target, one no longer emits it, and its prune deletes the file the other claims |
| `WorkspaceTheorems.PruneSparesEmitted` | cli/prune.go:185-254 | When no prior entry names an emitted path under another target, no file just written is deleted |
| `WorkspaceTheorems.StaleTwinLosesFile` | cli/prune.go:185-254 | Whenever a prune deletes such a file, its entry stays in the manifest |
| `WorkspaceTheorems.RenamedPackageLosesFile` | cli/prune.go:185-254 | A concrete rename of a package, for which the delete pass removes the file just written and the manifest still claims it |
| `OutDirectives.SelectOutDirective` | pipeline/layout.go:1481-1522 | The directive chosen is the first of the applicable ones with the top score, and a conflict is flagged if and only if two different ones have it |
| `OutDirectives.ChoiceExactly` | pipeline/layout.go:1342-1358 | The directive used is the first whose filters fit and that yields to no other fitting one, scope first and then the number of filters; a conflict is two different ones that yield to none |
| `OutDirectives.ChoiceIgnoresOrder` | pipeline/layout.go:1473-1480 | Whether there is a conflict does not depend on the order of the directives, and without one neither does the choice |
| `OutDirectives.RankingHoldsExactly` | pipeline/layout.go:1464-1470 | Every directive of top score is one the documentation ranks highest, if and only if no plugin-only and tag-only directive share the top score; a conflict is flagged if and only if the documented ranking has one or they do |
| `OutDirectives.ChoiceKeepsRankExactly` | pipeline/layout.go:1481-1522 | The directive used is one the documentation ranks highest if and only if it is not tag-only beside a plugin-only one of its scope |
| `OutDirectives.PluginAndTagTie` | pipeline/layout.go:1346-1358 | A plugin-only and a tag-only directive of one scope are ambiguous |
| `Routing.SplitOutExactly` | pipeline/layout.go:1545-1571 | The split gives the names of the value resolved against a root: the last one is the filename unless the value ends in a separator |
| `Routing.SplitFilename` | pipeline/layout.go:1545-1571 | The filename is empty or a plain name, never a dot, a double dot or a path |
| `Routing.SplitIsStable` | pipeline/layout.go:1545-1571 | Joining the two parts and splitting again gives the same parts |
| `Paths.ComponentsSnoc` | pipeline/layout.go:1563 | What a path names, piece by piece: an empty piece or dot changes nothing, a double dot undoes a name and stops at a root |
| `Composition.ComposeTarget` | pipeline/layout.go:460-716 | Applying the layers lowest first gives what the highest layer with an opinion wants, field by field, or the first refusal that applies |
| `Composition.ApplyDirective` | pipeline/layout.go:580-638 | What a chosen directive does to each field and its layer |
| `Composition.StackOnDescends` | pipeline/layout.go:598-600 | Stacking a value onto a directory appends its names to the directory's components and removes none |
| `Composition.TargetStaysInside` | pipeline/layout.go:1541-1544 | The directory of every target lies within its anchor, below it by exactly the names of the directive and of the command line |
| `Composition.DirectoryExactly` | pipeline/layout.go:500-519 | The directory is the source's, the configured one or the configured package's, with the directories of directive and command line below it; and the layer on record |
| `Composition.FilenameExactly` | pipeline/layout.go:487-494 | The filename is the command line's, else the directive's, else basename and suffix; and when a request is refused for want of a name or for pinning all outputs |
| `Composition.PackageExactly` | pipeline/layout.go:528-565 | The package is the directive's, else the policy's, else the plugin's, else the source's; a test file's gets the suffix unless it has one |
| `Composition.ImportPathExactly` | pipeline/layout.go:615-637 | The import path follows the source package down the directive's directories, and shifts with the package |
| `Composition.PolicyPackageWinsExactly` | pipeline/layout.go:598-637 | The target has the package given by `-p` if and only if the directive in force names neither a package nor a directory and the file is no external test, or the replacing name spells the same; the layer on record is the directive only for a `pkg=` |
| `Composition.DirectoryAttribution` | pipeline/layout.go:601-613 | A package taken from the directive's last directory is attributed to the framework if and only if no policy package was configured, or that one was the framework's |
| `Composition.DirectoryReplacesFlag` | pipeline/layout.go:608-609 | The input `-p foo` with `+gen:out mocks/`: the package is `mocks`, attributed to the command line |
| `OnePackage.FindConflicts` | pipeline/layout.go:942-977 | The one-package-per-file scan finds exactly the files about which two declarations disagree |
| `OnePackage.Enforce` | pipeline/layout.go:942-994 | Exactly the declarations of conflicting files lose their target, and the report lists each such file with every declaration under its package, in visiting order |
| `OnePackage.CollectAndClear` | pipeline/layout.go:1008-1069 | One pass clears the targets in place and collects the names |
| `OnePackage.ClearedIsConsistent` | pipeline/layout.go:942-994 | Afterwards no file has two packages |
| `OnePackage.ClearedExactly` | pipeline/layout.go:957-970 | A target is cleared iff two declarations of its directory and filename, both set, name different packages |
| `OnePackage.NamesAppend` | pipeline/layout.go:1012-1024 | The names reported for a file and package keep the visiting order |
| `Recorders.ResolvedRecorder.Record` | pipeline/pipeline.go:555-570 | Recording one more decision keeps: entries are the first decision per target of the whole history and the memo is the last decision; it is reported if and only if it differs from the first for its target and does not repeat the one just before |
| `Recorders.RecordDecisions` | pipeline/pipeline.go:529-570 | Over every stream the memoising recorder holds the first decision per target, and reports exactly the decisions that differ from it and do not repeat target and layers of the decision just before |
| `Recorders.ReportsMeanDivergence` | pipeline/pipeline.go:548-570 | Decisions for one target that differ in layers never go unreported, nothing is reported without a divergence, and where layers determine the layout a report means a divergence and conversely |
| `Recorders.LayoutDivergenceIsMissed` | pipeline/pipeline.go:555-558 | Two adjacent decisions that differ only in the layout are not reported |
| `Recorders.PathRecorder.Record` | pipeline/layout.go:809-832 | Recording one more output keeps every slot's inline form equal to the last-write-wins map of the whole history |
| `Recorders.RecordPaths` | pipeline/layout.go:809-874 | Over every stream of outputs the inline form stands for the last-write-wins map of tags to import paths, empty paths included |
| `Recorders.LastWinsExactly` | pipeline/layout.go:809-832 | Under each tag stands the path of the last output recorded for that origin, plugin and tag |
| `Validation.Validator.Walk` | pipeline/validate.go:60-79 | The guarded walk terminates on any graph, cyclic ones included, adds only what the node reaches and leaves everything it added finished |
| `Validation.ValidateDirectives` | pipeline/validate.go:48-84 | A node is validated if and only if it has directives and a package reaches it through the walked fields, and then once; all loaded directives are validated if and only if `AllValidated` holds of the graph |
| `Validation.AllValidatedExactly` | pipeline/validate.go:60-84 | Every directive of the loaded packages is validated if and only if each one below a skipped field of a walked node is also reached through walked fields |
| `Validation.AllValidatedInTree` | node/walk.go:81-122 | In a graph where every node has one holder, if and only if no skipped field of a loaded node leads to a directive |
| `Validation.EnumMethodUnchecked` | node/walk.go:103-107 | A graph in which the directive on an enum's method is not validated |
| `Nodes.WalkSlotsExactly` | node/walk.go:81-261 | The walk goes into every field a type declares except a method's receiver, the methods of enums and aliases, an embed's projection, and what a reference of its kind does not use |
| `Rewiring.RewireOwners` | node/rewire.go:22-56 | The in-place traversal assigns its holder to exactly the nodes the helpers reach and leaves all other owners alone |
| `Rewiring.OwnerIsHolder` | node/rewire.go:59-211 | Whatever rewiring reaches comes to be owned by the node that holds it; every other owner is left as it was |
| `Rewiring.WiredExactly` | node/rewire.go:59-211 | A node is rewired iff every field on the way to its holder is gone into and the holder's field is one whose nodes have owners |
| `Rewiring.OwnedByHolder` | node/rewire.go:7-11 | In a well-wired or restorable package every owner is the holder |
| `Rewiring.HelpersCover` | node/rewire.go:59-224 | Each helper assigns exactly the children that have an owner field, and follows every field but the resolved interface of an embed outside interface declarations |
| `Rewiring.WiredIsOwned` | node/rewire.go:59-224 | Without such embeds the nodes rewired are exactly those with an owner field, at any depth |
| `Rewiring.StrayLosesOwner` | node/rewire.go:68-71 | With one, some node with an owner field is not rewired |
| `Rewiring.StructEmbedLosesOwner` | node/rewire.go:68-71 | The input: a struct that embeds an interface with one method, whose owner is not rewired |
| `Rewiring.RewireRestoresExactly` | node/rewire.go:7-11 | Stripping the owners of any package and rewiring gives it back if and only if its owners are exactly those rewiring sets, each the holding node |
| `Rewiring.RewiredIsRestorableExactly` | lang/golang/frontend/loader.go:173-178 | A package whose conversion ends with a rewiring comes back from the cache as it was if and only if the conversion set no owner beyond the reach of rewiring |
| `Rewiring.WellWiredIsRestorableExactly` | node/rewire.go:59-224 | A package with every owner set to the holding node does so if and only if no struct or anonymous type embeds a resolved interface with owned parts |
| `Rewiring.SharedImportIsNotRestored` | lang/typescript/frontend/frontend.go:226-233 | A package-level import whose owner is not the package comes back owned by the package |
| `Rewiring.SharedImportInput` | lang/typescript/frontend/frontend.go:226-233 | The input: one file with one import, listed by file and package and owned by the file; nothing stray, every owner set, not restored |
| `Rewiring.RewireCompletes` | node/rewire.go:13-16 | A partially wired package is completed if and only if the owners rewiring does not reach are right already, whatever the others were set to |
| `Rewiring.RewireIsIdempotent` | node/rewire.go:13-16 | Rewiring any well-wired package changes nothing |
| `CacheKeys.NewKey` | cache/key.go:34-39 | Both paths give the colon-joined non-empty parts |
| `CacheKeys.CollideExactly` | cache/key.go:34-53 | Two keys are equal if and only if the non-empty parts, cut at their own colons, give the same pieces; for colon-free parts, if and only if the non-empty parts are the same |
| `CacheKeys.KeyIsInjective` | plugin/frontend_cache.go:117-123 | With no part empty or containing a colon the key determines frontend, version, fingerprint, unit and input hash |
| `CacheKeys.KeyText` | plugin/frontend_cache.go:117-123 | The key as written: label and value in turn, colons between |
| `CacheKeys.EmptyPartsCollide` | plugin/frontend_cache.go:117-123 | Two different requests with an empty part and one key |
| `CacheKeys.ColonsCollide` | plugin/frontend_cache.go:117-123 | Two different requests with a colon in a part and one key |
| `FrontendCache.Frontend.CacheLoad` | plugin/frontend_cache.go:71-98 | For any request and any cache: a decodable entry is read back and added, otherwise the conversion is, and a non-empty one that was added is kept; over a cache consistent with units it can serve, the store and the outcome are those of a plain conversion and the cache stays consistent |
| `FrontendCache.Decode` | plugin/frontend_cache.go:154-168 | An entry is a hit if and only if it decodes to at least one package, and a hit is every package rewired |
| `FrontendCache.AddAllExactly` | plugin/frontend_cache.go:191-198 | The store grows by the packages up to the first it does not accept, and the outcome says whether there was one |
| `FrontendCache.HitIsConversionExactly` | plugin/frontend_cache.go:145-168 | A hit gives the packages as converted, owners included, if and only if each of them is restorable |
| `FrontendCache.KeyablesAreCacheable` | plugin/frontend_cache.go:107-124 | Units with non-empty colon-free key parts, whose conversions are restorable, meet the condition of `TransparentExactly` |
| `FrontendCache.Session` | plugin/frontend_cache.go:71-98 | The imperative frontend, driven through any sequence of loads, new runs, evictions and corruptions, makes the moves of the specification, and for units it can serve leaves the store and outcomes of no cache at all |
| `FrontendCache.TransparentExactly` | plugin/frontend_cache.go:54-70 | No session over a retaining cache and an accepting store differs from one without a cache, if and only if every non-empty conversion is restorable and shared by all units with its key |
| `FrontendCache.SharedImportShows` | lang/typescript/frontend/frontend.go:226-233 | It is not transparent for a unit with an import whose package-level owner is not the package |

## Left out

- AlwaysTracked: assumes that runs read the prior manifest and write the new one, and that a dry run has an in-memory sink, as the command line arranges; `RunTracksExactly` says what becomes of a single run without these.
- Sharing of nodes in a converted package: nodes are named by their address in the tree, so a node held twice is two nodes that agree on their owner, which is also what encoding makes of it.
- The generated marker: every file a run writes is taken to carry it in its first line, which is the backends' doing.
- Reading and writing files, YAML and JSON text, terminal output, environment and clock: a run's captured outputs, the readability of the manifest and the success of each write are parameters. A write is all or nothing, as the temporary-file rename in `manifest/io.go` makes it.
- SHA-256: the digest is a parameter of `AsManifest`, and `HashBytes` and `HashStrings` are not modelled.
- Finding out which source packages are gone (`goneSources`, `pruneCandidates`): the set of gone import paths is a parameter of the prune.
- Absolute target directories, and a working directory different from the sink's root: paths on disk are relative to one root.
- Cancelled runs and an empty manifest path: a run that stops early, or keeps no manifest, is not a step of the workspace.
- The orphan warning (`reportOrphans`) and the diagnostics' wording: which diagnostic fires is modelled, its text is not.
- The queries over a method set (`ByName`, `From`) and `IsConstraint`: one-line searches.
- Which plugins contributed to a target (`pluginsForTarget`): a parameter of `AsManifest`.
- What `directive.Validate` does to a directive: the model says which nodes it is called on, once each.
- The emit and node stores: whether the store accepts a package is a parameter of `FrontendCache`, and views are sequences.
- Parsing of `+gen:out` arguments and the lookup of `-o` values: their results are parameters of `ComposeTarget`.
- The order in which directives are validated: which nodes are validated is stated, once each, not in what sequence.
- Windows path separators: paths use `/`.
- A nil package given to `RewireOwners`: it returns at once.
- Duplicate plugin names: the builder rejects them before ordering (`pipeline/builder.go:1081-1126`), so `TopoSortBucket` and `ResolvePhase` require distinct names.
- The duplicate-provider report: `PhaseIsDeterministic` does not promise the same claimants when the plugins are registered in another order, because the code reports the first one it meets.
- Rendering, templates, the language frontends and backends, parallel execution inside a bucket: not part of this model.
