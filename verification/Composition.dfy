/**
Composing one output's target from the layers that may decide it: framework default, plugin
suffix, layout policy, `+gen:out` directive, command line.

`ComposeTarget` applies the layers in the source's order, lowest first, each overwriting what is
there. The `Wanted…` functions say the same thing the other way round: the highest layer that
has an opinion decides.
*/
module Composition {
  import opened Options
  import opened Paths
  import opened Routing
  import opened OutDirectives
  import Manifests

  type Target = Manifests.Target

  datatype Layer = Framework | PluginSuffix | Project | PerPlugin | Directive | CommandLine
  datatype Layers = Layers(filename: Layer, layout: Layer, dir: Layer, pkg: Layer)

  datatype Layout = AlongsideSource | Centralised | OtherLayout
  datatype Policy = Policy(layout: Layout, layoutFrom: Layer, pkg: string, pkgFrom: Layer, dir: string, dirFrom: Layer)

  datatype Package = Package(name: string, path: string)

  /** `srcDir` and `basename` come from the origin's position; `cli` is the `-o` value in force, or empty. */
  datatype Request = Request(policy: Policy, plugin: string, tag: string, suffix: string, multiOutput: bool,
                             srcDir: string, basename: string, srcPkg: Option<Package>, emitPkg: Option<Package>,
                             specs: seq<Spec>, cli: string)

  datatype Refusal = NoSuchLayout | UnscopedMultiOutput | PositionlessOrigin
  datatype Route = Routed(target: Target, layers: Layers) | Refused(why: Refusal)

  // ------------------------------------------------ highest layer first

  /** The directive in force. */
  ghost function Chosen(q: Request): Option<Spec> {
    if exists s :: IsFirstTop(q.specs, q.plugin, q.tag, s)
    then var s :| IsFirstTop(q.specs, q.plugin, q.tag, s); Some(s)
    else None
  }

  /** Its path, empty when no directive is in force: an empty path pins neither directory nor filename. */
  ghost function ChosenPath(q: Request): string {
    if Chosen(q).Some? then Chosen(q).value.path else ""
  }

  ghost function ChosenPkg(q: Request): string {
    if Chosen(q).Some? then Chosen(q).value.pkg else ""
  }

  ghost function Pick(a: string, b: string): string {
    if a != "" then a else b
  }

  /** The directory the policy or the origin anchors the output at. */
  function Anchor(q: Request): string {
    if q.policy.layout == Centralised then (if q.policy.dir != "" then q.policy.dir else q.policy.pkg) else q.srcDir
  }

  function StackOn(base: string, value: string): string {
    var dir := SplitOut(value).0;
    if dir == "" then base else Join(base, dir)
  }

  ghost function WantedDir(q: Request): string {
    StackOn(StackOn(Anchor(q), ChosenPath(q)), q.cli)
  }

  ghost function WantedFilename(q: Request): string {
    Pick(SplitOut(q.cli).1, Pick(SplitOut(ChosenPath(q)).1, q.basename + q.suffix))
  }

  /** The package and import path the policy, the plugin's own package or the source package settle on. */
  ghost function PolicyPackage(q: Request): string {
    if q.policy.layout == Centralised || q.policy.pkg != "" then q.policy.pkg
    else if q.emitPkg.Some? && q.emitPkg.value.name != "" then q.emitPkg.value.name
    else if q.srcPkg.Some? then q.srcPkg.value.name
    else ""
  }

  ghost function PolicyImport(q: Request): string {
    if q.policy.layout == Centralised then ""
    else if q.policy.pkg == "" && q.emitPkg.Some? && q.emitPkg.value.name != "" then q.emitPkg.value.path
    else SourcePath(q)
  }

  /** The package before the external-test shift. */
  ghost function WantedPackage(q: Request): string {
    if ChosenPkg(q) != "" then ChosenPkg(q)
    else if SplitOut(ChosenPath(q)).0 != "" then Base(StackOn(Anchor(q), ChosenPath(q)))
    else PolicyPackage(q)
  }

  ghost function WantedImport(q: Request): string {
    if q.srcPkg.Some? && SplitOut(ChosenPath(q)).0 != "" then Join(q.srcPkg.value.path, SplitOut(ChosenPath(q)).0)
    else if ChosenPkg(q) != "" then SourcePath(q)
    else PolicyImport(q)
  }

  function SourcePath(q: Request): string {
    if q.srcPkg.Some? then q.srcPkg.value.path else ""
  }

  /** Go's external test package convention. */
  function Shifts(filename: string, pkg: string): bool {
    EndsWith(filename, "_test.go") && pkg != "" && !EndsWith(pkg, "_test")
  }

  ghost function WantedTarget(q: Request): Target {
    var f, p, i := WantedFilename(q), WantedPackage(q), WantedImport(q);
    if Shifts(f, p) then Manifests.Target(WantedDir(q), f, p + "_test", if i != "" then i + "_test" else i)
    else Manifests.Target(WantedDir(q), f, p, i)
  }

  ghost function PolicyLayers(q: Request): Layers {
    Layers(PluginSuffix, q.policy.layoutFrom,
           if q.policy.layout != Centralised then Framework
           else if q.policy.dir != "" then q.policy.dirFrom else q.policy.pkgFrom,
           if q.policy.layout == Centralised || q.policy.pkg != "" then q.policy.pkgFrom else Framework)
  }

  ghost function WantedLayers(q: Request): Layers {
    var (cliDir, cliFile), (dir, file) := SplitOut(q.cli), SplitOut(ChosenPath(q));
    Layers(if cliFile != "" then CommandLine else if file != "" then Directive else PluginSuffix,
           q.policy.layoutFrom,
           if cliDir != "" then CommandLine else if dir != "" then Directive else PolicyLayers(q).dir,
           if ChosenPkg(q) != "" then Directive else PolicyLayers(q).pkg)
  }

  /** One filename for every output of a multi-output plugin. */
  ghost predicate PinsAllOutputs(q: Request) {
    q.multiOutput && Chosen(q).Some? && SplitOut(ChosenPath(q)).1 != "" && Chosen(q).value.tag == ""
  }

  /** Nothing but the plugin's suffix would name the file. */
  ghost predicate BareSuffix(q: Request) {
    q.basename == "" && SplitOut(q.cli).1 == "" && SplitOut(ChosenPath(q)).1 == ""
  }

  /** The last component; only used on cleaned directories. */
  function Base(dir: string): string {
    var cs := Components(dir);
    if cs != [] then cs[|cs| - 1] else if IsRooted(dir) then "/" else "."
  }

  // ------------------------------------------------- lowest layer first

  method ComposeTarget(q: Request) returns (r: Route)
    ensures r == if q.policy.layout == OtherLayout then Refused(NoSuchLayout)
                 else if PinsAllOutputs(q) then Refused(UnscopedMultiOutput)
                 else if BareSuffix(q) then Refused(PositionlessOrigin)
                 else Routed(WantedTarget(q), WantedLayers(q))
  {
    hide SplitOut, Join, Base, Chosen, PolicyPackage, PolicyImport;
    if q.policy.layout == OtherLayout {
      return Refused(NoSuchLayout);
    }
    var t, layers := ApplyPolicy(q);
    var spec, _ := SelectOutDirective(q.specs, q.plugin, q.tag);
    ChosenIs(q, spec);
    EmptyPath();
    if spec.Some? {
      if q.multiOutput && SplitOut(spec.value.path).1 != "" && spec.value.tag == "" {
        return Refused(UnscopedMultiOutput);
      }
      t, layers := ApplyDirective(q, spec.value, t, layers);
    }
    if q.cli != "" {
      t, layers := ApplyCommandLine(q.cli, t, layers);
    }
    if q.basename == "" && layers.filename == PluginSuffix {
      return Refused(PositionlessOrigin);
    }
    if Shifts(t.filename, t.pkg) {
      t := t.(pkg := t.pkg + "_test",
              importPath := if t.importPath != "" then t.importPath + "_test" else t.importPath);
    }
    r := Routed(t, layers);
  }

  method ApplyCommandLine(cli: string, t0: Target, layers0: Layers) returns (t: Target, layers: Layers)
    ensures t == t0.(dir := StackOn(t0.dir, cli), filename := Pick(SplitOut(cli).1, t0.filename))
    ensures layers == layers0.(filename := if SplitOut(cli).1 != "" then CommandLine else layers0.filename,
                               dir := if SplitOut(cli).0 != "" then CommandLine else layers0.dir)
  {
    hide SplitOut, Join;
    t, layers := t0, layers0;
    var (dir, filename) := SplitOut(cli);
    if filename != "" {
      t := t.(filename := filename);
      layers := layers.(filename := CommandLine);
    }
    if dir != "" {
      t := t.(dir := Join(t.dir, dir));
      layers := layers.(dir := CommandLine);
    }
  }

  method ApplyPolicy(q: Request) returns (t: Target, layers: Layers)
    requires q.policy.layout != OtherLayout
    ensures t == Manifests.Target(Anchor(q), q.basename + q.suffix, PolicyPackage(q), PolicyImport(q))
    ensures layers == PolicyLayers(q)
  {
    t := Manifests.Target("", q.basename + q.suffix, "", "");
    layers := Layers(PluginSuffix, q.policy.layoutFrom, Framework, Framework);
    if q.policy.layout == Centralised {
      t := t.(dir := q.policy.dir);
      layers := layers.(dir := q.policy.dirFrom);
      if t.dir == "" {
        t := t.(dir := q.policy.pkg);
        layers := layers.(dir := q.policy.pkgFrom);
      }
      t := t.(pkg := q.policy.pkg);
      layers := layers.(pkg := q.policy.pkgFrom);
    } else {
      t := t.(dir := q.srcDir);
      if q.emitPkg.Some? && q.emitPkg.value.name != "" {
        t := t.(pkg := q.emitPkg.value.name, importPath := q.emitPkg.value.path);
      } else if q.srcPkg.Some? {
        t := t.(pkg := q.srcPkg.value.name, importPath := q.srcPkg.value.path);
      }
      if q.policy.pkg != "" {
        t := t.(pkg := q.policy.pkg, importPath := SourcePath(q));
        layers := layers.(pkg := q.policy.pkgFrom);
      }
    }
  }

  method ApplyDirective(q: Request, spec: Spec, t0: Target, layers0: Layers) returns (t: Target, layers: Layers)
    ensures t.dir == StackOn(t0.dir, spec.path)
    ensures t.filename == Pick(SplitOut(spec.path).1, t0.filename)
    ensures t.pkg == Pick(spec.pkg, if SplitOut(spec.path).0 != "" then Base(t.dir) else t0.pkg)
    ensures t.importPath == if q.srcPkg.Some? && SplitOut(spec.path).0 != ""
                            then Join(q.srcPkg.value.path, SplitOut(spec.path).0)
                            else if spec.pkg != "" then SourcePath(q) else t0.importPath
    ensures layers == Layers(if SplitOut(spec.path).1 != "" then Directive else layers0.filename, layers0.layout,
                             if SplitOut(spec.path).0 != "" then Directive else layers0.dir,
                             if spec.pkg != "" then Directive else layers0.pkg)
  {
    hide SplitOut, Join, Base;
    t, layers := t0, layers0;
    var (dir, filename) := SplitOut(spec.path);
    if filename != "" {
      t := t.(filename := filename);
      layers := layers.(filename := Directive);
    }
    if dir != "" {
      t := t.(dir := Join(t.dir, dir));
      layers := layers.(dir := Directive);
      if spec.pkg == "" {
        t := t.(pkg := Base(t.dir));
        if q.srcPkg.Some? {
          t := t.(importPath := Join(q.srcPkg.value.path, dir));
        }
      }
    }
    if spec.pkg != "" {
      t := t.(pkg := spec.pkg);
      layers := layers.(pkg := Directive);
      t := t.(importPath := if q.srcPkg.None? then ""
                            else if dir != "" then Join(q.srcPkg.value.path, dir) else q.srcPkg.value.path);
    }
  }

  lemma ChosenIs(q: Request, spec: Option<Spec>)
    requires spec.None? <==> forall s | s in q.specs :: !Applies(s, q.plugin, q.tag)
    requires spec.Some? ==> IsFirstTop(q.specs, q.plugin, q.tag, spec.value)
    ensures Chosen(q) == spec
  {
    if Chosen(q).Some? {
      assert spec.Some?;
      FirstTopUnique(q.specs, q.plugin, q.tag, spec.value, Chosen(q).value);
    }
  }

  lemma FirstTopUnique(specs: seq<Spec>, plugin: string, tag: string, a: Spec, b: Spec)
    requires IsFirstTop(specs, plugin, tag, a) && IsFirstTop(specs, plugin, tag, b)
    ensures a == b
  {
    var i :| 0 <= i < |specs| && specs[i] == a && forall k | 0 <= k < i :: !IsTop(specs, plugin, tag, specs[k]);
    var j :| 0 <= j < |specs| && specs[j] == b && forall k | 0 <= k < j :: !IsTop(specs, plugin, tag, specs[k]);
    assert i == j;
  }

  lemma EmptyPath()
    ensures SplitOut("") == ("", "")
  {
    assert "/" + "" == "/" && "/"[1..] == "";
    assert Pieces("/") == [""] + Pieces("");
    assert NamesIn("") == Reduce(true, [], ["", ""]) == [];
    hide Components, Pieces, Reduce, SplitOut;
    SplitOutExactly("");
    EmptyGlue();
  }

  // ---------------------------------------------------------------- theorems

  /** Stacking goes down by exactly the directory names of the value. */
  lemma StackOnDescends(base: string, value: string)
    ensures IsRooted(StackOn(base, value)) == IsRooted(base)
    ensures Components(StackOn(base, value)) == Components(base) + DirNames(value)
  {
    SplitOutExactly(value);
    NamesAreNames(value);
    GlueNotRooted(DirNames(value));
    JoinNames(base, DirNames(value));
  }

  /**
  Containment: whatever the directive and the command line say, the output lies in the anchor
  directory or below it, at exactly the named directories, the directive's first.
  */
  lemma TargetStaysInside(q: Request)
    ensures Within(Anchor(q), WantedTarget(q).dir)
    ensures Components(WantedTarget(q).dir) == Components(Anchor(q)) + DirNames(ChosenPath(q)) + DirNames(q.cli)
    ensures WantedTarget(q).filename == q.basename + q.suffix || IsName(WantedTarget(q).filename)
  {
    StackOnDescends(Anchor(q), ChosenPath(q));
    StackOnDescends(StackOn(Anchor(q), ChosenPath(q)), q.cli);
    SplitFilename(q.cli);
    SplitFilename(ChosenPath(q));
  }

  /** A routed `_test.go` file never joins the package it tests from outside. */
  lemma TestsAreExternal(q: Request)
    ensures EndsWith(WantedTarget(q).filename, "_test.go") ==>
            WantedTarget(q).pkg == "" || EndsWith(WantedTarget(q).pkg, "_test")
  {
    hide WantedDir, WantedFilename, WantedPackage, WantedImport;
    assert (WantedPackage(q) + "_test")[|WantedPackage(q)|..] == "_test";
  }

  // ------------------------------------------- the package flag, and who is named

  /** The package a directive asks for: its own, or else the last directory it names. */
  ghost function Replacement(q: Request): Option<string> {
    var dirs := DirNames(ChosenPath(q));
    if ChosenPkg(q) != "" then Some(ChosenPkg(q))
    else if dirs != [] then Some(dirs[|dirs| - 1])
    else None
  }

  /** The package clause of a file: external tests get the suffix. */
  function External(filename: string, pkg: string): string {
    if Shifts(filename, pkg) then pkg + "_test" else pkg
  }

  lemma DirectoryOnly(value: string)
    ensures SplitOut(value).0 == "" <==> DirNames(value) == []
  {
    hide SplitOut, DirNames;
    SplitOutExactly(value);
    NamesAreNames(value);
    GlueNotRooted(DirNames(value));
  }

  /** The package is the directive's replacement if it has one, wherever the policy's came from. */
  lemma PackageIs(q: Request)
    ensures WantedPackage(q) == if Replacement(q).Some? then Replacement(q).value else PolicyPackage(q)
  {
    hide SplitOut, DirNames, StackOn, Components, PolicyPackage, Chosen;
    DirectoryOnly(ChosenPath(q));
    StackOnDescends(Anchor(q), ChosenPath(q));
  }

  /**
  The flag `-p` reaches the policy's package. The target ends up with it exactly when the directive
  in force names neither a package nor a directory and the file is no external test, or when what
  replaces it happens to spell the same.
  */
  lemma PolicyPackageWinsExactly(q: Request)
    requires q.policy.pkg != ""
    ensures WantedTarget(q).pkg == q.policy.pkg <==>
            if Replacement(q).Some? then External(WantedTarget(q).filename, Replacement(q).value) == q.policy.pkg
            else !Shifts(WantedTarget(q).filename, q.policy.pkg)
    ensures WantedLayers(q).pkg == if ChosenPkg(q) != "" then Directive else q.policy.pkgFrom
  {
    PackageIs(q);
    hide Replacement, WantedDir, WantedFilename, WantedImport, WantedPackage, Chosen, SplitOut;
  }

  /**
  A package derived from the directive's directory is attributed to the framework exactly when
  nothing configured one; otherwise the layer of the package it replaced stays on record.
  */
  lemma DirectoryAttribution(q: Request)
    requires ChosenPkg(q) == "" && DirNames(ChosenPath(q)) != []
    ensures WantedPackage(q) == DirNames(ChosenPath(q))[|DirNames(ChosenPath(q))| - 1]
    ensures WantedLayers(q).pkg == Framework <==>
            q.policy.pkgFrom == Framework || (q.policy.layout != Centralised && q.policy.pkg == "")
  {
    PackageIs(q);
    hide DirNames, WantedPackage, Chosen, SplitOut;
  }

  /** So `-p foo` loses to `+gen:out mocks/`, and the record still says the command line decided. */
  lemma DirectoryReplacesFlag() returns (q: Request)
    ensures q.policy.pkg == "foo" && q.policy.pkgFrom == CommandLine && ChosenPkg(q) == "" && ChosenPath(q) == "mocks/"
    ensures q.policy.layout != OtherLayout && !PinsAllOutputs(q) && !BareSuffix(q)
    ensures WantedTarget(q).pkg == "mocks" && WantedLayers(q).pkg == CommandLine
  {
    var spec := Spec("mocks/", "", "", "", EntityScope);
    q := Request(Policy(AlongsideSource, Framework, "foo", CommandLine, "", Framework), "p", "", ".go", false,
                 "src", "a", None, None, [spec], "");
    hide SplitOut, DirNames, Chosen, WantedDir, WantedImport, WantedPackage, PolicyLayers;
    OnlySpec(q, spec);
    OneDirectory();
    EmptyPath();
    PackageIs(q);
    PolicyPackageWinsExactly(q);
    assert WantedFilename(q) == "a.go";
  }

  lemma OnlySpec(q: Request, spec: Spec)
    requires q.specs == [spec] && Applies(spec, q.plugin, q.tag)
    ensures Chosen(q) == Some(spec)
  {
    assert spec in q.specs && q.specs[0] == spec;
    assert IsFirstTop(q.specs, q.plugin, q.tag, spec);
    ChosenIs(q, Some(spec));
  }

  lemma OneDirectory()
    ensures DirNames("mocks/") == ["mocks"] && SplitOut("mocks/").1 == ""
  {
    assert IsName("mocks") && AreNames(["mocks"]) && Glue(["mocks"]) == "mocks" && Rejoin("mocks", "") == "mocks/";
    hide DirNames, SplitOut, NamesIn, Glue, IsName;
    RejoinNames(["mocks"], "");
    SplitOutExactly("mocks/");
  }

  // --------------------------------------------------- on the request's own fields

  /** The value names a file: it has a last name, and does not end in a separator. */
  ghost predicate NamesFile(value: string) {
    NamesIn(value) != [] && DirNames(value) != NamesIn(value)
  }

  lemma FileNamed(value: string)
    ensures SplitOut(value).1 == if NamesFile(value) then NamesIn(value)[|NamesIn(value)| - 1] else ""
    ensures SplitOut(value).1 != "" <==> NamesFile(value)
  {
    hide SplitOut, NamesIn;
    SplitOutExactly(value);
    NamesAreNames(value);
    if NamesFile(value) {
      assert NamesIn(value)[|NamesIn(value)| - 1] in NamesIn(value);
    }
  }

  /** The directory: the source's, the configured one or the configured package's, and below it what is asked for. */
  lemma DirectoryExactly(q: Request)
    ensures var base := if q.policy.layout != Centralised then q.srcDir
                        else if q.policy.dir != "" then q.policy.dir else q.policy.pkg;
            && Components(WantedTarget(q).dir) == Components(base) + DirNames(ChosenPath(q)) + DirNames(q.cli)
            && IsRooted(WantedTarget(q).dir) == IsRooted(base)
            && (DirNames(ChosenPath(q)) == [] && DirNames(q.cli) == [] ==> WantedTarget(q).dir == base)
    ensures WantedLayers(q).dir ==
            if DirNames(q.cli) != [] then CommandLine
            else if DirNames(ChosenPath(q)) != [] then Directive
            else if q.policy.layout != Centralised then Framework
            else if q.policy.dir != "" then q.policy.dirFrom else q.policy.pkgFrom
    ensures WantedLayers(q).layout == q.policy.layoutFrom
  {
    hide SplitOut, DirNames, Components, Chosen;
    TargetStaysInside(q);
    DirectoryOnly(ChosenPath(q));
    DirectoryOnly(q.cli);
    StackOnDescends(Anchor(q), ChosenPath(q));
    StackOnDescends(StackOn(Anchor(q), ChosenPath(q)), q.cli);
  }

  /** The filename: the command line's, else the directive's, else basename and suffix; and who is on record. */
  lemma FilenameExactly(q: Request)
    ensures var names := if NamesFile(q.cli) then NamesIn(q.cli) else NamesIn(ChosenPath(q));
            WantedTarget(q).filename == if NamesFile(q.cli) || NamesFile(ChosenPath(q)) then names[|names| - 1]
                                        else q.basename + q.suffix
    ensures WantedLayers(q).filename == if NamesFile(q.cli) then CommandLine
                                        else if NamesFile(ChosenPath(q)) then Directive else PluginSuffix
    ensures BareSuffix(q) <==> q.basename == "" && !NamesFile(q.cli) && !NamesFile(ChosenPath(q))
    ensures PinsAllOutputs(q) <==>
            q.multiOutput && exists s :: IsFirstTop(q.specs, q.plugin, q.tag, s) && NamesFile(s.path) && s.tag == ""
  {
    hide SplitOut, NamesIn, DirNames, WantedDir, WantedPackage, WantedImport, IsFirstTop;
    FileNamed(q.cli);
    FileNamed(ChosenPath(q));
    if s :| IsFirstTop(q.specs, q.plugin, q.tag, s) {
      forall t | IsFirstTop(q.specs, q.plugin, q.tag, t) ensures t == s {
        FirstTopUnique(q.specs, q.plugin, q.tag, s, t);
      }
    }
  }

  /** A test file, and a package name that says so. */
  ghost predicate IsTestFile(filename: string) {
    exists x :: filename == x + "_test.go"
  }

  ghost predicate IsTestName(pkg: string) {
    exists x :: pkg == x + "_test"
  }

  /** The package before the test convention. */
  ghost function Clause(q: Request): string {
    if Replacement(q).Some? then Replacement(q).value
    else if q.policy.layout == Centralised || q.policy.pkg != "" then q.policy.pkg
    else if q.emitPkg.Some? && q.emitPkg.value.name != "" then q.emitPkg.value.name
    else if q.srcPkg.Some? then q.srcPkg.value.name
    else ""
  }

  /** The package: a test file's gets the suffix unless it has one or there is none. */
  lemma PackageExactly(q: Request)
    ensures WantedTarget(q).pkg ==
            if IsTestFile(WantedTarget(q).filename) && Clause(q) != "" && !IsTestName(Clause(q))
            then Clause(q) + "_test" else Clause(q)
    ensures WantedLayers(q).pkg ==
            if ChosenPkg(q) != "" then Directive
            else if q.policy.layout == Centralised || q.policy.pkg != "" then q.policy.pkgFrom else Framework
  {
    PackageIs(q);
    EndsWithExactly(WantedTarget(q).filename, "_test.go");
    EndsWithExactly(Clause(q), "_test");
    hide Replacement, WantedDir, WantedFilename, WantedImport, WantedPackage, Chosen, SplitOut, EndsWith;
  }

  /** The import path before the test convention: it follows the source package down the directive's directories. */
  ghost function Location(q: Request): string {
    if q.srcPkg.Some? && DirNames(ChosenPath(q)) != [] then Join(q.srcPkg.value.path, Glue(DirNames(ChosenPath(q))))
    else if ChosenPkg(q) != "" then (if q.srcPkg.Some? then q.srcPkg.value.path else "")
    else if q.policy.layout == Centralised then ""
    else if q.policy.pkg == "" && q.emitPkg.Some? && q.emitPkg.value.name != "" then q.emitPkg.value.path
    else if q.srcPkg.Some? then q.srcPkg.value.path
    else ""
  }

  /** The import path shifts with the package. */
  lemma ImportPathExactly(q: Request)
    ensures WantedTarget(q).importPath ==
            if WantedTarget(q).pkg != Clause(q) && Location(q) != "" then Location(q) + "_test" else Location(q)
  {
    SplitOutExactly(ChosenPath(q));
    DirectoryOnly(ChosenPath(q));
    PackageIs(q);
    hide Replacement, WantedDir, WantedFilename, WantedPackage, Chosen, SplitOut, EndsWith, DirNames, Join;
    assert forall p: string :: |p + "_test"| > |p|;
  }
}
