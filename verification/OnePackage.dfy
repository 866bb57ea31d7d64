/**
The check that every output file declares one package. Two passes over the declarations: the
first only finds the conflicting files, the second, when there are any, collects who disagreed
and clears the targets of everything routed there.
*/
module OnePackage {
  import Manifests

  type Target = Manifests.Target

  const NO_TARGET := Manifests.Target("", "", "", "")

  datatype FileKey = FileKey(dir: string, filename: string)

  function KeyOf(t: Target): FileKey {
    FileKey(t.dir, t.filename)
  }

  /** A declaration of the emit view; the views of the seven routed kinds are visited one after the other. */
  class Decl {
    const qname: string
    var target: Target

    constructor (qname: string, target: Target)
      ensures this.qname == qname && this.target == target
    {
      this.qname, this.target := qname, target;
    }
  }

  /** What the check looks at. */
  datatype Row = Row(target: Target, qname: string)

  ghost function Rows(decls: seq<Decl>): (rows: seq<Row>)
    reads decls
    ensures |rows| == |decls|
    ensures forall i | 0 <= i < |rows| :: rows[i] == Row(decls[i].target, decls[i].qname)
  {
    seq(|decls|, i requires 0 <= i < |decls| reads decls => Row(decls[i].target, decls[i].qname))
  }

  /** The declaration is routed to the file `k`; a file without directory or name is not looked at. */
  ghost predicate RoutedTo(r: Row, k: FileKey) {
    KeyOf(r.target) == k && k.dir != "" && k.filename != ""
  }

  ghost function PackagesAt(rows: seq<Row>, k: FileKey): set<string> {
    set r | r in rows && RoutedTo(r, k) :: r.target.pkg
  }

  /** Two declarations routed to the file disagree on its package. */
  ghost predicate Conflicted(rows: seq<Row>, k: FileKey) {
    exists p, q :: p in PackagesAt(rows, k) && q in PackagesAt(rows, k) && p != q
  }

  /** The declarations behind one package of one file, in visiting order. */
  ghost function Names(rows: seq<Row>, k: FileKey, pkg: string): seq<string> {
    if rows == [] then []
    else
      var r := rows[|rows| - 1];
      Names(rows[..|rows| - 1], k, pkg) + if RoutedTo(r, k) && r.target.pkg == pkg then [r.qname] else []
  }

  ghost predicate Distinct(decls: seq<Decl>) {
    forall i, j | 0 <= i < j < |decls| :: decls[i] != decls[j]
  }

  type Details = map<FileKey, map<string, seq<string>>>

  /** `details` has one entry per conflicting file, and in it every declaration under its package. */
  ghost predicate Describes(details: Details, rows: seq<Row>, conflicted: set<FileKey>) {
    forall k :: DescribesFile(details, rows, conflicted, k)
  }

  ghost predicate DescribesFile(details: Details, rows: seq<Row>, conflicted: set<FileKey>, k: FileKey) {
    && (k in details <==> k in conflicted && PackagesAt(rows, k) != {})
    && (k in details ==> details[k].Keys == PackagesAt(rows, k))
    && (k in details ==> forall p | p in details[k] :: details[k][p] == Names(rows, k, p))
  }

  method FindConflicts(decls: seq<Decl>) returns (conflicted: set<FileKey>)
    ensures forall k :: k in conflicted <==> Conflicted(Rows(decls), k)
  {
    ghost var rows := Rows(decls);
    var firstPkg: map<FileKey, string> := map[];
    conflicted := {};
    for i := 0 to |decls|
      invariant Scanned(rows[..i], firstPkg, conflicted)
    {
      hide Scanned;
      var t := decls[i].target;
      ScannedNext(rows, i, firstPkg, conflicted);
      if t.dir == "" || t.filename == "" {
        continue;
      }
      var key := KeyOf(t);
      if key !in firstPkg {
        firstPkg := firstPkg[key := t.pkg];
      } else if firstPkg[key] != t.pkg {
        conflicted := conflicted + {key};
      }
    }
    assert rows[..|decls|] == rows;
    forall k ensures k in conflicted <==> Conflicted(rows, k) {
      if k in conflicted {
        var p :| p in PackagesAt(rows, k) && p != firstPkg[k];
      }
    }
  }

  /** What the first pass knows: a package per file, and the files where a second one was seen. */
  ghost predicate Scanned(rows: seq<Row>, firstPkg: map<FileKey, string>, conflicted: set<FileKey>) {
    && (forall k :: k in firstPkg <==> PackagesAt(rows, k) != {})
    && (forall k | k in firstPkg :: firstPkg[k] in PackagesAt(rows, k))
    && (forall k :: k in conflicted <==> k in firstPkg && PackagesAt(rows, k) != {firstPkg[k]})
  }

  lemma ScannedNext(rows: seq<Row>, i: nat, firstPkg: map<FileKey, string>, conflicted: set<FileKey>)
    requires i < |rows| && Scanned(rows[..i], firstPkg, conflicted)
    ensures var t := rows[i].target;
            var key := KeyOf(t);
            if t.dir == "" || t.filename == "" then Scanned(rows[..i + 1], firstPkg, conflicted)
            else if key !in firstPkg then Scanned(rows[..i + 1], firstPkg[key := t.pkg], conflicted)
            else if firstPkg[key] != t.pkg then Scanned(rows[..i + 1], firstPkg, conflicted + {key})
            else Scanned(rows[..i + 1], firstPkg, conflicted)
  {
    hide PackagesAt;
    var r := rows[i];
    assert rows[..i + 1] == rows[..i] + [r];
    forall k {
      PackagesNext(rows[..i], r, k);
    }
    var key := KeyOf(r.target);
    if key in firstPkg && firstPkg[key] != r.target.pkg {
      assert {firstPkg[key], r.target.pkg} != {firstPkg[key]};
    }
  }

  lemma PackagesNext(before: seq<Row>, r: Row, k: FileKey)
    ensures PackagesAt(before + [r], k) == PackagesAt(before, k) + if RoutedTo(r, k) then {r.target.pkg} else {}
  {}

  /**
  Clears the target of every declaration whose file two declarations disagree about, leaves every
  other target alone, and reports exactly those files.
  */
  method Enforce(decls: seq<Decl>) returns (details: Details)
    requires Distinct(decls)
    modifies decls
    ensures forall d | d in decls ::
              d.target == if Conflicted(old(Rows(decls)), KeyOf(old(d.target)))
                          then Manifests.Target("", "", "", "") else old(d.target)
    ensures forall k :: k in details <==> Conflicted(old(Rows(decls)), k)
    ensures forall k, p | k in details :: p in details[k] <==> Names(old(Rows(decls)), k, p) != []
    ensures forall k, p | k in details && p in details[k] :: details[k][p] == Names(old(Rows(decls)), k, p)
  {
    ghost var rows := Rows(decls);
    var conflicted := FindConflicts(decls);
    if conflicted == {} {
      details := map[];
      return;
    }
    details := CollectAndClear(decls, conflicted);
    hide Names, Describes;
    forall k ensures k in details <==> Conflicted(rows, k)
             ensures k in details ==> forall p :: p in details[k] <==> Names(rows, k, p) != []
             ensures k in details ==> forall p | p in details[k] :: details[k][p] == Names(rows, k, p)
    {
      DescribedFile(details, rows, conflicted, k);
    }
  }

  method CollectAndClear(decls: seq<Decl>, conflicted: set<FileKey>) returns (details: Details)
    requires Distinct(decls)
    requires forall k | k in conflicted :: k.dir != "" && k.filename != ""
    modifies decls
    ensures forall j | 0 <= j < |decls| ::
              decls[j].target == if KeyOf(old(decls[j].target)) in conflicted then NO_TARGET else old(decls[j].target)
    ensures Describes(details, old(Rows(decls)), conflicted)
  {
    ghost var rows := Rows(decls);
    hide *;
    details := map[];
    DescribesNone(rows, conflicted);
    for i := 0 to |decls|
      invariant forall j | 0 <= j < i ::
                  decls[j].target == if KeyOf(rows[j].target) in conflicted then NO_TARGET else rows[j].target
      invariant forall j | i <= j < |decls| :: decls[j].target == rows[j].target
      invariant Describes(details, rows[..i], conflicted)
    {
      var d := decls[i];
      DescribesNext(details, rows, i, conflicted);
      if KeyOf(d.target) in conflicted {
        details := Filed(details, d.target, d.qname);
        d.target := NO_TARGET;
      }
      AllOthers(decls, i);
    }
    assert rows[..|decls|] == rows;
  }

  lemma DescribedFile(details: Details, rows: seq<Row>, conflicted: set<FileKey>, k: FileKey)
    requires Describes(details, rows, conflicted) && (k in conflicted <==> Conflicted(rows, k))
    ensures k in details <==> Conflicted(rows, k)
    ensures k in details ==> forall p :: p in details[k] <==> Names(rows, k, p) != []
    ensures k in details ==> forall p | p in details[k] :: details[k][p] == Names(rows, k, p)
  {
    hide Names, PackagesAt;
    assert DescribesFile(details, rows, conflicted, k);
    forall p {
      NamesNonEmpty(rows, k, p);
    }
  }

  lemma AllOthers(decls: seq<Decl>, i: nat)
    requires Distinct(decls) && i < |decls|
    ensures forall j | 0 <= j < |decls| && j != i :: decls[j] != decls[i]
  {}

  lemma DescribesNone(rows: seq<Row>, conflicted: set<FileKey>)
    ensures Describes(map[], rows[..0], conflicted)
  {}

  /** The declaration's name appended under its file and package. */
  function Filed(details: Details, t: Target, qname: string): Details {
    var pkgs := if KeyOf(t) in details then details[KeyOf(t)] else map[];
    var names := if t.pkg in pkgs then pkgs[t.pkg] else [];
    details[KeyOf(t) := pkgs[t.pkg := names + [qname]]]
  }

  lemma DescribesNext(details: Details, rows: seq<Row>, i: nat, conflicted: set<FileKey>)
    requires i < |rows| && Describes(details, rows[..i], conflicted)
    requires forall k | k in conflicted :: k.dir != "" && k.filename != ""
    ensures Describes(if KeyOf(rows[i].target) in conflicted
                      then Filed(details, rows[i].target, rows[i].qname) else details,
                      rows[..i + 1], conflicted)
  {
    hide DescribesFile, Filed;
    var before, now := rows[..i], rows[..i + 1];
    assert now == before + [rows[i]];
    var after := if KeyOf(rows[i].target) in conflicted then Filed(details, rows[i].target, rows[i].qname) else details;
    forall k ensures DescribesFile(after, now, conflicted, k) {
      assert DescribesFile(details, before, conflicted, k);
      FileNext(details, before, rows[i], conflicted, k);
    }
  }

  lemma FileNext(details: Details, before: seq<Row>, r: Row, conflicted: set<FileKey>, k: FileKey)
    requires DescribesFile(details, before, conflicted, k)
    requires k in conflicted ==> k.dir != "" && k.filename != ""
    ensures DescribesFile(if KeyOf(r.target) in conflicted then Filed(details, r.target, r.qname) else details,
                          before + [r], conflicted, k)
  {
    hide PackagesAt, Names, RoutedTo;
    PackagesNext(before, r, k);
    RoutedToIts(r, k);
    NamesNonEmpty(before, k, r.target.pkg);
    forall p
      ensures Names(before + [r], k, p) ==
              Names(before, k, p) + if RoutedTo(r, k) && r.target.pkg == p then [r.qname] else []
    {
      NamesNext(before, r, k, p);
    }
    if k == KeyOf(r.target) && k in conflicted {
      var pkgs := if k in details then details[k] else map[];
      assert Filed(details, r.target, r.qname)[k].Keys == pkgs.Keys + {r.target.pkg};
    }
  }

  lemma RoutedToIts(r: Row, k: FileKey)
    ensures RoutedTo(r, k) <==> k == KeyOf(r.target) && k.dir != "" && k.filename != ""
  {}

  lemma NamesNext(before: seq<Row>, r: Row, k: FileKey, pkg: string)
    ensures Names(before + [r], k, pkg) ==
            Names(before, k, pkg) + if RoutedTo(r, k) && r.target.pkg == pkg then [r.qname] else []
  {
    assert (before + [r])[..|before|] == before;
  }

  lemma {:induction false} NamesNonEmpty(rows: seq<Row>, k: FileKey, pkg: string)
    ensures Names(rows, k, pkg) != [] <==> pkg in PackagesAt(rows, k)
  {
    if rows != [] {
      var before, r := rows[..|rows| - 1], rows[|rows| - 1];
      assert rows == before + [r];
      NamesNonEmpty(before, k, pkg);
      PackagesNext(before, r, k);
    }
  }

  /** Afterwards every output file has one package. */
  lemma ClearedIsConsistent(before: seq<Row>, after: seq<Row>, k: FileKey)
    requires |before| == |after|
    requires forall i | 0 <= i < |before| ::
               after[i].target == if Conflicted(before, KeyOf(before[i].target)) then NO_TARGET else before[i].target
    ensures !Conflicted(after, k)
  {
    forall p | p in PackagesAt(after, k) ensures p in PackagesAt(before, k) && !Conflicted(before, k) {
      var a :| a in after && RoutedTo(a, k) && a.target.pkg == p;
      var i :| 0 <= i < |after| && after[i] == a;
      assert after[i].target == before[i].target && before[i] in before;
    }
  }

  // ----------------------------------------------------- on the targets' fields

  /** Two declarations name one file, with directory and filename, and different packages for it. */
  ghost predicate Disagree(a: Target, b: Target) {
    a.dir == b.dir != "" && a.filename == b.filename != "" && a.pkg != b.pkg
  }

  lemma ConflictedExactly(rows: seq<Row>, dir: string, filename: string)
    ensures Conflicted(rows, FileKey(dir, filename)) <==>
            exists a, b :: a in rows && b in rows && a.target.dir == dir && a.target.filename == filename
                           && Disagree(a.target, b.target)
  {
    var k := FileKey(dir, filename);
    if Conflicted(rows, k) {
      var p, q :| p in PackagesAt(rows, k) && q in PackagesAt(rows, k) && p != q;
      var a :| a in rows && RoutedTo(a, k) && a.target.pkg == p;
      var b :| b in rows && RoutedTo(b, k) && b.target.pkg == q;
      assert Disagree(a.target, b.target);
    }
    if a, b :| a in rows && b in rows && a.target.dir == dir && a.target.filename == filename
               && Disagree(a.target, b.target) {
      assert a.target.pkg in PackagesAt(rows, k) && b.target.pkg in PackagesAt(rows, k);
    }
  }

  /** A target is cleared exactly when two declarations of its file disagree, its own declaration or two others. */
  lemma ClearedExactly(rows: seq<Row>, t: Target)
    ensures Conflicted(rows, KeyOf(t)) <==>
            exists a, b :: a in rows && b in rows && a.target.dir == t.dir && a.target.filename == t.filename
                           && Disagree(a.target, b.target)
  {
    ConflictedExactly(rows, t.dir, t.filename);
  }

  /** The reported names: those of the file and package, in the order the declarations are visited. */
  lemma {:induction false} NamesAppend(a: seq<Row>, b: seq<Row>, k: FileKey, pkg: string)
    ensures Names(a + b, k, pkg) == Names(a, k, pkg) + Names(b, k, pkg)
  {
    if b == [] {
      assert a + b == a;
    } else {
      assert (a + b)[..|a + b| - 1] == a + b[..|b| - 1];
      NamesAppend(a, b[..|b| - 1], k, pkg);
    }
  }

  lemma NameOfOne(r: Row, k: FileKey, pkg: string)
    ensures Names([r], k, pkg) ==
            if r.target.dir == k.dir != "" && r.target.filename == k.filename != "" && r.target.pkg == pkg
            then [r.qname] else []
  {
    assert [r][..0] == [] && [r] == [] + [r];
    NamesNext([], r, k, pkg);
    assert Names([], k, pkg) == [];
  }
}
