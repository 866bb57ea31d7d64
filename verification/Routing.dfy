/** Where a declaration's output goes: splitting override paths and composing the target. */
module Routing {
  import opened Paths

  function EndsWith(s: string, suffix: string): bool {
    |s| >= |suffix| && s[|s| - |suffix|..] == suffix
  }

  /** The relative directory and the filename an override value names; clamped below its anchor. */
  function SplitOut(value: string): (string, string) {
    var rel := Clamped(value);
    SplitRel(if EndsWith(value, "/") && rel != "" then rel + "/" else rel)
  }

  /** Cleaned against a synthetic root, so that no ".." is left to climb with. */
  function Clamped(value: string): string {
    var cleaned := Clean("/" + value);
    if IsRooted(cleaned) then cleaned[1..] else cleaned
  }

  function SplitRel(rel: string): (string, string) {
    (TrimRightSlashes(SplitLast(rel).0), SplitLast(rel).1)
  }

  /** The names an override value walks down, with every ".." cancelled against a synthetic root. */
  function NamesIn(value: string): seq<string> {
    Components("/" + value)
  }

  /** Those of them that are directories. */
  function DirNames(value: string): seq<string> {
    var names := NamesIn(value);
    if names == [] || EndsWith(value, "/") then names else names[..|names| - 1]
  }

  lemma NamesAreNames(value: string)
    ensures AreNames(NamesIn(value)) && AreNames(DirNames(value))
  {
    PiecesAreFree("/" + value);
    ReduceRooted([], Pieces("/" + value));
  }

  lemma {:induction false} GlueSnoc(ps: seq<string>, p: string)
    ensures Glue(ps + [p]) == if ps == [] then p else Glue(ps) + "/" + p
  {
    if |ps| == 1 {
      assert (ps + [p])[1..] == [p];
    } else if |ps| > 1 {
      GlueSnoc(ps[1..], p);
      assert (ps + [p])[1..] == ps[1..] + [p];
    }
  }

  lemma {:induction false} SplitLastAt(a: string, b: string)
    requires (a == "" || a[|a| - 1] == '/') && '/' !in b
    ensures SplitLast(a + b) == (a, b)
  {
    if b == "" {
      assert a + b == a;
    } else {
      SplitLastAt(a, b[..|b| - 1]);
      assert (a + b)[..|a + b| - 1] == a + b[..|b| - 1];
      assert b == b[..|b| - 1] + [b[|b| - 1]];
      assert b[|b| - 1] in b;
    }
  }

  lemma GlueEnd(ps: seq<string>)
    requires AreNames(ps)
    ensures ps != [] ==> Glue(ps) != "" && Glue(ps)[|Glue(ps)| - 1] != '/'
    ensures TrimRightSlashes(Glue(ps)) == Glue(ps)
    ensures TrimRightSlashes(Glue(ps) + "/") == Glue(ps)
  {
    if ps != [] {
      var front, last := ps[..|ps| - 1], ps[|ps| - 1];
      assert ps == front + [last];
      GlueSnoc(front, last);
      assert IsName(last) && last[|last| - 1] in last;
    }
    assert (Glue(ps) + "/")[..|Glue(ps)|] == Glue(ps);
  }

  lemma ClampedIsNames(value: string)
    ensures Clamped(value) == Glue(NamesIn(value))
  {
    hide Components, Glue;
    assert Clean("/" + value)[1..] == Glue(NamesIn(value));
  }

  /** With a trailing slash everything is directory. */
  lemma SplitDirectory(names: seq<string>)
    requires AreNames(names)
    ensures SplitRel(Glue(names) + "/") == (Glue(names), "")
  {
    hide Glue, SplitLast, TrimRightSlashes;
    GlueEnd(names);
    assert (Glue(names) + "/") + "" == Glue(names) + "/";
    SplitLastAt(Glue(names) + "/", "");
  }

  /** Without one the last name is the filename. */
  lemma SplitFile(front: seq<string>, last: string)
    requires AreNames(front) && IsName(last)
    ensures SplitRel(Glue(front + [last])) == (Glue(front), last)
  {
    hide Glue, SplitLast, TrimRightSlashes;
    GlueSnoc(front, last);
    GlueEnd(front);
    if front == [] {
      EmptyGlue();
      assert "" + last == last;
      SplitLastAt("", last);
    } else {
      SplitLastAt(Glue(front) + "/", last);
    }
  }

  lemma EmptyGlue()
    ensures Glue([]) == "" && SplitRel("") == ("", "")
  {}

  /** Exactly what a split yields: the directory names glued, and the last name unless the value ends in a slash. */
  lemma SplitOutExactly(value: string)
    ensures SplitOut(value).0 == Glue(DirNames(value))
    ensures SplitOut(value).1 == if DirNames(value) == NamesIn(value) then "" else NamesIn(value)[|NamesIn(value)| - 1]
  {
    hide Components, Glue, SplitRel, Clamped;
    var names := NamesIn(value);
    NamesAreNames(value);
    ClampedIsNames(value);
    EmptyGlue();
    GlueNotRooted(names);
    SplitDirectory(names);
    if names != [] {
      assert names == names[..|names| - 1] + [names[|names| - 1]];
      SplitFile(names[..|names| - 1], names[|names| - 1]);
    }
  }

  /** The filename component of a split is empty or a plain name: no separator, not "." and not "..". */
  lemma SplitFilename(value: string)
    ensures SplitOut(value).1 == "" || IsName(SplitOut(value).1)
  {
    SplitOutExactly(value);
    NamesAreNames(value);
    if DirNames(value) != NamesIn(value) {
      assert NamesIn(value)[|NamesIn(value)| - 1] in NamesIn(value);
    }
  }

  /** The value a split stands for. */
  function Rejoin(dir: string, filename: string): string {
    if dir == "" then filename else dir + "/" + filename
  }

  /** Splitting again what a split returned changes nothing. */
  lemma SplitIsStable(value: string)
    ensures SplitOut(Rejoin(SplitOut(value).0, SplitOut(value).1)) == SplitOut(value)
  {
    var dirs, f := DirNames(value), SplitOut(value).1;
    var again := Rejoin(Glue(dirs), f);
    SplitOutExactly(value);
    SplitFilename(value);
    NamesAreNames(value);
    GlueNotRooted(dirs);
    RejoinNames(dirs, f);
    SplitOutExactly(again);
  }

  lemma RejoinNames(dirs: seq<string>, f: string)
    requires AreNames(dirs) && (f == "" || IsName(f))
    ensures NamesIn(Rejoin(Glue(dirs), f)) == dirs + if f == "" then [] else [f]
    ensures DirNames(Rejoin(Glue(dirs), f)) == dirs
  {
    hide Components, Glue, Reduce;
    var v := Rejoin(Glue(dirs), f);
    RejoinPieces(dirs, f);
    ReduceDirsAndFile(dirs, f);
    GlueNotRooted(dirs);
    if f == "" {
      assert dirs != [] ==> v[|v| - 1..] == "/";
    } else {
      assert v[|v| - 1] == f[|f| - 1] && f[|f| - 1] in f;
    }
  }

  lemma ReduceDirsAndFile(dirs: seq<string>, f: string)
    requires AreNames(dirs) && (f == "" || IsName(f))
    ensures Reduce(true, [], [""] + (dirs + [f])) == dirs + if f == "" then [] else [f]
  {
    assert ([""] + (dirs + [f]))[1..] == dirs + [f];
    ReduceAppend(true, [], dirs, [f]);
    ReduceNames(true, [], dirs);
    assert Reduce(true, dirs, [f]) == dirs + if f == "" then [] else [f];
  }

  lemma RejoinPieces(dirs: seq<string>, f: string)
    requires AreNames(dirs) && '/' !in f
    ensures NamesIn(Rejoin(Glue(dirs), f)) == Reduce(true, [], [""] + (dirs + [f]))
  {
    var v := Rejoin(Glue(dirs), f);
    hide Reduce, Glue;
    GlueNotRooted(dirs);
    PiecesOfOne(f);
    if dirs != [] {
      PiecesOfGlue(dirs);
      PiecesJoin(Glue(dirs), f);
    }
    assert ("/" + v)[1..] == v;
    assert Pieces(v) == dirs + [f];
    assert Pieces("/" + v) == [""] + Pieces(v);
  }

  lemma EndsWithExactly(s: string, suffix: string)
    ensures EndsWith(s, suffix) <==> exists x :: s == x + suffix
  {
    if EndsWith(s, suffix) {
      assert s == s[..|s| - |suffix|] + suffix;
    }
  }
}
