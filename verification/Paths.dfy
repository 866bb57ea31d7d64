/**
Slash-separated paths: Go's `path.Clean`, `path.Split` and `filepath.Join` on a platform
whose separator is '/', where `filepath.ToSlash` changes nothing.
*/
module Paths {

  /** The pieces between separators; always at least one. */
  function Pieces(s: string, sep: char := '/'): (ps: seq<string>)
    ensures |ps| > 0
  {
    if s == "" then [""] else Push(s[0], Pieces(s[1..], sep), sep)
  }

  /** One more character in front. */
  function Push(c: char, rest: seq<string>, sep: char): seq<string>
    requires |rest| > 0
  {
    if c == sep then [""] + rest else [[c] + rest[0]] + rest[1..]
  }

  /** The pieces with one separator between each two. */
  function Glue(ps: seq<string>, sep: char := '/'): string {
    if ps == [] then "" else if |ps| == 1 then ps[0] else ps[0] + [sep] + Glue(ps[1..], sep)
  }

  predicate IsRooted(s: string) {
    s != "" && s[0] == '/'
  }

  /** Eliminates empty pieces, "." and "..", against the pieces already kept. */
  function Reduce(rooted: bool, kept: seq<string>, ps: seq<string>): seq<string>
    decreases |ps|
  {
    if ps == [] then kept
    else if ps[0] == "" || ps[0] == "." then Reduce(rooted, kept, ps[1..])
    else if ps[0] == ".." then
      if kept != [] && kept[|kept| - 1] != ".." then Reduce(rooted, kept[..|kept| - 1], ps[1..])
      else if rooted then Reduce(rooted, kept, ps[1..])
      else Reduce(rooted, kept + [".."], ps[1..])
    else Reduce(rooted, kept + [ps[0]], ps[1..])
  }

  /** The components a path names once cleaned. */
  function Components(s: string): seq<string> {
    Reduce(IsRooted(s), [], Pieces(s))
  }

  function Clean(s: string): string {
    if IsRooted(s) then "/" + Glue(Components(s))
    else if Components(s) == [] then "."
    else Glue(Components(s))
  }

  /** `filepath.Join` of two elements: empty ones are ignored, the rest is cleaned. */
  function Join(a: string, b: string): string {
    if a == "" && b == "" then ""
    else if a == "" then Clean(b)
    else if b == "" then Clean(a)
    else Clean(a + "/" + b)
  }

  /** `path.Split`: everything up to the last slash, and the rest. */
  function SplitLast(s: string): (r: (string, string))
    ensures r.0 + r.1 == s && '/' !in r.1
    ensures r.0 == "" || r.0[|r.0| - 1] == '/'
  {
    if s == "" || s[|s| - 1] == '/' then (s, "")
    else
      var r := SplitLast(s[..|s| - 1]);
      (r.0, r.1 + [s[|s| - 1]])
  }

  function TrimRightSlashes(s: string): string {
    if s != "" && s[|s| - 1] == '/' then TrimRightSlashes(s[..|s| - 1]) else s
  }

  /** `d` is the directory `base` or lies lexically below it. */
  ghost predicate Within(base: string, d: string) {
    IsRooted(d) == IsRooted(base) && Components(base) <= Components(d)
  }

  // ------------------------------------------------------------------ lemmas

  ghost predicate IsName(p: string) {
    p != "" && p != "." && p != ".." && '/' !in p
  }

  ghost predicate AreNames(ps: seq<string>) {
    forall p | p in ps :: IsName(p)
  }

  lemma {:induction false} PiecesJoin(a: string, b: string, sep: char := '/')
    ensures Pieces(a + [sep] + b, sep) == Pieces(a, sep) + Pieces(b, sep)
  {
    var s := a + [sep] + b;
    if a == "" {
      assert s[1..] == b;
    } else {
      assert s[1..] == a[1..] + [sep] + b;
      PiecesJoin(a[1..], b, sep);
      PushAppend(a[0], Pieces(a[1..], sep), Pieces(b, sep), sep);
    }
  }

  lemma PushAppend(c: char, x: seq<string>, y: seq<string>, sep: char)
    requires |x| > 0
    ensures Push(c, x + y, sep) == Push(c, x, sep) + y
  {
    assert (x + y)[1..] == x[1..] + y && (x + y)[0] == x[0];
    if c == sep {
      assert [""] + (x + y) == [""] + x + y;
    } else {
      assert [[c] + x[0]] + (x[1..] + y) == [[c] + x[0]] + x[1..] + y;
    }
  }

  ghost predicate Free(ps: seq<string>, sep: char := '/') {
    forall p | p in ps :: sep !in p
  }

  lemma {:induction false} PiecesAreFree(s: string, sep: char := '/')
    ensures Free(Pieces(s, sep), sep)
  {
    if s != "" {
      PiecesAreFree(s[1..], sep);
      var rest := Pieces(s[1..], sep);
      assert rest[0] in rest;
    }
  }

  lemma {:induction false} PiecesOfOne(p: string, sep: char := '/')
    requires sep !in p
    ensures Pieces(p, sep) == [p]
  {
    if p != "" {
      PiecesOfOne(p[1..], sep);
      assert p == [p[0]] + p[1..];
    }
  }

  /** Gluing pieces that hold no separator can be undone. */
  lemma {:induction false} PiecesOfGlue(ps: seq<string>, sep: char := '/')
    requires ps != [] && Free(ps, sep)
    ensures Pieces(Glue(ps, sep), sep) == ps
  {
    PiecesOfOne(ps[0], sep);
    if |ps| > 1 {
      PiecesOfGlue(ps[1..], sep);
      PiecesJoin(ps[0], Glue(ps[1..], sep), sep);
      assert ps == [ps[0]] + ps[1..];
    }
  }

  /** Cutting can always be undone. */
  lemma {:induction false} GlueOfPieces(s: string, sep: char := '/')
    ensures Glue(Pieces(s, sep), sep) == s
  {
    if s != "" {
      GlueOfPieces(s[1..], sep);
      GlueOfPush(s[0], Pieces(s[1..], sep), sep);
    }
  }

  lemma GlueOfPush(c: char, rest: seq<string>, sep: char)
    requires |rest| > 0
    ensures Glue(Push(c, rest, sep), sep) == [c] + Glue(rest, sep)
  {
    var ps := Push(c, rest, sep);
    if c == sep {
      assert ps[1..] == rest;
    } else {
      assert ps[1..] == rest[1..] && |ps| == |rest|;
    }
  }

  /** One more piece at the end of a path: nothing, a step up, or a step down. */
  ghost function Stepped(rooted: bool, cs: seq<string>, p: string): seq<string> {
    if p == "" || p == "." then cs
    else if p != ".." then cs + [p]
    else if cs != [] && cs[|cs| - 1] != ".." then cs[..|cs| - 1]
    else if rooted then cs
    else cs + [".."]
  }

  /** What a path names, piece by piece: this and `Components("") == []` determine it. */
  lemma ComponentsSnoc(s: string, p: string)
    requires '/' !in p
    ensures Components(s + "/" + p) ==
            if s == "" then Stepped(true, [], p) else Stepped(IsRooted(s), Components(s), p)
    ensures Components(p) == Stepped(false, [], p)
  {
    PiecesOfOne(p);
    PiecesJoin(s, p);
    assert Reduce(IsRooted(s), [], Pieces(s) + [p]) == Reduce(IsRooted(s), Components(s), [p]) by {
      ReduceAppend(IsRooted(s), [], Pieces(s), [p]);
    }
    ReduceOne(IsRooted(s), Components(s), p);
    ReduceOne(false, [], p);
    if s == "" {
      assert Pieces("" + "/" + p) == [""] + [p];
      ReduceAppend(true, [], [""], [p]);
      assert Reduce(true, [], [""]) == [];
      ReduceOne(true, [], p);
    }
  }

  lemma ReduceOne(rooted: bool, kept: seq<string>, p: string)
    ensures Reduce(rooted, kept, [p]) == Stepped(rooted, kept, p)
  {
    assert [p][1..] == [] && [p][0] == p;
  }

  /** Reducing in two goes. */
  lemma {:induction false} ReduceAppend(rooted: bool, kept: seq<string>, a: seq<string>, b: seq<string>)
    ensures Reduce(rooted, kept, a + b) == Reduce(rooted, Reduce(rooted, kept, a), b)
    decreases |a|
  {
    if a == [] {
      assert a + b == b;
    } else {
      assert (a + b)[1..] == a[1..] + b;
      ReduceAppend(rooted, kept, a[1..], b);
      ReduceAppend(rooted, kept + [a[0]], a[1..], b);
      ReduceAppend(rooted, kept + [".."], a[1..], b);
      if kept != [] {
        ReduceAppend(rooted, kept[..|kept| - 1], a[1..], b);
      }
    }
  }

  /** Names pass through untouched. */
  lemma {:induction false} ReduceNames(rooted: bool, kept: seq<string>, ps: seq<string>)
    requires AreNames(ps)
    ensures Reduce(rooted, kept, ps) == kept + ps
    decreases |ps|
  {
    if ps != [] {
      assert IsName(ps[0]);
      ReduceNames(rooted, kept + [ps[0]], ps[1..]);
      assert kept + ps == (kept + [ps[0]]) + ps[1..];
    }
  }

  /** Against a root nothing but names remains. */
  lemma {:induction false} ReduceRooted(kept: seq<string>, ps: seq<string>)
    requires AreNames(kept) && Free(ps)
    ensures AreNames(Reduce(true, kept, ps))
    decreases |ps|
  {
    if ps != [] {
      ReduceRooted(kept, ps[1..]);
      if IsName(ps[0]) {
        ReduceRooted(kept + [ps[0]], ps[1..]);
      }
      if kept != [] {
        ReduceRooted(kept[..|kept| - 1], ps[1..]);
      }
    }
  }

  /** A name list glued together starts with no slash. */
  lemma GlueNotRooted(ps: seq<string>)
    requires AreNames(ps)
    ensures !IsRooted(Glue(ps)) && (Glue(ps) == "" <==> ps == [])
  {
    if ps != [] {
      assert IsName(ps[0]) && ps[0][0] in ps[0];
      assert Glue(ps)[0] == ps[0][0];
    }
  }

  /** ".." can only lead: it is kept only when nothing but ".." precedes it. */
  ghost predicate LeadingDots(rooted: bool, ps: seq<string>, n: int) {
    0 <= n <= |ps| && (rooted ==> n == 0) && (forall k | 0 <= k < n :: ps[k] == "..") && AreNames(ps[n..])
  }

  lemma LastIsName(rooted: bool, kept: seq<string>, n: nat)
    requires LeadingDots(rooted, kept, n) && n < |kept|
    ensures IsName(kept[|kept| - 1])
  {
    assert kept[|kept| - 1] == kept[n..][|kept| - 1 - n];
  }

  lemma {:induction false} ReduceIsReduced(rooted: bool, kept: seq<string>, ps: seq<string>, n: nat) returns (m: nat)
    requires LeadingDots(rooted, kept, n) && Free(ps)
    ensures LeadingDots(rooted, Reduce(rooted, kept, ps), m)
    decreases |ps|
  {
    if ps == [] {
      m := n;
    } else if ps[0] == "" || ps[0] == "." {
      m := ReduceIsReduced(rooted, kept, ps[1..], n);
    } else if ps[0] == ".." {
      if kept != [] && kept[|kept| - 1] != ".." {
        assert kept[..|kept| - 1][n..] == kept[n..][..|kept| - 1 - n];
        m := ReduceIsReduced(rooted, kept[..|kept| - 1], ps[1..], n);
      } else if rooted {
        m := ReduceIsReduced(rooted, kept, ps[1..], n);
      } else {
        if n < |kept| {
          LastIsName(rooted, kept, n);
        }
        m := ReduceIsReduced(rooted, kept + [".."], ps[1..], n + 1);
      }
    } else {
      assert (kept + [ps[0]])[n..] == kept[n..] + [ps[0]];
      m := ReduceIsReduced(rooted, kept + [ps[0]], ps[1..], n);
    }
  }

  /** Reducing a reduced list changes nothing. */
  lemma {:induction false} ReduceReduced(rooted: bool, kept: seq<string>, ps: seq<string>, n: nat)
    requires LeadingDots(rooted, ps, n) && (n > 0 ==> forall p | p in kept :: p == "..")
    ensures Reduce(rooted, kept, ps) == kept + ps
    decreases |ps|
  {
    hide Reduce;
    if n == 0 {
      assert ps[0..] == ps;
      ReduceNames(rooted, kept, ps);
    } else {
      assert ps[1..][n - 1..] == ps[n..];
      ReduceDots(rooted, kept, ps);
      ReduceReduced(rooted, kept + [".."], ps[1..], n - 1);
      assert kept + ps == (kept + [".."]) + ps[1..];
    }
  }

  lemma ReduceDots(rooted: bool, kept: seq<string>, ps: seq<string>)
    requires !rooted && ps != [] && ps[0] == ".." && forall p | p in kept :: p == ".."
    ensures Reduce(rooted, kept, ps) == Reduce(rooted, kept + [".."], ps[1..])
  {
    if kept != [] {
      assert kept[|kept| - 1] in kept;
    }
  }

  /** Cleaning keeps what a path names. */
  lemma CleanKeepsComponents(s: string)
    ensures IsRooted(Clean(s)) == IsRooted(s) && Components(Clean(s)) == Components(s)
  {
    var cs := Components(s);
    PiecesAreFree(s);
    var n := ReduceIsReduced(IsRooted(s), [], Pieces(s), 0);
    ReduceReduced(IsRooted(s), [], cs, n);
    forall p | p in cs ensures '/' !in p && p != "" {
      var k :| 0 <= k < |cs| && cs[k] == p;
      assert k >= n ==> cs[k] in cs[n..];
    }
    if cs != [] {
      PiecesOfGlue(cs);
      assert cs[0] in cs && Glue(cs)[0] == cs[0][0] && cs[0][0] in cs[0];
    } else {
      assert Pieces(".") == ["."] by { PiecesOfOne("."); }
    }
    if IsRooted(s) {
      assert Clean(s)[1..] == Glue(cs);
      assert Pieces(Clean(s)) == [""] + Pieces(Glue(cs));
      assert Pieces(Clean(s))[1..] == Pieces(Glue(cs));
      assert cs == [] ==> Reduce(true, [], Pieces(Glue(cs))) == [];
    }
  }

  /** Joining names below a directory appends them to what the directory names. */
  lemma JoinNames(base: string, names: seq<string>)
    requires AreNames(names)
    ensures IsRooted(Join(base, Glue(names))) == IsRooted(base)
    ensures Components(Join(base, Glue(names))) == Components(base) + names
  {
    var b := Glue(names);
    GlueNotRooted(names);
    CleanKeepsComponents(base);
    if names != [] {
      PiecesOfGlue(names);
      CleanKeepsComponents(b);
      ReduceNames(IsRooted(base), Components(base), names);
      if base != "" {
        CleanKeepsComponents(base + "/" + b);
        PiecesJoin(base, b);
        ReduceAppend(IsRooted(base), [], Pieces(base), names);
      }
    }
  }
}
