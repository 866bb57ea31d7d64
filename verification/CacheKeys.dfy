/** Cache keys: parts joined by colons, empty ones dropped. */
module CacheKeys {
  import opened Paths

  const COLON := ':'

  function NonEmpty(parts: seq<string>): seq<string> {
    if parts == [] then []
    else NonEmpty(parts[..|parts| - 1]) + if parts[|parts| - 1] == "" then [] else [parts[|parts| - 1]]
  }

  ghost function Key(parts: seq<string>): string {
    Glue(NonEmpty(parts), COLON)
  }

  method NewKey(parts: seq<string>) returns (key: string)
    ensures key == Key(parts)
  {
    if "" in parts {
      key := JoinNonEmpty(parts);
    } else {
      AllNonEmpty(parts);
      key := Glue(parts, COLON);
    }
  }

  method JoinNonEmpty(parts: seq<string>) returns (key: string)
    ensures key == Key(parts)
  {
    var kept := [];
    for i := 0 to |parts|
      invariant kept == NonEmpty(parts[..i])
    {
      assert parts[..i + 1][..i] == parts[..i];
      if parts[i] != "" {
        kept := kept + [parts[i]];
      }
    }
    assert parts[..|parts|] == parts;
    key := Glue(kept, COLON);
  }

  lemma {:induction false} AllNonEmpty(parts: seq<string>)
    requires "" !in parts
    ensures NonEmpty(parts) == parts
  {
    if parts != [] {
      assert parts == parts[..|parts| - 1] + [parts[|parts| - 1]];
      AllNonEmpty(parts[..|parts| - 1]);
    }
  }

  lemma {:induction false} NonEmptyMembers(parts: seq<string>, p: string)
    ensures p in NonEmpty(parts) <==> p in parts && p != ""
  {
    if parts != [] {
      assert parts == parts[..|parts| - 1] + [parts[|parts| - 1]];
      NonEmptyMembers(parts[..|parts| - 1], p);
    }
  }

  lemma {:induction false} NonEmptyAppend(a: seq<string>, b: seq<string>)
    ensures NonEmpty(a + b) == NonEmpty(a) + NonEmpty(b)
  {
    if b == [] {
      assert a + b == a;
    } else {
      assert (a + b)[..|a + b| - 1] == a + b[..|b| - 1];
      NonEmptyAppend(a, b[..|b| - 1]);
    }
  }

  /** What the parts come to once colons inside them count like the ones between them. */
  ghost function Cut(parts: seq<string>): seq<string> {
    if parts == [] then [] else Cut(parts[..|parts| - 1]) + Pieces(parts[|parts| - 1], COLON)
  }

  lemma {:induction false} CutAppend(a: seq<string>, b: seq<string>)
    ensures Cut(a + b) == Cut(a) + Cut(b)
  {
    hide Pieces;
    if b == [] {
      assert a + b == a;
    } else {
      assert (a + b)[..|a + b| - 1] == a + b[..|b| - 1];
      CutAppend(a, b[..|b| - 1]);
    }
  }

  lemma CutOne(p: string)
    ensures Cut([p]) == Pieces(p, COLON)
  {
    assert [p][..0] == [] && [p][|[p]| - 1] == p;
  }

  lemma {:induction false} CutOfGlue(ps: seq<string>)
    requires ps != []
    ensures Pieces(Glue(ps, COLON), COLON) == Cut(ps)
  {
    hide Pieces;
    CutOne(ps[0]);
    if |ps| == 1 {
      assert ps == [ps[0]];
    } else {
      CutOfGlue(ps[1..]);
      PiecesJoin(ps[0], Glue(ps[1..], COLON), COLON);
      assert ps == [ps[0]] + ps[1..];
      CutAppend([ps[0]], ps[1..]);
    }
  }

  lemma {:induction false} CutFree(ps: seq<string>)
    requires Free(ps, COLON)
    ensures Cut(ps) == ps
  {
    if ps != [] {
      assert ps == ps[..|ps| - 1] + [ps[|ps| - 1]];
      CutFree(ps[..|ps| - 1]);
      PiecesOfOne(ps[|ps| - 1], COLON);
    }
  }

  /** Keys collide exactly when the non-empty parts come to the same pieces; colon-free ones are their own pieces. */
  lemma CollideExactly(a: seq<string>, b: seq<string>)
    ensures Key(a) == Key(b) <==> Cut(NonEmpty(a)) == Cut(NonEmpty(b))
    ensures Free(a, COLON) && Free(b, COLON) ==> (Key(a) == Key(b) <==> NonEmpty(a) == NonEmpty(b))
  {
    hide Cut, Glue, Pieces, NonEmpty;
    KeyUnglues(a);
    KeyUnglues(b);
    GlueOfPieces(Key(a), COLON);
    GlueOfPieces(Key(b), COLON);
  }

  lemma KeyUnglues(a: seq<string>)
    ensures Cut(NonEmpty(a)) == if Key(a) == "" then [] else Pieces(Key(a), COLON)
    ensures Free(a, COLON) ==> Cut(NonEmpty(a)) == NonEmpty(a)
  {
    var ps := NonEmpty(a);
    forall p | p in ps ensures p in a && p != "" {
      NonEmptyMembers(a, p);
    }
    if Free(a, COLON) {
      CutFree(ps);
    }
    if ps != [] {
      assert ps[0] in ps;
      CutOfGlue(ps);
    }
  }

  // ------------------------------------------------------------ frontend keys

  /** What identifies a unit's graph besides the hash of its inputs. */
  datatype Request = Request(frontend: string, version: string, fingerprint: string, unit: string)

  function KeyParts(q: Request, hash: string): seq<string> {
    ["frontend", q.frontend, "version", q.version] + ["fingerprint", q.fingerprint, "unit", q.unit, "input", hash]
  }

  ghost predicate Keyable(q: Request, hash: string) {
    Free(KeyParts(q, hash), COLON) && "" !in KeyParts(q, hash)
  }

  ghost function RequestKey(q: Request, hash: string): string {
    Key(KeyParts(q, hash))
  }

  lemma GluePair(tag: string, value: string, rest: seq<string>)
    requires rest != []
    ensures Glue([tag, value] + rest, COLON) == (tag + ":" + value + ":") + Glue(rest, COLON)
  {
    var ps := [tag, value] + rest;
    assert ps[1..] == [value] + rest && ps[1..][1..] == rest && [COLON] == ":";
    assert Glue(ps[1..], COLON) == value + ":" + Glue(rest, COLON);
  }

  lemma GlueLast(tag: string, value: string)
    ensures Glue([tag, value], COLON) == tag + ":" + value
  {
    assert [tag, value][1..] == [value] && [COLON] == ":";
  }

  /** The key as it is written: label and value in turn, colons between. */
  lemma KeyText(q: Request, hash: string)
    requires q.frontend != "" && q.version != "" && q.fingerprint != "" && q.unit != "" && hash != ""
    ensures RequestKey(q, hash) ==
            ("frontend" + ":" + q.frontend + ":") + (("version" + ":" + q.version + ":") +
            (("fingerprint" + ":" + q.fingerprint + ":") + (("unit" + ":" + q.unit + ":") + ("input" + ":" + hash))))
  {
    AllNonEmpty(KeyParts(q, hash));
    hide NonEmpty, Glue;
    var p4 := ["input", hash];
    var p3 := ["unit", q.unit] + p4;
    var p2 := ["fingerprint", q.fingerprint] + p3;
    var p1 := ["version", q.version] + p2;
    assert KeyParts(q, hash) == ["frontend", q.frontend] + p1;
    GlueLast("input", hash);
    GluePair("unit", q.unit, p4);
    GluePair("fingerprint", q.fingerprint, p3);
    GluePair("version", q.version, p2);
    GluePair("frontend", q.frontend, p1);
  }

  /** Two units never share a key. */
  lemma KeyIsInjective(q: Request, hash: string, q': Request, hash': string)
    requires Keyable(q, hash) && Keyable(q', hash') && RequestKey(q, hash) == RequestKey(q', hash')
    ensures q == q' && hash == hash'
  {
    var a, b := KeyParts(q, hash), KeyParts(q', hash');
    CollideExactly(a, b);
    AllNonEmpty(a);
    AllNonEmpty(b);
    assert a[1] == q.frontend && a[3] == q.version && a[5] == q.fingerprint && a[7] == q.unit && a[9] == hash;
    assert b[1] == q'.frontend && b[3] == q'.version && b[5] == q'.fingerprint && b[7] == q'.unit && b[9] == hash';
  }

  /** They do once a part may be empty: a dropped part shifts its neighbour into its place. */
  lemma EmptyPartsCollide(fingerprint: string, unit: string, hash: string)
    ensures RequestKey(Request("", "version", fingerprint, unit), hash) ==
            RequestKey(Request("version", "", fingerprint, unit), hash)
  {
    hide NonEmpty;
    var rest := ["fingerprint", fingerprint, "unit", unit, "input", hash];
    DroppedShifts();
    NonEmptyAppend(["frontend", "", "version", "version"], rest);
    NonEmptyAppend(["frontend", "version", "version", ""], rest);
  }

  /** And once a part may hold a colon: what follows it may belong to it or to the next. */
  lemma ColonsCollide(frontend: string, unit: string, hash: string, a: string, b: string, c: string)
    requires a != "" && b != "" && c != ""
    ensures RequestKey(Request(frontend, a + ":fingerprint:" + b, c, unit), hash) ==
            RequestKey(Request(frontend, a, b + ":fingerprint:" + c, unit), hash)
  {
    hide NonEmpty, Cut, Pieces, Glue;
    var front, back := ["frontend", frontend, "version"], ["unit", unit, "input", hash];
    var x, y := [a + ":fingerprint:" + b, "fingerprint", c], [a, "fingerprint", b + ":fingerprint:" + c];
    SamePieces(a, b, c);
    SameInside(front, x, y, back);
    assert KeyParts(Request(frontend, a + ":fingerprint:" + b, c, unit), hash) == front + x + back;
    assert KeyParts(Request(frontend, a, b + ":fingerprint:" + c, unit), hash) == front + y + back;
    CollideExactly(front + x + back, front + y + back);
  }

  lemma SameInside(front: seq<string>, x: seq<string>, y: seq<string>, back: seq<string>)
    requires "" !in x && "" !in y && Cut(x) == Cut(y)
    ensures Cut(NonEmpty(front + x + back)) == Cut(NonEmpty(front + y + back))
  {
    hide NonEmpty, Cut;
    forall z | z == x || z == y
      ensures Cut(NonEmpty(front + z + back)) == Cut(NonEmpty(front)) + Cut(z) + Cut(NonEmpty(back))
    {
      AllNonEmpty(z);
      NonEmptyAppend(front + z, back);
      NonEmptyAppend(front, z);
      CutAppend(NonEmpty(front) + z, NonEmpty(back));
      CutAppend(NonEmpty(front), z);
    }
  }

  lemma SamePieces(a: string, b: string, c: string)
    ensures Cut([a + ":fingerprint:" + b, "fingerprint", c]) == Cut([a, "fingerprint", b + ":fingerprint:" + c])
  {
    hide Pieces;
    var f := "fingerprint";
    CutThree(a + ":fingerprint:" + b, f, c);
    CutThree(a, f, b + ":fingerprint:" + c);
    PiecesAround(a, f, b);
    PiecesAround(b, f, c);
    assert a + ":fingerprint:" + b == a + [COLON] + f + [COLON] + b;
    assert b + ":fingerprint:" + c == b + [COLON] + f + [COLON] + c;
  }

  lemma PiecesAround(a: string, f: string, b: string)
    ensures Pieces(a + [COLON] + f + [COLON] + b, COLON) == Pieces(a, COLON) + Pieces(f, COLON) + Pieces(b, COLON)
  {
    hide Pieces;
    PiecesJoin(a + [COLON] + f, b, COLON);
    PiecesJoin(a, f, COLON);
  }

  lemma CutThree(a: string, b: string, c: string)
    ensures Cut([a, b, c]) == Pieces(a, COLON) + Pieces(b, COLON) + Pieces(c, COLON)
  {
    hide Pieces;
    CutOne(a);
    assert [a, b, c][..2] == [a, b] && [a, b][..1] == [a];
  }

  lemma DroppedShifts()
    ensures NonEmpty(["frontend", "", "version", "version"]) == NonEmpty(["frontend", "version", "version", ""])
  {
    var f, vv := ["frontend"], ["version", "version"];
    assert ["frontend", "", "version", "version"] == (f + [""]) + vv;
    assert ["frontend", "version", "version", ""] == (f + vv) + [""];
    NonEmptyAppend(f + [""], vv);
    NonEmptyAppend(f, [""]);
    NonEmptyAppend(f + vv, [""]);
    NonEmptyAppend(f, vv);
    assert NonEmpty([""]) == NonEmpty([]);
  }
}
