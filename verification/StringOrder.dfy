/** Go's string order, and sequences sorted by it. */
module StringOrder {
  import opened Collections

  /** Lexicographic by character; byte order on UTF-8 and code point order agree. */
  predicate Leq(a: string, b: string) {
    a == [] || (b != [] && (a[0] < b[0] || (a[0] == b[0] && Leq(a[1..], b[1..]))))
  }

  predicate Less(a: string, b: string) {
    a != b && Leq(a, b)
  }

  lemma {:induction false} LeqTotal(a: string, b: string)
    ensures Leq(a, b) || Leq(b, a)
    ensures Leq(a, b) && Leq(b, a) ==> a == b
  {
    if a != [] && b != [] {
      LeqTotal(a[1..], b[1..]);
      assert a == [a[0]] + a[1..] && b == [b[0]] + b[1..];
    }
  }

  lemma {:induction false} LeqTransitive(a: string, b: string, c: string)
    requires Leq(a, b) && Leq(b, c)
    ensures Leq(a, c)
  {
    if a != [] && b != [] && c != [] && a[0] == b[0] == c[0] {
      LeqTransitive(a[1..], b[1..], c[1..]);
    }
  }

  lemma LessTransitive(a: string, b: string, c: string)
    requires Less(a, b) && Less(b, c)
    ensures Less(a, c)
  {
    LeqTransitive(a, b, c);
    LeqTotal(a, b);
  }

  /** Strictly ascending, hence without repetition. */
  ghost predicate Ascending(s: seq<string>) {
    forall i, j | 0 <= i < j < |s| :: Less(s[i], s[j])
  }

  ghost predicate IsLeast(x: string, s: set<string>) {
    x in s && forall y | y in s :: Leq(x, y)
  }

  lemma LeastUnique(x: string, y: string, s: set<string>)
    requires IsLeast(x, s) && IsLeast(y, s)
    ensures x == y
  {
    LeqTotal(x, y);
  }

  lemma AscendingHead(s: seq<string>)
    requires Ascending(s) && s != []
    ensures IsLeast(s[0], Elements(s))
    ensures Ascending(s[1..]) && Elements(s[1..]) == Elements(s) - {s[0]}
  {
    LeqTotal(s[0], s[0]);
    assert s == [s[0]] + s[1..];
    forall y | y in Elements(s) ensures Leq(s[0], y) {
      var i :| 0 <= i < |s| && s[i] == y;
    }
  }

  /** A set has one ascending listing. */
  lemma {:induction false} AscendingUnique(a: seq<string>, b: seq<string>)
    requires Ascending(a) && Ascending(b) && Elements(a) == Elements(b)
    ensures a == b
  {
    NoElements(a);
    NoElements(b);
    if a != [] {
      AscendingHead(a);
      AscendingHead(b);
      LeastUnique(a[0], b[0], Elements(a));
      AscendingUnique(a[1..], b[1..]);
      assert a == [a[0]] + a[1..] && b == [b[0]] + b[1..];
    }
  }

  /** In order, repetitions allowed. */
  ghost predicate Sorted(s: seq<string>) {
    forall i, j | 0 <= i < j < |s| :: Leq(s[i], s[j])
  }

  lemma LeqLess(a: string, b: string, c: string)
    requires Leq(a, b) && Less(b, c)
    ensures Less(a, c)
  {
    LeqTransitive(a, b, c);
    LeqTotal(a, b);
  }

  /** The leftmost position whose element is not below `v`. */
  method BinarySearch(s: seq<string>, v: string) returns (i: nat)
    requires Sorted(s)
    ensures i <= |s|
    ensures forall k | 0 <= k < i :: Less(s[k], v)
    ensures forall k | i <= k < |s| :: Leq(v, s[k])
  {
    i := 0;
    var j := |s|;
    while i < j
      invariant 0 <= i <= j <= |s|
      invariant forall k | 0 <= k < i :: Less(s[k], v)
      invariant forall k | j <= k < |s| :: Leq(v, s[k])
    {
      var h := (i + j) / 2;
      LeqTotal(s[h], v);
      if Less(s[h], v) {
        forall k | 0 <= k < h ensures Less(s[k], v) { LeqLess(s[k], s[h], v); }
        i := h + 1;
      } else {
        forall k | h <= k < |s| ensures Leq(v, s[k]) {
          if k > h { LeqTransitive(v, s[h], s[k]); }
        }
        j := h;
      }
    }
  }

  /** Inserts an element, keeping the order; a new one keeps a strict order strict. */
  method InsertSorted(s: seq<string>, v: string) returns (r: seq<string>)
    requires Sorted(s)
    ensures Sorted(r) && multiset(r) == multiset(s) + multiset{v} && Elements(r) == Elements(s) + {v}
    ensures Ascending(s) && v !in s ==> Ascending(r)
  {
    hide Leq;
    var i := BinarySearch(s, v);
    r := s[..i] + [v] + s[i..];
    assert s == s[..i] + s[i..];
    InsertedInOrder(s, v, i);
  }

  lemma InsertedInOrder(s: seq<string>, v: string, i: nat)
    requires Sorted(s) && i <= |s|
    requires (forall k | 0 <= k < i :: Less(s[k], v)) && forall k | i <= k < |s| :: Leq(v, s[k])
    ensures Sorted(s[..i] + [v] + s[i..])
    ensures Ascending(s) && v !in s ==> Ascending(s[..i] + [v] + s[i..])
  {
    hide Leq;
  }

  /** `slices.Sort` on the keys of a map, met in any order. */
  method SortedKeys(keys: set<string>) returns (r: seq<string>)
    ensures Ascending(r) && Elements(r) == keys
  {
    r := [];
    var left := keys;
    while left != {}
      invariant left <= keys
      invariant Ascending(r) && Elements(r) == keys - left
      decreases left
    {
      var k :| k in left;
      assert k !in Elements(r);
      r := InsertSorted(r, k);
      left := left - {k};
    }
  }

  /** A chain of comparisons: the first field that differs decides. */
  predicate LexLess(a: seq<string>, b: seq<string>)
    requires |a| == |b|
  {
    a != [] && (Less(a[0], b[0]) || (a[0] == b[0] && LexLess(a[1..], b[1..])))
  }

  lemma {:induction false} LexTotal(a: seq<string>, b: seq<string>)
    requires |a| == |b|
    ensures a == b <==> !LexLess(a, b) && !LexLess(b, a)
    ensures !(LexLess(a, b) && LexLess(b, a))
  {
    if a != [] {
      LeqTotal(a[0], b[0]);
      LexTotal(a[1..], b[1..]);
      assert a == [a[0]] + a[1..] && b == [b[0]] + b[1..];
    }
  }

  lemma {:induction false} LexTransitive(a: seq<string>, b: seq<string>, c: seq<string>)
    requires |a| == |b| == |c| && LexLess(a, b) && LexLess(b, c)
    ensures LexLess(a, c)
  {
    if Less(a[0], b[0]) && Less(b[0], c[0]) {
      LessTransitive(a[0], b[0], c[0]);
    } else if a[0] == b[0] == c[0] {
      LexTransitive(a[1..], b[1..], c[1..]);
    }
  }

  /** Fields that agree decide nothing. */
  lemma {:induction false} LexPrefix(p: seq<string>, a: seq<string>, b: seq<string>)
    requires |a| == |b| && LexLess(a, b)
    ensures LexLess(p + a, p + b)
  {
    if p == [] {
      assert p + a == a && p + b == b;
    } else {
      LexPrefix(p[1..], a, b);
      assert (p + a)[1..] == p[1..] + a && (p + b)[1..] == p[1..] + b;
    }
  }

  /** Before in the order: a proper prefix, or smaller at the first character that differs. */
  lemma {:induction false} LessExactly(a: string, b: string)
    ensures Less(a, b) <==> a < b || exists k :: 0 <= k < |a| && k < |b| && a[..k] == b[..k] && a[k] < b[k]
  {
    if a == [] || b == [] {
    } else if a[0] != b[0] {
      assert a[..0] == b[..0];
      forall k | 0 < k < |a| && k < |b| ensures a[..k] != b[..k] {
        assert a[..k][0] == a[0] && b[..k][0] == b[0];
      }
    } else {
      var s, t := a[1..], b[1..];
      assert a == [a[0]] + s && b == [a[0]] + t;
      LessExactly(s, t);
      forall k | 0 <= k < |s| && k < |t| ensures a[..k + 1] == b[..k + 1] <==> s[..k] == t[..k] {
        assert a[..k + 1] == [a[0]] + s[..k] && b[..k + 1] == [a[0]] + t[..k];
        assert a[..k + 1][1..] == s[..k] && b[..k + 1][1..] == t[..k];
      }
      if k :| 0 <= k < |s| && k < |t| && s[..k] == t[..k] && s[k] < t[k] {
        assert a[..k + 1] == b[..k + 1] && a[k + 1] < b[k + 1];
      }
      if k :| 0 <= k < |a| && k < |b| && a[..k] == b[..k] && a[k] < b[k] {
        assert s[..k - 1] == t[..k - 1] && s[k - 1] < t[k - 1];
      }
    }
  }
}
