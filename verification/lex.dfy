/** The `Ord` of `Vec<u8>` / `Bytes`: lexicographic order on byte strings,
    where a proper prefix comes first. Public keys are sorted by it and
    `BTreeMap<Bytes, _>` iterates in it. */
module Lex {
  import opened Bytes

  /** `a <= b` in lexicographic order. */
  predicate Le(a: Bytes, b: Bytes)
    decreases |a|
  {
    if |a| == 0 then true
    else if |b| == 0 then false
    else if a[0] != b[0] then a[0] < b[0]
    else Le(a[1..], b[1..])
  }

  /** `a < b` in lexicographic order. */
  predicate Lt(a: Bytes, b: Bytes) {
    Le(a, b) && a != b
  }

  lemma {:induction false} LeReflexive(a: Bytes)
    ensures Le(a, a)
    decreases |a|
  {
    if |a| > 0 {
      LeReflexive(a[1..]);
    }
  }

  lemma {:induction false} LeAntisymmetric(a: Bytes, b: Bytes)
    requires Le(a, b) && Le(b, a)
    ensures a == b
    decreases |a|
  {
    if |a| > 0 {
      LeAntisymmetric(a[1..], b[1..]);
      assert a == [a[0]] + a[1..];
      assert b == [b[0]] + b[1..];
    }
  }

  lemma {:induction false} LeTransitive(a: Bytes, b: Bytes, c: Bytes)
    requires Le(a, b) && Le(b, c)
    ensures Le(a, c)
    decreases |a|
  {
    if |a| > 0 && a[0] == b[0] && b[0] == c[0] {
      LeTransitive(a[1..], b[1..], c[1..]);
    }
  }

  lemma {:induction false} LeTotal(a: Bytes, b: Bytes)
    ensures Le(a, b) || Le(b, a)
    decreases |a|
  {
    if |a| > 0 && |b| > 0 && a[0] == b[0] {
      LeTotal(a[1..], b[1..]);
    }
  }

  lemma LtTransitive(a: Bytes, b: Bytes, c: Bytes)
    requires Lt(a, b) && Lt(b, c)
    ensures Lt(a, c)
  {
    LeTransitive(a, b, c);
    if a == c {
      LeAntisymmetric(a, b);
    }
  }

  /** Of two distinct byte strings exactly one is the smaller. */
  lemma LtTrichotomy(a: Bytes, b: Bytes)
    ensures Lt(a, b) || a == b || Lt(b, a)
    ensures !(Lt(a, b) && Lt(b, a))
  {
    LeTotal(a, b);
    if Le(a, b) && Le(b, a) {
      LeAntisymmetric(a, b);
    }
  }

  /** `xs` is in non-decreasing order (the result of `Vec::sort`). */
  ghost predicate Sorted(xs: seq<Bytes>) {
    forall i, j :: 0 <= i < j < |xs| ==> Le(xs[i], xs[j])
  }

  /** Inserts `x` into sorted `xs` before the first element not below it. */
  function InsertSorted(x: Bytes, xs: seq<Bytes>): (r: seq<Bytes>)
    requires Sorted(xs)
    ensures Sorted(r)
    ensures multiset(r) == multiset(xs) + multiset{x}
  {
    if |xs| == 0 then [x]
    else if Le(x, xs[0]) then
      InsertSortedFront(x, xs);
      [x] + xs
    else
      LeTotal(x, xs[0]);
      var rest := InsertSorted(x, xs[1..]);
      assert xs == [xs[0]] + xs[1..];
      InsertSortedConsFront(xs[0], x, xs[1..], rest);
      [xs[0]] + rest
  }

  lemma InsertSortedFront(x: Bytes, xs: seq<Bytes>)
    requires Sorted(xs) && |xs| > 0 && Le(x, xs[0])
    ensures Sorted([x] + xs)
  {
    var r := [x] + xs;
    forall i, j | 0 <= i < j < |r|
      ensures Le(r[i], r[j])
    {
      if i == 0 && j > 1 {
        LeTransitive(x, xs[0], xs[j - 1]);
      } else if i == 0 {
        assert r[j] == xs[0];
      }
    }
  }

  lemma InsertSortedConsFront(h: Bytes, x: Bytes, tail: seq<Bytes>, rest: seq<Bytes>)
    requires Sorted([h] + tail) && Le(h, x) && Sorted(rest)
    requires multiset(rest) == multiset(tail) + multiset{x}
    ensures Sorted([h] + rest)
  {
    var r := [h] + rest;
    forall i, j | 0 <= i < j < |r|
      ensures Le(r[i], r[j])
    {
      if i == 0 {
        var y := rest[j - 1];
        assert y in multiset(rest);
        if y != x {
          assert y in multiset(tail);
          var k :| 0 <= k < |tail| && tail[k] == y;
          assert ([h] + tail)[0] == h && ([h] + tail)[k + 1] == y;
        }
        assert r[i] == h && r[j] == y;
      } else {
        assert r[i] == rest[i - 1] && r[j] == rest[j - 1];
      }
    }
  }

  /** `Vec::sort` on byte strings: the non-decreasing permutation. */
  function Sort(xs: seq<Bytes>): (r: seq<Bytes>)
    ensures Sorted(r)
    ensures multiset(r) == multiset(xs)
  {
    if |xs| == 0 then []
    else
      assert xs == xs[..|xs| - 1] + [xs[|xs| - 1]];
      InsertSorted(xs[|xs| - 1], Sort(xs[..|xs| - 1]))
  }

  /** The first element of a sorted sequence is below all its elements. */
  lemma HeadIsLeast(a: seq<Bytes>, x: Bytes)
    requires Sorted(a) && x in multiset(a)
    ensures Le(a[0], x)
  {
    var k :| 0 <= k < |a| && a[k] == x;
    if k == 0 {
      LeReflexive(x);
    }
  }

  /** A multiset has exactly one sorted arrangement, so every process that
      sorts the same validators, whatever order it received them in, gets
      the same sequence. */
  lemma {:induction false} SortedPermutationUnique(a: seq<Bytes>, b: seq<Bytes>)
    requires Sorted(a) && Sorted(b)
    requires multiset(a) == multiset(b)
    ensures a == b
    decreases |a|
  {
    assert |multiset(a)| == |a| && |multiset(b)| == |b|;
    if |a| > 0 {
      SameHead(a, b);
      DropHead(a);
      DropHead(b);
      SortedPermutationUnique(a[1..], b[1..]);
      assert a == [a[0]] + a[1..];
      assert b == [b[0]] + b[1..];
    }
  }

  /** Two sorted arrangements of one multiset start alike. */
  lemma SameHead(a: seq<Bytes>, b: seq<Bytes>)
    requires Sorted(a) && Sorted(b) && multiset(a) == multiset(b) && |a| > 0 && |b| > 0
    ensures a[0] == b[0]
  {
    assert a[0] in multiset(b) && b[0] in multiset(a);
    HeadIsLeast(b, a[0]);
    HeadIsLeast(a, b[0]);
    LeAntisymmetric(a[0], b[0]);
  }

  lemma DropHead(a: seq<Bytes>)
    requires |a| > 0
    ensures multiset(a[1..]) == multiset(a) - multiset{a[0]}
    ensures Sorted(a) ==> Sorted(a[1..])
  {
    assert a == [a[0]] + a[1..];
  }
}
