/** Sorted, duplicate-free sequences under a strict total order: what a
    `sort` followed by `dedup` (or the iteration order of a `BTreeSet`)
    leaves of a list. The result is determined by the order and the set of
    elements alone, whatever sorting algorithm produced it. */
module Sorting {

  /** lt is irreflexive, transitive and total on distinct elements. */
  ghost predicate StrictOrder<T(!new)>(lt: (T, T) -> bool) {
    && (forall a :: !lt(a, a))
    && (forall a, b, c :: lt(a, b) && lt(b, c) ==> lt(a, c))
    && (forall a, b :: a != b ==> lt(a, b) || lt(b, a))
  }

  predicate Distinct<T(==)>(s: seq<T>) {
    forall i, j :: 0 <= i < j < |s| ==> s[i] != s[j]
  }

  /** `iter().position(|y| y == x)`: the index of the first occurrence. */
  function FirstIndex<T(==)>(s: seq<T>, x: T): (i: nat)
    requires x in s
    ensures i < |s| && s[i] == x
    ensures forall j | 0 <= j < i :: s[j] != x
  {
    if s[0] == x then 0 else 1 + FirstIndex(s[1..], x)
  }

  /** In a sequence without duplicates, the first occurrence is the only
      one. */
  lemma FirstIndexOfDistinct<T>(s: seq<T>, i: nat)
    requires Distinct(s) && i < |s|
    ensures FirstIndex(s, s[i]) == i
  {
  }

  predicate StrictlySorted<T>(s: seq<T>, lt: (T, T) -> bool) {
    forall i, j :: 0 <= i < j < |s| ==> lt(s[i], s[j])
  }

  /** x placed into the sorted s at its position, unless it is there. */
  function Insert<T(==,!new)>(s: seq<T>, x: T, lt: (T, T) -> bool): (r: seq<T>)
    ensures forall y :: y in r <==> y in s || y == x
  {
    if s == [] then [x]
    else if s[0] == x then s
    else if lt(x, s[0]) then [x] + s
    else [s[0]] + Insert(s[1..], x, lt)
  }

  /** Sort-and-dedup: the elements of xs, sorted, each once. */
  function SortDedup<T(==,!new)>(xs: seq<T>, lt: (T, T) -> bool): (r: seq<T>)
    ensures forall y :: y in r <==> y in xs
  {
    if xs == [] then [] else Insert(SortDedup(xs[..|xs| - 1], lt), xs[|xs| - 1], lt)
  }

  lemma {:induction false} InsertSorted<T(!new)>(s: seq<T>, x: T, lt: (T, T) -> bool)
    requires StrictOrder(lt) && StrictlySorted(s, lt)
    ensures StrictlySorted(Insert(s, x, lt), lt)
  {
    if s != [] && s[0] != x && !lt(x, s[0]) {
      InsertSorted(s[1..], x, lt);
      var r := Insert(s, x, lt);
      var tail := Insert(s[1..], x, lt);
      assert lt(s[0], x);
      forall y | y in tail
        ensures lt(s[0], y)
      {
        if y != x {
          var k :| 1 <= k < |s| && s[k] == y;
        }
      }
      forall i, j | 0 <= i < j < |r|
        ensures lt(r[i], r[j])
      {
        if i > 0 {
          assert r[i] == tail[i - 1] && r[j] == tail[j - 1];
        } else {
          assert r[j] == tail[j - 1];
          assert r[j] in tail;
        }
      }
    }
  }

  /** Sort-and-dedup leaves a strictly sorted sequence of exactly the
      elements it was given. */
  lemma {:induction false} SortDedupSorted<T(!new)>(xs: seq<T>, lt: (T, T) -> bool)
    requires StrictOrder(lt)
    ensures StrictlySorted(SortDedup(xs, lt), lt)
  {
    if xs != [] {
      SortDedupSorted(xs[..|xs| - 1], lt);
      InsertSorted(SortDedup(xs[..|xs| - 1], lt), xs[|xs| - 1], lt);
    }
  }

  /** A strictly sorted sequence has no duplicates. */
  lemma SortedDistinct<T(!new)>(s: seq<T>, lt: (T, T) -> bool)
    requires StrictOrder(lt) && StrictlySorted(s, lt)
    ensures Distinct(s)
  {
    forall i, j | 0 <= i < j < |s|
      ensures s[i] != s[j]
    {
      assert lt(s[i], s[j]);
    }
  }

  /** Two strictly sorted sequences with the same elements are equal: the
      result of sort-and-dedup does not depend on how it was computed. */
  lemma {:induction false} SortedUnique<T(!new)>(s: seq<T>, t: seq<T>, lt: (T, T) -> bool)
    requires StrictOrder(lt) && StrictlySorted(s, lt) && StrictlySorted(t, lt)
    requires forall y :: y in s <==> y in t
    ensures s == t
    decreases |s|
  {
    assert s != [] ==> s[0] in t;
    assert t != [] ==> t[0] in s;
    if s != [] && t != [] {
      // the least element of each is the least of the other
      assert s[0] in t && t[0] in s;
      assert s[0] == t[0];
      forall y
        ensures y in s[1..] <==> y in t[1..]
      {
        if y in s[1..] {
          var k :| 1 <= k < |s| && s[k] == y;
          assert lt(s[0], y);
          assert y in t && y != t[0];
        }
        if y in t[1..] {
          var k :| 1 <= k < |t| && t[k] == y;
          assert lt(t[0], y);
          assert y in s && y != s[0];
        }
      }
      SortedUnique(s[1..], t[1..], lt);
      assert s == [s[0]] + s[1..] && t == [t[0]] + t[1..];
    }
  }

  // ------------------------------------------------------------ string order

  /** The order of `String`: lexicographic on the characters (for UTF-8,
      byte order and code-point order agree). */
  predicate LexLess(a: string, b: string) {
    if a == [] then b != []
    else if b == [] then false
    else if a[0] != b[0] then a[0] < b[0]
    else LexLess(a[1..], b[1..])
  }

  lemma {:induction false} LexIrreflexive(a: string)
    ensures !LexLess(a, a)
  {
    if a != [] {
      LexIrreflexive(a[1..]);
    }
  }

  lemma {:induction false} LexTransitive(a: string, b: string, c: string)
    requires LexLess(a, b) && LexLess(b, c)
    ensures LexLess(a, c)
  {
    if a != [] && b != [] && c != [] && a[0] == b[0] && b[0] == c[0] {
      LexTransitive(a[1..], b[1..], c[1..]);
    }
  }

  lemma {:induction false} LexTotal(a: string, b: string)
    requires a != b
    ensures LexLess(a, b) || LexLess(b, a)
  {
    if a != [] && b != [] && a[0] == b[0] {
      LexTotal(a[1..], b[1..]);
    }
  }

  /** The string order is a strict total order. */
  lemma LexIsStrictOrder()
    ensures StrictOrder((a: string, b: string) => LexLess(a, b))
  {
    var lt := (a: string, b: string) => LexLess(a, b);
    forall a: string
      ensures !lt(a, a)
    {
      LexIrreflexive(a);
    }
    forall a: string, b: string, c: string | lt(a, b) && lt(b, c)
      ensures lt(a, c)
    {
      LexTransitive(a, b, c);
    }
    forall a: string, b: string | a != b
      ensures lt(a, b) || lt(b, a)
    {
      LexTotal(a, b);
    }
  }
}
