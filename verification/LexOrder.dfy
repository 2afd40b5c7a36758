/** Strict orders, their lexicographic extension to sequences, and stable sorting. */
module LexOrder {

  ghost predicate StrictTotal<T(!new)>(less: (T, T) -> bool) {
    && (forall a :: !less(a, a))
    && (forall a, b :: a == b || less(a, b) || less(b, a))
    && (forall a, b, c :: less(a, b) && less(b, c) ==> less(a, c))
  }

  /** Compare by the first position where the sequences differ; a proper prefix is smaller. */
  predicate LexLess<T(==)>(less: (T, T) -> bool, a: seq<T>, b: seq<T>) {
    if b == [] then false
    else if a == [] then true
    else if a[0] == b[0] then LexLess(less, a[1..], b[1..])
    else less(a[0], b[0])
  }

  lemma {:induction false} LexIrreflexive<T(!new)>(less: (T, T) -> bool, a: seq<T>)
    requires StrictTotal(less)
    ensures !LexLess(less, a, a)
  {
    if a != [] {
      LexIrreflexive(less, a[1..]);
    }
  }

  lemma {:induction false} LexTotal<T(!new)>(less: (T, T) -> bool, a: seq<T>, b: seq<T>)
    requires StrictTotal(less)
    ensures a == b || LexLess(less, a, b) || LexLess(less, b, a)
  {
    if a != [] && b != [] && a[0] == b[0] {
      LexTotal(less, a[1..], b[1..]);
      assert a == [a[0]] + a[1..] && b == [b[0]] + b[1..];
    }
  }

  lemma {:induction false} LexTransitive<T(!new)>(less: (T, T) -> bool, a: seq<T>, b: seq<T>, c: seq<T>)
    requires StrictTotal(less) && LexLess(less, a, b) && LexLess(less, b, c)
    ensures LexLess(less, a, c)
  {
    if a != [] && a[0] == b[0] && b[0] == c[0] {
      LexTransitive(less, a[1..], b[1..], c[1..]);
    }
  }

  /** The lexicographic extension of a strict total order is one. */
  lemma LexExtends<T(!new)>(less: (T, T) -> bool, lex: (seq<T>, seq<T>) -> bool)
    requires StrictTotal(less) && forall a, b :: lex(a, b) == LexLess(less, a, b)
    ensures StrictTotal(lex)
  {
    forall a: seq<T>
      ensures !lex(a, a)
    {
      LexIrreflexive(less, a);
    }
    forall a: seq<T>, b: seq<T>
      ensures a == b || lex(a, b) || lex(b, a)
    {
      LexTotal(less, a, b);
    }
    forall a: seq<T>, b: seq<T>, c: seq<T> | lex(a, b) && lex(b, c)
      ensures lex(a, c)
    {
      LexTransitive(less, a, b, c);
    }
  }

  /** Pairs compared by first component, then by second. */
  predicate PairLess<A(==), B>(lessA: (A, A) -> bool, lessB: (B, B) -> bool, p: (A, B), q: (A, B)) {
    if p.0 == q.0 then lessB(p.1, q.1) else lessA(p.0, q.0)
  }

  lemma PairExtends<A(!new), B(!new)>(lessA: (A, A) -> bool, lessB: (B, B) -> bool, pair: ((A, B), (A, B)) -> bool)
    requires StrictTotal(lessA) && StrictTotal(lessB) && forall p, q :: pair(p, q) == PairLess(lessA, lessB, p, q)
    ensures StrictTotal(pair)
  {
    forall p, q, r | pair(p, q) && pair(q, r)
      ensures pair(p, r)
    {
      assert lessA(p.0, q.0) && lessA(q.0, r.0) ==> p.0 != r.0;
    }
  }

  // ---- Stable sorting ------------------------------------------------------------------

  /** `less` orders elements, perhaps leaving different elements unordered. */
  ghost predicate StrictWeak<T(!new)>(less: (T, T) -> bool) {
    && (forall a :: !less(a, a))
    && (forall a, b, c :: less(a, b) && less(b, c) ==> less(a, c))
    && (forall a, b, c :: !less(b, a) && !less(c, b) ==> !less(c, a))
  }

  /** Put `x` after every element that is not greater. */
  function Insert<T>(less: (T, T) -> bool, x: T, s: seq<T>): seq<T> {
    if s == [] then [x]
    else if less(x, s[0]) then [x] + s
    else [s[0]] + Insert(less, x, s[1..])
  }

  /** The stable sort of a sequence. */
  function SortBy<T>(less: (T, T) -> bool, s: seq<T>): seq<T> {
    if s == [] then [] else Insert(less, s[|s| - 1], SortBy(less, s[..|s| - 1]))
  }

  ghost predicate Sorted<T>(less: (T, T) -> bool, s: seq<T>) {
    forall i, j :: 0 <= i < j < |s| ==> !less(s[j], s[i])
  }

  lemma {:induction false} InsertContents<T>(less: (T, T) -> bool, x: T, s: seq<T>)
    ensures multiset(Insert(less, x, s)) == multiset(s) + multiset{x}
  {
    if s != [] && !less(x, s[0]) {
      InsertContents(less, x, s[1..]);
      assert s == [s[0]] + s[1..];
    }
  }

  lemma {:induction false} InsertSorted<T(!new)>(less: (T, T) -> bool, x: T, s: seq<T>)
    requires StrictWeak(less) && Sorted(less, s)
    ensures Sorted(less, Insert(less, x, s))
  {
    if s == [] {
    } else if less(x, s[0]) {
      forall j | 0 <= j < |s|
        ensures !less(s[j], x)
      {
        if j > 0 {
          assert !less(s[j], s[0]);
        }
      }
    } else {
      InsertSorted(less, x, s[1..]);
      InsertContents(less, x, s[1..]);
      var rest := Insert(less, x, s[1..]);
      forall j | 0 <= j < |rest|
        ensures !less(rest[j], s[0])
      {
        assert rest[j] in multiset(rest);
        if rest[j] != x {
          assert rest[j] in s[1..];
        }
      }
    }
  }

  lemma {:induction false} SortContents<T>(less: (T, T) -> bool, s: seq<T>)
    ensures multiset(SortBy(less, s)) == multiset(s)
    ensures |SortBy(less, s)| == |s|
  {
    if s == [] {
    } else {
      var init, x := s[..|s| - 1], s[|s| - 1];
      SortContents(less, init);
      InsertContents(less, x, SortBy(less, init));
      assert s == init + [x];
      assert |multiset(SortBy(less, s))| == |multiset(s)|;
    }
  }

  lemma {:induction false} SortSorted<T(!new)>(less: (T, T) -> bool, s: seq<T>)
    requires StrictWeak(less)
    ensures Sorted(less, SortBy(less, s))
  {
    if s == [] {
    } else {
      SortSorted(less, s[..|s| - 1]);
      InsertSorted(less, s[|s| - 1], SortBy(less, s[..|s| - 1]));
    }
  }

  /** Different elements of the sequence are ordered one way or the other. */
  ghost predicate Comparable<T>(less: (T, T) -> bool, s: seq<T>) {
    forall a, b :: a in s && b in s && a != b ==> less(a, b) || less(b, a)
  }

  lemma SortedHead<T(!new)>(less: (T, T) -> bool, s: seq<T>, x: T)
    requires StrictWeak(less) && Sorted(less, s) && x in s
    ensures !less(x, s[0])
  {
    var i :| 0 <= i < |s| && s[i] == x;
    if i > 0 {
      assert !less(s[i], s[0]);
    }
  }

  lemma SameLength<T>(a: seq<T>, b: seq<T>)
    requires multiset(a) == multiset(b)
    ensures |a| == |b|
  {
    assert |multiset(a)| == |a| && |multiset(b)| == |b|;
  }

  lemma SortedTail<T(!new)>(less: (T, T) -> bool, s: seq<T>)
    requires Sorted(less, s) && s != []
    ensures Sorted(less, s[1..])
  {
    forall i, j | 0 <= i < j < |s[1..]|
      ensures !less(s[1..][j], s[1..][i])
    {
      assert !less(s[j + 1], s[i + 1]);
    }
  }

  lemma TailContents<T>(s: seq<T>)
    requires s != []
    ensures multiset(s[1..]) == multiset(s) - multiset{s[0]}
  {
    assert s == [s[0]] + s[1..];
  }

  /** Two sorted arrangements of comparable elements start with the same element. */
  lemma SameHead<T(!new)>(less: (T, T) -> bool, a: seq<T>, b: seq<T>)
    requires StrictWeak(less) && Sorted(less, a) && Sorted(less, b) && Comparable(less, a)
    requires multiset(a) == multiset(b) && a != [] && b != []
    ensures a[0] == b[0]
  {
    assert a[0] in multiset(b) && b[0] in multiset(a);
    SortedHead(less, a, b[0]);
    SortedHead(less, b, a[0]);
    assert b[0] in a;
  }

  /** A multiset of comparable elements has one sorted arrangement, whatever algorithm produced it. */
  lemma {:induction false} SortedUnique<T(!new)>(less: (T, T) -> bool, a: seq<T>, b: seq<T>)
    requires StrictWeak(less) && Sorted(less, a) && Sorted(less, b) && Comparable(less, a)
    requires multiset(a) == multiset(b)
    ensures a == b
  {
    SameLength(a, b);
    if a == [] {
    } else {
      SameHead(less, a, b);
      SortedTail(less, a);
      SortedTail(less, b);
      assert Comparable(less, a[1..]) by {
        assert forall x :: x in a[1..] ==> x in a;
      }
      hide *;
      TailContents(a);
      TailContents(b);
      SortedUnique(less, a[1..], b[1..]);
      assert a == [a[0]] + a[1..] && b == [b[0]] + b[1..];
    }
  }

  /** Sorting depends only on the contents. */
  lemma SortPermutation<T(!new)>(less: (T, T) -> bool, a: seq<T>, b: seq<T>)
    requires StrictWeak(less) && Comparable(less, a) && multiset(a) == multiset(b)
    ensures SortBy(less, a) == SortBy(less, b)
  {
    SortContents(less, a);
    SortContents(less, b);
    SortSorted(less, a);
    SortSorted(less, b);
    ComparableContents(less, a, SortBy(less, a));
    SortedUnique(less, SortBy(less, a), SortBy(less, b));
  }

  /** Sorting a sorted sequence is the identity. */
  lemma SortOfSorted<T(!new)>(less: (T, T) -> bool, a: seq<T>)
    requires StrictWeak(less) && Comparable(less, a) && Sorted(less, a)
    ensures SortBy(less, a) == a
  {
    SortContents(less, a);
    SortSorted(less, a);
    SortedUnique(less, a, SortBy(less, a));
  }

  lemma ComparableContents<T>(less: (T, T) -> bool, a: seq<T>, b: seq<T>)
    requires Comparable(less, a) && multiset(a) == multiset(b)
    ensures Comparable(less, b)
  {
    forall x | x in b
      ensures x in a
    {
      assert x in multiset(b);
    }
  }

  // ---- Permutations ----------------------------------------------------------------------

  function Drop(perm: seq<nat>, p: nat): (r: seq<nat>)
    ensures |r| == |perm|
  {
    seq(|perm|, i requires 0 <= i < |perm| => if perm[i] > p then perm[i] - 1 else perm[i])
  }

  /** `perm` lists each index below its length once. */
  ghost predicate IsPermutation(perm: seq<nat>) {
    && (forall i :: 0 <= i < |perm| ==> perm[i] < |perm|)
    && (forall i, j :: 0 <= i < j < |perm| ==> perm[i] != perm[j])
  }

  /** `b` is `a` rearranged by `perm`. */
  ghost predicate Rearranged<T>(a: seq<T>, b: seq<T>, perm: seq<nat>) {
    && |a| == |b| == |perm| && IsPermutation(perm)
    && forall i :: 0 <= i < |a| ==> a[i] == b[perm[i]]
  }

  lemma RemoveAt<T>(s: seq<T>, k: nat)
    requires k < |s|
    ensures multiset(s) == multiset(s[..k] + s[k + 1..]) + multiset{s[k]}
    ensures multiset(s[..k] + s[k + 1..]) == multiset(s) - multiset{s[k]}
  {
    assert s == s[..k] + [s[k]] + s[k + 1..];
  }

  /** Prepend index `k`, shifting the indices from `k` on up by one. */
  function Raise(inner: seq<nat>, k: nat): (perm: seq<nat>)
    ensures |perm| == |inner| + 1 && perm[0] == k
  {
    [k] + seq(|inner|, i requires 0 <= i < |inner| => if inner[i] >= k then inner[i] + 1 else inner[i])
  }

  lemma RaisePermutation(inner: seq<nat>, k: nat)
    requires IsPermutation(inner) && k <= |inner|
    ensures IsPermutation(Raise(inner, k))
  {
    var perm := Raise(inner, k);
    forall i, j | 0 <= i < j < |perm|
      ensures perm[i] != perm[j]
    {
      if i > 0 {
        assert inner[i - 1] != inner[j - 1];
      }
    }
  }

  lemma RaiseRearranged<T>(a: seq<T>, b: seq<T>, k: nat, inner: seq<nat>)
    requires |a| > 0 && k < |b| && a[0] == b[k] && Rearranged(a[1..], b[..k] + b[k + 1..], inner)
    ensures Rearranged(a, b, Raise(inner, k))
  {
    RaisePermutation(inner, k);
    var perm, rest := Raise(inner, k), b[..k] + b[k + 1..];
    forall i | 0 <= i < |a|
      ensures a[i] == b[perm[i]]
    {
      if i > 0 {
        assert a[1..][i - 1] == rest[inner[i - 1]];
      }
    }
  }

  /** Sequences with the same contents are rearrangements of each other. */
  lemma {:induction false} SameContentsRearranged<T>(a: seq<T>, b: seq<T>) returns (perm: seq<nat>)
    requires multiset(a) == multiset(b)
    ensures Rearranged(a, b, perm)
  {
    SameLength(a, b);
    if a == [] {
      perm := [];
    } else {
      hide Rearranged, Raise;
      assert a[0] in multiset(b);
      var k :| 0 <= k < |b| && b[k] == a[0];
      TailContents(a);
      RemoveAt(b, k);
      var inner := SameContentsRearranged(a[1..], b[..k] + b[k + 1..]);
      RaiseRearranged(a, b, k, inner);
      perm := Raise(inner, k);
    }
  }

  /** Rearranged sequences have the same contents. */
  lemma {:induction false} RearrangedSameContents<T>(a: seq<T>, b: seq<T>, perm: seq<nat>)
    requires Rearranged(a, b, perm)
    ensures multiset(a) == multiset(b)
  {
    if a == [] {
    } else {
      var k := perm[0];
      var rest := b[..k] + b[k + 1..];
      var inner := Drop(perm[1..], k);
      assert forall i :: 0 <= i < |inner| ==> a[1..][i] == rest[inner[i]];
      RearrangedSameContents(a[1..], rest, inner);
      TailContents(a);
      RemoveAt(b, k);
    }
  }
}
