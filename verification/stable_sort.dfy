/** A stable insertion sort over an arbitrary "may precede" relation, and
    the facts that make it the sort `Array.prototype.sort` performs: when the
    relation is a total preorder the result is a sorted permutation of the
    input in which elements with equal keys keep their input order (the
    stability section 23.1.3.30 of ECMA-262, 2023 edition, demands), and it
    is the only sequence with those three properties. */
module StableSort {

  /** `leq` is total and transitive (hence also reflexive). */
  ghost predicate TotalPreorder<T(!new)>(leq: (T, T) -> bool) {
    && (forall x, y :: leq(x, y) || leq(y, x))
    && (forall x, y, z :: leq(x, y) && leq(y, z) ==> leq(x, z))
  }

  /** `x` and `y` have equal keys: each may precede the other. */
  predicate Equivalent<T>(leq: (T, T) -> bool, x: T, y: T) {
    leq(x, y) && leq(y, x)
  }

  /** Every element may precede every later one. */
  predicate Sorted<T>(s: seq<T>, leq: (T, T) -> bool) {
    forall i, j | 0 <= i < j < |s| :: leq(s[i], s[j])
  }

  /** The elements of `s` whose key equals that of `k`, in their order in `s`. */
  function SameKey<T>(s: seq<T>, k: T, leq: (T, T) -> bool): (r: seq<T>)
    ensures |r| <= |s|
  {
    if |s| == 0 then []
    else (if Equivalent(leq, s[0], k) then [s[0]] else []) + SameKey(s[1..], k, leq)
  }

  /** `r` keeps the relative order that `s` gives to every class of equal keys. */
  ghost predicate Stable<T(!new)>(s: seq<T>, r: seq<T>, leq: (T, T) -> bool) {
    forall k :: SameKey(r, k, leq) == SameKey(s, k, leq)
  }

  /** Places `x` before the first element it may precede. */
  function Insert<T>(x: T, s: seq<T>, leq: (T, T) -> bool): (r: seq<T>)
    ensures multiset(r) == multiset(s) + multiset{x}
  {
    if |s| == 0 then [x]
    else if leq(x, s[0]) then [x] + s
    else
      assert s == [s[0]] + s[1..];
      [s[0]] + Insert(x, s[1..], leq)
  }

  /** Insertion sort: the head is inserted into the sorted tail, so it lands
      before every later element with an equal key. */
  function Sort<T>(s: seq<T>, leq: (T, T) -> bool): (r: seq<T>)
    ensures multiset(r) == multiset(s)
    ensures |r| == |s|
  {
    if |s| == 0 then []
    else
      assert s == [s[0]] + s[1..];
      Insert(s[0], Sort(s[1..], leq), leq)
  }

  lemma {:induction false} InsertSorted<T(!new)>(x: T, s: seq<T>, leq: (T, T) -> bool)
    requires TotalPreorder(leq)
    requires Sorted(s, leq)
    ensures Sorted(Insert(x, s, leq), leq)
    decreases |s|
  {
    if |s| > 0 && !leq(x, s[0]) {
      var tail := Insert(x, s[1..], leq);
      InsertSorted(x, s[1..], leq);
      forall e | e in tail
        ensures leq(s[0], e)
      {
        assert e in multiset(tail);
        if e != x {
          assert e in multiset(s[1..]);
          var j :| 0 <= j < |s[1..]| && s[1..][j] == e;
          assert s[j + 1] == e;
        }
      }
      var r := [s[0]] + tail;
      forall i, j | 0 <= i < j < |r|
        ensures leq(r[i], r[j])
      {
        if i == 0 {
          assert r[j] == tail[j - 1];
          assert r[j] in tail;
        } else {
          assert r[i] == tail[i - 1] && r[j] == tail[j - 1];
        }
      }
    }
  }

  /** The insertion sort yields a sorted sequence. */
  lemma {:induction false} SortSorted<T(!new)>(s: seq<T>, leq: (T, T) -> bool)
    requires TotalPreorder(leq)
    ensures Sorted(Sort(s, leq), leq)
    decreases |s|
  {
    if |s| > 0 {
      SortSorted(s[1..], leq);
      InsertSorted(s[0], Sort(s[1..], leq), leq);
    }
  }

  lemma {:induction false} SameKeyAppend<T>(a: seq<T>, b: seq<T>, k: T, leq: (T, T) -> bool)
    ensures SameKey(a + b, k, leq) == SameKey(a, k, leq) + SameKey(b, k, leq)
    decreases |a|
  {
    if |a| > 0 {
      assert (a + b)[1..] == a[1..] + b;
      SameKeyAppend(a[1..], b, k, leq);
    } else {
      assert a + b == b;
    }
  }

  /** Insertion puts `x` ahead of the elements that share its key. */
  lemma {:induction false} InsertSameKey<T(!new)>(x: T, s: seq<T>, k: T, leq: (T, T) -> bool)
    requires TotalPreorder(leq)
    ensures SameKey(Insert(x, s, leq), k, leq)
         == (if Equivalent(leq, x, k) then [x] else []) + SameKey(s, k, leq)
    decreases |s|
  {
    if |s| == 0 {
    } else if leq(x, s[0]) {
      SameKeyAppend([x], s, k, leq);
    } else {
      InsertSameKey(x, s[1..], k, leq);
      EquivalentThrough(leq, x, s[0], k);
      InsertSameKeySkip(x, s, k, leq);
    }
  }

  /** An element that `x` may not precede has a key different from every
      key equal to that of `x`. */
  lemma EquivalentThrough<T(!new)>(leq: (T, T) -> bool, x: T, y: T, k: T)
    requires TotalPreorder(leq)
    requires !leq(x, y)
    ensures Equivalent(leq, x, k) ==> !Equivalent(leq, y, k)
  {
  }

  /** The step of `InsertSameKey` where `x` passes the head of `s`. */
  lemma InsertSameKeySkip<T>(x: T, s: seq<T>, k: T, leq: (T, T) -> bool)
    requires |s| > 0 && !leq(x, s[0])
    requires Equivalent(leq, x, k) ==> !Equivalent(leq, s[0], k)
    requires SameKey(Insert(x, s[1..], leq), k, leq)
          == (if Equivalent(leq, x, k) then [x] else []) + SameKey(s[1..], k, leq)
    ensures SameKey(Insert(x, s, leq), k, leq)
         == (if Equivalent(leq, x, k) then [x] else []) + SameKey(s, k, leq)
  {
    var head: seq<T> := if Equivalent(leq, s[0], k) then [s[0]] else [];
    var xs: seq<T> := if Equivalent(leq, x, k) then [x] else [];
    var rest := SameKey(s[1..], k, leq);
    InsertPassesHead(x, s, k, leq);
    SwapAroundEmpty(head, xs, rest);
  }

  /** Passing the head of `s` keeps its contribution in front. */
  lemma InsertPassesHead<T>(x: T, s: seq<T>, k: T, leq: (T, T) -> bool)
    requires |s| > 0 && !leq(x, s[0])
    ensures SameKey(Insert(x, s, leq), k, leq)
         == (if Equivalent(leq, s[0], k) then [s[0]] else []) + SameKey(Insert(x, s[1..], leq), k, leq)
  {
    var tail := Insert(x, s[1..], leq);
    assert ([s[0]] + tail)[1..] == tail;
  }

  /** Two sequences one of which is empty can be swapped in front of a third. */
  lemma SwapAroundEmpty<T>(a: seq<T>, b: seq<T>, c: seq<T>)
    requires a == [] || b == []
    ensures a + (b + c) == b + (a + c)
  {
    if a == [] {
      assert a + (b + c) == b + c == b + (a + c);
    } else {
      assert b + (a + c) == a + c == a + (b + c);
    }
  }

  /** The insertion sort is stable. */
  lemma {:induction false} SortStable<T(!new)>(s: seq<T>, leq: (T, T) -> bool)
    requires TotalPreorder(leq)
    ensures Stable(s, Sort(s, leq), leq)
    decreases |s|
  {
    if |s| > 0 {
      forall k
        ensures SameKey(Sort(s, leq), k, leq) == SameKey(s, k, leq)
      {
        SortStable(s[1..], leq);
        InsertSameKey(s[0], Sort(s[1..], leq), k, leq);
      }
    }
  }

  lemma SortedTail<T>(s: seq<T>, leq: (T, T) -> bool)
    requires |s| > 0 && Sorted(s, leq)
    ensures Sorted(s[1..], leq)
  {
    forall p, q | 0 <= p < q < |s[1..]|
      ensures leq(s[1..][p], s[1..][q])
    {
      assert leq(s[p + 1], s[q + 1]);
    }
  }

  /** The first element of a sorted sequence may precede every element. */
  lemma SortedHeadFirst<T(!new)>(s: seq<T>, e: T, leq: (T, T) -> bool)
    requires TotalPreorder(leq)
    requires Sorted(s, leq) && e in s
    ensures leq(s[0], e)
  {
    var i :| 0 <= i < |s| && s[i] == e;
    if i > 0 {
      assert leq(s[0], s[i]);
    }
  }

  /** Sorted, stable arrangements of the same elements start alike. */
  lemma SortedStableHead<T(!new)>(a: seq<T>, b: seq<T>, leq: (T, T) -> bool)
    requires TotalPreorder(leq)
    requires |a| > 0 && multiset(a) == multiset(b)
    requires Sorted(a, leq) && Sorted(b, leq)
    requires Stable(a, b, leq)
    ensures |b| > 0 && a[0] == b[0]
  {
    var x := a[0];
    assert x in multiset(b);
    var y := b[0];
    assert y in multiset(a);
    SortedHeadFirst(a, y, leq);
    SortedHeadFirst(b, x, leq);
    assert SameKey(b, x, leq) == SameKey(a, x, leq);
    assert SameKey(a, x, leq)[0] == x;
  }

  /** Dropping a common first element keeps stability. */
  lemma StableTail<T(!new)>(a: seq<T>, b: seq<T>, leq: (T, T) -> bool)
    requires |a| > 0 && |b| > 0 && a[0] == b[0]
    requires Stable(a, b, leq)
    ensures Stable(a[1..], b[1..], leq)
  {
    forall k
      ensures SameKey(b[1..], k, leq) == SameKey(a[1..], k, leq)
    {
      var p := if Equivalent(leq, a[0], k) then [a[0]] else [];
      assert SameKey(b, k, leq) == p + SameKey(b[1..], k, leq);
      assert SameKey(a, k, leq) == p + SameKey(a[1..], k, leq);
      assert SameKey(b[1..], k, leq) == SameKey(b, k, leq)[|p|..];
    }
  }

  lemma SameElementsSameLength<T>(a: seq<T>, b: seq<T>)
    requires multiset(a) == multiset(b)
    ensures |a| == |b|
  {
    assert |a| == |multiset(a)| == |multiset(b)| == |b|;
  }

  /** Permutations with a common head are permutations after dropping it. */
  lemma SameElementsTail<T>(a: seq<T>, b: seq<T>)
    requires |a| > 0 && |b| > 0 && a[0] == b[0]
    requires multiset(a) == multiset(b)
    ensures multiset(a[1..]) == multiset(b[1..])
  {
    var x := a[0];
    assert a == [x] + a[1..] && b == [x] + b[1..];
    assert multiset(a[1..]) == multiset(a) - multiset{x} == multiset(b[1..]);
  }

  /** Two sorted, stable arrangements of the same elements are equal. */
  lemma {:induction false} SortedStableUnique<T(!new)>(a: seq<T>, b: seq<T>, leq: (T, T) -> bool)
    requires TotalPreorder(leq)
    requires multiset(a) == multiset(b)
    requires Sorted(a, leq) && Sorted(b, leq)
    requires Stable(a, b, leq)
    ensures a == b
    decreases |a|
  {
    SameElementsSameLength(a, b);
    if |a| > 0 {
      SortedStableHead(a, b, leq);
      SameElementsTail(a, b);
      SortedTail(a, leq);
      SortedTail(b, leq);
      StableTail(a, b, leq);
      SortedStableUnique(a[1..], b[1..], leq);
    }
  }

  /** The sort is fully specified by its three properties: any sorted, stable
      permutation of `s` is `Sort(s, leq)`. */
  lemma SortIsTheStableSort<T(!new)>(s: seq<T>, r: seq<T>, leq: (T, T) -> bool)
    requires TotalPreorder(leq)
    requires multiset(r) == multiset(s)
    requires Sorted(r, leq)
    requires Stable(s, r, leq)
    ensures r == Sort(s, leq)
  {
    SortSorted(s, leq);
    SortStable(s, leq);
    SortedStableUnique(r, Sort(s, leq), leq);
  }

  /** A sequence that is already sorted is left as it is. */
  lemma SortOfSorted<T(!new)>(s: seq<T>, leq: (T, T) -> bool)
    requires TotalPreorder(leq)
    requires Sorted(s, leq)
    ensures Sort(s, leq) == s
  {
    SortIsTheStableSort(s, s, leq);
  }
}
