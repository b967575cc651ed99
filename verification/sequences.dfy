/** Sequence operations the product list builds on: the distinct values of
    a sequence in first-occurrence order (what spreading a JavaScript `Set`
    built from an array yields) and removing every occurrence of a value
    (an `Array.prototype.filter` with `!==`). */
module Sequences {

  /** No value occurs twice. */
  predicate NoDuplicates<T(==, !new)>(s: seq<T>) {
    forall i, j | 0 <= i < j < |s| :: s[i] != s[j]
  }

  /** The position of the first occurrence of `x` in `s`, or `|s|` when
      there is none. */
  function FirstIndex<T(==, !new)>(s: seq<T>, x: T): (i: nat)
    ensures i <= |s| && x !in s[..i]
    ensures i < |s| <==> x in s
    ensures i < |s| ==> s[i] == x
  {
    if |s| == 0 then 0
    else if s[0] == x then 0
    else
      assert s[1..] == s[1..][..FirstIndex(s[1..], x)] + s[1..][FirstIndex(s[1..], x)..];
      1 + FirstIndex(s[1..], x)
  }

  /** A value first seen in a prefix is first seen at the same place in the
      whole sequence. */
  lemma {:induction false} FirstIndexPrefix<T(!new)>(s: seq<T>, n: nat, x: T)
    requires n <= |s| && x in s[..n]
    ensures FirstIndex(s, x) == FirstIndex(s[..n], x)
  {
    var i := FirstIndex(s[..n], x);
    assert s[..n][..i] == s[..i];
    FirstIndexUnique(s, x, i);
  }

  /** A position holding `x` with no `x` before it is the first index. */
  lemma {:induction false} FirstIndexUnique<T(!new)>(s: seq<T>, x: T, i: nat)
    requires i < |s| && s[i] == x && x !in s[..i]
    ensures FirstIndex(s, x) == i
  {
    if i > 0 {
      assert s[0] != x by {
        assert s[0] == s[..i][0];
      }
      assert s[1..][..i - 1] == s[..i][1..];
      FirstIndexUnique(s[1..], x, i - 1);
    }
  }

  /** The distinct values of `s`, each at the place it first occurs. */
  function Distinct<T(==, !new)>(s: seq<T>): (r: seq<T>)
    ensures NoDuplicates(r)
    ensures forall x :: x in r <==> x in s
    ensures forall i, j | 0 <= i < j < |r| :: FirstIndex(s, r[i]) < FirstIndex(s, r[j])
  {
    if |s| == 0 then []
    else
      var n := |s| - 1;
      var d := Distinct(s[..n]);
      assert s == s[..n] + [s[n]];
      DistinctStep(s, d);
      if s[n] in d then d else d + [s[n]]
  }

  /** Values already seen in `s[..|s| - 1]` keep their first index in `s`,
      and the last element, if new, is first seen at the end. */
  lemma DistinctStep<T(!new)>(s: seq<T>, d: seq<T>)
    requires |s| > 0
    requires forall x :: x in d <==> x in s[..|s| - 1]
    ensures forall i | 0 <= i < |d| :: FirstIndex(s, d[i]) == FirstIndex(s[..|s| - 1], d[i])
    ensures s[|s| - 1] !in d ==> FirstIndex(s, s[|s| - 1]) == |s| - 1
  {
    var n := |s| - 1;
    forall i | 0 <= i < |d|
      ensures FirstIndex(s, d[i]) == FirstIndex(s[..n], d[i])
    {
      assert d[i] in d;
      FirstIndexPrefix(s, n, d[i]);
    }
    if s[n] !in d {
      FirstIndexUnique(s, s[n], n);
    }
  }

  /** Appending values never moves the ones already seen: the distinct values
      of a prefix are a prefix of the distinct values of the whole. */
  lemma {:induction false} DistinctAppend<T(!new)>(s: seq<T>, t: seq<T>)
    ensures Distinct(s) <= Distinct(s + t)
    decreases |t|
  {
    if |t| > 0 {
      var u := s + t[..|t| - 1];
      assert (s + t)[..|s + t| - 1] == u;
      assert s + t[..|t| - 1] == u;
      DistinctAppend(s, t[..|t| - 1]);
    } else {
      assert s + t == s;
    }
  }

  /** Every element of `s` except those equal to `v`, in order. */
  function RemoveAll<T(==, !new)>(s: seq<T>, v: T): (r: seq<T>)
    ensures v !in r
    ensures forall x :: x in r <==> x in s && x != v
    ensures forall x | x != v :: multiset(r)[x] == multiset(s)[x]
    ensures IsSubsequence(r, s)
  {
    if |s| == 0 then []
    else
      assert s == [s[0]] + s[1..];
      if s[0] == v then RemoveAll(s[1..], v) else [s[0]] + RemoveAll(s[1..], v)
  }

  /** `a` is obtained from `b` by deleting elements: the order is kept. */
  predicate IsSubsequence<T(==, !new)>(a: seq<T>, b: seq<T>)
    decreases |b|
  {
    if |a| == 0 then true
    else if |b| == 0 then false
    else if a[0] == b[0] then IsSubsequence(a[1..], b[1..])
    else IsSubsequence(a, b[1..])
  }

  /** Removing a value that was just appended gives back what removing it
      before the append gives. */
  lemma {:induction false} RemoveAllAppended<T(!new)>(s: seq<T>, v: T)
    ensures RemoveAll(s + [v], v) == RemoveAll(s, v)
    decreases |s|
  {
    if |s| == 0 {
      assert RemoveAll([v], v) == RemoveAll([v][1..], v);
    } else {
      assert (s + [v])[1..] == s[1..] + [v];
      RemoveAllAppended(s[1..], v);
    }
  }

  /** Removing a value that does not occur changes nothing. */
  lemma {:induction false} RemoveAllAbsent<T(!new)>(s: seq<T>, v: T)
    requires v !in s
    ensures RemoveAll(s, v) == s
    decreases |s|
  {
    if |s| > 0 {
      assert v !in s[1..];
      RemoveAllAbsent(s[1..], v);
    }
  }
}
