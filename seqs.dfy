/** Order-preserving selection over sequences: the shape of every
    "walk the enumeration and Add the ones that qualify" loop in the helpers. */
module Seqs {

  /** The elements of `s` that satisfy `p`, in their original order. */
  function Filter<T(!new)>(s: seq<T>, p: T -> bool): (r: seq<T>)
    ensures |r| <= |s|
    ensures forall x :: x in r <==> x in s && p(x)
    decreases |s|
  {
    if s == [] then [] else (if p(s[0]) then [s[0]] else []) + Filter(s[1..], p)
  }

  lemma {:induction false} FilterConcat<T(!new)>(a: seq<T>, b: seq<T>, p: T -> bool)
    ensures Filter(a + b, p) == Filter(a, p) + Filter(b, p)
    decreases |a|
  {
    if a == [] {
      assert a + b == b;
    } else {
      assert (a + b)[0] == a[0];
      assert (a + b)[1..] == a[1..] + b;
      FilterConcat(a[1..], b, p);
    }
  }

  /** Appending one element extends the selection by that element exactly when it qualifies. */
  lemma FilterSnoc<T(!new)>(s: seq<T>, x: T, p: T -> bool)
    ensures Filter(s + [x], p) == Filter(s, p) + (if p(x) then [x] else [])
  {
    FilterConcat(s, [x], p);
    assert [x][1..] == [];
  }

  /** `a` can be obtained from `b` by deleting elements (order kept, nothing added). */
  predicate IsSubsequence<T(==)>(a: seq<T>, b: seq<T>)
    decreases |b|
  {
    if a == [] then true
    else if b == [] then false
    else if a[0] == b[0] then IsSubsequence(a[1..], b[1..])
    else IsSubsequence(a, b[1..])
  }

  lemma {:induction false} FilterIsSubsequence<T(!new)>(s: seq<T>, p: T -> bool)
    ensures IsSubsequence(Filter(s, p), s)
    decreases |s|
  {
    if s != [] {
      FilterIsSubsequence(s[1..], p);
      if p(s[0]) {
        assert Filter(s, p) == [s[0]] + Filter(s[1..], p);
        assert Filter(s, p)[1..] == Filter(s[1..], p);
      } else {
        assert Filter(s, p) == Filter(s[1..], p);
      }
    }
  }

  /** Filtering never duplicates: an element occurs in the selection at most as often as in the input. */
  lemma {:induction false} FilterCountBound<T(!new)>(s: seq<T>, p: T -> bool)
    ensures multiset(Filter(s, p)) <= multiset(s)
    decreases |s|
  {
    if s != [] {
      FilterCountBound(s[1..], p);
      assert s == [s[0]] + s[1..];
      assert multiset(s) == multiset([s[0]]) + multiset(s[1..]);
    }
  }

  /** Selecting with a predicate every element satisfies keeps the whole sequence. */
  lemma {:induction false} FilterAll<T(!new)>(s: seq<T>, p: T -> bool)
    requires forall x :: x in s ==> p(x)
    ensures Filter(s, p) == s
    decreases |s|
  {
    if s != [] {
      FilterAll(s[1..], p);
      assert [s[0]] + s[1..] == s;
    }
  }

  /** Selecting with a predicate no element satisfies gives nothing. */
  lemma FilterNone<T(!new)>(s: seq<T>, p: T -> bool)
    requires forall x :: x in s ==> !p(x)
    ensures Filter(s, p) == []
  {
    if Filter(s, p) != [] {
      assert Filter(s, p)[0] in Filter(s, p);
    }
  }

  /** Two predicates that agree on every element select the same elements. */
  lemma {:induction false} FilterEquivalent<T(!new)>(s: seq<T>, p: T -> bool, q: T -> bool)
    requires forall x :: x in s ==> p(x) == q(x)
    ensures Filter(s, p) == Filter(s, q)
    decreases |s|
  {
    if s != [] {
      assert s[0] in s;
      assert forall x :: x in s[1..] ==> x in s;
      FilterEquivalent(s[1..], p, q);
    }
  }

  /** The index at which a forward scan that stops on `p` stops: the first element
      satisfying `p`, or `|s|` when there is none. */
  function FirstIndex<T>(s: seq<T>, p: T -> bool): (k: nat)
    ensures k <= |s|
    ensures k < |s| ==> p(s[k])
    ensures forall j :: 0 <= j < k ==> !p(s[j])
    decreases |s|
  {
    if s == [] then 0 else if p(s[0]) then 0 else 1 + FirstIndex(s[1..], p)
  }

  /** The first index has no rival: a stopping point with nothing before it that
      stops is the first index. */
  lemma FirstIndexUnique<T>(s: seq<T>, p: T -> bool, k: nat)
    requires k <= |s| && (k < |s| ==> p(s[k]))
    requires forall j :: 0 <= j < k ==> !p(s[j])
    ensures FirstIndex(s, p) == k
  {
  }

  /** Two predicates that agree on every element stop the scan at the same place. */
  lemma {:induction false} FirstIndexEquivalent<T>(s: seq<T>, p: T -> bool, q: T -> bool)
    requires forall j :: 0 <= j < |s| ==> p(s[j]) == q(s[j])
    ensures FirstIndex(s, p) == FirstIndex(s, q)
    decreases |s|
  {
    if s != [] && !p(s[0]) {
      FirstIndexEquivalent(s[1..], p, q);
    }
  }
}
