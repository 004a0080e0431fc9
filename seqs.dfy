/** Sequence facts used to describe the two chains as orders of slot numbers. */
module Seqs {

  ghost predicate Distinct(s: seq<nat>) {
    forall i, j :: 0 <= i < j < |s| ==> s[i] != s[j]
  }

  /** The sequence with the element at position k deleted. */
  function RemoveAt<X>(s: seq<X>, k: nat): (r: seq<X>)
    requires k < |s|
    ensures |r| == |s| - 1
    ensures forall p :: 0 <= p < |r| ==> r[p] == if p < k then s[p] else s[p + 1]
  {
    s[..k] + s[k + 1..]
  }

  /** The sequence with x placed at position k. */
  function InsertAt<X>(s: seq<X>, k: nat, x: X): (r: seq<X>)
    requires k <= |s|
    ensures |r| == |s| + 1
    ensures r[k] == x
    ensures forall p :: 0 <= p < |r| && p != k ==> r[p] == if p < k then s[p] else s[p - 1]
  {
    s[..k] + [x] + s[k..]
  }

  lemma InsertAtEnds<X>(s: seq<X>, x: X)
    ensures InsertAt(s, 0, x) == [x] + s
    ensures InsertAt(s, |s|, x) == s + [x]
  {
    assert s[..0] == [] && s[0..] == s;
    assert s[..|s|] == s && s[|s|..] == [];
  }

  lemma InsertAtMembers(s: seq<nat>, k: nat, x: nat)
    requires k <= |s|
    ensures forall y :: y in InsertAt(s, k, x) <==> y == x || y in s
  {
    assert s == s[..k] + s[k..];
  }

  lemma RemoveAtMembers(s: seq<nat>, k: nat)
    requires k < |s|
    ensures forall y :: y in RemoveAt(s, k) ==> y in s
  {
    assert s == s[..k] + [s[k]] + s[k + 1..];
  }

  /** The first position of x in s. */
  ghost function PositionOf(s: seq<nat>, x: nat): (k: nat)
    requires x in s
    ensures k < |s| && s[k] == x
    ensures forall j :: 0 <= j < k ==> s[j] != x
  {
    if s[0] == x then 0 else 1 + PositionOf(s[1..], x)
  }

  /** In a sequence without repetitions, the k-th element is first found at k. */
  lemma PositionOfDistinct(s: seq<nat>, k: nat)
    requires Distinct(s) && k < |s|
    ensures PositionOf(s, s[k]) == k
  {
  }

  /** Deleting the element at k and placing x there replaces it. */
  lemma RemoveInsertAt<X>(s: seq<X>, k: nat, x: X)
    requires k < |s|
    ensures InsertAt(RemoveAt(s, k), k, x) == s[k := x]
  {
  }

  /** Dropping the last element of a prefix, and moving it onto the following suffix. */
  lemma PrefixStep<X>(s: seq<X>, n: nat)
    requires 0 < n <= |s|
    ensures s[..n][..n - 1] == s[..n - 1] && s[..n][n - 1] == s[n - 1]
    ensures [s[n - 1]] + s[n..] == s[n - 1..]
  {
  }

  /** Putting an element in front of a concatenation puts it in front of its first part. */
  lemma ConsAppend<X>(x: X, a: seq<X>, b: seq<X>)
    ensures [x] + (a + b) == ([x] + a) + b
    ensures (a + b)[|a|..] == b
  {
  }

  /** In a sequence without repetitions, the k-th element is in a prefix exactly when the prefix reaches past k. */
  lemma InPrefix(s: seq<nat>, k: nat, n: nat)
    requires Distinct(s) && k < |s| && n <= |s|
    ensures s[k] in s[..n] <==> k < n
  {
    if s[k] in s[..n] {
      var j :| 0 <= j < n && s[..n][j] == s[k];
      assert s[j] == s[k];
    }
  }

  lemma DistinctTail(s: seq<nat>)
    requires Distinct(s) && s != []
    ensures Distinct(s[1..]) && s[0] !in s[1..]
  {
    forall i, j | 0 <= i < j < |s[1..]| ensures s[1..][i] != s[1..][j] {
      assert s[1..][i] == s[i + 1] && s[1..][j] == s[j + 1];
    }
  }

  lemma DistinctCons(x: nat, s: seq<nat>)
    requires Distinct(s) && x !in s
    ensures Distinct([x] + s)
  {
    var r := [x] + s;
    forall i, j | 0 <= i < j < |r| ensures r[i] != r[j] {
      assert r[j] == s[j - 1];
      if i > 0 {
        assert r[i] == s[i - 1];
      }
    }
  }

  /** The elements of s that are below n, in their order in s. */
  function Below(s: seq<nat>, n: nat): (r: seq<nat>)
    ensures forall x :: x in r <==> x in s && x < n
  {
    if s == [] then []
    else (if s[0] < n then [s[0]] else []) + Below(s[1..], n)
  }

  lemma {:induction false} BelowDistinct(s: seq<nat>, n: nat)
    requires Distinct(s)
    ensures Distinct(Below(s, n))
  {
    if s != [] {
      DistinctTail(s);
      BelowDistinct(s[1..], n);
      if s[0] < n {
        DistinctCons(s[0], Below(s[1..], n));
      }
    }
  }

  lemma {:induction false} BelowAll(s: seq<nat>, n: nat)
    requires forall k :: 0 <= k < |s| ==> s[k] < n
    ensures Below(s, n) == s
  {
    if s != [] {
      BelowAll(s[1..], n);
    }
  }

  /** The sequence with every copy of x deleted. */
  function Without(s: seq<nat>, x: nat): (r: seq<nat>)
    ensures forall y :: y in r <==> y in s && y != x
  {
    if s == [] then []
    else (if s[0] != x then [s[0]] else []) + Without(s[1..], x)
  }

  lemma {:induction false} WithoutAbsent(s: seq<nat>, x: nat)
    requires x !in s
    ensures Without(s, x) == s
  {
    if s != [] {
      WithoutAbsent(s[1..], x);
    }
  }

  /** In a sequence without repetitions, deleting the element at k deletes every copy of it. */
  lemma {:induction false} WithoutIsRemoveAt(s: seq<nat>, k: nat)
    requires Distinct(s) && k < |s|
    ensures Without(s, s[k]) == RemoveAt(s, k)
  {
    DistinctTail(s);
    if k == 0 {
      WithoutAbsent(s[1..], s[0]);
    } else {
      WithoutIsRemoveAt(s[1..], k - 1);
      assert s[1..][k - 1] == s[k];
      assert RemoveAt(s, k) == [s[0]] + RemoveAt(s[1..], k - 1);
    }
  }

  lemma {:induction false} WithoutAppend(a: seq<nat>, b: seq<nat>, x: nat)
    ensures Without(a + b, x) == Without(a, x) + Without(b, x)
  {
    if a == [] {
      assert a + b == b;
    } else {
      assert (a + b)[1..] == a[1..] + b;
      WithoutAppend(a[1..], b, x);
    }
  }

  /** Cutting an order below x + 1 and then deleting x is cutting it below x. */
  lemma {:induction false} BelowStep(s: seq<nat>, x: nat)
    ensures Without(Below(s, x + 1), x) == Below(s, x)
  {
    if s != [] {
      BelowStep(s[1..], x);
      WithoutAppend(if s[0] < x + 1 then [s[0]] else [], Below(s[1..], x + 1), x);
    }
  }

  /** The set of the elements of s. */
  ghost function Elems(s: seq<nat>): (r: set<nat>)
    ensures forall x :: x in r <==> x in s
  {
    if s == [] then {} else {s[0]} + Elems(s[1..])
  }

  /** A sequence without repetitions has as many elements as its set. */
  lemma {:induction false} DistinctCard(s: seq<nat>)
    requires Distinct(s)
    ensures |Elems(s)| == |s|
  {
    if s != [] {
      DistinctTail(s);
      DistinctCard(s[1..]);
      assert s[0] !in Elems(s[1..]);
    }
  }

  /** Two sequences without repetitions that hold the same elements have the same length. */
  lemma SameElementsSameLength(a: seq<nat>, b: seq<nat>)
    requires Distinct(a) && Distinct(b)
    requires forall x :: x in a <==> x in b
    ensures |a| == |b|
  {
    DistinctCard(a);
    DistinctCard(b);
    assert Elems(a) == Elems(b);
  }
}
