/**
 * The order facts behind SortList (linklist.c): what "sorted under a
 * comparator" means, the adjacent swap SwapList performs, and the inversion
 * count that every swap of an out-of-order pair lowers by one, which is why
 * the repeated bubble passes of SortList come to an end.
 */
module LinkSort {
  /**
   * The NodeCompareFunc contract of linklist.h: the sign of cmp(a, b) says
   * whether a is greater than, equal to or less than b, so the signs are
   * antisymmetric and "not greater" is transitive.
   */
  ghost predicate ThreeWay<T(!new)>(cmp: (T, T) -> int)
  {
    Antisymmetric(cmp) && Transitive(cmp)
  }

  /** a is greater than b exactly when b is less than a. */
  ghost predicate Antisymmetric<T(!new)>(cmp: (T, T) -> int)
  {
    forall a, b :: cmp(a, b) > 0 <==> cmp(b, a) < 0
  }

  /** "Not greater" is transitive. */
  ghost predicate Transitive<T(!new)>(cmp: (T, T) -> int)
  {
    forall a, b, c {:trigger cmp(a, b), cmp(b, c), cmp(a, c)} :: cmp(a, b) <= 0 && cmp(b, c) <= 0 ==> cmp(a, c) <= 0
  }

  /** Every pair in order is not greater under cmp. */
  ghost predicate Sorted<T(!new)>(s: seq<T>, cmp: (T, T) -> int)
  {
    forall i, j :: 0 <= i < j < |s| ==> cmp(s[i], s[j]) <= 0
  }

  /** Every neighbouring pair is not greater under cmp: what a pass without a swap observes. */
  ghost predicate AdjacentSorted<T(!new)>(s: seq<T>, cmp: (T, T) -> int)
  {
    forall i :: 0 <= i < |s| - 1 ==> cmp(s[i], s[i + 1]) <= 0
  }

  /** The neighbouring pairs starting before k are not greater: what a pass has seen so far. */
  ghost predicate AdjacentSortedBelow<T(!new)>(s: seq<T>, cmp: (T, T) -> int, k: int)
  {
    forall i :: 0 <= i < k && i + 1 < |s| ==> cmp(s[i], s[i + 1]) <= 0
  }

  /** One more pair in order extends what the pass has seen. */
  lemma AdjacentSortedStep<T(!new)>(s: seq<T>, cmp: (T, T) -> int, k: int)
    requires AdjacentSortedBelow(s, cmp, k) && 0 <= k < |s| - 1 && cmp(s[k], s[k + 1]) <= 0
    ensures AdjacentSortedBelow(s, cmp, k + 1)
  {
  }

  /** s with the elements at k and k + 1 exchanged. */
  function SwapAt<T>(s: seq<T>, k: int): (r: seq<T>)
    requires 0 <= k < |s| - 1
    ensures |r| == |s| && r[k] == s[k + 1] && r[k + 1] == s[k]
    ensures forall i :: 0 <= i < |s| && i != k && i != k + 1 ==> r[i] == s[i]
    ensures multiset(r) == multiset(s)
  {
    var r := seq(|s|, i requires 0 <= i < |s| => if i == k then s[k + 1] else if i == k + 1 then s[k] else s[i]);
    assert r == s[..k] + [s[k + 1], s[k]] + s[k + 2..];
    assert s == s[..k] + [s[k], s[k + 1]] + s[k + 2..];
    r
  }

  /** The number of elements of t that x is greater than. */
  ghost function CountGreater<T(!new)>(x: T, t: seq<T>, cmp: (T, T) -> int): nat
  {
    if t == [] then 0 else (if cmp(x, t[0]) > 0 then 1 else 0) + CountGreater(x, t[1..], cmp)
  }

  /** The number of pairs i < j with s[i] greater than s[j]. */
  ghost function Inversions<T(!new)>(s: seq<T>, cmp: (T, T) -> int): nat
  {
    if s == [] then 0 else CountGreater(s[0], s[1..], cmp) + Inversions(s[1..], cmp)
  }

  lemma {:induction false} CountGreaterAppend<T(!new)>(x: T, u: seq<T>, v: seq<T>, cmp: (T, T) -> int)
    ensures CountGreater(x, u + v, cmp) == CountGreater(x, u, cmp) + CountGreater(x, v, cmp)
  {
    if u == [] {
      assert u + v == v;
    } else {
      assert (u + v)[0] == u[0] && (u + v)[1..] == u[1..] + v;
      CountGreaterAppend(x, u[1..], v, cmp);
    }
  }

  /** Exchanging two neighbours does not change how many elements x exceeds. */
  lemma CountGreaterSwap<T(!new)>(x: T, u: seq<T>, a: T, b: T, v: seq<T>, cmp: (T, T) -> int)
    ensures CountGreater(x, u + [a, b] + v, cmp) == CountGreater(x, u + [b, a] + v, cmp)
  {
    CountGreaterAppend(x, u + [a, b], v, cmp);
    CountGreaterAppend(x, u + [b, a], v, cmp);
    CountGreaterAppend(x, u, [a, b], cmp);
    CountGreaterAppend(x, u, [b, a], cmp);
    assert [a, b][1..] == [b] && [b, a][1..] == [a];
    assert [b][1..] == [] && [a][1..] == [];
  }

  /** Swapping a neighbouring pair that is out of order removes exactly one inversion. */
  lemma {:induction false} SwapLowersInversions<T(!new)>(p: seq<T>, a: T, b: T, q: seq<T>, cmp: (T, T) -> int)
    requires Antisymmetric(cmp) && cmp(a, b) > 0
    ensures Inversions(p + [b, a] + q, cmp) + 1 == Inversions(p + [a, b] + q, cmp)
  {
    if p == [] {
      assert [a, b] + q == [a] + ([b] + q) && ([a, b] + q)[1..] == [b] + q;
      assert ([b, a] + q)[1..] == [a] + q;
      assert ([b] + q)[1..] == q && ([a] + q)[1..] == q;
      assert cmp(b, a) < 0;
      assert CountGreater(a, [b] + q, cmp) == 1 + CountGreater(a, q, cmp);
      assert CountGreater(b, [a] + q, cmp) == CountGreater(b, q, cmp);
      assert p + [a, b] + q == [a, b] + q && p + [b, a] + q == [b, a] + q;
    } else {
      var s, t := p + [a, b] + q, p + [b, a] + q;
      assert s[0] == p[0] && s[1..] == p[1..] + [a, b] + q;
      assert t[0] == p[0] && t[1..] == p[1..] + [b, a] + q;
      CountGreaterSwap(p[0], p[1..], a, b, q, cmp);
      SwapLowersInversions(p[1..], a, b, q, cmp);
    }
  }

  /** SwapAt in the shape SwapLowersInversions speaks about. */
  lemma SwapAtLowersInversions<T(!new)>(s: seq<T>, k: int, cmp: (T, T) -> int)
    requires Antisymmetric(cmp) && 0 <= k < |s| - 1 && cmp(s[k], s[k + 1]) > 0
    ensures Inversions(SwapAt(s, k), cmp) + 1 == Inversions(s, cmp)
  {
    var p, a, b, q := s[..k], s[k], s[k + 1], s[k + 2..];
    SwapAtShape(s, k);
    SwapLowersInversions(p, a, b, q, cmp);
  }

  /** The sequence before and after SwapAt, cut around the pair. */
  lemma SwapAtShape<T>(s: seq<T>, k: int)
    requires 0 <= k < |s| - 1
    ensures s == s[..k] + [s[k], s[k + 1]] + s[k + 2..]
    ensures SwapAt(s, k) == s[..k] + [s[k + 1], s[k]] + s[k + 2..]
  {
    var t := s[..k] + [s[k + 1], s[k]] + s[k + 2..];
    assert forall i :: 0 <= i < |s| ==> SwapAt(s, k)[i] == t[i];
  }

  /** Under a three-way comparator, neighbouring order is whole order. */
  lemma AdjacentSortedIsSorted<T(!new)>(s: seq<T>, cmp: (T, T) -> int)
    requires ThreeWay(cmp) && AdjacentSorted(s, cmp)
    ensures Sorted(s, cmp)
  {
    forall i, j | 0 <= i < j < |s|
      ensures cmp(s[i], s[j]) <= 0
    {
      AdjacentChain(s, cmp, i, j);
    }
  }

  lemma {:induction false} AdjacentChain<T(!new)>(s: seq<T>, cmp: (T, T) -> int, i: int, j: int)
    requires Transitive(cmp) && AdjacentSorted(s, cmp) && 0 <= i < j < |s|
    ensures cmp(s[i], s[j]) <= 0
    decreases j - i
  {
    if i + 1 < j {
      AdjacentChain(s, cmp, i + 1, j);
      assert cmp(s[i], s[i + 1]) <= 0;
    }
  }

  /** s holds, at each position p, the element that stood at position perm[p] of s0. */
  ghost predicate Follows<U>(s0: seq<U>, s: seq<U>, perm: seq<int>)
  {
    |perm| == |s| && forall p {:trigger perm[p]} :: 0 <= p < |s| ==> 0 <= perm[p] < |s0| && s[p] == s0[perm[p]]
  }

  /** Two elements of s that cmp calls equal stand in the order they had where perm says they came from. */
  ghost predicate Stable<T(!new)>(perm: seq<int>, s: seq<T>, cmp: (T, T) -> int)
  {
    |perm| == |s| && forall p, q {:trigger perm[p], perm[q]} :: 0 <= p < q < |s| && cmp(s[p], s[q]) == 0 ==> perm[p] < perm[q]
  }

  /** The positions 0..n-1: where a sequence not yet moved came from. */
  function Identity(n: nat): (r: seq<int>)
    ensures |r| == n && forall i :: 0 <= i < n ==> r[i] == i
  {
    seq(n, i => i)
  }

  /** Nothing moved: every element comes from its own position. */
  lemma IdentityFollows<U>(s: seq<U>)
    ensures Follows(s, s, Identity(|s|))
  {
  }

  /** Nothing moved: equal elements are in their original order. */
  lemma IdentityStable<T(!new)>(s: seq<T>, cmp: (T, T) -> int)
    ensures Stable(Identity(|s|), s, cmp)
  {
  }

  /** An exchange of neighbours moves their origins with them. */
  lemma FollowsSwap<U>(s0: seq<U>, s: seq<U>, perm: seq<int>, k: int)
    requires Follows(s0, s, perm) && 0 <= k < |s| - 1
    ensures Follows(s0, SwapAt(s, k), SwapAt(perm, k))
  {
  }

  /**
   * Exchanging a neighbouring pair the comparator calls greater keeps equal
   * elements in their original order: the pair itself is not equal, and
   * every other pair keeps its order.
   */
  lemma StableSwap<T(!new)>(perm: seq<int>, s: seq<T>, k: int, cmp: (T, T) -> int)
    requires Stable(perm, s, cmp) && 0 <= k < |s| - 1 && Antisymmetric(cmp) && cmp(s[k], s[k + 1]) > 0
    ensures Stable(SwapAt(perm, k), SwapAt(s, k), cmp)
  {
    var perm', s' := SwapAt(perm, k), SwapAt(s, k);
    forall p, q | 0 <= p < q < |s'| && cmp(s'[p], s'[q]) == 0
      ensures perm'[p] < perm'[q]
    {
      var p0 := if p == k then k + 1 else if p == k + 1 then k else p;
      var q0 := if q == k then k + 1 else if q == k + 1 then k else q;
      assert s'[p] == s[p0] && perm'[p] == perm[p0];
      assert s'[q] == s[q0] && perm'[q] == perm[q0];
      if p == k && q == k + 1 {
        assert false;
      }
      assert p0 < q0;
    }
  }
}
