/**
 * The two stock comparators linklist.c ships for its containers.  Both treat
 * a NULL argument as equal to anything, so they are three-way comparisons
 * only on present values.
 */
module LinkCompare {
  import opened Wrappers
  import opened LinkSort
  import opened CString

  /** StringCompare: strcmp when both strings are present, 0 otherwise. */
  function StringCompare(first: Option<string>, second: Option<string>): (r: int)
    ensures -1 <= r <= 1
    ensures first.Some? && second.Some? ==> (r == 0 <==> first.value == second.value)
    ensures first.None? || second.None? ==> r == 0
  {
    if first.Some? && second.Some? then StrCmp(first.value, second.value) else 0
  }

  /** IntCompare: 1, -1 or 0 as the first integer is greater, less or equal; 0 when either is NULL. */
  function IntCompare(first: Option<int>, second: Option<int>): (r: int)
    ensures -1 <= r <= 1
    ensures first.Some? && second.Some? ==> (r > 0 <==> first.value > second.value)
    ensures first.Some? && second.Some? ==> (r < 0 <==> first.value < second.value)
    ensures first.None? || second.None? ==> r == 0
  {
    if first.None? || second.None? then 0
    else if first.value > second.value then 1
    else if first.value < second.value then -1
    else 0
  }

  /** IntCompare on present integers. */
  function IntOrder(a: int, b: int): int
  {
    IntCompare(Some(a), Some(b))
  }

  /** StringCompare on present strings. */
  function StringOrder(a: string, b: string): int
  {
    StringCompare(Some(a), Some(b))
  }

  /** On present integers IntCompare is a comparator SortList and the splay tree can rely on. */
  lemma IntOrderThreeWay()
    ensures ThreeWay(IntOrder)
  {
  }

  /** On present strings StringCompare is strcmp, hence a comparator. */
  lemma StringOrderThreeWay()
    ensures ThreeWay(StringOrder)
  {
    StrCmpThreeWay();
    assert forall a, b :: StringOrder(a, b) == StrCmp(a, b);
  }

  /** With NULL allowed, "not greater" is not transitive: NULL sits level with everything. */
  lemma StringCompareNullBreaksOrder()
    ensures StringCompare(Some("b"), None) == 0 && StringCompare(None, Some("a")) == 0
    ensures StringCompare(Some("b"), Some("a")) > 0
  {
    assert StrCmp("b", "a") == StrCmp("b"[1..], "a"[1..]) || StrCmp("b", "a") == 1;
  }
}
