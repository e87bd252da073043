/**
 * backend/app/utils/find_position.py: the floor lookup that maps an offset
 * in a document's flat text back to the block that starts at or before it.
 * The breakpoints are copied, sorted by value and binary-searched; the value
 * found (not its index) is returned, and -1 stands for "no breakpoint is at
 * most the target".
 */
module FindPosition {
  import opened Wrappers
  import Sorting

  /** The greatest element of s that is at most target, if there is one. */
  function Floor(s: seq<int>, target: int): (r: Option<int>)
    ensures r.None? <==> forall x :: x in s ==> target < x
    ensures r.Some? ==> r.value in s && r.value <= target
    ensures r.Some? ==> forall x :: x in s && x <= target ==> x <= r.value
  {
    if s == [] then None
    else
      var init := s[..|s| - 1];
      var last := s[|s| - 1];
      assert s == init + [last];
      assert forall x :: x in s <==> x in init || x == last;
      var rest := Floor(init, target);
      if target < last then rest
      else if rest.Some? && last <= rest.value then rest
      else
        assert last in s && last <= target;
        Some(last)
  }

  /** The source's encoding of a lookup result: -1 when there is no floor. */
  function FloorOrMinusOne(s: seq<int>, target: int): int
  {
    match Floor(s, target)
    case None => -1
    case Some(v) => v
  }

  /** Any value with the floor's three properties is the floor. */
  lemma FloorIsUnique(s: seq<int>, target: int, v: int)
    requires v in s && v <= target
    requires forall x :: x in s && x <= target ==> x <= v
    ensures Floor(s, target) == Some(v)
  {
  }

  lemma SameElements(s: seq<int>, t: seq<int>)
    requires multiset(s) == multiset(t)
    ensures forall x :: x in s <==> x in t
  {
    forall x ensures x in s <==> x in t {
      assert x in s <==> x in multiset(s);
      assert x in t <==> x in multiset(t);
    }
  }

  ghost predicate Ascending(s: seq<int>)
  {
    forall i, j :: 0 <= i < j < |s| ==> s[i] <= s[j]
  }

  /** In an ascending sequence, the floor is the element just below the first one above target. */
  lemma AscendingFloorAt(s: seq<int>, target: int, k: int)
    requires Ascending(s) && 0 <= k < |s| && s[k] <= target
    requires k == |s| - 1 || target < s[k + 1]
    ensures Floor(s, target) == Some(s[k])
  {
    forall x | x in s && x <= target ensures x <= s[k] {
      var i :| 0 <= i < |s| && s[i] == x;
      if i > k { assert s[k + 1] <= s[i]; }
    }
    FloorIsUnique(s, target, s[k]);
  }

  /** In an ascending sequence whose first element is above target, there is no floor. */
  lemma AscendingNoFloor(s: seq<int>, target: int)
    requires Ascending(s) && (s == [] || target < s[0])
    ensures Floor(s, target) == None
  {
    forall x | x in s ensures target < x {
      var i :| 0 <= i < |s| && s[i] == x;
    }
  }

  lemma AscendingBelow(s: seq<int>, k: int, target: int)
    requires Ascending(s) && 0 <= k < |s| && s[k] < target
    ensures forall i :: 0 <= i <= k ==> s[i] < target
  {
  }

  lemma AscendingAbove(s: seq<int>, k: int, target: int)
    requires Ascending(s) && 0 <= k < |s| && target < s[k]
    ensures forall i :: k <= i < |s| ==> target < s[i]
  {
  }

  lemma SortedIsAscending(s: seq<int>)
    requires Sorting.SortedBy(s, x => x)
    ensures Ascending(s)
  {
  }

  /** The floor depends only on the elements, not on their order. */
  lemma FloorOfPermutation(s: seq<int>, t: seq<int>, target: int)
    requires multiset(s) == multiset(t)
    ensures Floor(s, target) == Floor(t, target)
  {
    SameElements(s, t);
    match Floor(t, target)
    case None =>
    case Some(v) => FloorIsUnique(s, target, v);
  }

  /**
   * find_index_by_value: sort a copy of the breakpoints, answer the two edge
   * cases directly, then binary-search for the floor. The input is a value,
   * so the caller's collection is never mutated.
   */
  method FindIndexByValue(arr: seq<int>, target: int) returns (r: int)
    ensures r == FloorOrMinusOne(arr, target)
  {
    var sorted := Sorting.SortBy(arr, x => x);
    FloorOfPermutation(arr, sorted, target);
    SortedIsAscending(sorted);
    var n := |sorted|;
    if n == 0 || target < sorted[0] {
      AscendingNoFloor(sorted, target);
      return -1;
    }
    if target > sorted[n - 1] {
      AscendingFloorAt(sorted, target, n - 1);
      return sorted[n - 1];
    }

    var left, right := 0, n - 1;
    while left <= right
      invariant 0 <= left <= n && -1 <= right < n && left <= right + 1
      invariant forall k :: 0 <= k < left ==> sorted[k] < target
      invariant forall k :: right < k < n ==> target < sorted[k]
    {
      var mid := (left + right) / 2;
      var current := sorted[mid];
      if mid < n - 1 && current <= target < sorted[mid + 1] {
        AscendingFloorAt(sorted, target, mid);
        return current;
      } else if current == target {
        FloorIsUnique(sorted, target, current);
        return current;
      } else if current < target {
        AscendingBelow(sorted, mid, target);
        left := mid + 1;
      } else {
        AscendingAbove(sorted, mid, target);
        right := mid - 1;
      }
    }
    // The loop only ends with the target strictly between two neighbours.
    assert 0 <= right < n - 1 && sorted[right] < target < sorted[right + 1];
    AscendingFloorAt(sorted, target, right);
    return sorted[right];
  }

  /** The example run at the bottom of find_position.py. */
  lemma ExampleRun()
    ensures FloorOrMinusOne([4, 0, 9, 10], 7) == 4
    ensures FloorOrMinusOne([4, 0, 9, 10], 0) == 0
    ensures FloorOrMinusOne([4, 0, 9, 10], 11) == 10
    ensures FloorOrMinusOne([4, 0, 9, 10], -1) == -1
    ensures FloorOrMinusOne([4, 0, 9, 10], 8) == 4
    ensures FloorOrMinusOne([4, 0, 9, 10], 3) == 0
  {
    var s := [4, 0, 9, 10];
    assert forall x :: x in s <==> x == 4 || x == 0 || x == 9 || x == 10;
    assert FloorOrMinusOne(s, 7) == 4 by { FloorIsUnique(s, 7, 4); }
    assert FloorOrMinusOne(s, 0) == 0 by { FloorIsUnique(s, 0, 0); }
    assert FloorOrMinusOne(s, 11) == 10 by { FloorIsUnique(s, 11, 10); }
    assert FloorOrMinusOne(s, 8) == 4 by { FloorIsUnique(s, 8, 4); }
    assert FloorOrMinusOne(s, 3) == 0 by { FloorIsUnique(s, 3, 0); }
  }
}
