/** The nearest-timestamp aligner (align_arrays.py).
    Timestamps are integers (minutes since an epoch), so distances are exact. */
module Aligner {
  import opened Outcomes

  predicate Sorted(s: seq<int>) {
    forall i, j :: 0 <= i < j < |s| ==> s[i] <= s[j]
  }

  function Dist(a: int, b: int): nat {
    if a < b then b - a else a - b
  }

  /** `x` occurs in `s`, no element of `s` is nearer to `p`, and `x` is the
      smallest of the elements that are equally near. */
  ghost predicate IsLeastNearest(s: seq<int>, p: int, x: int) {
    && x in s
    && (forall y :: y in s ==> Dist(x, p) <= Dist(y, p))
    && (forall y :: y in s && Dist(y, p) == Dist(x, p) ==> x <= y)
  }

  // ---------------------------------------------------------------------
  // numpy.searchsorted(side='left') and numpy.argmin

  /** Binary search for the left insertion index inside `[lo, hi]`. */
  function SearchSortedFrom(s: seq<int>, p: int, lo: nat, hi: nat): (i: nat)
    requires Sorted(s) && lo <= hi <= |s|
    requires forall j :: 0 <= j < lo ==> s[j] < p
    requires forall j :: hi <= j < |s| ==> p <= s[j]
    ensures lo <= i <= hi
    ensures forall j :: 0 <= j < i ==> s[j] < p
    ensures forall j :: i <= j < |s| ==> p <= s[j]
    decreases hi - lo
  {
    if lo == hi then lo
    else
      var mid := (lo + hi) / 2;
      if s[mid] < p then SearchSortedFrom(s, p, mid + 1, hi)
      else SearchSortedFrom(s, p, lo, mid)
  }

  /** The left insertion index of `p`: every element before it is smaller
      than `p`, every element from it on is at least `p`. */
  function SearchSorted(s: seq<int>, p: int): (i: nat)
    requires Sorted(s)
    ensures i <= |s|
    ensures forall j :: 0 <= j < i ==> s[j] < p
    ensures forall j :: i <= j < |s| ==> p <= s[j]
  {
    SearchSortedFrom(s, p, 0, |s|)
  }

  /** Index of the first minimum, as numpy's argmin picks it. */
  function ArgMin(d: seq<nat>): (k: nat)
    requires |d| > 0
    ensures k < |d|
    ensures forall j :: 0 <= j < |d| ==> d[k] <= d[j]
    ensures forall j :: 0 <= j < k ==> d[k] < d[j]
  {
    if |d| == 1 then 0
    else
      var k := ArgMin(d[1..]);
      assert d[1..][k] == d[k + 1];
      if d[k + 1] < d[0] then k + 1 else 0
  }

  // ---------------------------------------------------------------------
  // find_closest, closest_within_distance

  /** A window `[lo]` or `[lo, hi]` around the insertion point, with every
      element of `s` at or below `lo` or at or above `hi`: the first minimum
      of the window's distances is the least nearest element of `s`. */
  lemma WindowLeastNearest(s: seq<int>, p: int, i: nat)
    requires Sorted(s) && 0 < i <= |s|
    requires forall j :: 0 <= j < i ==> s[j] < p
    requires forall j :: i <= j < |s| ==> p <= s[j]
    ensures var values := s[i - 1 .. if i + 1 < |s| then i + 1 else |s|];
            var distances := seq(|values|, k requires 0 <= k < |values| => Dist(values[k], p));
            |values| > 0 && IsLeastNearest(s, p, values[ArgMin(distances)])
  {
    var values := s[i - 1 .. if i + 1 < |s| then i + 1 else |s|];
    var distances := seq(|values|, k requires 0 <= k < |values| => Dist(values[k], p));
    var k := ArgMin(distances);
    var x := values[k];
    assert x == s[i - 1 + k];
    forall y | y in s
      ensures Dist(x, p) <= Dist(y, p)
      ensures Dist(y, p) == Dist(x, p) ==> x <= y
    {
      var j :| 0 <= j < |s| && s[j] == y;
      if j < i {
        assert s[j] <= s[i - 1];
      } else {
        assert s[i] <= s[j];
        assert distances[1] == Dist(s[i], p);
      }
    }
  }

  /** The failure of indexing `search_array[0]` on an empty array. */
  const EmptySearch := IndexError("search_array[0]")

  /** find_closest: the value of `s` nearest to `pivot`, ties going to the
      smaller value; an empty array fails when it is indexed. */
  function FindClosest(s: seq<int>, pivot: int): (r: Result<int>)
    requires Sorted(s)
    ensures r.Ok? <==> |s| > 0
    ensures r.Err? ==> r.error == EmptySearch
    ensures r.Ok? ==> IsLeastNearest(s, pivot, r.value)
  {
    var index := SearchSorted(s, pivot);
    if index != 0 then
      var values := s[index - 1 .. if index + 1 < |s| then index + 1 else |s|];
      var distances := seq(|values|, k requires 0 <= k < |values| => Dist(values[k], pivot));
      WindowLeastNearest(s, pivot, index);
      Ok(values[ArgMin(distances)])
    else if index < |s| then
      assert forall y :: y in s ==> s[0] <= y;
      Ok(s[index])
    else
      Err(EmptySearch)
  }

  /** closest_within_distance: the nearest value, or no match when it lies
      farther than `maxDist` (the bound itself still matches). */
  function ClosestWithinDistance(s: seq<int>, pivot: int, maxDist: int): (r: Result<Option<int>>)
    requires Sorted(s)
    ensures r.Ok? <==> |s| > 0
    ensures r.Err? ==> r.error == EmptySearch
    ensures r.Ok? ==> (r.value.None? <==> forall y :: y in s ==> Dist(y, pivot) > maxDist)
    ensures r.Ok? && r.value.Some? ==>
              IsLeastNearest(s, pivot, r.value.value) && Dist(r.value.value, pivot) <= maxDist
  {
    match FindClosest(s, pivot)
    case Err(e) => Err(e)
    case Ok(nearest) => Ok(if Dist(nearest, pivot) <= maxDist then Some(nearest) else None)
  }

  /** The least nearest element is unique: it depends only on which values
      occur, not on how often or in which order. */
  lemma {:induction false} LeastNearestUnique(s: seq<int>, t: seq<int>, p: int, x: int, y: int)
    requires forall v :: v in s <==> v in t
    requires IsLeastNearest(s, p, x) && IsLeastNearest(t, p, y)
    ensures x == y
  {
    assert x in t && y in s;
    assert Dist(x, p) == Dist(y, p);
  }

  /** A pivot at or below the minimum clamps to the minimum (insertion index 0). */
  lemma ClampsBelow(s: seq<int>, p: int)
    requires Sorted(s) && |s| > 0 && p <= s[0]
    ensures FindClosest(s, p) == Ok(s[0])
  {
    var x := FindClosest(s, p).value;
    assert s[0] in s;
    var j :| 0 <= j < |s| && s[j] == x;
    assert s[0] <= x;
  }

  /** A pivot above the maximum clamps to the maximum. */
  lemma ClampsAbove(s: seq<int>, p: int)
    requires Sorted(s) && |s| > 0 && p > s[|s| - 1]
    ensures FindClosest(s, p) == Ok(s[|s| - 1])
  {
    var x := FindClosest(s, p).value;
    assert s[|s| - 1] in s;
    var j :| 0 <= j < |s| && s[j] == x;
    assert x <= s[|s| - 1];
  }

  /** A pivot that occurs in the array is returned itself. */
  lemma ExactHit(s: seq<int>, p: int)
    requires Sorted(s) && p in s
    ensures FindClosest(s, p) == Ok(p)
  {
    var x := FindClosest(s, p).value;
    assert Dist(p, p) == 0;
  }

  /** A pivot midway between two neighbouring values goes to the lower one. */
  lemma TieGoesLow(s: seq<int>, k: nat, p: int)
    requires Sorted(s) && k + 1 < |s|
    requires s[k] < p < s[k + 1] && p - s[k] == s[k + 1] - p
    ensures FindClosest(s, p) == Ok(s[k])
  {
    var x := FindClosest(s, p).value;
    assert s[k] in s && s[k + 1] in s;
    assert forall m :: 0 <= m <= k ==> s[m] <= s[k];
    assert forall m :: k < m < |s| ==> s[k + 1] <= s[m];
  }

  // ---------------------------------------------------------------------
  // numpy.sort

  /** A sorted sequence stays sorted when a value no larger than all its
      elements is put in front. */
  lemma SortedCons(x: int, s: seq<int>)
    requires Sorted(s) && forall y :: y in multiset(s) ==> x <= y
    ensures Sorted([x] + s)
  {
    forall i, j | 0 <= i < j < |[x] + s|
      ensures ([x] + s)[i] <= ([x] + s)[j]
    {
      if i == 0 {
        assert s[j - 1] in multiset(s);
      }
    }
  }

  function Insert(x: int, s: seq<int>): (r: seq<int>)
    requires Sorted(s)
    ensures Sorted(r) && multiset(r) == multiset(s) + multiset{x}
  {
    if s == [] || x <= s[0] then
      SortedCons(x, s);
      [x] + s
    else
      var rest := Insert(x, s[1..]);
      assert s == [s[0]] + s[1..];
      assert multiset(s) == multiset{s[0]} + multiset(s[1..]);
      forall y | y in multiset(rest) ensures s[0] <= y {
        if y != x {
          assert y in multiset(s[1..]);
          var j :| 0 <= j < |s[1..]| && s[1..][j] == y;
          assert s[j + 1] == y;
        }
      }
      SortedCons(s[0], rest);
      [s[0]] + rest
  }

  /** The sorted copy that align_arrays searches in. */
  function Sort(s: seq<int>): (r: seq<int>)
    ensures Sorted(r) && multiset(r) == multiset(s)
  {
    if s == [] then []
    else
      assert s == [s[0]] + s[1..];
      Insert(s[0], Sort(s[1..]))
  }

  /** Two sorted sequences holding the same values are equal. */
  lemma {:induction false} SortedUnique(a: seq<int>, b: seq<int>)
    requires Sorted(a) && Sorted(b) && multiset(a) == multiset(b)
    ensures a == b
    decreases |a|
  {
    if a != [] {
      assert |b| == |a| by { assert |multiset(a)| == |multiset(b)|; }
      assert a[0] in multiset(b) && b[0] in multiset(a);
      var i :| 0 <= i < |b| && b[i] == a[0];
      var j :| 0 <= j < |a| && a[j] == b[0];
      assert a[0] == b[0];
      assert a == [a[0]] + a[1..] && b == [b[0]] + b[1..];
      assert multiset(a) == multiset{a[0]} + multiset(a[1..]);
      assert multiset(b) == multiset{b[0]} + multiset(b[1..]);
      assert multiset(a[1..]) == multiset(a) - multiset{a[0]};
      assert multiset(b[1..]) == multiset(b) - multiset{b[0]};
      SortedUnique(a[1..], b[1..]);
    }
  }

  // ---------------------------------------------------------------------
  // align_arrays

  /** The expression that fills one output slot: find_closest without a
      bound, closest_within_distance with one. */
  function MatchPivot(sorted: seq<int>, pivot: int, maxDist: Option<int>): (r: Result<Option<int>>)
    requires Sorted(sorted)
    ensures r.Ok? <==> |sorted| > 0
    ensures r.Err? ==> r.error == EmptySearch
  {
    if maxDist.None? then
      match FindClosest(sorted, pivot)
      case Err(e) => Err(e)
      case Ok(nearest) => Ok(Some(nearest))
    else ClosestWithinDistance(sorted, pivot, maxDist.value)
  }

  /** Specification of align_arrays: slot `i` holds the match of `pivots[i]`
      in the sorted copy of `search`; a non-empty pivot list over an empty
      search array fails. */
  function Aligned(search: seq<int>, pivots: seq<int>, maxDist: Option<int>): Result<seq<Option<int>>>
  {
    var sorted := Sort(search);
    if |pivots| == 0 then Ok([])
    else if |sorted| == 0 then Err(EmptySearch)
    else Ok(seq(|pivots|, i requires 0 <= i < |pivots| => MatchPivot(sorted, pivots[i], maxDist).value))
  }

  /** align_arrays: preallocate the output list, sort a copy of the search
      array, then fill the slots in pivot order. */
  method AlignArrays(search: seq<int>, pivots: seq<int>, maxDist: Option<int>)
    returns (r: Result<seq<Option<int>>>)
    ensures r == Aligned(search, pivots, maxDist)
  {
    var output: seq<Option<int>> := seq(|pivots|, _ => None);
    var sorted := Sort(search);
    for i := 0 to |pivots|
      invariant |output| == |pivots|
      invariant i > 0 ==> |sorted| > 0
      invariant forall k :: 0 <= k < i ==> output[k] == MatchPivot(sorted, pivots[k], maxDist).value
    {
      var slot := MatchPivot(sorted, pivots[i], maxDist);
      if slot.Err? {
        return Err(slot.error);
      }
      output := output[i := slot.value];
    }
    if |pivots| > 0 {
      assert output == seq(|pivots|, i requires 0 <= i < |pivots| => MatchPivot(sorted, pivots[i], maxDist).value);
    }
    return Ok(output);
  }

  // ---------------------------------------------------------------------
  // Properties of align_arrays

  /** One slot per pivot; a slot depends on its own pivot only; without a
      bound every slot holds the least nearest value; with a bound a slot is
      empty exactly when no value lies within it. */
  lemma AlignedSlots(search: seq<int>, pivots: seq<int>, maxDist: Option<int>)
    requires |search| > 0 || |pivots| == 0
    ensures Aligned(search, pivots, maxDist).Ok?
    ensures |Aligned(search, pivots, maxDist).value| == |pivots|
    ensures forall i :: 0 <= i < |pivots| ==>
              var slot := Aligned(search, pivots, maxDist).value[i];
              && (slot.Some? ==> IsLeastNearest(search, pivots[i], slot.value))
              && (maxDist.None? ==> slot.Some?)
              && (maxDist.Some? ==> (slot.None? <==> forall y :: y in search ==> Dist(y, pivots[i]) > maxDist.value))
  {
    var sorted := Sort(search);
    assert |sorted| == |search| by { assert |multiset(sorted)| == |multiset(search)|; }
    assert forall v :: v in sorted <==> v in search by {
      forall v ensures v in sorted <==> v in search {
        assert v in sorted <==> v in multiset(sorted);
        assert v in search <==> v in multiset(search);
      }
    }
  }

  /** Slots of equal pivots are equal, wherever the pivots stand: a slot
      never depends on neighbouring pivots. */
  lemma SlotDependsOnPivotOnly(search: seq<int>, p1: seq<int>, p2: seq<int>, maxDist: Option<int>, i: nat, j: nat)
    requires i < |p1| && j < |p2| && p1[i] == p2[j] && |search| > 0
    ensures Aligned(search, p1, maxDist).Ok? && Aligned(search, p2, maxDist).Ok?
    ensures Aligned(search, p1, maxDist).value[i] == Aligned(search, p2, maxDist).value[j]
  {
    assert |Sort(search)| == |search| by { assert |multiset(Sort(search))| == |multiset(search)|; }
  }

  /** Sorting first makes the output the same for every permutation of the
      search array. */
  lemma PermutationInvariant(s1: seq<int>, s2: seq<int>, pivots: seq<int>, maxDist: Option<int>)
    requires multiset(s1) == multiset(s2)
    ensures Aligned(s1, pivots, maxDist) == Aligned(s2, pivots, maxDist)
  {
    SortedUnique(Sort(s1), Sort(s2));
  }

  /** An array that is already sorted is searched as it is: the output is
      the list of the pivots' matches in that array. */
  lemma AlignedOnSorted(s: seq<int>, pivots: seq<int>, maxDist: Option<int>, expected: seq<Option<int>>)
    requires Sorted(s) && |s| > 0 && |expected| == |pivots|
    requires forall k :: 0 <= k < |pivots| ==> MatchPivot(s, pivots[k], maxDist) == Ok(expected[k])
    ensures Aligned(s, pivots, maxDist) == Ok(expected)
  {
    SortedUnique(Sort(s), s);
    if |pivots| > 0 {
      var r := Aligned(s, pivots, maxDist);
      assert r.Ok? && |r.value| == |pivots|;
      assert forall k :: 0 <= k < |pivots| ==> r.value[k] == expected[k];
      assert r.value == expected;
    }
  }

  /** A value strictly nearer than every other value is the one found. */
  lemma StrictlyNearest(s: seq<int>, p: int, x: int)
    requires Sorted(s) && x in s
    requires forall y :: y in s && y != x ==> Dist(x, p) < Dist(y, p)
    ensures FindClosest(s, p) == Ok(x)
  {
  }

  /** [10, 20, 30] against pivots [5, 15, 25, 100] without a bound gives
      [10, 10, 20, 30]. */
  lemma UnboundedExample(s: seq<int>, pivots: seq<int>)
    requires |s| == 3 && s[0] == 10 && s[1] == 20 && s[2] == 30
    requires |pivots| == 4 && pivots[0] == 5 && pivots[1] == 15 && pivots[2] == 25 && pivots[3] == 100
    ensures Aligned(s, pivots, None) == Ok([Some(10), Some(10), Some(20), Some(30)])
  {
    assert Sorted(s);
    var expected := [Some(10), Some(10), Some(20), Some(30)];
    forall k | 0 <= k < |pivots| ensures MatchPivot(s, pivots[k], None) == Ok(expected[k]) {
      if k == 0 {
        ClampsBelow(s, 5);
      } else if k == 1 {
        TieGoesLow(s, 0, 15);
      } else if k == 2 {
        TieGoesLow(s, 1, 25);
      } else {
        ClampsAbove(s, 100);
      }
    }
    AlignedOnSorted(s, pivots, None, expected);
  }

  /** With a bound of 3, pivot 11 matches 10 and pivot 25 matches nothing. */
  lemma BoundedExample(s: seq<int>, pivots: seq<int>)
    requires |s| == 3 && s[0] == 10 && s[1] == 20 && s[2] == 30
    requires |pivots| == 2 && pivots[0] == 11 && pivots[1] == 25
    ensures Aligned(s, pivots, Some(3)) == Ok([Some(10), None])
  {
    assert Sorted(s);
    var expected := [Some(10), None];
    forall k | 0 <= k < |pivots| ensures MatchPivot(s, pivots[k], Some(3)) == Ok(expected[k]) {
      if k == 0 {
        StrictlyNearest(s, 11, 10);
      } else {
        assert forall y :: y in s ==> Dist(y, 25) > 3;
      }
    }
    AlignedOnSorted(s, pivots, Some(3), expected);
  }

  /** The only way align_arrays fails: pivots to place and nothing to search. */
  lemma AlignedFailure(search: seq<int>, pivots: seq<int>, maxDist: Option<int>)
    ensures Aligned(search, pivots, maxDist).Ok? <==> |search| > 0 || |pivots| == 0
    ensures Aligned(search, pivots, maxDist).Err? ==> Aligned(search, pivots, maxDist).error == EmptySearch
  {
    assert |Sort(search)| == |search| by { assert |multiset(Sort(search))| == |multiset(search)|; }
  }

  /** Every non-empty array has a least nearest element for every pivot. */
  lemma LeastNearestExists(s: seq<int>, p: int)
    requires |s| > 0
    ensures exists x :: IsLeastNearest(s, p, x)
  {
    AlignedSlots(s, [p], None);
    assert IsLeastNearest(s, p, Aligned(s, [p], None).value[0].value);
  }

  /** Every value align_arrays places comes from the search array. */
  lemma AlignedMembers(search: seq<int>, pivots: seq<int>, maxDist: Option<int>)
    requires Aligned(search, pivots, maxDist).Ok?
    ensures forall a :: a in Aligned(search, pivots, maxDist).value && a.Some? ==> a.value in search
  {
    AlignedFailure(search, pivots, maxDist);
    AlignedSlots(search, pivots, maxDist);
  }
}
