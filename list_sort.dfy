/**
 * The ordering half of `applyFilters` (src/screens/ActivitiesListScreen.tsx):
 * `list.sort(comparator)` for the keys "newest", "oldest" and "az".
 * JavaScript's sort is stable, so for a consistent comparator its result is
 * the one insertion sort produces; `InsertionSort` is that specification and
 * `SortInPlace` the in-place algorithm proved equal to it.
 */
module ListSort {
  import opened ListFilters
  import opened Wrappers

  /** The three orders `applyFilters` knows. */
  datatype Order = Newest | Oldest | Alphabetical

  /** The sort key of the screen's state; any other key means no sort. */
  function OrderOf(mode: string): (o: Option<Order>)
    ensures o == Some(Newest) <==> mode == "newest"
    ensures o == Some(Oldest) <==> mode == "oldest"
    ensures o == Some(Alphabetical) <==> mode == "az"
  {
    if mode == "newest" then Some(Newest)
    else if mode == "oldest" then Some(Oldest)
    else if mode == "az" then Some(Alphabetical)
    else None
  }

  /** The order's comparator is positive: `a` has to go after `b`. */
  predicate After(a: Entry, b: Entry, mode: Order, loc: Locale) {
    match mode
    case Newest => b.activity.time - a.activity.time > 0
    case Oldest => a.activity.time - b.activity.time > 0
    case Alphabetical => loc.localeCompare(a.activity.name, b.activity.name) > 0
  }

  /** No two adjacent elements are out of order. */
  predicate Sorted(s: seq<Entry>, mode: Order, loc: Locale) {
    forall k :: 0 <= k < |s| - 1 ==> !After(s[k], s[k + 1], mode, loc)
  }

  /** `localeCompare(x, y) > 0` and `localeCompare(y, x) > 0` never hold together. */
  ghost predicate CompareAsymmetric(cmp: (string, string) -> int) {
    forall x, y :: cmp(x, y) > 0 ==> cmp(y, x) <= 0
  }

  /** "Not after" is transitive: `localeCompare` is a consistent comparator. */
  ghost predicate CompareConsistent(cmp: (string, string) -> int) {
    && CompareAsymmetric(cmp)
    && forall x, y, z :: cmp(x, y) <= 0 && cmp(y, z) <= 0 ==> cmp(x, z) <= 0
  }

  /** Inserts `x` into `s` after the last element that need not go after it. */
  function Insert(x: Entry, s: seq<Entry>, mode: Order, loc: Locale): (r: seq<Entry>)
    ensures |r| == |s| + 1
  {
    if s == [] then [x]
    else if After(s[|s| - 1], x, mode, loc) then
      Insert(x, s[..|s| - 1], mode, loc) + [s[|s| - 1]]
    else s + [x]
  }

  /** The stable sort of `s` under the mode's comparator. */
  function InsertionSort(s: seq<Entry>, mode: Order, loc: Locale): (r: seq<Entry>)
    ensures |r| == |s|
  {
    if s == [] then []
    else
      Insert(s[|s| - 1], InsertionSort(s[..|s| - 1], mode, loc), mode, loc)
  }

  /** Inserting adds exactly one copy of `x`. */
  lemma {:induction false} InsertPermutes(x: Entry, s: seq<Entry>, mode: Order, loc: Locale)
    ensures multiset(Insert(x, s, mode, loc)) == multiset(s) + multiset{x}
  {
    if s != [] && After(s[|s| - 1], x, mode, loc) {
      InsertPermutes(x, s[..|s| - 1], mode, loc);
      assert s == s[..|s| - 1] + [s[|s| - 1]];
    }
  }

  /** Sorting is a permutation: every element keeps its number of copies. */
  lemma {:induction false} SortPermutes(s: seq<Entry>, mode: Order, loc: Locale)
    ensures multiset(InsertionSort(s, mode, loc)) == multiset(s)
  {
    if s != [] {
      SortPermutes(s[..|s| - 1], mode, loc);
      InsertPermutes(s[|s| - 1], InsertionSort(s[..|s| - 1], mode, loc), mode, loc);
      assert s == s[..|s| - 1] + [s[|s| - 1]];
    }
  }

  /** The last element of `Insert(x, s)` is `x` or the last element of `s`. */
  lemma {:induction false} InsertLast(x: Entry, s: seq<Entry>, mode: Order, loc: Locale)
    ensures var r := Insert(x, s, mode, loc); (r[|r| - 1] == x || (s != [] && r[|r| - 1] == s[|s| - 1]))
  {
    if s != [] && After(s[|s| - 1], x, mode, loc) {
      InsertLast(x, s[..|s| - 1], mode, loc);
    }
  }

  /** Inserting into a sorted list keeps it sorted, given an asymmetric comparator. */
  lemma {:induction false} InsertSorted(x: Entry, s: seq<Entry>, mode: Order, loc: Locale)
    requires mode == Alphabetical ==> CompareAsymmetric(loc.localeCompare)
    requires Sorted(s, mode, loc)
    ensures Sorted(Insert(x, s, mode, loc), mode, loc)
  {
    if s != [] && After(s[|s| - 1], x, mode, loc) {
      var init, last := s[..|s| - 1], s[|s| - 1];
      InsertSorted(x, init, mode, loc);
      InsertLast(x, init, mode, loc);
      var p := Insert(x, init, mode, loc);
      assert !After(p[|p| - 1], last, mode, loc) by {
        if p[|p| - 1] == x {
          assert After(last, x, mode, loc);
        } else {
          assert p[|p| - 1] == s[|s| - 2];
        }
      }
    }
  }

  /** Every mode's result is sorted; Alphabetical needs `localeCompare` to be asymmetric. */
  lemma {:induction false} SortSorted(s: seq<Entry>, mode: Order, loc: Locale)
    requires mode == Alphabetical ==> CompareAsymmetric(loc.localeCompare)
    ensures Sorted(InsertionSort(s, mode, loc), mode, loc)
  {
    if s != [] {
      SortSorted(s[..|s| - 1], mode, loc);
      InsertSorted(s[|s| - 1], InsertionSort(s[..|s| - 1], mode, loc), mode, loc);
    }
  }

  /** Sorting a list that is already in order changes nothing. */
  lemma {:induction false} SortOfSorted(s: seq<Entry>, mode: Order, loc: Locale)
    requires Sorted(s, mode, loc)
    ensures InsertionSort(s, mode, loc) == s
  {
    if s != [] {
      var init := s[..|s| - 1];
      assert Sorted(init, mode, loc);
      SortOfSorted(init, mode, loc);
      assert s == init + [s[|s| - 1]];
    }
  }

  /** With a consistent comparator, adjacent order gives order between any two positions. */
  lemma {:induction false} SortedPairwise(s: seq<Entry>, mode: Order, loc: Locale, i: int, j: int)
    requires mode == Alphabetical ==> CompareConsistent(loc.localeCompare)
    requires Sorted(s, mode, loc)
    requires 0 <= i < j < |s|
    ensures !After(s[i], s[j], mode, loc)
    decreases j - i
  {
    if i + 1 < j {
      SortedPairwise(s, mode, loc, i, j - 1);
      assert !After(s[j - 1], s[j], mode, loc);
    }
  }

  /** The "newest" order lists times in non-increasing order. */
  lemma NewestDescending(s: seq<Entry>, loc: Locale, r: seq<Entry>)
    requires r == InsertionSort(s, Newest, loc)
    ensures forall i, j :: 0 <= i < j < |r| ==> r[i].activity.time >= r[j].activity.time
  {
    SortSorted(s, Newest, loc);
    forall i, j | 0 <= i < j < |r| ensures r[i].activity.time >= r[j].activity.time {
      SortedPairwise(r, Newest, loc, i, j);
    }
  }

  /** The "oldest" order lists times in non-decreasing order. */
  lemma OldestAscending(s: seq<Entry>, loc: Locale, r: seq<Entry>)
    requires r == InsertionSort(s, Oldest, loc)
    ensures forall i, j :: 0 <= i < j < |r| ==> r[i].activity.time <= r[j].activity.time
  {
    SortSorted(s, Oldest, loc);
    forall i, j | 0 <= i < j < |r| ensures r[i].activity.time <= r[j].activity.time {
      SortedPairwise(r, Oldest, loc, i, j);
    }
  }

  /** The "az" order lists names so that `localeCompare` of any earlier name with any later one is not positive. */
  lemma NamesAscending(s: seq<Entry>, loc: Locale, r: seq<Entry>)
    requires CompareConsistent(loc.localeCompare)
    requires r == InsertionSort(s, Alphabetical, loc)
    ensures forall i, j :: 0 <= i < j < |r| ==> loc.localeCompare(r[i].activity.name, r[j].activity.name) <= 0
  {
    SortSorted(s, Alphabetical, loc);
    forall i, j | 0 <= i < j < |r| ensures loc.localeCompare(r[i].activity.name, r[j].activity.name) <= 0 {
      SortedPairwise(r, Alphabetical, loc, i, j);
    }
  }

  /** `list.sort(comparator)`: insertion sort in place, growing a sorted prefix one element at a time. */
  method SortInPlace(a: array<Entry>, mode: Order, loc: Locale)
    modifies a
    ensures a[..] == InsertionSort(old(a[..]), mode, loc)
  {
    ghost var input := a[..];
    var i := 0;
    while i < a.Length
      invariant 0 <= i <= a.Length
      invariant a[..i] == InsertionSort(input[..i], mode, loc)
      invariant a[i..] == input[i..]
    {
      assert a[i] == input[i] by { assert a[i..][0] == input[i..][0]; }
      ghost var tail := a[i + 1..];
      assert tail == input[i + 1..] by { assert tail == a[i..][1..]; }
      InsertInto(a, i, mode, loc);
      SortStep(input, i, mode, loc);
      i := i + 1;
    }
    assert input[..a.Length] == input;
  }

  /** The sorted prefix grows by inserting the next element. */
  lemma SortStep(s: seq<Entry>, i: int, mode: Order, loc: Locale)
    requires 0 <= i < |s|
    ensures InsertionSort(s[..i + 1], mode, loc) == Insert(s[i], InsertionSort(s[..i], mode, loc), mode, loc)
  {
    assert s[..i + 1][..i] == s[..i];
  }

  /** `list.sort(comparator)` on the array holding `list`. */
  method SortList(list: seq<Entry>, mode: Order, loc: Locale) returns (r: seq<Entry>)
    ensures r == InsertionSort(list, mode, loc)
  {
    var a := new Entry[|list|](i requires 0 <= i < |list| => list[i]);
    assert a[..] == list;
    SortInPlace(a, mode, loc);
    r := a[..];
  }

  /** Moves `a[i]` left, swapping it with each element of the prefix `a[..i]` that goes after it. */
  method InsertInto(a: array<Entry>, i: int, mode: Order, loc: Locale)
    requires 0 <= i < a.Length
    modifies a
    ensures a[..i + 1] == Insert(old(a[i]), old(a[..i]), mode, loc)
    ensures a[i + 1..] == old(a[i + 1..])
  {
    var key := a[i];
    ghost var s := a[..i];
    ghost var rest := a[i + 1..];
    assert a[..] == Placed(s, key, rest, i);
    var j := i;
    PlacedAround(s, key, rest, j);
    while j > 0 && After(a[j - 1], a[j], mode, loc)
      invariant 0 <= j <= i
      invariant a[..] == Placed(s, key, rest, j)
      invariant forall k :: j <= k < i ==> After(s[k], key, mode, loc)
    {
      PlacedAround(s, key, rest, j);
      ghost var before := a[..];
      a[j - 1], a[j] := a[j], a[j - 1];
      assert a[..] == before[j - 1 := key][j := s[j - 1]];
      SwapDown(s, key, rest, j);
      j := j - 1;
    }
    PlacedAround(s, key, rest, j);
    InsertAt(key, s, j, mode, loc);
    PlacedParts(s, key, rest, j);
  }

  /** The array during one insertion pass: `key` sits at position `j` of the sorted prefix `s`. */
  ghost function Placed(s: seq<Entry>, key: Entry, rest: seq<Entry>, j: int): seq<Entry>
    requires 0 <= j <= |s|
  {
    s[..j] + [key] + s[j..] + rest
  }

  lemma PlacedAround(s: seq<Entry>, key: Entry, rest: seq<Entry>, j: int)
    requires 0 <= j <= |s|
    ensures |Placed(s, key, rest, j)| == |s| + 1 + |rest|
    ensures Placed(s, key, rest, j)[j] == key
    ensures j > 0 ==> Placed(s, key, rest, j)[j - 1] == s[j - 1]
  {
  }

  /** Swapping `key` with its left neighbour moves it one place down. */
  lemma SwapDown(s: seq<Entry>, key: Entry, rest: seq<Entry>, j: int)
    requires 0 < j <= |s|
    ensures Placed(s, key, rest, j)[j - 1 := key][j := s[j - 1]] == Placed(s, key, rest, j - 1)
  {
    assert s[j - 1..] == [s[j - 1]] + s[j..];
    assert s[..j] == s[..j - 1] + [s[j - 1]];
  }

  lemma PlacedParts(s: seq<Entry>, key: Entry, rest: seq<Entry>, j: int)
    requires 0 <= j <= |s|
    ensures Placed(s, key, rest, j)[..|s| + 1] == s[..j] + [key] + s[j..]
    ensures Placed(s, key, rest, j)[|s| + 1..] == rest
  {
    var p := s[..j] + [key] + s[j..];
    assert |p| == |s| + 1;
    assert Placed(s, key, rest, j) == p + rest;
  }

  /**
   * Where the scan stops: when every element from `j` on goes after `x` and
   * the one before `j` does not, `x` is inserted at position `j`.
   */
  lemma {:induction false} InsertAt(x: Entry, s: seq<Entry>, j: int, mode: Order, loc: Locale)
    requires 0 <= j <= |s|
    requires j == 0 || !After(s[j - 1], x, mode, loc)
    requires forall k :: j <= k < |s| ==> After(s[k], x, mode, loc)
    ensures Insert(x, s, mode, loc) == s[..j] + [x] + s[j..]
  {
    if j < |s| {
      var init := s[..|s| - 1];
      InsertAt(x, init, j, mode, loc);
      assert init[..j] == s[..j];
      assert s[j..] == init[j..] + [s[|s| - 1]];
    } else {
      assert s[..j] == s;
    }
  }
}
