/** The median aggregator: the model of `median`.

    The values are sorted ascending; an empty list gives 0, an odd-length list
    its middle element, an even-length list the mean of its two middle
    elements rounded half-up (`Math.round`).  Values are integers here. */
module Aggregate {

  predicate Sorted(s: seq<int>) {
    forall i, j :: 0 <= i < j < |s| ==> s[i] <= s[j]
  }

  /** `x` inserted into the ascending list `s`. */
  function Insert(x: int, s: seq<int>): (r: seq<int>)
    requires Sorted(s)
    ensures Sorted(r)
    ensures multiset(r) == multiset(s) + multiset{x}
  {
    if s == [] || x <= s[0] then
      SortedCons(x, s);
      [x] + s
    else
      var t := Insert(x, s[1..]);
      assert s == [s[0]] + s[1..];
      InsertBelow(s[0], x, s[1..], t);
      SortedCons(s[0], t);
      [s[0]] + t
  }

  /** A lower bound of an ascending list extends it to an ascending list. */
  lemma SortedCons(y: int, t: seq<int>)
    requires Sorted(t)
    requires t == [] || y <= t[0]
    ensures Sorted([y] + t)
  {
    var r := [y] + t;
    forall i, j | 0 <= i < j < |r|
      ensures r[i] <= r[j]
    {
      if i > 0 {
        assert r[i] == t[i - 1] && r[j] == t[j - 1];
      } else {
        assert r[j] == t[j - 1];
      }
    }
  }

  /** A lower bound of an ascending list and of `x` bounds the list with `x`
      inserted. */
  lemma InsertBelow(y: int, x: int, s: seq<int>, t: seq<int>)
    requires y <= x
    requires forall k :: 0 <= k < |s| ==> y <= s[k]
    requires multiset(t) == multiset(s) + multiset{x}
    ensures forall k :: 0 <= k < |t| ==> y <= t[k]
  {
    forall k | 0 <= k < |t|
      ensures y <= t[k]
    {
      assert t[k] in multiset(t);
      if t[k] != x {
        assert t[k] in multiset(s);
        var i :| 0 <= i < |s| && s[i] == t[k];
      }
    }
  }

  /** The ascending arrangement of `s` (the comparator `(x, y) => x - y`). */
  function Sort(s: seq<int>): (r: seq<int>)
    ensures Sorted(r)
    ensures multiset(r) == multiset(s)
  {
    if s == [] then []
    else
      assert s == [s[0]] + s[1..];
      Insert(s[0], Sort(s[1..]))
  }

  /** `Math.round((x + y) / 2)`: the integer nearest to the mean, halves
      rounded up. */
  function RoundedMean(x: int, y: int): (r: int)
    ensures 2 * r - 1 <= x + y <= 2 * r
  {
    (x + y + 1) / 2
  }

  /** The median rule read off an ascending list: 0 when it is empty, its
      middle element when its length is odd, the rounded mean of its two
      middle elements otherwise. */
  function MiddleOf(a: seq<int>): int {
    if |a| == 0 then 0
    else if |a| % 2 == 1 then a[|a| / 2]
    else RoundedMean(a[|a| / 2 - 1], a[|a| / 2])
  }

  /** `median(nums)`: the median rule applied to the sorted values. */
  function Median(nums: seq<int>): int {
    MiddleOf(Sort(nums))
  }

  /** Two ascending lists with the same elements start with the same one:
      their least element. */
  lemma SortedSameHead(a: seq<int>, b: seq<int>)
    requires Sorted(a) && Sorted(b) && a != []
    requires multiset(a) == multiset(b)
    ensures b != [] && a[0] == b[0]
  {
    assert a[0] in multiset(a);
    assert a[0] in b;
    var i :| 0 <= i < |b| && b[i] == a[0];
    assert b[0] in multiset(b);
    assert b[0] in a;
    var j :| 0 <= j < |a| && a[j] == b[0];
    assert b[0] <= b[i] && a[0] <= a[j];
  }

  /** Two ascending lists with the same elements are equal: there is only one
      way to sort. */
  lemma {:induction false} SortedUnique(a: seq<int>, b: seq<int>)
    requires Sorted(a) && Sorted(b)
    requires multiset(a) == multiset(b)
    ensures a == b
  {
    if a != [] {
      SortedSameHead(a, b);
      assert a == [a[0]] + a[1..];
      assert b == [b[0]] + b[1..];
      assert multiset(a[1..]) == multiset(a) - multiset{a[0]};
      assert multiset(b[1..]) == multiset(b) - multiset{b[0]};
      SortedUnique(a[1..], b[1..]);
    } else {
      assert |b| == |multiset(b)| == 0;
    }
  }

  /** The median is the middle (or rounded mean of the two middle elements)
      of every ascending arrangement of the values, whatever sort produced it. */
  lemma MedianOfAscending(nums: seq<int>, a: seq<int>)
    requires Sorted(a) && multiset(a) == multiset(nums)
    ensures Median(nums) == MiddleOf(a)
  {
    SortedUnique(Sort(nums), a);
  }

  /** The median does not depend on the order of the values. */
  lemma MedianOrderFree(s: seq<int>, t: seq<int>)
    requires multiset(s) == multiset(t)
    ensures Median(s) == Median(t)
  {
    SortedUnique(Sort(s), Sort(t));
  }

  /** A non-empty median lies between the least and the greatest value. */
  lemma MedianBounds(nums: seq<int>)
    requires |nums| > 0
    ensures exists i :: 0 <= i < |nums| && nums[i] <= Median(nums)
    ensures exists j :: 0 <= j < |nums| && Median(nums) <= nums[j]
  {
    var a := Sort(nums);
    assert |a| == |multiset(a)| == |multiset(nums)| == |nums|;
    var hi := |a| / 2;
    var lo := if |a| % 2 == 1 then hi else hi - 1;
    assert a[lo] <= Median(nums) <= a[hi];
    assert a[lo] in multiset(nums) && a[hi] in multiset(nums);
  }

  /** An odd number of values has one of them as its median. */
  lemma MedianOddIsValue(nums: seq<int>)
    requires |nums| % 2 == 1
    ensures Median(nums) in nums
  {
    var a := Sort(nums);
    assert |a| == |multiset(a)| == |multiset(nums)| == |nums|;
    assert a[|a| / 2] in multiset(nums);
  }

  /** Every value is positive, so is the median. */
  lemma MedianPositive(nums: seq<int>)
    requires |nums| > 0
    requires forall i :: 0 <= i < |nums| ==> nums[i] > 0
    ensures Median(nums) > 0
  {
    MedianBounds(nums);
  }

  /** One value is its own median. */
  lemma MedianSingle(nums: seq<int>)
    requires |nums| == 1
    ensures Median(nums) == nums[0]
  {
    MedianOfAscending(nums, nums);
  }

  /** Worked cases: an empty list gives 0, one value is its own median, and
      an even-length list gives the mean of its two middle values. */
  lemma MedianExamples(one: seq<int>, two: seq<int>, pair: seq<int>)
    requires one == [4] && two == [3, 1] && pair == [100, 200]
    ensures Median([]) == 0
    ensures Median(one) == 4
    ensures Median(two) == 2
    ensures Median(pair) == 150
  {
    MedianSingle(one);
    assert Sorted([1, 3]);
    assert multiset([1, 3]) == multiset(two);
    MedianOfAscending(two, [1, 3]);
    assert Sorted(pair);
    MedianOfAscending(pair, pair);
  }

  /** Half-up rounding: the middle values 2 and 3 give 3. */
  lemma MedianEvenExample(a: seq<int>)
    requires a == [1, 2, 3, 4]
    ensures Median(a) == 3
  {
    assert Sorted(a);
    MedianOfAscending(a, a);
  }
}
