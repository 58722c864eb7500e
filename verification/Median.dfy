/** The median filter over the search offsets of a line scan. */
module Median {
  import opened Options

  function Insert(x: int, s: seq<int>): (r: seq<int>)
    ensures |r| == |s| + 1
  {
    if s == [] || x <= s[0] then [x] + s else [s[0]] + Insert(x, s[1..])
  }

  /** The window in ascending order, as the library sort leaves it. */
  function Sorted(s: seq<int>): (r: seq<int>)
    ensures |r| == |s|
  {
    if s == [] then [] else Insert(s[0], Sorted(s[1..]))
  }

  predicate Ascending(s: seq<int>) {
    forall i, j | 0 <= i <= j < |s| :: s[i] <= s[j]
  }

  function Below(s: seq<int>, m: int): nat {
    if s == [] then 0 else (if s[0] < m then 1 else 0) + Below(s[1..], m)
  }

  function AtMost(s: seq<int>, m: int): nat {
    if s == [] then 0 else (if s[0] <= m then 1 else 0) + AtMost(s[1..], m)
  }

  /** The value with at most half of the others below it and more than half not above it. */
  predicate IsUpperMedian(s: seq<int>, m: int) {
    Below(s, m) <= |s| / 2 < AtMost(s, m)
  }

  lemma {:induction false} InsertKeepsOrder(x: int, s: seq<int>)
    requires Ascending(s)
    ensures Ascending(Insert(x, s))
    ensures forall v | v in Insert(x, s) :: v == x || v in s
  {
    if s != [] && x > s[0] {
      InsertKeepsOrder(x, s[1..]);
      var r := Insert(x, s[1..]);
      assert forall k | 0 <= k < |r| :: r[k] in r && s[0] <= r[k];
    }
  }

  lemma {:induction false} SortedAscends(s: seq<int>)
    ensures Ascending(Sorted(s))
    ensures forall v | v in Sorted(s) :: v in s
  {
    if s != [] {
      SortedAscends(s[1..]);
      InsertKeepsOrder(s[0], Sorted(s[1..]));
    }
  }

  lemma {:induction false} InsertCounts(x: int, s: seq<int>, m: int)
    ensures Below(Insert(x, s), m) == Below(s, m) + if x < m then 1 else 0
    ensures AtMost(Insert(x, s), m) == AtMost(s, m) + if x <= m then 1 else 0
  {
    if s == [] || x <= s[0] {
      assert ([x] + s)[1..] == s;
    } else {
      InsertCounts(x, s[1..], m);
      assert ([s[0]] + Insert(x, s[1..]))[1..] == Insert(x, s[1..]);
    }
  }

  /** Sorting keeps every count, so it loses and invents no value. */
  lemma {:induction false} SortedCounts(s: seq<int>, m: int)
    ensures Below(Sorted(s), m) == Below(s, m) && AtMost(Sorted(s), m) == AtMost(s, m)
  {
    if s != [] {
      SortedCounts(s[1..], m);
      InsertCounts(s[0], Sorted(s[1..]), m);
    }
  }

  lemma {:induction false} AscendingRank(s: seq<int>, k: nat)
    requires Ascending(s) && k < |s|
    ensures Below(s, s[k]) <= k < AtMost(s, s[k])
  {
    if k > 0 {
      AscendingRank(s[1..], k - 1);
    } else {
      NoneBelowFirst(s, s[0]);
    }
  }

  lemma {:induction false} NoneBelowFirst(s: seq<int>, m: int)
    requires forall i | 0 <= i < |s| :: m <= s[i]
    ensures Below(s, m) == 0
  {
    if s != [] { NoneBelowFirst(s[1..], m); }
  }

  function UpperMedian(s: seq<int>): (m: int)
    requires s != []
  {
    Sorted(s)[|s| / 2]
  }

  /** The middle of the sorted window is the upper median, and one of the window's values. */
  lemma UpperMedianCorrect(s: seq<int>)
    requires s != []
    ensures IsUpperMedian(s, UpperMedian(s)) && UpperMedian(s) in s
  {
    SortedAscends(s);
    AscendingRank(Sorted(s), |s| / 2);
    SortedCounts(s, UpperMedian(s));
    assert UpperMedian(s) in Sorted(s);
  }

  lemma {:induction false} CountsOrdered(s: seq<int>, m: int, n: int)
    requires m < n
    ensures AtMost(s, m) <= Below(s, n)
  {
    if s != [] { CountsOrdered(s[1..], m, n); }
  }

  lemma UpperMedianUnique(s: seq<int>, m: int, n: int)
    requires IsUpperMedian(s, m) && IsUpperMedian(s, n)
    ensures m == n
  {
    if m < n { CountsOrdered(s, m, n); }
    if n < m { CountsOrdered(s, n, m); }
  }

  // ----- the filter --------------------------------------------------------------------

  /** Half the filter size, with the C division towards zero: a filter of size 0 has windows of one value. */
  function Reach(filterSize: nat): nat { if filterSize == 0 then 0 else (filterSize - 1) / 2 }

  function From(i: nat, filterSize: nat): nat {
    if i < Reach(filterSize) then 0 else i - Reach(filterSize)
  }

  function To(i: nat, size: nat, filterSize: nat): int {
    if i + Reach(filterSize) >= size then size - 1 else i + Reach(filterSize)
  }

  /** The values around entry i, clipped to the data; they fit a sort buffer of the filter's size unless that is 0. */
  function Window(data: seq<int>, i: nat, filterSize: nat): (w: seq<int>)
    requires i < |data|
    ensures 1 <= |w| && (|w| <= filterSize <==> filterSize >= 1)
    ensures forall v | v in w :: v in data
  {
    data[From(i, filterSize)..To(i, |data|, filterSize) + 1]
  }

  /** The window of entry i holds exactly the entries at most (filterSize - 1) / 2 places away. */
  lemma WindowExactly(data: seq<int>, i: nat, filterSize: nat, j: nat)
    requires i < |data| && j < |data| && filterSize >= 1
    ensures From(i, filterSize) <= j <= To(i, |data|, filterSize) <==>
            j <= i + (filterSize - 1) / 2 && i <= j + (filterSize - 1) / 2
    ensures From(i, filterSize) <= j <= To(i, |data|, filterSize) ==>
              Window(data, i, filterSize)[j - From(i, filterSize)] == data[j]
    ensures |Window(data, i, filterSize)| == To(i, |data|, filterSize) - From(i, filterSize) + 1
  {
  }

  /** One window, sorted in the buffer; None if the buffer is too small for it. */
  method FilterAt(data: array<int>, size: nat, i: nat, filterSize: nat) returns (m: Option<int>)
    requires i < size <= data.Length
    ensures m.None? <==> filterSize == 0
    ensures m.Some? ==> IsUpperMedian(Window(data[..size], i, filterSize), m.value) && m.value in data[..size]
  {
    var i1, i2 := i - Reach(filterSize), i + Reach(filterSize);
    if i1 < 0 { i1 := 0; }
    if i2 >= size { i2 := size - 1; }
    if i2 - i1 + 1 > filterSize { return None; }
    var sortbuf := Sorted(data[..size][i1..i2 + 1]);
    UpperMedianCorrect(Window(data[..size], i, filterSize));
    m := Some(sortbuf[(i2 - i1 + 1) / 2]);
  }

  method CopyBack(data: array<int>, result: seq<int>)
    requires |result| <= data.Length
    modifies data
    ensures data[..] == result + old(data[|result|..])
  {
    for i := 0 to |result|
      invariant forall k | 0 <= k < data.Length :: data[k] == if k < i then result[k] else old(data[k])
    {
      data[i] := result[i];
    }
  }

  /** Each value is the upper median of its window of the data. */
  ghost predicate AllMedians(data: seq<int>, filterSize: nat, result: seq<int>) {
    |result| <= |data| &&
    forall k | 0 <= k < |result| :: IsUpperMedian(Window(data, k, filterSize), result[k]) && result[k] in data
  }

  /**
   Every entry becomes the upper median of its window of original values; entries past
   `size` stay. A filter of size 0 overruns its sort buffer with the first window.
   */
  method MedianFilter(data: array<int>, size: nat, filterSize: nat) returns (overrun: bool)
    requires size <= data.Length
    modifies data
    ensures overrun <==> filterSize == 0 && size > 0
    ensures overrun ==> data[..] == old(data[..])
    ensures !overrun ==> data[size..] == old(data[size..]) &&
                         AllMedians(old(data[..size]), filterSize, data[..size])
  {
    ghost var before := data[..size];
    var result := [];
    for i := 0 to size
      invariant |result| == i && data[..] == old(data[..]) && (i > 0 ==> filterSize > 0)
      invariant AllMedians(before, filterSize, result)
    {
      var m := FilterAt(data, size, i, filterSize);
      assert data[..size] == data[..][..size] == before;
      if m.None? { return true; }
      result := result + [m.value];
    }
    assert data[size..] == data[..][size..] == old(data[size..]);
    CopyBack(data, result);
    assert data[..size] == data[..][..size] == result;
    assert data[size..] == data[..][size..];
    return false;
  }
}
