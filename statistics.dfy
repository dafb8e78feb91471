/**
 * The two library aggregates the report uses (close_script.py:213-214):
 * `sum` and `statistics.median`, on integer revenues. The median is a real:
 * for an even count it is the mean of the two middle values.
 */
module Statistics {

  /** `sum(xs)` */
  function Sum(xs: seq<int>): int {
    if xs == [] then 0 else xs[0] + Sum(xs[1..])
  }

  /** Summing a concatenation sums the parts. */
  lemma {:induction false} SumAppend(xs: seq<int>, ys: seq<int>)
    ensures Sum(xs + ys) == Sum(xs) + Sum(ys)
  {
    if xs == [] {
      assert xs + ys == ys;
    } else {
      assert (xs + ys)[1..] == xs[1..] + ys;
      SumAppend(xs[1..], ys);
    }
  }

  predicate SortedAsc(xs: seq<int>) {
    forall i, j :: 0 <= i < j < |xs| ==> xs[i] <= xs[j]
  }

  function InsertAsc(x: int, xs: seq<int>): (r: seq<int>)
    ensures |r| == |xs| + 1
    ensures multiset(r) == multiset(xs) + multiset{x}
  {
    if xs == [] || x <= xs[0] then [x] + xs
    else
      assert xs == [xs[0]] + xs[1..];
      [xs[0]] + InsertAsc(x, xs[1..])
  }

  /** A value no larger than everything in an ascending list can go in front. */
  lemma ConsSortedAsc(h: int, t: seq<int>)
    requires SortedAsc(t) && forall i :: 0 <= i < |t| ==> h <= t[i]
    ensures SortedAsc([h] + t)
  {
    forall i, j | 0 <= i < j < |t| + 1 ensures ([h] + t)[i] <= ([h] + t)[j] {
      assert ([h] + t)[j] == t[j - 1];
      if i > 0 {
        assert ([h] + t)[i] == t[i - 1];
      }
    }
  }

  /** Inserting into the tail keeps everything above the head. */
  lemma InsertAboveHead(x: int, xs: seq<int>)
    requires SortedAsc(xs) && xs != [] && x > xs[0]
    ensures forall i :: 0 <= i < |InsertAsc(x, xs[1..])| ==> xs[0] <= InsertAsc(x, xs[1..])[i]
  {
    var t := InsertAsc(x, xs[1..]);
    forall i | 0 <= i < |t| ensures xs[0] <= t[i] {
      assert t[i] in multiset(t);
      if t[i] != x {
        assert t[i] in multiset(xs[1..]);
        var k :| 0 <= k < |xs[1..]| && xs[1..][k] == t[i];
        assert xs[k + 1] == t[i];
      }
    }
  }

  lemma {:induction false} InsertAscSorted(x: int, xs: seq<int>)
    requires SortedAsc(xs)
    ensures SortedAsc(InsertAsc(x, xs))
    decreases |xs|
  {
    if xs != [] && x > xs[0] {
      assert SortedAsc(xs[1..]) by {
        forall i, j | 0 <= i < j < |xs[1..]| ensures xs[1..][i] <= xs[1..][j] {
          assert xs[1..][i] == xs[i + 1] && xs[1..][j] == xs[j + 1];
        }
      }
      InsertAscSorted(x, xs[1..]);
      InsertAboveHead(x, xs);
      ConsSortedAsc(xs[0], InsertAsc(x, xs[1..]));
    } else {
      ConsSortedAsc(x, xs);
    }
  }

  /** `sorted(xs)` */
  function SortAsc(xs: seq<int>): (r: seq<int>)
    ensures SortedAsc(r)
    ensures multiset(r) == multiset(xs)
  {
    if xs == [] then []
    else
      assert xs == [xs[0]] + xs[1..];
      InsertAscSorted(xs[0], SortAsc(xs[1..]));
      InsertAsc(xs[0], SortAsc(xs[1..]))
  }

  /** The middle value of ascending data, or the mean of the two middle
      values when the count is even. */
  function Middle(data: seq<int>): real
    requires data != []
  {
    var n := |data|;
    var i := n / 2;
    if n % 2 == 1 then data[i] as real else (data[i - 1] + data[i]) as real / 2.0
  }

  /** `statistics.median(xs)`: the middle of the sorted data. The script only
      calls it on a non-empty group. */
  function Median(xs: seq<int>): real
    requires xs != []
  {
    var data := SortAsc(xs);
    assert |data| == |multiset(data)| == |xs|;
    Middle(data)
  }

  lemma SortedHeadIsLeast(a: seq<int>, x: int)
    requires SortedAsc(a) && x in multiset(a)
    ensures a != [] && a[0] <= x
  {
    var i :| 0 <= i < |a| && a[i] == x;
    assert i == 0 || a[0] <= a[i];
  }

  lemma SortedAscTail(a: seq<int>)
    requires SortedAsc(a) && a != []
    ensures SortedAsc(a[1..]) && multiset(a[1..]) == multiset(a) - multiset{a[0]}
  {
    assert a == [a[0]] + a[1..];
  }

  lemma HeadAndTail(a: seq<int>)
    requires a != []
    ensures a == [a[0]] + a[1..]
  {
  }

  lemma SameHead(a: seq<int>, b: seq<int>)
    requires SortedAsc(a) && SortedAsc(b) && multiset(a) == multiset(b) && a != []
    ensures b != [] && a[0] == b[0]
  {
    assert a[0] in multiset(a);
    SortedHeadIsLeast(b, a[0]);
    assert b[0] in multiset(b);
    SortedHeadIsLeast(a, b[0]);
  }

  /** An ascending list is determined by its elements. */
  lemma {:induction false} SortedAscUnique(a: seq<int>, b: seq<int>)
    requires SortedAsc(a) && SortedAsc(b) && multiset(a) == multiset(b)
    ensures a == b
    decreases |a|
  {
    if a != [] {
      SameHead(a, b);
      SortedAscTail(a);
      SortedAscTail(b);
      SortedAscUnique(a[1..], b[1..]);
      HeadAndTail(a);
      HeadAndTail(b);
    } else {
      assert |b| == |multiset(b)| == 0;
    }
  }

  /** The median depends only on the values, not on their order. */
  lemma MedianOrderFree(xs: seq<int>, ys: seq<int>)
    requires xs != [] && multiset(xs) == multiset(ys)
    ensures ys != [] && Median(xs) == Median(ys)
  {
    assert |ys| == |multiset(ys)| == |xs|;
    MedianOfArrangement(xs, SortAsc(xs));
    MedianOfArrangement(ys, SortAsc(xs));
  }

  /** The median lies within any bounds of the data. */
  lemma MedianBounds(xs: seq<int>, lo: int, hi: int)
    requires xs != []
    requires forall i :: 0 <= i < |xs| ==> lo <= xs[i] <= hi
    ensures lo as real <= Median(xs) <= hi as real
  {
    var data := SortAsc(xs);
    assert |data| == |multiset(data)| == |xs|;
    forall k | 0 <= k < |data| ensures lo <= data[k] <= hi {
      assert data[k] in multiset(xs);
      var i :| 0 <= i < |xs| && xs[i] == data[k];
    }
  }

  /** For an odd count the median is one of the values. */
  lemma MedianOfOddCount(xs: seq<int>) returns (k: nat)
    requires |xs| % 2 == 1
    ensures k < |xs| && Median(xs) == xs[k] as real
  {
    var data := SortAsc(xs);
    assert |data| == |multiset(data)| == |xs|;
    assert data[|xs| / 2] in multiset(xs);
    k :| 0 <= k < |xs| && xs[k] == data[|xs| / 2];
  }

  lemma SumExample(xs: seq<int>)
    requires xs == [100, 300, 100]
    ensures Sum(xs) == 500
  {
    assert xs[1..] == [300, 100];
    assert xs[1..][1..] == [100];
    assert xs[1..][1..][1..] == [];
    assert Sum(xs[1..][1..]) == 100;
    assert Sum(xs[1..]) == 400;
  }

  /** The median can be read off any ascending arrangement of the data. */
  lemma MedianOfArrangement(xs: seq<int>, data: seq<int>)
    requires xs != [] && SortedAsc(data) && multiset(data) == multiset(xs)
    ensures data != [] && Median(xs) == Middle(data)
  {
    assert |data| == |multiset(data)| == |xs|;
    SortedAscUnique(SortAsc(xs), data);
  }

  lemma ExampleArrangement(xs: seq<int>)
    requires xs == [100, 300, 100]
    ensures multiset(xs) == multiset([100, 100, 300])
  {
  }

  lemma ExampleSorted(data: seq<int>)
    requires data == [100, 100, 300]
    ensures SortedAsc(data)
  {
  }

  lemma MedianExample(xs: seq<int>)
    requires xs == [100, 300, 100]
    ensures Median(xs) == 100.0
  {
    var data := [100, 100, 300];
    ExampleArrangement(xs);
    ExampleSorted(data);
    MedianOfArrangement(xs, data);
  }
}
