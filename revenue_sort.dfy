/**
 * `entries.sort(key=lambda x: x["revenue"], reverse=True)`
 * (close_script.py:207): Python's list sort with `reverse=True` orders by
 * revenue, largest first, and keeps entries of equal revenue in their
 * original order. The library sort is modelled by its result, defined as an
 * insertion sort and then shown to be the only result with those properties.
 */
module RevenueSort {
  import opened Statistics

  /** `{"name": lead["name"], "revenue": revenue}` (close_script.py:188-191). */
  datatype Entry = Entry(name: string, revenue: int)

  predicate SortedDesc(s: seq<Entry>) {
    forall i, j :: 0 <= i < j < |s| ==> s[i].revenue >= s[j].revenue
  }

  /** Inserts `x` ahead of the first entry whose revenue is at most its own,
      so it precedes the equal entries, which came after it in the input. */
  function InsertDesc(x: Entry, s: seq<Entry>): (r: seq<Entry>)
    ensures |r| == |s| + 1
    ensures multiset(r) == multiset(s) + multiset{x}
  {
    if s == [] || s[0].revenue <= x.revenue then [x] + s
    else
      var r := [s[0]] + InsertDesc(x, s[1..]);
      assert s == [s[0]] + s[1..];
      r
  }

  /** An entry at least as large as everything in a descending list can go in front. */
  lemma ConsSorted(h: Entry, t: seq<Entry>)
    requires SortedDesc(t) && forall i :: 0 <= i < |t| ==> t[i].revenue <= h.revenue
    ensures SortedDesc([h] + t)
  {
    forall i, j | 0 <= i < j < |t| + 1 ensures ([h] + t)[i].revenue >= ([h] + t)[j].revenue {
      assert ([h] + t)[j] == t[j - 1];
      if i > 0 {
        assert ([h] + t)[i] == t[i - 1];
      }
    }
  }

  /** Inserting into the tail keeps everything below the head. */
  lemma InsertBelowHead(x: Entry, s: seq<Entry>)
    requires SortedDesc(s) && s != [] && s[0].revenue > x.revenue
    ensures forall i :: 0 <= i < |InsertDesc(x, s[1..])| ==> InsertDesc(x, s[1..])[i].revenue <= s[0].revenue
  {
    var t := InsertDesc(x, s[1..]);
    forall i | 0 <= i < |t| ensures t[i].revenue <= s[0].revenue {
      assert t[i] in multiset(t);
      if t[i] != x {
        assert t[i] in multiset(s[1..]);
        var k :| 0 <= k < |s[1..]| && s[1..][k] == t[i];
        assert s[k + 1] == t[i];
      }
    }
  }

  lemma {:induction false} InsertSorted(x: Entry, s: seq<Entry>)
    requires SortedDesc(s)
    ensures SortedDesc(InsertDesc(x, s))
    decreases |s|
  {
    if s != [] && s[0].revenue > x.revenue {
      assert SortedDesc(s[1..]) by {
        forall i, j | 0 <= i < j < |s[1..]| ensures s[1..][i].revenue >= s[1..][j].revenue {
          assert s[1..][i] == s[i + 1] && s[1..][j] == s[j + 1];
        }
      }
      InsertSorted(x, s[1..]);
      InsertBelowHead(x, s);
      ConsSorted(s[0], InsertDesc(x, s[1..]));
    } else {
      ConsSorted(x, s);
    }
  }

  /** The list after the sort. */
  function SortByRevenueDesc(s: seq<Entry>): (r: seq<Entry>)
    ensures SortedDesc(r)
    ensures multiset(r) == multiset(s)
  {
    if s == [] then []
    else
      assert s == [s[0]] + s[1..];
      InsertSorted(s[0], SortByRevenueDesc(s[1..]));
      InsertDesc(s[0], SortByRevenueDesc(s[1..]))
  }

  /** The entries of revenue `v`, in order. */
  function WithRevenue(s: seq<Entry>, v: int): seq<Entry> {
    if s == [] then []
    else (if s[0].revenue == v then [s[0]] else []) + WithRevenue(s[1..], v)
  }

  lemma WithRevenueCons(e: Entry, s: seq<Entry>, v: int)
    ensures WithRevenue([e] + s, v) == (if e.revenue == v then [e] else []) + WithRevenue(s, v)
  {
    assert ([e] + s)[0] == e && ([e] + s)[1..] == s;
  }

  lemma {:induction false} InsertWithRevenue(x: Entry, s: seq<Entry>, v: int)
    ensures WithRevenue(InsertDesc(x, s), v) == (if x.revenue == v then [x] else []) + WithRevenue(s, v)
    decreases |s|
  {
    if s == [] || s[0].revenue <= x.revenue {
      WithRevenueCons(x, s, v);
    } else {
      InsertWithRevenue(x, s[1..], v);
      InsertWithRevenueBehind(x, s, v);
    }
  }

  /** The case where `x` goes behind the head of `s`. */
  lemma InsertWithRevenueBehind(x: Entry, s: seq<Entry>, v: int)
    requires s != [] && s[0].revenue > x.revenue
    requires WithRevenue(InsertDesc(x, s[1..]), v) == (if x.revenue == v then [x] else []) + WithRevenue(s[1..], v)
    ensures WithRevenue(InsertDesc(x, s), v) == (if x.revenue == v then [x] else []) + WithRevenue(s, v)
  {
    var t := InsertDesc(x, s[1..]);
    assert InsertDesc(x, s) == [s[0]] + t;
    WithRevenueCons(s[0], t, v);
    assert s == [s[0]] + s[1..];
    WithRevenueCons(s[0], s[1..], v);
    if s[0].revenue == v {
      assert x.revenue != v;
      assert [] + WithRevenue(s[1..], v) == WithRevenue(s[1..], v);
      assert WithRevenue(t, v) == WithRevenue(s[1..], v);
    } else {
      assert WithRevenue(InsertDesc(x, s), v) == WithRevenue(t, v);
      assert WithRevenue(s, v) == WithRevenue(s[1..], v);
    }
  }

  /** Stability: for each revenue, the entries keep their input order. */
  lemma {:induction false} SortIsStable(s: seq<Entry>, v: int)
    ensures WithRevenue(SortByRevenueDesc(s), v) == WithRevenue(s, v)
    decreases |s|
  {
    if s != [] {
      SortIsStable(s[1..], v);
      InsertWithRevenue(s[0], SortByRevenueDesc(s[1..]), v);
    }
  }

  // ---- uniqueness: sorted and stable pins the result down ----

  lemma {:induction false} WithRevenueMember(s: seq<Entry>, v: int, k: nat)
    requires k < |WithRevenue(s, v)|
    ensures WithRevenue(s, v)[k] in s && WithRevenue(s, v)[k].revenue == v
    decreases |s|
  {
    if s[0].revenue == v && k == 0 {
    } else if s[0].revenue == v {
      WithRevenueMember(s[1..], v, k - 1);
    } else {
      WithRevenueMember(s[1..], v, k);
    }
  }

  lemma WithRevenueHead(s: seq<Entry>)
    requires s != []
    ensures WithRevenue(s, s[0].revenue) == [s[0]] + WithRevenue(s[1..], s[0].revenue)
  {
  }

  /** The revenue of an entry of a descending list is at most its head's. */
  lemma HeadIsLargest(s: seq<Entry>, e: Entry)
    requires SortedDesc(s) && e in s
    ensures s[0].revenue >= e.revenue
  {
    var i :| 0 <= i < |s| && s[i] == e;
    assert i == 0 || s[0].revenue >= s[i].revenue;
  }

  /** Two descending lists that agree on every revenue's entries are equal. */
  lemma {:induction false} StableSortUnique(u: seq<Entry>, w: seq<Entry>)
    requires SortedDesc(u) && SortedDesc(w)
    requires forall v :: WithRevenue(u, v) == WithRevenue(w, v)
    ensures u == w
    decreases |u| + |w|
  {
    if u == [] && w == [] {
      return;
    }
    if u == [] || w == [] {
      var s := if u == [] then w else u;
      WithRevenueHead(s);
      assert false;
    }
    var m, n := u[0].revenue, w[0].revenue;
    WithRevenueHead(u);
    WithRevenueHead(w);
    WithRevenueMember(w, m, 0);
    HeadIsLargest(w, WithRevenue(w, m)[0]);
    WithRevenueMember(u, n, 0);
    HeadIsLargest(u, WithRevenue(u, n)[0]);
    assert m == n;
    assert u[0] == WithRevenue(u, m)[0] == WithRevenue(w, m)[0] == w[0];
    assert u == [u[0]] + u[1..] && w == [w[0]] + w[1..];
    forall v ensures WithRevenue(u[1..], v) == WithRevenue(w[1..], v) {
      WithRevenueCons(u[0], u[1..], v);
      WithRevenueCons(w[0], w[1..], v);
      var p := if u[0].revenue == v then [u[0]] else [];
      assert p + WithRevenue(u[1..], v) == p + WithRevenue(w[1..], v);
      assert (p + WithRevenue(u[1..], v))[|p|..] == WithRevenue(u[1..], v);
      assert (p + WithRevenue(w[1..], v))[|p|..] == WithRevenue(w[1..], v);
    }
    SortedTail(u);
    SortedTail(w);
    StableSortUnique(u[1..], w[1..]);
    assert u == [u[0]] + u[1..] && w == [w[0]] + w[1..];
  }

  lemma SortedTail(s: seq<Entry>)
    requires SortedDesc(s) && s != []
    ensures SortedDesc(s[1..])
  {
  }

  /** Any descending arrangement that keeps each revenue's entries in input
      order is the sort's result. */
  lemma SortCharacterized(s: seq<Entry>, t: seq<Entry>)
    requires SortedDesc(t)
    requires forall v :: WithRevenue(t, v) == WithRevenue(s, v)
    ensures t == SortByRevenueDesc(s)
  {
    forall v ensures WithRevenue(t, v) == WithRevenue(SortByRevenueDesc(s), v) {
      SortIsStable(s, v);
    }
    StableSortUnique(t, SortByRevenueDesc(s));
  }

  // ---- the head of the sorted list ----

  /** `s[j]` has the largest revenue and no earlier entry has as much. */
  predicate FirstMaximal(s: seq<Entry>, j: nat) {
    j < |s| &&
    (forall i :: 0 <= i < |s| ==> s[i].revenue <= s[j].revenue) &&
    (forall i :: 0 <= i < j ==> s[i].revenue < s[j].revenue)
  }

  /** `entries[0]` after the sort is the first entry of largest revenue. */
  lemma InsertHead(x: Entry, r: seq<Entry>)
    ensures InsertDesc(x, r)[0] == if r == [] || r[0].revenue <= x.revenue then x else r[0]
  {
  }

  lemma SortStep(s: seq<Entry>)
    requires s != []
    ensures SortByRevenueDesc(s)[0] ==
      var rest := SortByRevenueDesc(s[1..]);
      if rest == [] || rest[0].revenue <= s[0].revenue then s[0] else rest[0]
  {
    InsertHead(s[0], SortByRevenueDesc(s[1..]));
  }

  lemma {:induction false} SortedHead(s: seq<Entry>) returns (j: nat)
    requires s != []
    ensures FirstMaximal(s, j) && SortByRevenueDesc(s)[0] == s[j]
    decreases |s|
  {
    var t := s[1..];
    SortStep(s);
    if t == [] {
      j := 0;
      return;
    }
    var rest := SortByRevenueDesc(t);
    var k := SortedHead(t);
    if rest[0].revenue <= s[0].revenue {
      j := 0;
      HeadStays(s, k);
    } else {
      j := k + 1;
      HeadMoves(s, k);
    }
  }

  lemma HeadStays(s: seq<Entry>, k: nat)
    requires s != [] && FirstMaximal(s[1..], k) && s[1..][k].revenue <= s[0].revenue
    ensures FirstMaximal(s, 0)
  {
    forall i | 0 < i < |s| ensures s[i].revenue <= s[0].revenue {
      assert s[i] == s[1..][i - 1];
    }
  }

  lemma HeadMoves(s: seq<Entry>, k: nat)
    requires s != [] && FirstMaximal(s[1..], k) && s[1..][k].revenue > s[0].revenue
    ensures FirstMaximal(s, k + 1) && s[k + 1] == s[1..][k]
  {
    forall i | 0 < i < |s| ensures s[i].revenue <= s[k + 1].revenue {
      assert s[i] == s[1..][i - 1];
    }
    forall i | 0 < i < k + 1 ensures s[i].revenue < s[k + 1].revenue {
      assert s[i] == s[1..][i - 1];
    }
  }

  // ---- revenues and their sum ----

  function Revenues(s: seq<Entry>): (r: seq<int>)
    ensures |r| == |s|
    ensures forall i :: 0 <= i < |s| ==> r[i] == s[i].revenue
  {
    if s == [] then [] else [s[0].revenue] + Revenues(s[1..])
  }

  lemma {:induction false} SumInsert(x: Entry, s: seq<Entry>)
    ensures Sum(Revenues(InsertDesc(x, s))) == x.revenue + Sum(Revenues(s))
    decreases |s|
  {
    if s != [] && s[0].revenue > x.revenue {
      SumInsert(x, s[1..]);
      assert InsertDesc(x, s)[1..] == InsertDesc(x, s[1..]);
    }
  }

  /** Sorting does not change the total. */
  lemma {:induction false} SumOfSorted(s: seq<Entry>)
    ensures Sum(Revenues(SortByRevenueDesc(s))) == Sum(Revenues(s))
    decreases |s|
  {
    if s != [] {
      SumOfSorted(s[1..]);
      SumInsert(s[0], SortByRevenueDesc(s[1..]));
    }
  }

  lemma {:induction false} RevenuesInsert(x: Entry, s: seq<Entry>)
    ensures multiset(Revenues(InsertDesc(x, s))) == multiset(Revenues(s)) + multiset{x.revenue}
    decreases |s|
  {
    if s != [] && s[0].revenue > x.revenue {
      RevenuesInsert(x, s[1..]);
      assert InsertDesc(x, s)[1..] == InsertDesc(x, s[1..]);
      assert Revenues(s) == [s[0].revenue] + Revenues(s[1..]);
    }
  }

  /** Sorting keeps the revenues, so their median too. */
  lemma {:induction false} RevenuesOfSorted(s: seq<Entry>)
    ensures multiset(Revenues(SortByRevenueDesc(s))) == multiset(Revenues(s))
    decreases |s|
  {
    if s != [] {
      RevenuesOfSorted(s[1..]);
      RevenuesInsert(s[0], SortByRevenueDesc(s[1..]));
      assert Revenues(s) == [s[0].revenue] + Revenues(s[1..]);
    }
  }

  /** Revenues 100, 300, 100: the 300 entry moves to the front and the two
      100 entries keep their order. */
  lemma SortExample(s: seq<Entry>)
    requires s == [Entry("A", 100), Entry("B", 300), Entry("C", 100)]
    ensures SortByRevenueDesc(s) == [Entry("B", 300), Entry("A", 100), Entry("C", 100)]
  {
    var a, b, c := s[0], s[1], s[2];
    SortSingle(c);
    SortStepExample([b, c], [c]);
    InsertFront(b, [c]);
    assert [b] + [c] == [b, c];
    SortStepExample(s, [b, c]);
    InsertStepExample(a, [b, c]);
  }

  lemma SortSingle(e: Entry)
    ensures SortByRevenueDesc([e]) == [e]
  {
    assert [e][1..] == [];
  }

  lemma InsertFront(x: Entry, t: seq<Entry>)
    requires t == [] || t[0].revenue <= x.revenue
    ensures InsertDesc(x, t) == [x] + t
  {
  }

  lemma SortStepExample(s: seq<Entry>, t: seq<Entry>)
    requires s != [] && t == s[1..]
    ensures SortByRevenueDesc(s) == InsertDesc(s[0], SortByRevenueDesc(t))
  {
  }

  lemma InsertStepExample(a: Entry, bc: seq<Entry>)
    requires |bc| == 2 && bc[0].revenue > a.revenue && bc[1].revenue <= a.revenue
    ensures InsertDesc(a, bc) == [bc[0], a, bc[1]]
  {
    assert bc[1..] == [bc[1]];
  }
}
