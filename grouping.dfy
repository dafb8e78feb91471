/**
 * Insertion-ordered grouping, as a `defaultdict(list)` filled by a loop
 * builds it: the keys in order of first occurrence and, for each key, its
 * values in input order. `ps` lists the (key, value) pairs the loop appends;
 * keys are strings, as company names and state names are.
 */
module Grouping {

  /** The keys that occur in `ps`. */
  function KeySet<V>(ps: seq<(string, V)>): set<string> {
    set i | 0 <= i < |ps| :: ps[i].0
  }

  predicate Distinct(ks: seq<string>) {
    forall i, j :: 0 <= i < j < |ks| ==> ks[i] != ks[j]
  }

  /** The elements of `ks`. */
  function Elements(ks: seq<string>): set<string> {
    set i | 0 <= i < |ks| :: ks[i]
  }

  /** `i` is where `k` first occurs as a key in `ps`. */
  predicate IsFirst<V>(ps: seq<(string, V)>, k: string, i: nat) {
    i < |ps| && ps[i].0 == k && forall j :: 0 <= j < i ==> ps[j].0 != k
  }

  lemma KeySetSnoc<V>(ps: seq<(string, V)>)
    requires ps != []
    ensures KeySet(ps) == KeySet(ps[..|ps| - 1]) + {ps[|ps| - 1].0}
  {
    var init := ps[..|ps| - 1];
    forall k | k in KeySet(ps) ensures k in KeySet(init) + {ps[|ps| - 1].0} {
      var i :| 0 <= i < |ps| && ps[i].0 == k;
      if i < |init| {
        assert init[i] == ps[i];
      }
    }
    forall k | k in KeySet(init) ensures k in KeySet(ps) {
      var i :| 0 <= i < |init| && init[i].0 == k;
      assert ps[i] == init[i];
    }
  }

  /** The keys of `ps` in order of first occurrence: `list(d.keys())`. */
  function Keys<V>(ps: seq<(string, V)>): (ks: seq<string>)
    ensures Distinct(ks)
    ensures forall k :: k in ks <==> k in KeySet(ps)
  {
    if ps == [] then []
    else
      var ks := Keys(ps[..|ps| - 1]);
      var k := ps[|ps| - 1].0;
      KeySetSnoc(ps);
      if k in ks then ks else ks + [k]
  }

  /** The values appended under `k`, in order: `d[k]`. */
  function Bucket<V>(ps: seq<(string, V)>, k: string): (vs: seq<V>)
    ensures vs != [] <==> k in KeySet(ps)
    ensures |vs| <= |ps|
  {
    if ps == [] then []
    else
      KeySetSnoc(ps);
      var p := ps[|ps| - 1];
      Bucket(ps[..|ps| - 1], k) + (if p.0 == k then [p.1] else [])
  }

  /** The effect of appending one pair: the loop body of a grouping loop. */
  lemma GroupSnoc<V>(ps: seq<(string, V)>, p: (string, V))
    ensures Keys(ps + [p]) == if p.0 in Keys(ps) then Keys(ps) else Keys(ps) + [p.0]
    ensures KeySet(ps + [p]) == KeySet(ps) + {p.0}
    ensures forall k :: Bucket(ps + [p], k) == Bucket(ps, k) + (if p.0 == k then [p.1] else [])
  {
    assert (ps + [p])[..|ps|] == ps;
    KeySetSnoc(ps + [p]);
  }

  /** `order` and `groups` are what a grouping loop has built from `ps`. */
  predicate Grouped<V(==)>(ps: seq<(string, V)>, order: seq<string>, groups: map<string, seq<V>>) {
    order == Keys(ps) && groups.Keys == KeySet(ps) &&
    forall k :: k in groups ==> groups[k] == Bucket(ps, k)
  }

  /** `groups[k].append(v)` on a `defaultdict(list)`, whose first access to a
      missing key inserts it at the end of the key order. */
  lemma GroupedStep<V>(ps: seq<(string, V)>, order: seq<string>, groups: map<string, seq<V>>, p: (string, V))
    requires Grouped(ps, order, groups)
    ensures Grouped(ps + [p],
      if p.0 in groups then order else order + [p.0],
      groups[p.0 := (if p.0 in groups then groups[p.0] else []) + [p.1]])
  {
    GroupSnoc(ps, p);
  }

  lemma GroupedAtStart<V>(ps: seq<(string, V)>)
    requires ps == []
    ensures Grouped(ps, [], map[])
  {
  }

  /** Appending more pairs only appends to each bucket. */
  lemma {:induction false} BucketAppend<V>(ps: seq<(string, V)>, qs: seq<(string, V)>, k: string)
    ensures Bucket(ps + qs, k) == Bucket(ps, k) + Bucket(qs, k)
    decreases |qs|
  {
    if qs == [] {
      assert ps + qs == ps;
    } else {
      var q := qs[|qs| - 1];
      assert (ps + qs)[..|ps + qs| - 1] == ps + qs[..|qs| - 1];
      BucketAppend(ps, qs[..|qs| - 1], k);
    }
  }

  /** Each value in a bucket was appended under that bucket's key. */
  lemma {:induction false} BucketMember<V>(ps: seq<(string, V)>, k: string, m: nat)
    requires m < |Bucket(ps, k)|
    ensures exists i :: 0 <= i < |ps| && ps[i] == (k, Bucket(ps, k)[m])
    decreases |ps|
  {
    var init := ps[..|ps| - 1];
    var p := ps[|ps| - 1];
    if m < |Bucket(init, k)| {
      BucketMember(init, k, m);
      var i :| 0 <= i < |init| && init[i] == (k, Bucket(init, k)[m]);
      assert ps[i] == init[i];
    } else {
      assert ps[|ps| - 1] == (k, Bucket(ps, k)[m]);
    }
  }

  /** A key's first value is the one paired with its first occurrence. */
  lemma BucketFirst<V>(ps: seq<(string, V)>, k: string, i: nat)
    requires IsFirst(ps, k, i)
    ensures Bucket(ps, k) != [] && Bucket(ps, k)[0] == ps[i].1
  {
    assert ps == ps[..i] + ([ps[i]] + ps[i + 1..]);
    BucketAppend(ps[..i], [ps[i]] + ps[i + 1..], k);
    BucketAppend([ps[i]], ps[i + 1..], k);
    assert k !in KeySet(ps[..i]);
    assert [ps[i]][..0] == [];
  }

  /** A key that occurs in `ps[..n]` first occurs before `n`. */
  lemma FirstBefore<V>(ps: seq<(string, V)>, n: nat, k: string, i: nat)
    requires n <= |ps| && k in KeySet(ps[..n]) && IsFirst(ps, k, i)
    ensures i < n && IsFirst(ps[..n], k, i)
  {
    var j :| 0 <= j < n && ps[..n][j].0 == k;
    assert ps[j].0 == k;
  }

  /** Keys come out in the order in which they first occur. */
  lemma {:induction false} KeysInFirstOccurrenceOrder<V>(ps: seq<(string, V)>, a: nat, b: nat, ia: nat, ib: nat)
    requires a < b < |Keys(ps)|
    requires IsFirst(ps, Keys(ps)[a], ia) && IsFirst(ps, Keys(ps)[b], ib)
    ensures ia < ib
    decreases |ps|
  {
    var n := |ps| - 1;
    var init := ps[..n];
    var ks := Keys(init);
    KeySetSnoc(ps);
    assert Keys(ps)[a] in ks;
    FirstBefore(ps, n, Keys(ps)[a], ia);
    if b < |ks| {
      assert Keys(ps)[b] == ks[b] && Keys(ps)[a] == ks[a];
      FirstBefore(ps, n, Keys(ps)[b], ib);
      KeysInFirstOccurrenceOrder(init, a, b, ia, ib);
    } else {
      assert Keys(ps)[b] == ps[n].0 && Keys(ps)[b] !in KeySet(init);

    }
  }

  /** A list without repeats has as many elements as it has members. */
  lemma {:induction false} DistinctCardinality(ks: seq<string>)
    requires Distinct(ks)
    ensures |Elements(ks)| == |ks|
  {
    if ks != [] {
      var init := ks[..|ks| - 1];
      var x := ks[|ks| - 1];
      assert Elements(ks) == Elements(init) + {x} by {
        forall y | y in Elements(ks) ensures y in Elements(init) + {x} {
          var i :| 0 <= i < |ks| && ks[i] == y;
          if i < |init| { assert init[i] == y; }
        }
        forall y | y in Elements(init) ensures y in Elements(ks) {
          var i :| 0 <= i < |init| && init[i] == y;
          assert ks[i] == y;
        }
      }
      assert x !in Elements(init);
      DistinctCardinality(init);
    }
  }

  /** `len(d)` is the number of distinct keys. */
  lemma KeysCount<V>(ps: seq<(string, V)>)
    ensures |Keys(ps)| == |KeySet(ps)|
  {
    var ks := Keys(ps);
    assert Elements(ks) == KeySet(ps) by {
      forall k | k in KeySet(ps) ensures k in Elements(ks) {
        assert k in ks;
        var i :| 0 <= i < |ks| && ks[i] == k;
      }
    }
    DistinctCardinality(ks);
  }

  // ---- every pair lands in exactly one bucket ----

  /** The sizes of the buckets of `ks`, added up. */
  function TotalSize<V>(ps: seq<(string, V)>, ks: seq<string>): nat {
    if ks == [] then 0 else |Bucket(ps, ks[0])| + TotalSize(ps, ks[1..])
  }

  lemma {:induction false} TotalSizeAppend<V>(ps: seq<(string, V)>, ks: seq<string>, k: string)
    ensures TotalSize(ps, ks + [k]) == TotalSize(ps, ks) + |Bucket(ps, k)|
  {
    if ks == [] {
      assert ([k])[1..] == [];
    } else {
      assert (ks + [k])[0] == ks[0] && (ks + [k])[1..] == ks[1..] + [k];
      TotalSizeAppend(ps, ks[1..], k);
    }
  }

  /** Appending `p` grows the bucket of `p.0`, once, if `ks` lists it. */
  lemma {:induction false} TotalSizeSnoc<V>(ps: seq<(string, V)>, p: (string, V), ks: seq<string>)
    requires Distinct(ks)
    ensures TotalSize(ps + [p], ks) == TotalSize(ps, ks) + (if p.0 in ks then 1 else 0)
  {
    if ks != [] {
      GroupSnoc(ps, p);
      assert Distinct(ks[1..]) by {
        forall i, j | 0 <= i < j < |ks[1..]| ensures ks[1..][i] != ks[1..][j] {
          assert ks[1..][i] == ks[i + 1] && ks[1..][j] == ks[j + 1];
        }
      }
      TotalSizeSnoc(ps, p, ks[1..]);
      assert p.0 in ks <==> p.0 == ks[0] || p.0 in ks[1..] by {
        assert ks == [ks[0]] + ks[1..];
      }
    }
  }

  /** The buckets of all keys together hold exactly the pairs of `ps`. */
  lemma {:induction false} BucketsPartition<V>(ps: seq<(string, V)>)
    ensures TotalSize(ps, Keys(ps)) == |ps|
    decreases |ps|
  {
    if ps != [] {
      var init := ps[..|ps| - 1];
      var p := ps[|ps| - 1];
      assert ps == init + [p];
      BucketsPartition(init);
      GroupSnoc(init, p);
      TotalSizeSnoc(init, p, Keys(init));
      if p.0 !in Keys(init) {
        TotalSizeAppend(ps, Keys(init), p.0);
        assert Bucket(init, p.0) == [];
      }
    }
  }
}
