/** `Array.prototype.sort` with a numeric comparator `rank(a) - rank(b)`, where a rank may be
    NaN (`None`). A comparison involving NaN counts as 0, as the sort's SortCompare step does.
    The sort is modelled as a stable insertion sort. */
module Sorting {
  import opened Wrappers

  /** The comparator `rank(a) - rank(b)`, 0 when either side is NaN. */
  function Compare<T>(a: T, b: T, rank: T -> Option<int>): int {
    if rank(a).Some? && rank(b).Some? then rank(a).value - rank(b).value else 0
  }

  /** Insert `x` after every element that does not compare greater than it. */
  function InsertBy<T>(s: seq<T>, x: T, rank: T -> Option<int>): seq<T>
    decreases |s|
  {
    if |s| == 0 then [x]
    else if Compare(s[|s| - 1], x, rank) > 0 then InsertBy(s[..|s| - 1], x, rank) + [s[|s| - 1]]
    else s + [x]
  }

  function SortBy<T>(s: seq<T>, rank: T -> Option<int>): seq<T>
    decreases |s|
  {
    if |s| == 0 then [] else InsertBy(SortBy(s[..|s| - 1], rank), s[|s| - 1], rank)
  }

  predicate AllRanked<T>(s: seq<T>, rank: T -> Option<int>) {
    forall i | 0 <= i < |s| :: rank(s[i]).Some?
  }

  /** No pair of elements is out of order under the comparator. */
  predicate SortedBy<T>(s: seq<T>, rank: T -> Option<int>) {
    forall i, j | 0 <= i < j < |s| :: Compare(s[i], s[j], rank) <= 0
  }

  /** The elements with a given rank (or NaN), in their order. */
  function WithRank<T>(s: seq<T>, rank: T -> Option<int>, key: Option<int>): seq<T>
    decreases |s|
  {
    if |s| == 0 then []
    else WithRank(s[..|s| - 1], rank, key) + (if rank(s[|s| - 1]) == key then [s[|s| - 1]] else [])
  }

  lemma {:induction false} WithRankAppend<T>(a: seq<T>, b: seq<T>, rank: T -> Option<int>, key: Option<int>)
    ensures WithRank(a + b, rank, key) == WithRank(a, rank, key) + WithRank(b, rank, key)
    decreases |b|
  {
    if |b| == 0 {
      assert a + b == a;
    } else {
      var init := b[..|b| - 1];
      assert (a + b)[..|a + b| - 1] == a + init;
      WithRankAppend(a, init, rank, key);
    }
  }

  lemma {:induction false} InsertPermutes<T>(s: seq<T>, x: T, rank: T -> Option<int>)
    ensures multiset(InsertBy(s, x, rank)) == multiset(s) + multiset{x}
    decreases |s|
  {
    if |s| > 0 && Compare(s[|s| - 1], x, rank) > 0 {
      InsertPermutes(s[..|s| - 1], x, rank);
      assert s == s[..|s| - 1] + [s[|s| - 1]];
    }
  }

  /** The sorted sequence holds exactly the elements it was given. */
  lemma {:induction false} SortPermutes<T>(s: seq<T>, rank: T -> Option<int>)
    ensures multiset(SortBy(s, rank)) == multiset(s)
    decreases |s|
  {
    if |s| > 0 {
      SortPermutes(s[..|s| - 1], rank);
      InsertPermutes(SortBy(s[..|s| - 1], rank), s[|s| - 1], rank);
      assert s == s[..|s| - 1] + [s[|s| - 1]];
    }
  }

  lemma {:induction false} InsertIsStable<T>(s: seq<T>, x: T, rank: T -> Option<int>, key: Option<int>)
    ensures WithRank(InsertBy(s, x, rank), rank, key) == WithRank(s, rank, key) + WithRank([x], rank, key)
    decreases |s|
  {
    if |s| > 0 {
      var init, last := s[..|s| - 1], s[|s| - 1];
      if Compare(last, x, rank) > 0 {
        InsertIsStable(init, x, rank, key);
        var t := InsertBy(init, x, rank);
        assert (t + [last])[..|t + [last]| - 1] == t;
        assert !(rank(x) == key && rank(last) == key);
      } else {
        assert (s + [x])[..|s + [x]| - 1] == s;
      }
    }
  }

  /** The sort is stable: elements of equal rank, and the NaN-ranked ones, keep their
      relative order. */
  lemma {:induction false} SortIsStable<T>(s: seq<T>, rank: T -> Option<int>, key: Option<int>)
    ensures WithRank(SortBy(s, rank), rank, key) == WithRank(s, rank, key)
    decreases |s|
  {
    if |s| > 0 {
      var init, last := s[..|s| - 1], s[|s| - 1];
      SortIsStable(init, rank, key);
      InsertIsStable(SortBy(init, rank), last, rank, key);
    }
  }

  lemma RankedByMultiset<T>(s: seq<T>, t: seq<T>, rank: T -> Option<int>)
    requires AllRanked(s, rank) && multiset(t) <= multiset(s)
    ensures AllRanked(t, rank)
  {
    forall i | 0 <= i < |t| ensures rank(t[i]).Some? {
      assert t[i] in multiset(t);
      assert t[i] in s;
    }
  }

  /** Appending an element that no element compares above keeps the order. */
  lemma SortedSnoc<T>(t: seq<T>, y: T, rank: T -> Option<int>)
    requires SortedBy(t, rank)
    requires forall i | 0 <= i < |t| :: Compare(t[i], y, rank) <= 0
    ensures SortedBy(t + [y], rank)
  {
    var u := t + [y];
    forall i, j | 0 <= i < j < |u| ensures Compare(u[i], u[j], rank) <= 0 {
      assert u[i] == t[i];
      if j < |t| {
        assert u[j] == t[j];
      }
    }
  }

  /** Every element inserted before `last` compares at most `last`. */
  lemma InsertedBelow<T>(init: seq<T>, x: T, last: T, rank: T -> Option<int>)
    requires AllRanked(init, rank) && rank(x).Some? && rank(last).Some?
    requires forall i | 0 <= i < |init| :: Compare(init[i], last, rank) <= 0
    requires Compare(last, x, rank) > 0
    ensures forall i | 0 <= i < |InsertBy(init, x, rank)| :: Compare(InsertBy(init, x, rank)[i], last, rank) <= 0
  {
    var t := InsertBy(init, x, rank);
    InsertPermutes(init, x, rank);
    forall i | 0 <= i < |t| ensures Compare(t[i], last, rank) <= 0 {
      assert t[i] in multiset(t);
      if t[i] != x {
        assert t[i] in multiset(init);
        var k :| 0 <= k < |init| && init[k] == t[i];
      }
    }
  }

  lemma {:induction false} InsertKeepsSorted<T>(s: seq<T>, x: T, rank: T -> Option<int>)
    requires AllRanked(s, rank) && rank(x).Some? && SortedBy(s, rank)
    ensures AllRanked(InsertBy(s, x, rank), rank) && SortedBy(InsertBy(s, x, rank), rank)
    decreases |s|
  {
    var r := InsertBy(s, x, rank);
    InsertPermutes(s, x, rank);
    RankedByMultiset(s + [x], r, rank);
    if |s| > 0 {
      var init, last := s[..|s| - 1], s[|s| - 1];
      assert forall i | 0 <= i < |init| :: init[i] == s[i];
      if Compare(last, x, rank) > 0 {
        InsertKeepsSorted(init, x, rank);
        InsertedBelow(init, x, last, rank);
        SortedSnoc(InsertBy(init, x, rank), last, rank);
        assert r == InsertBy(init, x, rank) + [last];
      } else {
        assert forall i | 0 <= i < |s| :: Compare(s[i], x, rank) <= 0 by {
          forall i | 0 <= i < |s| ensures Compare(s[i], x, rank) <= 0 {
            if i < |s| - 1 { assert Compare(s[i], last, rank) <= 0; }
          }
        }
        SortedSnoc(s, x, rank);
      }
    }
  }

  lemma {:induction false} SortKeepsSorted<T>(s: seq<T>, rank: T -> Option<int>)
    requires AllRanked(s, rank)
    ensures AllRanked(SortBy(s, rank), rank) && SortedBy(SortBy(s, rank), rank)
    decreases |s|
  {
    if |s| > 0 {
      var init := s[..|s| - 1];
      assert AllRanked(init, rank);
      SortKeepsSorted(init, rank);
      InsertKeepsSorted(SortBy(init, rank), s[|s| - 1], rank);
    }
  }

  /** When every rank is a number, the sorted sequence is in non-decreasing rank order. */
  lemma SortSorts<T>(s: seq<T>, rank: T -> Option<int>)
    requires AllRanked(s, rank)
    ensures var r := SortBy(s, rank);
      AllRanked(r, rank) && forall i, j | 0 <= i < j < |r| :: rank(r[i]).value <= rank(r[j]).value
  {
    SortKeepsSorted(s, rank);
    var r := SortBy(s, rank);
    forall i, j | 0 <= i < j < |r| ensures rank(r[i]).value <= rank(r[j]).value {
      assert Compare(r[i], r[j], rank) <= 0;
    }
  }

  /** Three numbered elements given in the order b, c, a with a < b < c come out as a, b, c. */
  lemma SortThree<T>(a: T, b: T, c: T, rank: T -> Option<int>)
    requires rank(a).Some? && rank(b).Some? && rank(c).Some?
    requires rank(a).value < rank(b).value < rank(c).value
    ensures SortBy([b, c, a], rank) == [a, b, c]
  {
    var s := [b, c, a];
    assert s[..2] == [b, c] && [b, c][..1] == [b] && [b][..0] == [];
    assert SortBy([b], rank) == [b];
    assert SortBy([b, c], rank) == InsertBy([b], c, rank) == [b, c];
    assert [b, c][..1] == [b];
    assert InsertBy([b], a, rank) == InsertBy([], a, rank) + [b] == [a, b];
    assert SortBy(s, rank) == InsertBy([b, c], a, rank) == InsertBy([b], a, rank) + [c];
  }
}
