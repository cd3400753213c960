/**
 * Stable ordering of list positions by a lexicographic rank.
 *
 * The queue orders jobs with OrderByDescending(Priority).ThenBy(ScheduledTime) and
 * workers with OrderBy(ActiveJobCount); both are stable sorts: elements with equal
 * keys keep their input order. Breaking ties by position turns that into a strict
 * total order on positions, so the stable order is the unique permutation of the
 * positions that is strictly increasing in it.
 */
module Ordering {

  /** A sort key, compared lexicographically. */
  type Rank = (int, int)

  predicate RankLess(a: Rank, b: Rank)
  {
    a.0 < b.0 || (a.0 == b.0 && a.1 < b.1)
  }

  predicate RankAtMost(a: Rank, b: Rank)
  {
    RankLess(a, b) || a == b
  }

  /** Position i comes before position j: a smaller rank, or the same rank and an earlier position. */
  predicate Precedes(ranks: seq<Rank>, i: nat, j: nat)
  {
    i < |ranks| && j < |ranks| && (RankLess(ranks[i], ranks[j]) || (ranks[i] == ranks[j] && i < j))
  }

  /** p is strictly increasing in the stable order (hence has no repeated position). */
  predicate SortedBy(ranks: seq<Rank>, p: seq<nat>)
  {
    forall a, b :: 0 <= a < b < |p| ==> Precedes(ranks, p[a], p[b])
  }

  /** p lists every position 0 .. n-1 exactly once. */
  ghost predicate IsPermutation(p: seq<nat>, n: nat)
  {
    && |p| == n
    && (forall x :: x in p <==> 0 <= x < n)
    && (forall k :: 0 <= k < |p| ==> p[k] < n)
    && (forall a, b :: 0 <= a < b < |p| ==> p[a] != p[b])
  }

  /** Inserts position i into a list sorted by the stable order. */
  function Insert(ranks: seq<Rank>, i: nat, sorted: seq<nat>): (r: seq<nat>)
    requires i < |ranks|
    requires forall x :: x in sorted ==> x < |ranks|
    requires SortedBy(ranks, sorted)
    requires i !in sorted
    ensures |r| == |sorted| + 1
    ensures forall x :: x in r <==> x == i || x in sorted
    ensures SortedBy(ranks, r)
  {
    if sorted == [] then [i]
    else if Precedes(ranks, i, sorted[0]) then
      assert forall b :: 0 < b < |[i] + sorted| ==> ([i] + sorted)[b] == sorted[b - 1];
      [i] + sorted
    else
      var tail := Insert(ranks, i, sorted[1..]);
      var r := [sorted[0]] + tail;
      assert sorted[0] in sorted && sorted[0] != i;
      assert Precedes(ranks, sorted[0], i);
      assert SortedBy(ranks, r) by {
        forall a, b | 0 <= a < b < |r| ensures Precedes(ranks, r[a], r[b]) {
          if a == 0 {
            assert r[b] in tail;
            if r[b] != i {
              var c :| 0 <= c < |sorted[1..]| && sorted[1..][c] == r[b];
              assert Precedes(ranks, sorted[0], sorted[c + 1]);
            }
          } else {
            assert r[a] == tail[a - 1] && r[b] == tail[b - 1];
          }
        }
      }
      r
  }

  /** The positions 0 .. n-1 in stable order. */
  function SortPrefix(ranks: seq<Rank>, n: nat): (p: seq<nat>)
    requires n <= |ranks|
    ensures IsPermutation(p, n)
    ensures SortedBy(ranks, p)
  {
    if n == 0 then []
    else
      var s := SortPrefix(ranks, n - 1);
      var r := Insert(ranks, n - 1, s);
      assert forall k :: 0 <= k < |r| ==> r[k] in r;
      assert forall a, b :: 0 <= a < b < |r| ==> r[a] != r[b] by {
        forall a, b | 0 <= a < b < |r| ensures r[a] != r[b] {
          assert Precedes(ranks, r[a], r[b]);
        }
      }
      r
  }

  /** The stable order of all positions of ranks. */
  function StableOrder(ranks: seq<Rank>): (p: seq<nat>)
    ensures IsPermutation(p, |ranks|)
    ensures SortedBy(ranks, p)
  {
    SortPrefix(ranks, |ranks|)
  }

  /** The first element of a sorted list precedes every other element of it. */
  lemma FirstPrecedes(ranks: seq<Rank>, p: seq<nat>, x: nat)
    requires SortedBy(ranks, p)
    requires x in p
    ensures x == p[0] || Precedes(ranks, p[0], x)
  {
    var i :| 0 <= i < |p| && p[i] == x;
    if i > 0 {
      assert Precedes(ranks, p[0], p[i]);
    }
  }

  /** Two lists strictly increasing in the stable order, over the same positions, are equal. */
  lemma {:induction false} SortedIsUnique(ranks: seq<Rank>, p: seq<nat>, q: seq<nat>)
    requires SortedBy(ranks, p) && SortedBy(ranks, q)
    requires forall x :: x in p <==> x in q
    ensures p == q
  {
    if p != [] {
      assert p[0] in q;
    }
    if q != [] {
      assert q[0] in p;
    }
    if p != [] {
      FirstPrecedes(ranks, p, q[0]);
      FirstPrecedes(ranks, q, p[0]);
      assert p[0] == q[0];
      assert p == [p[0]] + p[1..];
      assert q == [q[0]] + q[1..];
      forall x ensures x in p[1..] <==> x in q[1..] {
        if x in p[1..] {
          var i :| 0 <= i < |p[1..]| && p[1..][i] == x;
          assert Precedes(ranks, p[0], p[i + 1]);
          assert x in q && x != q[0];
        }
        if x in q[1..] {
          var j :| 0 <= j < |q[1..]| && q[1..][j] == x;
          assert Precedes(ranks, q[0], q[j + 1]);
          assert x in p && x != p[0];
        }
      }
      SortedIsUnique(ranks, p[1..], q[1..]);
    }
  }

  /** The identity permutation 0 .. n-1. */
  function Identity(n: nat): (p: seq<nat>)
    ensures IsPermutation(p, n)
    ensures forall k :: 0 <= k < n ==> p[k] == k
  {
    var p := seq(n, k => k);
    assert forall x :: 0 <= x < n ==> p[x] == x && x in p;
    p
  }

  /** Ranks that are already non-decreasing are left in place by a stable sort. */
  lemma StableOrderOfSorted(ranks: seq<Rank>)
    requires forall a, b :: 0 <= a < b < |ranks| ==> RankAtMost(ranks[a], ranks[b])
    ensures StableOrder(ranks) == Identity(|ranks|)
  {
    var p := StableOrder(ranks);
    var q := Identity(|ranks|);
    assert SortedBy(ranks, q);
    SortedIsUnique(ranks, p, q);
  }
}
