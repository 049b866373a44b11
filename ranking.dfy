/**
  The standings shown when the game ends: player ids 1..N put in order of descending
  score by a stable sort, so that players with equal scores keep ascending id order.
 */
module Ranking {

  /** Player `a` is listed before player `b` (ids are 1-based indices into `scores`). */
  predicate Ahead(scores: seq<int>, a: int, b: int)
  {
    1 <= a <= |scores| && 1 <= b <= |scores| &&
    (scores[a - 1] > scores[b - 1] || (scores[a - 1] == scores[b - 1] && a < b))
  }

  /** Every listed pair is in standing order. */
  ghost predicate InOrder(scores: seq<int>, rk: seq<int>)
  {
    forall p, q :: 0 <= p < q < |rk| ==> Ahead(scores, rk[p], rk[q])
  }

  /** `rk` lists each of the players 1..N once, in standing order. */
  ghost predicate IsRanking(scores: seq<int>, rk: seq<int>)
  {
    && |rk| == |scores|
    && (forall p :: 0 <= p < |rk| ==> 1 <= rk[p] <= |scores|)
    && (forall id :: 1 <= id <= |scores| ==> id in rk)
    && InOrder(scores, rk)
  }

  /** Inserting `id` between the players ahead of it and those behind it keeps the order. */
  lemma InsertInOrder(scores: seq<int>, rk: seq<int>, k: int, id: int)
    requires InOrder(scores, rk) && 0 <= k <= |rk|
    requires forall p :: 0 <= p < k ==> Ahead(scores, rk[p], id)
    requires forall p :: k <= p < |rk| ==> Ahead(scores, id, rk[p])
    ensures InOrder(scores, rk[..k] + [id] + rk[k..])
  {
  }

  /**
    The ranking of showCustomGameOverDialog: the list 1..N sorted by descending score
    with a stable sort, built here by stable insertion of 1, 2, ..., N. The result
    lists every player once, with non-increasing scores and ties in ascending id order.
   */
  method Rank(scores: seq<int>) returns (rk: seq<int>)
    ensures IsRanking(scores, rk)
    ensures forall p :: 0 <= p < |rk| - 1 ==> scores[rk[p] - 1] >= scores[rk[p + 1] - 1]
    ensures forall p :: 0 <= p < |rk| - 1 && scores[rk[p] - 1] == scores[rk[p + 1] - 1] ==> rk[p] < rk[p + 1]
  {
    rk := [];
    var i := 0;
    while i < |scores|
      invariant 0 <= i <= |scores|
      invariant |rk| == i
      invariant forall p :: 0 <= p < |rk| ==> 1 <= rk[p] <= i
      invariant forall id :: 1 <= id <= i ==> id in rk
      invariant InOrder(scores, rk)
    {
      var id := i + 1;
      var k := 0;
      while k < |rk| && Ahead(scores, rk[k], id)
        invariant 0 <= k <= |rk|
        invariant forall p :: 0 <= p < k ==> Ahead(scores, rk[p], id)
      {
        k := k + 1;
      }
      forall p | k <= p < |rk|
        ensures Ahead(scores, id, rk[p])
      {
        assert !Ahead(scores, rk[k], id);
        if p > k {
          assert Ahead(scores, rk[k], rk[p]);
        }
      }
      InsertInOrder(scores, rk, k, id);
      var next := rk[..k] + [id] + rk[k..];
      forall x | x in rk
        ensures x in next
      {
        var p :| 0 <= p < |rk| && rk[p] == x;
        if p < k {
          assert next[p] == x;
        } else {
          assert next[p + 1] == x;
        }
      }
      assert next[k] == id;
      rk := next;
      i := i + 1;
    }
    assert forall p :: 0 <= p < |rk| - 1 ==> Ahead(scores, rk[p], rk[p + 1]);
  }

  /** Standing order is a strict total order on players, so a ranking is unique: any stable sort gives this one. */
  lemma {:induction false} RankingUnique(scores: seq<int>, r1: seq<int>, r2: seq<int>)
    requires |r1| == |r2|
    requires forall x :: x in r1 <==> x in r2
    requires InOrder(scores, r1) && InOrder(scores, r2)
    ensures r1 == r2
    decreases |r1|
  {
    if |r1| > 0 {
      assert r1[0] in r2 && r2[0] in r1;
      assert r1[0] == r2[0];
      forall x
        ensures x in r1[1..] <==> x in r2[1..]
      {
        if x in r1[1..] {
          var p :| 1 <= p < |r1| && r1[p] == x;
          assert Ahead(scores, r1[0], x);
          assert x in r1 && x in r2;
          var q :| 0 <= q < |r2| && r2[q] == x;
          assert q != 0 && r2[1..][q - 1] == x;
        }
        if x in r2[1..] {
          var q :| 1 <= q < |r2| && r2[q] == x;
          assert Ahead(scores, r2[0], x);
          assert x in r2 && x in r1;
          var p :| 0 <= p < |r1| && r1[p] == x;
          assert p != 0 && r1[1..][p - 1] == x;
        }
      }
      RankingUnique(scores, r1[1..], r2[1..]);
      assert r1 == [r1[0]] + r1[1..] && r2 == [r2[0]] + r2[1..];
    }
  }
}
