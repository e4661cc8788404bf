/** Python's `sorted(population, key=fitness)`, which is stable, stated on
    positions: the order in which a stable sort lists the indices of a
    sequence of keys. */
module Ranking {

  /** Index `i` comes before index `j` in a stable ascending sort: a smaller
      key, or an equal key and an earlier position. */
  predicate Precedes(keys: seq<real>, i: nat, j: nat)
  {
    i < |keys| && j < |keys| && (keys[i] < keys[j] || (keys[i] == keys[j] && i < j))
  }

  predicate RankedBy(keys: seq<real>, order: seq<nat>)
  {
    forall x, y :: 0 <= x < y < |order| ==> Precedes(keys, order[x], order[y])
  }

  function InsertIndex(keys: seq<real>, k: nat, order: seq<nat>): seq<nat>
  {
    if order == [] || Precedes(keys, k, order[0]) then [k] + order
    else [order[0]] + InsertIndex(keys, k, order[1..])
  }

  /** The first `n` indices in stable sorted order, by insertion. */
  function RankPrefix(keys: seq<real>, n: nat): seq<nat>
  {
    if n == 0 then [] else InsertIndex(keys, n - 1, RankPrefix(keys, n - 1))
  }

  /** The indices of `keys` in the order `sorted(..., key=...)` lists them. */
  function Rank(keys: seq<real>): seq<nat>
  {
    RankPrefix(keys, |keys|)
  }

  lemma {:induction false} InsertIndexRanked(keys: seq<real>, k: nat, order: seq<nat>)
    requires k < |keys| && RankedBy(keys, order)
    requires forall x :: 0 <= x < |order| ==> order[x] < k
    ensures var r := InsertIndex(keys, k, order);
      && |r| == |order| + 1 && RankedBy(keys, r)
      && (forall v: nat :: v in r <==> v == k || v in order)
      && r[0] == (if order == [] || Precedes(keys, k, order[0]) then k else order[0])
  {
    if order != [] && !Precedes(keys, k, order[0]) {
      var tail := InsertIndex(keys, k, order[1..]);
      InsertIndexRanked(keys, k, order[1..]);
      assert order == [order[0]] + order[1..];
      assert Precedes(keys, order[0], k);
      forall y | 0 <= y < |tail|
        ensures Precedes(keys, order[0], tail[y])
      {
        if tail[y] != k {
          assert tail[y] in order[1..];
          var z :| 0 <= z < |order[1..]| && order[1..][z] == tail[y];
          assert Precedes(keys, order[0], order[z + 1]);
        }
      }
    }
  }

  lemma {:induction false} RankPrefixRanked(keys: seq<real>, n: nat)
    requires n <= |keys|
    ensures var r := RankPrefix(keys, n);
      && |r| == n && RankedBy(keys, r)
      && (forall x :: 0 <= x < |r| ==> r[x] < n)
      && forall v: nat :: v in r <==> v < n
  {
    if n > 0 {
      RankPrefixRanked(keys, n - 1);
      var prev := RankPrefix(keys, n - 1);
      forall x | 0 <= x < |prev|
        ensures prev[x] < n - 1
      {
        assert prev[x] in prev;
      }
      InsertIndexRanked(keys, n - 1, prev);
      var r := RankPrefix(keys, n);
      assert r == InsertIndex(keys, n - 1, prev);
      forall v: nat
        ensures v in r <==> v < n
      {
        assert v in r <==> v == n - 1 || v in prev;
      }
      assert |r| == n;
      assert RankedBy(keys, r);
      forall x | 0 <= x < |r|
        ensures r[x] < n
      {
        assert r[x] in r;
      }
    }
  }

  /** `Rank` lists every index exactly once, in stable ascending key order. */
  lemma RankIsStableSort(keys: seq<real>)
    ensures var r := Rank(keys);
      && |r| == |keys| && RankedBy(keys, r)
      && (forall x :: 0 <= x < |r| ==> r[x] < |keys|)
      && (forall v: nat :: v in r <==> v < |keys|)
      && (forall x, y :: 0 <= x < y < |r| ==> r[x] != r[y])
  {
    RankPrefixRanked(keys, |keys|);
  }

  /** `sorted(...)[0]` is the first position holding the smallest key. */
  lemma RankFirst(keys: seq<real>)
    requires keys != []
    ensures var b := Rank(keys)[0];
      && b < |keys|
      && (forall j :: 0 <= j < |keys| ==> keys[b] <= keys[j])
      && (forall j :: 0 <= j < |keys| && keys[j] == keys[b] ==> b <= j)
  {
    var r := Rank(keys);
    RankIsStableSort(keys);
    assert r[0] in r;
    forall j | 0 <= j < |keys|
      ensures keys[r[0]] <= keys[j] && (keys[j] == keys[r[0]] ==> r[0] <= j)
    {
      assert j in r;
      var y :| 0 <= y < |r| && r[y] == j;
      if y > 0 {
        assert Precedes(keys, r[0], r[y]);
      }
    }
  }

  /** The elite prefix `sorted(...)[0:m]`: every index left out has a key
      no smaller than any elite's. */
  lemma RankElite(keys: seq<real>, m: nat)
    requires m <= |keys|
    ensures var r := Rank(keys);
      && |r| == |keys| && (forall x :: 0 <= x < |r| ==> r[x] < |keys|)
      && forall x, j :: 0 <= x < m && 0 <= j < |keys| && j !in r[..m] ==> keys[r[x]] <= keys[j]
  {
    var r := Rank(keys);
    RankIsStableSort(keys);
    forall x, j | 0 <= x < m && 0 <= j < |keys| && j !in r[..m]
      ensures keys[r[x]] <= keys[j]
    {
      assert j in r;
      var y :| 0 <= y < |r| && r[y] == j;
      assert forall z :: 0 <= z < m ==> r[..m][z] == r[z];
      assert Precedes(keys, r[x], r[y]);
    }
  }
}
