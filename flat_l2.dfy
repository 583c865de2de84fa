/**
 * An exact flat L2 index, standing in for the `faiss.IndexFlatL2` that
 * vectorstore.py builds and queries.
 *
 * Vectors have integer coordinates and distances are exact squared Euclidean
 * distances, so no floating point is involved. A search ranks every stored
 * position by (distance, position), returns the first `k` of them and, when `k`
 * exceeds the number of stored vectors, pads the answer with position -1 and the
 * largest float32 value as distance, as the library does.
 */
module FlatL2 {

  type Vector = seq<int>

  /** Position and distance of the padding entries of a search asked for more than was stored. */
  const PadPos: int := -1
  const PadDistance: nat := 340282346638528859811704183484516925440

  /** Squared Euclidean distance; zero exactly for equal vectors. */
  function SqDist(a: Vector, b: Vector): (d: nat)
    requires |a| == |b|
    ensures d == 0 <==> a == b
  {
    if |a| == 0 then 0
    else
      var x := a[0] - b[0];
      SquarePositive(x);
      assert a == [a[0]] + a[1..] && b == [b[0]] + b[1..];
      x * x + SqDist(a[1..], b[1..])
  }

  lemma SquarePositive(x: int)
    ensures x * x >= 0 && (x * x == 0 <==> x == 0)
  {
    if x < 0 {
      assert x * x == (-x) * (-x);
    }
  }

  /** The stored vectors of a flat index of dimension `dim`, in insertion order. */
  datatype FlatIndex = FlatIndex(dim: nat, vectors: seq<Vector>)
  {
    predicate Wf() {
      forall i :: 0 <= i < |vectors| ==> |vectors[i]| == dim
    }

    function Count(): nat { |vectors| }
  }

  /** A flat index whose vectors all have its dimension, as `add` ensures. */
  type L2Index = x: FlatIndex | x.Wf() witness FlatIndex(0, [])

  /** The distance from `q` to every stored vector, by position. */
  function Distances(idx: L2Index, q: Vector): (d: seq<nat>)
    requires |q| == idx.dim
    ensures |d| == idx.Count()
  {
    seq(idx.Count(), i requires 0 <= i < idx.Count() => SqDist(q, idx.vectors[i]))
  }

  // ---------------------------------------------------------------------
  // Ranking the stored positions
  // ---------------------------------------------------------------------

  /** Position `a` ranks before `b`: it is closer, or as close and stored earlier. */
  predicate Before(d: seq<nat>, a: nat, b: nat) {
    a < |d| && b < |d| && (d[a] < d[b] || (d[a] == d[b] && a < b))
  }

  /** `r` lists positions in strictly increasing rank, hence without repetition. */
  predicate Ranked(d: seq<nat>, r: seq<nat>) {
    forall i, j :: 0 <= i < j < |r| ==> Before(d, r[i], r[j])
  }

  predicate Positions(d: seq<nat>, r: seq<nat>) {
    forall i :: 0 <= i < |r| ==> r[i] < |d|
  }

  /** Inserts position `p` into a ranked list at its place. */
  function Insert(d: seq<nat>, p: nat, r: seq<nat>): (s: seq<nat>)
    requires p < |d| && Positions(d, r) && Ranked(d, r) && p !in r
    ensures |s| == |r| + 1 && Positions(d, s) && Ranked(d, s)
    ensures forall x :: x in s <==> x == p || x in r
  {
    if r == [] then [p]
    else if Before(d, p, r[0]) then [p] + r
    else
      var t := Insert(d, p, r[1..]);
      assert forall x :: x in r <==> x == r[0] || x in r[1..];
      assert forall i :: 0 <= i < |t| ==> Before(d, r[0], t[i]) by {
        forall i | 0 <= i < |t| ensures Before(d, r[0], t[i]) {
          assert t[i] in t;
          if t[i] != p {
            var j :| 0 <= j < |r[1..]| && r[1..][j] == t[i];
            assert r[1..][j] == r[j + 1];
          }
        }
      }
      [r[0]] + t
  }

  /** The positions below `m`, ranked. */
  function Ranking(d: seq<nat>, m: nat): (r: seq<nat>)
    requires m <= |d|
    ensures |r| == m && Positions(d, r) && Ranked(d, r)
    ensures forall x: nat :: x in r <==> x < m
  {
    if m == 0 then [] else Insert(d, m - 1, Ranking(d, m - 1))
  }

  // ---------------------------------------------------------------------
  // Search
  // ---------------------------------------------------------------------

  /** One row of a search answer: a stored position (or -1) and its distance. */
  datatype Hit = Hit(pos: int, distance: nat)

  /**
   * `index.search(q, k)` for a single query: the `k` best positions in rank
   * order with their distances, padded when fewer than `k` vectors are stored.
   */
  function Search(idx: L2Index, q: Vector, k: nat): (hits: seq<Hit>)
    requires |q| == idx.dim
    ensures |hits| == k
    ensures forall j :: 0 <= j < k && j < idx.Count() ==>
      0 <= hits[j].pos < idx.Count() && hits[j].distance == SqDist(q, idx.vectors[hits[j].pos])
    ensures forall j :: idx.Count() <= j < k ==> hits[j] == Hit(PadPos, PadDistance)
  {
    var d := Distances(idx, q);
    var r := Ranking(d, |d|);
    seq(k, j requires 0 <= j < k =>
      if j < |r| then Hit(r[j], d[r[j]]) else Hit(PadPos, PadDistance))
  }

  /** Number of rows of an answer that name stored positions. */
  function Found(idx: L2Index, k: nat): nat {
    if k <= idx.Count() then k else idx.Count()
  }

  /** A position is named by one of the real rows of an answer. */
  predicate Returned(hits: seq<Hit>, found: nat, p: int)
    requires found <= |hits|
  {
    exists j :: 0 <= j < found && hits[j].pos == p
  }

  /**
   * The real rows come in ascending distance, ties by ascending position, so
   * no position is returned twice.
   */
  lemma SearchAscending(idx: L2Index, q: Vector, k: nat)
    requires |q| == idx.dim
    ensures var hits := Search(idx, q, k);
      forall i, j :: 0 <= i < j < Found(idx, k) ==>
        hits[i].distance <= hits[j].distance &&
        (hits[i].distance == hits[j].distance ==> hits[i].pos < hits[j].pos) &&
        hits[i].pos != hits[j].pos
  {
    var d := Distances(idx, q);
    var r := Ranking(d, |d|);
    var hits := Search(idx, q, k);
    forall i, j | 0 <= i < j < Found(idx, k)
      ensures hits[i].distance <= hits[j].distance &&
        (hits[i].distance == hits[j].distance ==> hits[i].pos < hits[j].pos) &&
        hits[i].pos != hits[j].pos
    {
      assert hits[i] == Hit(r[i], d[r[i]]) && hits[j] == Hit(r[j], d[r[j]]);
      assert Before(d, r[i], r[j]);
    }
  }

  /**
   * Exactness of the flat search: no stored vector left out of the answer is
   * closer to the query than any vector in it.
   */
  lemma SearchNearest(idx: L2Index, q: Vector, k: nat, p: nat)
    requires |q| == idx.dim && p < idx.Count()
    requires !Returned(Search(idx, q, k), Found(idx, k), p)
    ensures var hits := Search(idx, q, k);
      forall j :: 0 <= j < Found(idx, k) ==> hits[j].distance <= SqDist(q, idx.vectors[p])
  {
    var d := Distances(idx, q);
    var r := Ranking(d, |d|);
    var hits := Search(idx, q, k);
    assert p in r;
    var t :| 0 <= t < |r| && r[t] == p;
    forall j | 0 <= j < Found(idx, k) ensures r[j] != p {
      assert hits[j].pos == r[j];
    }
    forall j | 0 <= j < Found(idx, k) ensures hits[j].distance <= SqDist(q, idx.vectors[p]) {
      assert hits[j] == Hit(r[j], d[r[j]]);
      assert Before(d, r[j], r[t]);
    }
  }

  /** Asked for at least as many rows as were stored, a search returns every position. */
  lemma SearchReturnsAll(idx: L2Index, q: Vector, k: nat, p: nat)
    requires |q| == idx.dim && idx.Count() <= k && p < idx.Count()
    ensures Returned(Search(idx, q, k), Found(idx, k), p)
  {
    var d := Distances(idx, q);
    var r := Ranking(d, |d|);
    assert p in r;
    var t :| 0 <= t < |r| && r[t] == p;
    assert Search(idx, q, k)[t].pos == p;
  }

  /** A stored vector strictly closer to the query than every other one comes first. */
  lemma ClosestComesFirst(idx: L2Index, q: Vector, k: nat, p: nat)
    requires |q| == idx.dim && 0 < k && p < idx.Count()
    requires forall i :: 0 <= i < idx.Count() && i != p ==>
      SqDist(q, idx.vectors[p]) < SqDist(q, idx.vectors[i])
    ensures Search(idx, q, k)[0] == Hit(p, SqDist(q, idx.vectors[p]))
  {
    var d := Distances(idx, q);
    var r := Ranking(d, |d|);
    assert p in r;
    var t :| 0 <= t < |r| && r[t] == p;
    assert t != 0 ==> Before(d, r[0], r[t]);
  }
}
