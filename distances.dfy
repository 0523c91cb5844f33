/** Tentative distances and the re-sorting of the unvisited list.

    A distance is a step count or `Infinity`. The comparator
    `(a, b) => distances[a] - distances[b]` is modelled by `Compare`: a finite
    distance minus `Infinity` is `-Infinity`, `Infinity` minus a finite one is
    `+Infinity`, and `Infinity - Infinity` is NaN, which `Array.prototype.sort`
    reads as +0 (section 23.1.3.30 of ECMA-262, 2023 edition). The same section
    requires the sort to be stable; since the comparator is consistent, every
    stable sort yields the same order, so the insertion sort below reproduces
    it. */
module Distances {
  import opened Grid

  datatype Dist = Inf | Fin(n: nat)

  /** JavaScript `a < b` on distances: Infinity is below nothing, and every
      finite distance is below Infinity. */
  predicate Below(a: Dist, b: Dist) {
    match (a, b)
    case (Fin(x), Fin(y)) => x < y
    case (Fin(_), Inf) => true
    case (Inf, _) => false
  }

  /** The sign-carrying result of the comparator for distances `a` and `b`. */
  function Compare(a: Dist, b: Dist): (r: int)
    ensures r < 0 <==> Below(a, b)
    ensures r > 0 <==> Below(b, a)
    ensures r == 0 <==> a == b
  {
    match (a, b)
    case (Fin(x), Fin(y)) => x - y
    case (Fin(_), Inf) => -1
    case (Inf, Fin(_)) => 1
    case (Inf, Inf) => 0
  }

  /** `Below` is a strict total order on distances. */
  lemma BelowTotal(a: Dist, b: Dist, c: Dist)
    ensures !Below(a, a)
    ensures a == b || Below(a, b) || Below(b, a)
    ensures Below(a, b) && Below(b, c) ==> Below(a, c)
  {
  }

  /** The cell's coordinate indexes `distances`. */
  ghost predicate Fits(distances: array2<Dist>, c: Cell) {
    0 <= c.row < distances.Length0 && 0 <= c.col < distances.Length1
  }

  ghost predicate InArray(distances: array2<Dist>, s: seq<Cell>) {
    forall i :: 0 <= i < |s| ==> Fits(distances, s[i])
  }

  ghost function Key(distances: array2<Dist>, c: Cell): Dist
    requires Fits(distances, c)
    reads distances
  {
    distances[c.row, c.col]
  }

  /** The distances of the cells of `s`, in order. */
  ghost function Keys(distances: array2<Dist>, s: seq<Cell>): (ks: seq<Dist>)
    requires InArray(distances, s)
    reads distances
    ensures |ks| == |s| && forall m :: 0 <= m < |s| ==> ks[m] == Key(distances, s[m])
  {
    seq(|s|, m requires 0 <= m < |s| reads distances => Key(distances, s[m]))
  }

  /** No distance is below one before it. */
  ghost predicate NonDecreasing(ks: seq<Dist>) {
    forall i, j :: 0 <= i < j < |ks| ==> !Below(ks[j], ks[i])
  }

  /** `sorted[i]` is `unvisited[order[i]]`, and no index is used twice:
      `sorted` is `unvisited` rearranged. */
  ghost predicate Arranged(sorted: seq<Cell>, unvisited: seq<Cell>, order: seq<nat>) {
    && |order| == |sorted| == |unvisited|
    && (forall i :: 0 <= i < |order| ==> order[i] < |unvisited| && sorted[i] == unvisited[order[i]])
    && (forall i, j :: 0 <= i < j < |order| ==> order[i] != order[j])
  }

  /** Equal keys appear in increasing order of their input index: the
      arrangement of a stable sort. */
  ghost predicate TiesInOrder(ks: seq<Dist>, order: seq<nat>) {
    |ks| == |order| && forall a, b :: 0 <= a < b < |ks| && ks[a] == ks[b] ==> order[a] < order[b]
  }

  /** `unvisited.sort(...)`: a stable sort by distance. The result is the input
      rearranged by `order`, non-decreasing by distance, and cells of equal
      distance keep their relative order. */
  method SortByDistance(unvisited: seq<Cell>, distances: array2<Dist>) returns (sorted: seq<Cell>, ghost order: seq<nat>)
    requires InArray(distances, unvisited)
    ensures multiset(sorted) == multiset(unvisited)
    ensures InArray(distances, sorted)
    ensures NonDecreasing(Keys(distances, sorted))
    ensures Arranged(sorted, unvisited, order)
    ensures TiesInOrder(Keys(distances, sorted), order)
  {
    sorted, order := [], [];
    ghost var ks: seq<Dist> := [];
    var i := 0;
    while i < |unvisited|
      invariant 0 <= i <= |unvisited|
      invariant multiset(sorted) == multiset(unvisited[..i])
      invariant InArray(distances, sorted) && ks == Keys(distances, sorted)
      invariant NonDecreasing(ks)
      invariant Arranged(sorted, unvisited[..i], order)
      invariant TiesInOrder(ks, order)
    {
      var x := unvisited[i];
      var j := InsertionPoint(sorted, x, distances);
      ghost var kx := Key(distances, x);
      InsertKeepsOrder(ks, kx, j);
      TiesKeepOrder(ks, order, kx, i, j);
      InsertedIndices(sorted, unvisited, i, order, j);
      InsertAddsOne(sorted, x, j);
      assert unvisited[..i + 1] == unvisited[..i] + [x];
      KeysInsert(distances, sorted, x, j);
      sorted, order := sorted[..j] + [x] + sorted[j..], order[..j] + [i] + order[j..];
      ks := ks[..j] + [kx] + ks[j..];
      i := i + 1;
    }
    assert unvisited[..i] == unvisited;
  }

  /** The inner loop of the insertion sort: scanning from the back, the place
      after the last cell whose distance is not greater than that of `x`. */
  method InsertionPoint(sorted: seq<Cell>, x: Cell, distances: array2<Dist>) returns (j: nat)
    requires InArray(distances, sorted) && Fits(distances, x)
    ensures j <= |sorted|
    ensures j > 0 ==> !Below(Key(distances, x), Key(distances, sorted[j - 1]))
    ensures forall m :: j <= m < |sorted| ==> Below(Key(distances, x), Key(distances, sorted[m]))
  {
    j := |sorted|;
    while j > 0 && Compare(distances[sorted[j - 1].row, sorted[j - 1].col], distances[x.row, x.col]) > 0
      invariant 0 <= j <= |sorted|
      invariant forall m :: j <= m < |sorted| ==> Below(Key(distances, x), Key(distances, sorted[m]))
    {
      j := j - 1;
    }
  }

  /** The keys of a list with a cell inserted are its keys with that cell's
      key inserted at the same place. */
  lemma KeysInsert(distances: array2<Dist>, sorted: seq<Cell>, x: Cell, j: nat)
    requires InArray(distances, sorted) && Fits(distances, x) && j <= |sorted|
    ensures InArray(distances, sorted[..j] + [x] + sorted[j..])
    ensures Keys(distances, sorted[..j] + [x] + sorted[j..])
            == Keys(distances, sorted)[..j] + [Key(distances, x)] + Keys(distances, sorted)[j..]
  {
    var result := sorted[..j] + [x] + sorted[j..];
    assert forall m :: 0 <= m < j ==> result[m] == sorted[m];
    assert forall m :: j < m < |result| ==> result[m] == sorted[m - 1];
  }

  /** Inserting a key after every key not above it, and before every key above
      it, keeps the keys non-decreasing. */
  lemma InsertKeepsOrder(ks: seq<Dist>, kx: Dist, j: nat)
    requires NonDecreasing(ks) && j <= |ks|
    requires j > 0 ==> !Below(kx, ks[j - 1])
    requires forall m :: j <= m < |ks| ==> Below(kx, ks[m])
    ensures NonDecreasing(ks[..j] + [kx] + ks[j..])
  {
    var result := ks[..j] + [kx] + ks[j..];
    assert forall m :: 0 <= m < j ==> result[m] == ks[m];
    assert forall m :: j < m < |result| ==> result[m] == ks[m - 1];
    forall a, b | 0 <= a < b < |result|
      ensures !Below(result[b], result[a])
    {
      if b == j {
        BelowTotal(result[a], ks[j - 1], kx);
      } else if a < j < b {
        BelowTotal(result[a], ks[j - 1], kx);
        BelowTotal(result[a], kx, result[b]);
      }
    }
  }

  lemma InsertAddsOne(s: seq<Cell>, x: Cell, j: nat)
    requires j <= |s|
    ensures multiset(s[..j] + [x] + s[j..]) == multiset(s) + multiset{x}
  {
    assert s == s[..j] + s[j..];
  }

  /** A key inserted with a larger input index than all others, before only
      larger keys, keeps equal keys in input order. */
  lemma TiesKeepOrder(ks: seq<Dist>, order: seq<nat>, kx: Dist, i: nat, j: nat)
    requires TiesInOrder(ks, order) && j <= |ks|
    requires forall m :: 0 <= m < |order| ==> order[m] < i
    requires forall m :: j <= m < |ks| ==> Below(kx, ks[m])
    ensures TiesInOrder(ks[..j] + [kx] + ks[j..], order[..j] + [i] + order[j..])
  {
    var ks', order' := ks[..j] + [kx] + ks[j..], order[..j] + [i] + order[j..];
    forall a, b | 0 <= a < b < |ks'| && ks'[a] == ks'[b]
      ensures order'[a] < order'[b]
    {
      if a == j {
        assert false;
      } else if b == j {
        assert order'[a] == order[a];
      } else {
        var a0, b0 := if a < j then a else a - 1, if b < j then b else b - 1;
        assert ks'[a] == ks[a0] && ks'[b] == ks[b0];
        assert order'[a] == order[a0] && order'[b] == order[b0];
      }
    }
  }

  /** Inserting the next input cell (input index `i`) at `j` extends the
      rearrangement: each output position maps to a distinct input index
      holding that cell. */
  lemma InsertedIndices(sorted: seq<Cell>, unvisited: seq<Cell>, i: nat, order: seq<nat>, j: nat)
    requires i < |unvisited| && j <= |sorted|
    requires Arranged(sorted, unvisited[..i], order)
    ensures Arranged(sorted[..j] + [unvisited[i]] + sorted[j..], unvisited[..i + 1], order[..j] + [i] + order[j..])
  {
    var result, order' := sorted[..j] + [unvisited[i]] + sorted[j..], order[..j] + [i] + order[j..];
    assert forall m :: 0 <= m < j ==> result[m] == sorted[m] && order'[m] == order[m];
    assert result[j] == unvisited[i] && order'[j] == i;
    assert forall m :: j < m < |result| ==> result[m] == sorted[m - 1] && order'[m] == order[m - 1];
    assert forall m :: 0 <= m < i ==> unvisited[..i + 1][m] == unvisited[..i][m];
  }
}
