/**
 * A reference model of the FAISS `IndexFlatL2` search the store relies
 * on: an exhaustive scan that returns, for `k` neighbours, the ids of the
 * `min(k, n)` rows closest to the query in squared Euclidean distance,
 * nearest first, padded with `-1` up to `k` ids. Which of several rows at
 * the same distance comes first is not part of what is proved.
 */
module FlatL2 {

  /** An embedding; its float32 components are integers here. */
  type Vector = seq<int>

  /** Squared Euclidean distance over the common length of two vectors. */
  function SqDist(a: Vector, b: Vector): (d: int)
    ensures d >= 0
    decreases |a|
  {
    if a == [] || b == [] then 0 else (a[0] - b[0]) * (a[0] - b[0]) + SqDist(a[1..], b[1..])
  }

  /** The distance of a vector to itself is 0, and only an equal vector of the same length is at distance 0. */
  lemma {:induction false} SqDistZero(a: Vector, b: Vector)
    requires |a| == |b|
    ensures SqDist(a, b) == 0 <==> a == b
    decreases |a|
  {
    if a != [] {
      SqDistZero(a[1..], b[1..]);
      var x := a[0] - b[0];
      if x != 0 {
        assert x * x > 0 by {
          if x < 0 {
            assert x * x == (-x) * (-x);
          }
        }
      }
      assert a == [a[0]] + a[1..] && b == [b[0]] + b[1..];
    }
  }

  /** The distance of every row to the query. */
  function Distances(rows: seq<Vector>, q: Vector): (ds: seq<int>)
    ensures |ds| == |rows|
    ensures forall i :: 0 <= i < |rows| ==> ds[i] == SqDist(rows[i], q)
  {
    seq(|rows|, i requires 0 <= i < |rows| => SqDist(rows[i], q))
  }

  /** Every candidate id names one of `n` rows. */
  predicate InBounds(cands: seq<int>, n: nat) {
    forall i :: 0 <= i < |cands| ==> 0 <= cands[i] < n
  }

  /** A candidate with the smallest distance exists among the first `n`. */
  lemma {:induction false} MinExists(ds: seq<int>, cands: seq<int>, n: nat)
    requires 0 < n <= |cands| && InBounds(cands, |ds|)
    ensures exists p :: 0 <= p < n && forall i :: 0 <= i < n ==> ds[cands[p]] <= ds[cands[i]]
  {
    if n > 1 {
      MinExists(ds, cands, n - 1);
      var p :| 0 <= p < n - 1 && forall i :: 0 <= i < n - 1 ==> ds[cands[p]] <= ds[cands[i]];
      if ds[cands[n - 1]] < ds[cands[p]] {
        assert forall i :: 0 <= i < n ==> ds[cands[n - 1]] <= ds[cands[i]];
      } else {
        assert forall i :: 0 <= i < n ==> ds[cands[p]] <= ds[cands[i]];
      }
    } else {
      assert forall i :: 0 <= i < n ==> ds[cands[0]] <= ds[cands[i]];
    }
  }

  /** The position of a candidate with the smallest distance. */
  ghost function MinAt(ds: seq<int>, cands: seq<int>, n: nat): (p: nat)
    requires 0 < n <= |cands| && InBounds(cands, |ds|)
    ensures p < n
    ensures forall i :: 0 <= i < n ==> ds[cands[p]] <= ds[cands[i]]
  {
    MinExists(ds, cands, n);
    var p :| 0 <= p < n && forall i :: 0 <= i < n ==> ds[cands[p]] <= ds[cands[i]];
    p
  }

  /** The candidate ids with the one at position `p` taken out. */
  function RemoveAt(cands: seq<int>, p: nat): (rest: seq<int>)
    requires p < |cands|
    ensures |rest| == |cands| - 1
    ensures forall i :: 0 <= i < |rest| ==> rest[i] == if i < p then cands[i] else cands[i + 1]
  {
    seq(|cands| - 1, i requires 0 <= i < |cands| - 1 => if i < p then cands[i] else cands[i + 1])
  }

  /** How many real ids a selection of `k` from `n` candidates holds. */
  function Picked(k: nat, n: nat): nat {
    if k < n then k else n
  }

  /**
   * `k` ids picked from `cands`, each time the candidate nearest the query
   * among those left; `-1` once none is left. The first `min(k, |cands|)`
   * ids are rows and the rest are `-1`.
   */
  ghost function Select(ds: seq<int>, k: nat, cands: seq<int>): (r: seq<int>)
    requires InBounds(cands, |ds|)
    ensures |r| == k
    ensures forall j :: 0 <= j < Picked(k, |cands|) ==> 0 <= r[j] < |ds|
    ensures forall j :: Picked(k, |cands|) <= j < k ==> r[j] == -1
    decreases k
  {
    if k == 0 then []
    else if cands == [] then [-1] + Select(ds, k - 1, [])
    else
      var p := MinAt(ds, cands, |cands|);
      var rest := RemoveAt(cands, p);
      [cands[p]] + Select(ds, k - 1, rest)
  }

  /** The ids `0, 1, …, n - 1`. */
  function Ids(n: nat): (r: seq<int>)
    ensures |r| == n && forall i :: 0 <= i < n ==> r[i] == i
  {
    seq(n, i requires 0 <= i < n => i)
  }

  /**
   * `index.search(q, k)` on the rows added so far: `k` ids, the first
   * `min(k, n)` of them rows and the rest `-1`; `k <= 0` asks for none.
   */
  ghost function Search(rows: seq<Vector>, q: Vector, k: int): (ids: seq<int>)
    ensures |ids| == if k < 0 then 0 else k
    ensures forall j :: 0 <= j < |ids| ==> if j < |rows| then 0 <= ids[j] < |rows| else ids[j] == -1
  {
    Select(Distances(rows, q), if k < 0 then 0 else k, Ids(|rows|))
  }

  // ---------------------------------------------------------------------
  // Properties of the selection
  // ---------------------------------------------------------------------

  predicate Distinct(s: seq<int>) {
    forall i, j :: 0 <= i < j < |s| ==> s[i] != s[j]
  }

  /** No other candidate equals the one at position `p`. */
  predicate Unique(cands: seq<int>, p: int)
    requires 0 <= p < |cands|
  {
    forall i :: 0 <= i < |cands| && i != p ==> cands[i] != cands[p]
  }

  /** Taking out a candidate that occurs once leaves none equal to it. */
  lemma RemoveAtOthers(cands: seq<int>, p: int)
    requires 0 <= p < |cands| && Unique(cands, p)
    ensures var rest := RemoveAt(cands, p);
            forall i :: 0 <= i < |rest| ==> rest[i] != cands[p]
  {
  }

  /** Taking out a candidate keeps the others distinct. */
  lemma RemoveAtDistinct(cands: seq<int>, p: int)
    requires 0 <= p < |cands| && Distinct(cands)
    ensures Distinct(RemoveAt(cands, p))
  {
  }

  /** A candidate left after taking one out was a candidate before. */
  lemma RemoveAtWithin(cands: seq<int>, p: int, c: int)
    requires 0 <= p < |cands| && c in RemoveAt(cands, p)
    ensures c in cands
  {
    var rest := RemoveAt(cands, p);
    var h :| 0 <= h < |rest| && rest[h] == c;
  }

  /** Row `a` is no farther from the query than row `b`. */
  predicate NoFarther(ds: seq<int>, a: int, b: int) {
    0 <= a < |ds| && 0 <= b < |ds| && ds[a] <= ds[b]
  }

  /** No candidate left after taking out the nearest one is nearer than it. */
  lemma RemoveNearest(ds: seq<int>, cands: seq<int>, c: int)
    requires cands != [] && InBounds(cands, |ds|)
    requires c in RemoveAt(cands, MinAt(ds, cands, |cands|))
    ensures NoFarther(ds, cands[MinAt(ds, cands, |cands|)], c)
  {
    var rest := RemoveAt(cands, MinAt(ds, cands, |cands|));
    var h :| 0 <= h < |rest| && rest[h] == c;
  }

  /** Every other candidate survives taking one out. */
  lemma RemoveAtKeeps(cands: seq<int>, p: int, c: int)
    requires 0 <= p < |cands| && c in cands && c != cands[p]
    ensures c in RemoveAt(cands, p)
  {
    var i :| 0 <= i < |cands| && cands[i] == c;
    var rest := RemoveAt(cands, p);
    if i < p { assert rest[i] == c; } else { assert rest[i - 1] == c; }
  }

  /** The first pick is the nearest candidate. */
  lemma SelectHead(ds: seq<int>, k: nat, cands: seq<int>)
    requires InBounds(cands, |ds|) && 0 < Picked(k, |cands|)
    ensures Select(ds, k, cands)[0] == cands[MinAt(ds, cands, |cands|)]
  {
  }

  /** After the first pick, the selection goes on among the remaining candidates. */
  lemma SelectTail(ds: seq<int>, k: nat, cands: seq<int>, j: nat)
    requires InBounds(cands, |ds|) && 0 < j < Picked(k, |cands|)
    ensures var rest := RemoveAt(cands, MinAt(ds, cands, |cands|));
            InBounds(rest, |ds|) && Picked(k - 1, |rest|) == Picked(k, |cands|) - 1 &&
            Select(ds, k, cands)[j] == Select(ds, k - 1, rest)[j - 1]
  {
  }

  /** Every id picked is one of the candidates. */
  lemma {:induction false} SelectWithin(ds: seq<int>, k: nat, cands: seq<int>, j: nat)
    requires InBounds(cands, |ds|) && j < Picked(k, |cands|)
    ensures Select(ds, k, cands)[j] in cands
    decreases k
  {
    var p := MinAt(ds, cands, |cands|);
    var rest := RemoveAt(cands, p);
    if j == 0 {
      SelectHead(ds, k, cands);
    } else {
      SelectTail(ds, k, cands, j);
      var x := Select(ds, k - 1, rest)[j - 1];
      assert x in cands by {
        SelectWithin(ds, k - 1, rest, j - 1);
        RemoveAtWithin(cands, p, x);
      }
    }
  }

  /** The first pick is not picked again when it occurs once among the candidates. */
  lemma FirstNotRepeated(ds: seq<int>, k: nat, cands: seq<int>, j: nat)
    requires InBounds(cands, |ds|) && 0 < j < Picked(k, |cands|)
    requires Unique(cands, MinAt(ds, cands, |cands|))
    ensures Select(ds, k, cands)[0] != Select(ds, k, cands)[j]
  {
    var p := MinAt(ds, cands, |cands|);
    var rest := RemoveAt(cands, p);
    SelectHead(ds, k, cands);
    SelectTail(ds, k, cands, j);
    var x := Select(ds, k - 1, rest)[j - 1];
    assert x != cands[p] by {
      SelectWithin(ds, k - 1, rest, j - 1);
      RemoveAtOthers(cands, p);
    }
  }

  /** No candidate is picked twice. */
  lemma {:induction false} SelectDistinct(ds: seq<int>, k: nat, cands: seq<int>, i: nat, j: nat)
    requires InBounds(cands, |ds|) && Distinct(cands) && i < j < Picked(k, |cands|)
    ensures Select(ds, k, cands)[i] != Select(ds, k, cands)[j]
    decreases k
  {
    var p := MinAt(ds, cands, |cands|);
    if i == 0 {
      assert Unique(cands, p);
      FirstNotRepeated(ds, k, cands, j);
    } else {
      var rest := RemoveAt(cands, p);
      SelectTail(ds, k, cands, i);
      SelectTail(ds, k, cands, j);
      var t := Select(ds, k - 1, rest);
      assert t[i - 1] != t[j - 1] by {
        RemoveAtDistinct(cands, p);
        SelectDistinct(ds, k - 1, rest, i - 1, j - 1);
      }
    }
  }

  /** The first pick is no farther than any later one. */
  lemma FirstNearest(ds: seq<int>, k: nat, cands: seq<int>, j: nat)
    requires InBounds(cands, |ds|) && 0 < j < Picked(k, |cands|)
    ensures NoFarther(ds, Select(ds, k, cands)[0], Select(ds, k, cands)[j])
  {
    var p := MinAt(ds, cands, |cands|);
    var rest := RemoveAt(cands, p);
    SelectTail(ds, k, cands, j);
    var x := Select(ds, k - 1, rest)[j - 1];
    assert Select(ds, k, cands)[0] == cands[p] by {
      SelectHead(ds, k, cands);
    }
    assert NoFarther(ds, cands[p], x) by {
      SelectWithin(ds, k - 1, rest, j - 1);
      RemoveNearest(ds, cands, x);
    }
  }

  /** The picked candidates come nearest first. */
  lemma {:induction false} SelectAscending(ds: seq<int>, k: nat, cands: seq<int>, i: nat, j: nat)
    requires InBounds(cands, |ds|) && i < j < Picked(k, |cands|)
    ensures NoFarther(ds, Select(ds, k, cands)[i], Select(ds, k, cands)[j])
    decreases k
  {
    if i == 0 {
      FirstNearest(ds, k, cands, j);
    } else {
      var rest := RemoveAt(cands, MinAt(ds, cands, |cands|));
      SelectTail(ds, k, cands, i);
      SelectTail(ds, k, cands, j);
      SelectAscending(ds, k - 1, rest, i - 1, j - 1);
    }
  }

  /** No candidate left out is nearer than a picked one. */
  lemma {:induction false} SelectNoNearer(ds: seq<int>, k: nat, cands: seq<int>, c: int, j: nat)
    requires InBounds(cands, |ds|)
    requires j < Picked(k, |cands|) && c in cands
    requires forall x :: 0 <= x < Picked(k, |cands|) ==> Select(ds, k, cands)[x] != c
    ensures NoFarther(ds, Select(ds, k, cands)[j], c)
    decreases k
  {
    var p := MinAt(ds, cands, |cands|);
    var rest := RemoveAt(cands, p);
    assert Select(ds, k, cands)[0] == cands[p] by {
      SelectHead(ds, k, cands);
    }
    if j == 0 {
      var h :| 0 <= h < |cands| && cands[h] == c;
    } else {
      SelectTail(ds, k, cands, j);
      assert c in rest by {
        RemoveAtKeeps(cands, p, c);
      }
      var t := Select(ds, k - 1, rest);
      forall x | 0 <= x < Picked(k - 1, |rest|) ensures t[x] != c {
        SelectTail(ds, k, cands, x + 1);
      }
      SelectNoNearer(ds, k - 1, rest, c, j - 1);
    }
  }

  /** The `min(k, n)` rows found are distinct. */
  lemma SearchDistinct(rows: seq<Vector>, q: Vector, k: nat)
    ensures var ids, m := Search(rows, q, k), Picked(k, |rows|);
            forall i, j :: 0 <= i < j < m ==> ids[i] != ids[j]
  {
    var ds, cands := Distances(rows, q), Ids(|rows|);
    var ids := Search(rows, q, k);
    assert ids == Select(ds, k, cands);
    forall i, j | 0 <= i < j < Picked(k, |rows|) ensures ids[i] != ids[j] {
      SelectDistinct(ds, k, cands, i, j);
    }
  }

  /** The rows found come nearest to the query first. */
  lemma SearchAscending(rows: seq<Vector>, q: Vector, k: nat)
    ensures var ids, m := Search(rows, q, k), Picked(k, |rows|);
            forall i, j :: 0 <= i < j < m ==> SqDist(rows[ids[i]], q) <= SqDist(rows[ids[j]], q)
  {
    var ds, cands := Distances(rows, q), Ids(|rows|);
    var ids := Search(rows, q, k);
    assert ids == Select(ds, k, cands);
    forall i, j | 0 <= i < j < Picked(k, |rows|) ensures SqDist(rows[ids[i]], q) <= SqDist(rows[ids[j]], q) {
      SelectAscending(ds, k, cands, i, j);
    }
  }

  /** No row left out is nearer to the query than a row found. */
  lemma SearchNoNearer(rows: seq<Vector>, q: Vector, k: nat)
    ensures var ids, m := Search(rows, q, k), Picked(k, |rows|);
            forall i, j :: 0 <= i < |rows| && i !in ids[..m] && 0 <= j < m ==> SqDist(rows[ids[j]], q) <= SqDist(rows[i], q)
  {
    var ds, cands := Distances(rows, q), Ids(|rows|);
    var ids, m := Search(rows, q, k), Picked(k, |rows|);
    assert ids == Select(ds, k, cands);
    forall i, j | 0 <= i < |rows| && i !in ids[..m] && 0 <= j < m
      ensures SqDist(rows[ids[j]], q) <= SqDist(rows[i], q)
    {
      assert cands[i] == i;
      forall x | 0 <= x < m ensures ids[x] != i {
        assert ids[..m][x] == ids[x];
      }
      SelectNoNearer(ds, k, cands, i, j);
    }
  }

  /** A query equal to a stored row finds a row at distance 0 first. */
  lemma ExactMatchFirst(rows: seq<Vector>, q: Vector, k: nat, i: int)
    requires 0 <= i < |rows| && rows[i] == q && k > 0
    ensures var ids := Search(rows, q, k);
            0 <= ids[0] < |rows| && SqDist(rows[ids[0]], q) == 0
  {
    var ids, m := Search(rows, q, k), Picked(k, |rows|);
    assert SqDist(rows[i], q) == 0 by {
      SqDistZero(q, q);
    }
    if i in ids[..m] {
      var x :| 0 <= x < m && ids[..m][x] == i;
      if x > 0 {
        assert SqDist(rows[ids[0]], q) <= SqDist(rows[ids[x]], q) by {
          SearchAscending(rows, q, k);
        }
      }
    } else {
      assert SqDist(rows[ids[0]], q) <= SqDist(rows[i], q) by {
        SearchNoNearer(rows, q, k);
      }
    }
  }
}
