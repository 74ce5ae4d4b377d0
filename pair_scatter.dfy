/**
 * The move of the K-neighbour edge window z [L, K, C] into the dense pair
 * representation [L, L, C] at the start of InvariantPointAttention.forward
 * (struct2seq.py). Residue pair (i, j) of the dense array is what the pair
 * bias of attention score a[i][j] is read from.
 */
module PairScatter {
  import opened Tensors

  /** z has L rows of |eIdx[i]| slots, each of c channels, and indices name residues. */
  predicate WindowShape(z: seq<seq<Vec>>, eIdx: seq<seq<nat>>, c: nat) {
    && |z| == |eIdx|
    && (forall i :: 0 <= i < |z| ==> |z[i]| == |eIdx[i]|)
    && (forall i, k :: 0 <= i < |z| && 0 <= k < |z[i]| ==> |z[i][k]| == c)
    && IndexesInto(eIdx, |z|)
  }

  /** The neighbour indices of one row are pairwise distinct. */
  predicate Distinct(idx: seq<nat>) {
    forall k, k' :: 0 <= k < k' < |idx| ==> idx[k] != idx[k']
  }

  /**
   * One row of `zeros(L, C).scatter(-2, index, z)`: starting from zeros,
   * slot k writes z[k] into column idx[k], slots in order, so on a repeated
   * index the last slot wins.
   */
  function ScatterRow(zRow: seq<Vec>, idx: seq<nat>, n: nat, c: nat): (r: seq<Vec>)
    requires |zRow| == |idx|
    requires forall k :: 0 <= k < |idx| ==> idx[k] < n
    ensures |r| == n
    decreases |idx|
  {
    if |idx| == 0 then seq(n, _ => Zeros(c))
    else
      var last := |idx| - 1;
      ScatterRow(zRow[..last], idx[..last], n, c)[idx[last] := zRow[last]]
  }

  /** Column idx[k] holds z[k] when no later slot of the row writes the same column. */
  lemma {:induction false} ScatterRowLastWrite(zRow: seq<Vec>, idx: seq<nat>, n: nat, c: nat, k: nat)
    requires |zRow| == |idx|
    requires forall k :: 0 <= k < |idx| ==> idx[k] < n
    requires k < |idx|
    requires forall k' :: k < k' < |idx| ==> idx[k'] != idx[k]
    ensures ScatterRow(zRow, idx, n, c)[idx[k]] == zRow[k]
    decreases |idx|
  {
    var last := |idx| - 1;
    if k < last {
      ScatterRowLastWrite(zRow[..last], idx[..last], n, c, k);
    }
  }

  /** A column listed by no slot keeps its zero initialisation. */
  lemma {:induction false} ScatterRowUnlisted(zRow: seq<Vec>, idx: seq<nat>, n: nat, c: nat, j: nat)
    requires |zRow| == |idx|
    requires forall k :: 0 <= k < |idx| ==> idx[k] < n
    requires j < n
    requires forall k :: 0 <= k < |idx| ==> idx[k] != j
    ensures ScatterRow(zRow, idx, n, c)[j] == Zeros(c)
    decreases |idx|
  {
    if |idx| > 0 {
      var last := |idx| - 1;
      ScatterRowUnlisted(zRow[..last], idx[..last], n, c, j);
    }
  }

  /**
   * The scatter of every row into an L x L pair array: with distinct indices
   * per row, pair (i, eIdx[i][k]) holds z[i][k], and every pair (i, j) whose
   * j is not a neighbour of i is zero.
   */
  function Scatter(z: seq<seq<Vec>>, eIdx: seq<seq<nat>>, c: nat): (d: seq<seq<Vec>>)
    requires WindowShape(z, eIdx, c)
    ensures |d| == |z|
    ensures forall i :: 0 <= i < |d| ==> |d[i]| == |z|
    ensures forall i, k :: 0 <= i < |d| && 0 <= k < |eIdx[i]| && Distinct(eIdx[i]) ==>
      d[i][eIdx[i][k]] == z[i][k]
    ensures forall i, j :: 0 <= i < |d| && 0 <= j < |z| && (forall k :: 0 <= k < |eIdx[i]| ==> eIdx[i][k] != j) ==>
      d[i][j] == Zeros(c)
  {
    var L := |z|;
    var d := seq(L, i requires 0 <= i < L => ScatterRow(z[i], eIdx[i], L, c));
    assert forall i, k :: 0 <= i < L && 0 <= k < |eIdx[i]| && Distinct(eIdx[i]) ==> d[i][eIdx[i][k]] == z[i][k] by {
      forall i, k | 0 <= i < L && 0 <= k < |eIdx[i]| && Distinct(eIdx[i]) {
        ScatterRowLastWrite(z[i], eIdx[i], L, c, k);
      }
    }
    assert forall i, j :: 0 <= i < L && 0 <= j < L && (forall k :: 0 <= k < |eIdx[i]| ==> eIdx[i][k] != j) ==> d[i][j] == Zeros(c) by {
      forall i, j | 0 <= i < L && 0 <= j < L && (forall k :: 0 <= k < |eIdx[i]| ==> eIdx[i][k] != j) {
        ScatterRowUnlisted(z[i], eIdx[i], L, c, j);
      }
    }
    d
  }

  /**
   * The pair representation as the source builds it: scattered into an L x L
   * array only when the chain is longer than the neighbour count; otherwise
   * z is used as it is, so its column k is neighbour SLOT k, not residue k.
   */
  function PairRepresentation(z: seq<seq<Vec>>, eIdx: seq<seq<nat>>, neighbor: nat, c: nat): (d: seq<seq<Vec>>)
    requires WindowShape(z, eIdx, c)
    ensures |z| <= neighbor ==> d == z
    ensures |z| > neighbor ==> |d| == |z| && forall i :: 0 <= i < |d| ==> |d[i]| == |z|
    ensures |z| > neighbor ==> forall i, k :: 0 <= i < |d| && 0 <= k < |eIdx[i]| && Distinct(eIdx[i]) ==>
      d[i][eIdx[i][k]] == z[i][k]
    ensures |z| > neighbor ==> forall i, j :: 0 <= i < |d| && 0 <= j < |z| && (forall k :: 0 <= k < |eIdx[i]| ==> eIdx[i][k] != j) ==>
      d[i][j] == Zeros(c)
  {
    if |z| > neighbor then Scatter(z, eIdx, c) else z
  }

  /**
   * A two-residue chain (L = 2 <= neighbor = 30) whose neighbour lists are
   * sorted by distance, each residue first: the source's pair array puts the
   * self edge of residue 1 into pair (1, 0), where the scattered array holds
   * the edge from residue 1 to residue 0.
   */
  lemma ShortChainPairMisplaced()
    ensures var z := [[[1.0], [2.0]], [[3.0], [4.0]]];
      var eIdx: seq<seq<nat>> := [[0, 1], [1, 0]];
      && WindowShape(z, eIdx, 1)
      && PairRepresentation(z, eIdx, 30, 1)[1][0] == [3.0]
      && Scatter(z, eIdx, 1)[1][0] == [4.0]
      && PairRepresentation(z, eIdx, 30, 1) != Scatter(z, eIdx, 1)
  {
    var z := [[[1.0], [2.0]], [[3.0], [4.0]]];
    var eIdx: seq<seq<nat>> := [[0, 1], [1, 0]];
    assert WindowShape(z, eIdx, 1);
    assert Distinct(eIdx[1]);
    assert eIdx[1][1] == 0;
    assert Scatter(z, eIdx, 1)[1][0] == z[1][1];
    assert PairRepresentation(z, eIdx, 30, 1)[1][0] == z[1][0];
  }
}
