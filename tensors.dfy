/**
 * Values shared by the mask, scatter and decoder models: channel vectors,
 * 0/1 masks, and the neighbour gather that the feature module provides.
 *
 * A tensor of shape [L, C] is a seq<Vec> of L vectors of C channels; a tensor
 * of shape [L, K] of indices or mask values is a seq<seq<_>>.
 */
module Tensors {

  /** One feature vector along the channel axis. */
  type Vec = seq<real>

  /** The zero vector of n channels (torch.zeros / zeros_like). */
  function Zeros(n: nat): (z: Vec)
    ensures |z| == n
    ensures forall c :: 0 <= c < n ==> z[c] == 0.0
  {
    seq(n, _ => 0.0)
  }

  /** Every channel of v is zero. */
  predicate IsZero(v: Vec) {
    forall c :: 0 <= c < |v| ==> v[c] == 0.0
  }

  /** Broadcast product of a mask entry with a vector: `m * v`. */
  function Scale(m: int, v: Vec): (r: Vec)
    ensures |r| == |v|
    ensures forall c :: 0 <= c < |v| ==> r[c] == (m as real) * v[c]
  {
    seq(|v|, c requires 0 <= c < |v| => (m as real) * v[c])
  }

  /** Element-wise sum of two vectors of the same width. */
  function Add(u: Vec, v: Vec): (r: Vec)
    requires |u| == |v|
    ensures |r| == |u|
    ensures forall c :: 0 <= c < |u| ==> r[c] == u[c] + v[c]
  {
    seq(|u|, c requires 0 <= c < |u| => u[c] + v[c])
  }

  /** Multiplying by a mask bit keeps the vector (bit 1) or zeroes it (bit 0). */
  lemma ScaleByBit(m: int, v: Vec)
    requires m == 0 || m == 1
    ensures m == 1 ==> Scale(m, v) == v
    ensures m == 0 ==> Scale(m, v) == Zeros(|v|)
  {
  }

  /** Adding a zero vector changes nothing. */
  lemma AddZeros(u: Vec)
    ensures Add(u, Zeros(|u|)) == u
    ensures Add(Zeros(|u|), u) == u
  {
  }

  /** Every entry is 0 or 1: the validity mask of a padded batch. */
  predicate IsBinary(m: seq<int>) {
    forall i :: 0 <= i < |m| ==> m[i] == 0 || m[i] == 1
  }

  predicate IsBinaryGrid(m: seq<seq<int>>) {
    forall i :: 0 <= i < |m| ==> IsBinary(m[i])
  }

  /** Every vector of vs has w channels. */
  predicate AllWidth(vs: seq<Vec>, w: nat) {
    forall i :: 0 <= i < |vs| ==> |vs[i]| == w
  }

  /** Every neighbour index of eIdx names one of n residues. */
  predicate IndexesInto(eIdx: seq<seq<nat>>, n: nat) {
    forall i, k :: 0 <= i < |eIdx| && 0 <= k < |eIdx[i]| ==> eIdx[i][k] < n
  }

  /**
   * gather_nodes(x, E_idx)[i][k] == x[E_idx[i][k]]: the features of each
   * residue's neighbours, slot by slot. The feature module that implements it
   * is not part of this model; this is the semantics the model assumes for it.
   */
  function GatherNodes<T>(x: seq<T>, eIdx: seq<seq<nat>>): (g: seq<seq<T>>)
    requires IndexesInto(eIdx, |x|)
    ensures |g| == |eIdx|
    ensures forall i :: 0 <= i < |g| ==> |g[i]| == |eIdx[i]|
    ensures forall i, k :: 0 <= i < |g| && 0 <= k < |g[i]| ==> g[i][k] == x[eIdx[i][k]]
  {
    seq(|eIdx|, i requires 0 <= i < |eIdx| =>
      seq(|eIdx[i]|, k requires 0 <= k < |eIdx[i]| => x[eIdx[i][k]]))
  }

  /**
   * The gating `mask_V.unsqueeze(-1) * h_V` that ends every encoder and
   * decoder layer: a padded residue's node state becomes zero, a valid
   * residue's state passes through.
   */
  function Gate(mask: seq<int>, h: seq<Vec>): (r: seq<Vec>)
    requires |mask| == |h|
    ensures |r| == |h|
    ensures forall i :: 0 <= i < |h| ==> r[i] == Scale(mask[i], h[i])
    ensures forall i :: 0 <= i < |h| && mask[i] == 0 ==> IsZero(r[i])
    ensures forall i :: 0 <= i < |h| && mask[i] == 1 ==> r[i] == h[i]
  {
    var r := seq(|h|, i requires 0 <= i < |h| => Scale(mask[i], h[i]));
    assert forall i :: 0 <= i < |h| && mask[i] == 1 ==> r[i] == h[i] by {
      forall i | 0 <= i < |h| && mask[i] == 1 {
        ScaleByBit(mask[i], h[i]);
      }
    }
    r
  }
}
