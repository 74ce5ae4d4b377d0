/**
 * The discrete masks that decide what each residue may see, for one chain of
 * N residues with K neighbour slots each (struct2seq.py). Every mask acts on
 * each batch element independently, so the batch axis is left out.
 *
 * eIdx[i][k] is the residue in neighbour slot k of residue i; mask[i] is 1
 * for a real residue and 0 for padding.
 */
module Masks {
  import opened Tensors

  /**
   * TMPNN._autoregressive_mask: slot k of residue i is "backward" (already
   * decoded when residue i is decoded in the order 0..N-1) exactly when its
   * neighbour comes strictly before i. A residue never marks itself or a later
   * residue as backward.
   */
  function AutoregressiveMask(eIdx: seq<seq<nat>>): (m: seq<seq<int>>)
    ensures |m| == |eIdx|
    ensures forall i :: 0 <= i < |m| ==> |m[i]| == |eIdx[i]|
    ensures IsBinaryGrid(m)
    ensures forall i, k :: 0 <= i < |m| && 0 <= k < |m[i]| ==> (m[i][k] == 1 <==> eIdx[i][k] < i)
  {
    seq(|eIdx|, i requires 0 <= i < |eIdx| =>
      seq(|eIdx[i]|, k requires 0 <= k < |eIdx[i]| => if eIdx[i][k] - i < 0 then 1 else 0))
  }

  /** mask_bw = mask_1D * mask_attend. */
  function BackwardMask(mask: seq<int>, ar: seq<seq<int>>): (bw: seq<seq<int>>)
    requires |mask| == |ar|
    ensures |bw| == |ar|
    ensures forall i :: 0 <= i < |bw| ==> |bw[i]| == |ar[i]|
  {
    seq(|ar|, i requires 0 <= i < |ar| =>
      seq(|ar[i]|, k requires 0 <= k < |ar[i]| => mask[i] * ar[i][k]))
  }

  /** mask_fw = mask_1D * (1 - mask_attend). */
  function ForwardMask(mask: seq<int>, ar: seq<seq<int>>): (fw: seq<seq<int>>)
    requires |mask| == |ar|
    ensures |fw| == |ar|
    ensures forall i :: 0 <= i < |fw| ==> |fw[i]| == |ar[i]|
  {
    seq(|ar|, i requires 0 <= i < |ar| =>
      seq(|ar[i]|, k requires 0 <= k < |ar[i]| => mask[i] * (1 - ar[i][k])))
  }

  /**
   * The decoder's two views split each valid residue's neighbour slots: every
   * slot is in exactly one of them (bw + fw == mask, bw * fw == 0), backward
   * exactly when the neighbour precedes the residue, and a padded residue has
   * neither.
   */
  lemma BackwardForwardPartition(mask: seq<int>, eIdx: seq<seq<nat>>, i: nat, k: nat)
    requires |mask| == |eIdx| && IsBinary(mask)
    requires i < |eIdx| && k < |eIdx[i]|
    ensures var ar := AutoregressiveMask(eIdx);
      var bw := BackwardMask(mask, ar)[i][k];
      var fw := ForwardMask(mask, ar)[i][k];
      && (bw == 0 || bw == 1) && (fw == 0 || fw == 1)
      && bw + fw == mask[i]
      && bw * fw == 0
      && (bw == 1 <==> mask[i] == 1 && eIdx[i][k] < i)
      && (fw == 1 <==> mask[i] == 1 && eIdx[i][k] >= i)
  {
    var ar := AutoregressiveMask(eIdx);
    assert ar[i][k] == 0 || ar[i][k] == 1;
    if mask[i] == 0 {
      assert BackwardMask(mask, ar)[i][k] == 0;
      assert ForwardMask(mask, ar)[i][k] == 0;
    } else if ar[i][k] == 1 {
      assert BackwardMask(mask, ar)[i][k] == 1;
      assert ForwardMask(mask, ar)[i][k] == 0;
    } else {
      assert BackwardMask(mask, ar)[i][k] == 0;
      assert ForwardMask(mask, ar)[i][k] == 1;
    }
  }

  /**
   * The encoder's pairwise validity mask, mask[i] * mask[E_idx[i][k]]
   * (gather_nodes of the residue mask, then the product with the residue's
   * own mask).
   */
  function AttendMask(mask: seq<int>, eIdx: seq<seq<nat>>): (ma: seq<seq<int>>)
    requires |mask| == |eIdx| && IndexesInto(eIdx, |mask|)
    ensures |ma| == |eIdx|
    ensures forall i :: 0 <= i < |ma| ==> |ma[i]| == |eIdx[i]|
  {
    var g := GatherNodes(mask, eIdx);
    seq(|eIdx|, i requires 0 <= i < |eIdx| =>
      seq(|eIdx[i]|, k requires 0 <= k < |eIdx[i]| => mask[i] * g[i][k]))
  }

  /** A neighbour slot may be attended exactly when the residue and its neighbour are both real. */
  lemma AttendMaskBothValid(mask: seq<int>, eIdx: seq<seq<nat>>, i: nat, k: nat)
    requires |mask| == |eIdx| && IndexesInto(eIdx, |mask|) && IsBinary(mask)
    requires i < |eIdx| && k < |eIdx[i]|
    ensures var a := AttendMask(mask, eIdx)[i][k];
      && (a == 0 || a == 1)
      && (a == 1 <==> mask[i] == 1 && mask[eIdx[i][k]] == 1)
  {
    var j := eIdx[i][k];
    assert j < |mask|;
    assert GatherNodes(mask, eIdx)[i][k] == mask[j];
    if mask[i] == 0 || mask[j] == 0 {
      assert AttendMask(mask, eIdx)[i][k] == 0;
    } else {
      assert AttendMask(mask, eIdx)[i][k] == 1;
    }
  }

  /** The `inf` constant of InvariantPointAttention (1e5). */
  const Inf: real := 100000.0

  /** The IPA additive mask inf * (mask[i] * mask[j] - 1) over every residue pair. */
  function SquareMask(mask: seq<int>): (sm: seq<seq<real>>)
    ensures |sm| == |mask|
    ensures forall i :: 0 <= i < |sm| ==> |sm[i]| == |mask|
  {
    seq(|mask|, i requires 0 <= i < |mask| =>
      seq(|mask|, j requires 0 <= j < |mask| => Inf * ((mask[i] * mask[j]) as real - 1.0)))
  }

  /**
   * The IPA square mask is symmetric, adds nothing to the score of a pair of
   * real residues and adds -inf to any pair that involves padding.
   */
  lemma SquareMaskValues(mask: seq<int>, i: nat, j: nat)
    requires IsBinary(mask) && i < |mask| && j < |mask|
    ensures SquareMask(mask)[i][j] == SquareMask(mask)[j][i]
    ensures mask[i] == 1 && mask[j] == 1 ==> SquareMask(mask)[i][j] == 0.0
    ensures mask[i] == 0 || mask[j] == 0 ==> SquareMask(mask)[i][j] == -Inf
  {
    var sm := SquareMask(mask);
    assert mask[i] * mask[j] == mask[j] * mask[i];
    if mask[i] == 0 || mask[j] == 0 {
      assert mask[i] * mask[j] == 0;
    } else {
      assert mask[i] * mask[j] == 1;
    }
  }
}
