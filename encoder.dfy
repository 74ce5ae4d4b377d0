/**
 * The encoder stack of TMPNN.forward and TMPNN.sample (struct2seq.py): every
 * EncoderLayer updates the node states h_V and the edge states h_E of one
 * chain, and gates h_V with the residue mask before the edge update reads it.
 *
 * Attention, feed-forward, layer norm and the outer product are
 * floating-point arithmetic and enter as the two functions of an
 * `EncoderLayer`; what the model keeps is which values each update sees and
 * the mask gating.
 */
module Encoder {
  import opened Tensors
  import Masks

  /** One slot of cat_neighbors_nodes(h_V, h_E, E_idx): [h_E[i][k] | h_V[E_idx[i][k]]]. */
  datatype EdgeNode = EdgeNode(edge: Vec, node: Vec)

  /**
   * cat_neighbors_nodes(h_V, h_E, E_idx): every edge slot paired with the
   * node state of the neighbour it points to. The feature module that
   * implements it is not part of this model; this is the semantics assumed.
   */
  function NeighborView(hV: seq<Vec>, hE: seq<seq<Vec>>, eIdx: seq<seq<nat>>): (v: seq<seq<EdgeNode>>)
    requires |hE| == |eIdx| && (forall i :: 0 <= i < |hE| ==> |hE[i]| == |eIdx[i]|)
    requires IndexesInto(eIdx, |hV|)
    ensures |v| == |eIdx| && (forall i :: 0 <= i < |v| ==> |v[i]| == |eIdx[i]|)
    ensures forall i, k :: 0 <= i < |v| && 0 <= k < |v[i]| ==> v[i][k] == EdgeNode(hE[i][k], hV[eIdx[i][k]])
  {
    var g := GatherNodes(hV, eIdx);
    seq(|eIdx|, i requires 0 <= i < |eIdx| =>
      seq(|eIdx[i]|, k requires 0 <= k < |eIdx[i]| => EdgeNode(hE[i][k], g[i][k])))
  }

  /**
   * One EncoderLayer. `node(v, view, ma)` is the node update of one residue
   * (neighbour attention over its K slots under its mask_attend row, then
   * the feed-forward block), before gating. `edge(row, v, nbrs, ma)` is the
   * edge update of one residue's K edge slots (outer product with the gated
   * node states of the residue and its neighbours, edge self-attention and
   * the feed-forward block).
   */
  datatype EncoderLayer = EncoderLayer(
    node: (Vec, seq<EdgeNode>, seq<int>) -> Vec,
    edge: (seq<Vec>, Vec, seq<Vec>, seq<int>) -> seq<Vec>)

  /** The node and edge states of one chain between two encoder layers. */
  datatype States = States(hV: seq<Vec>, hE: seq<seq<Vec>>)

  /**
   * The chain's fixed inputs: neighbour index, residue mask, and the node
   * and edge widths that the layers keep.
   */
  datatype Chain = Chain(eIdx: seq<seq<nat>>, mask: seq<int>, nodeWidth: nat, edgeWidth: nat)
  {
    ghost predicate Valid() {
      && |eIdx| == |mask| && IsBinary(mask) && IndexesInto(eIdx, |mask|)
    }

    /** States of this chain's shape: N node vectors, K_i edge vectors per residue. */
    ghost predicate Fits(st: States) {
      && |st.hV| == |mask| && AllWidth(st.hV, nodeWidth)
      && |st.hE| == |eIdx|
      && (forall i :: 0 <= i < |st.hE| ==> |st.hE[i]| == |eIdx[i]|)
      && (forall i :: 0 <= i < |st.hE| ==> AllWidth(st.hE[i], edgeWidth))
    }

    /** The layer keeps the widths and each edge row's number of slots. */
    ghost predicate Keeps(layer: EncoderLayer) {
      && (forall v, view, ma :: |layer.node(v, view, ma)| == nodeWidth)
      && (forall row, v, nbrs, ma :: |layer.edge(row, v, nbrs, ma)| == |row|)
      && (forall row, v, nbrs, ma :: AllWidth(layer.edge(row, v, nbrs, ma), edgeWidth))
    }
  }

  /**
   * EncoderLayer.forward: the node update reads the neighbour view of the
   * incoming states; the result is gated by the residue mask, so a padded
   * residue leaves the layer with a zero node state and a real residue with
   * its updated one; the edge update of every residue reads the gated
   * states of itself and its neighbours.
   */
  function EncoderLayerForward(ch: Chain, layer: EncoderLayer, maskAttend: seq<seq<int>>, st: States): (out: States)
    requires ch.Valid() && ch.Fits(st) && ch.Keeps(layer)
    requires |maskAttend| == |ch.eIdx|
    ensures ch.Fits(out)
    ensures forall i :: 0 <= i < |ch.mask| && ch.mask[i] == 0 ==> IsZero(out.hV[i])
    ensures forall i :: 0 <= i < |ch.mask| && ch.mask[i] == 1 ==>
      out.hV[i] == layer.node(st.hV[i], NeighborView(st.hV, st.hE, ch.eIdx)[i], maskAttend[i])
    ensures forall i :: 0 <= i < |ch.eIdx| ==>
      out.hE[i] == layer.edge(st.hE[i], out.hV[i], GatherNodes(out.hV, ch.eIdx)[i], maskAttend[i])
  {
    var hEV := NeighborView(st.hV, st.hE, ch.eIdx);
    var hV := Gate(ch.mask, seq(|ch.mask|, i requires 0 <= i < |ch.mask| => layer.node(st.hV[i], hEV[i], maskAttend[i])));
    var nbrs := GatherNodes(hV, ch.eIdx);
    var hE := seq(|ch.eIdx|, i requires 0 <= i < |ch.eIdx| => layer.edge(st.hE[i], hV[i], nbrs[i], maskAttend[i]));
    States(hV, hE)
  }

  /**
   * After a layer, every edge update and every later layer's neighbour view
   * sees a zero node state at each padded neighbour.
   */
  lemma PaddedNeighborsSilent(ch: Chain, layer: EncoderLayer, maskAttend: seq<seq<int>>, st: States, i: nat, k: nat)
    requires ch.Valid() && ch.Fits(st) && ch.Keeps(layer)
    requires |maskAttend| == |ch.eIdx|
    requires i < |ch.eIdx| && k < |ch.eIdx[i]| && ch.mask[ch.eIdx[i][k]] == 0
    ensures var out := EncoderLayerForward(ch, layer, maskAttend, st);
      && IsZero(GatherNodes(out.hV, ch.eIdx)[i][k])
      && IsZero(NeighborView(out.hV, out.hE, ch.eIdx)[i][k].node)
  {
    var out := EncoderLayerForward(ch, layer, maskAttend, st);
    var j := ch.eIdx[i][k];
    assert j < |ch.mask|;
    assert IsZero(out.hV[j]);
  }

  /** The encoder stack `for layer in self.Encoder`, applied in order. */
  function EncoderStack(ch: Chain, layers: seq<EncoderLayer>, st: States): (out: States)
    requires ch.Valid() && ch.Fits(st)
    requires forall l :: 0 <= l < |layers| ==> ch.Keeps(layers[l])
    ensures ch.Fits(out)
    ensures |layers| == 0 ==> out == st
    ensures |layers| > 0 ==> forall i :: 0 <= i < |ch.mask| && ch.mask[i] == 0 ==> IsZero(out.hV[i])
    decreases |layers|
  {
    if |layers| == 0 then st
    else
      var last := |layers| - 1;
      var prev := EncoderStack(ch, layers[..last], st);
      EncoderLayerForward(ch, layers[last], Masks.AttendMask(ch.mask, ch.eIdx), prev)
  }

  /**
   * The encoder loop: builds mask_attend once, then runs every layer on the
   * current states. The result is the encoder stack; with at least one
   * layer every padded residue's node state is zero.
   */
  method Encode(ch: Chain, layers: seq<EncoderLayer>, st0: States) returns (st: States)
    requires ch.Valid() && ch.Fits(st0)
    requires forall l :: 0 <= l < |layers| ==> ch.Keeps(layers[l])
    ensures st == EncoderStack(ch, layers, st0)
    ensures |layers| > 0 ==> forall i :: 0 <= i < |ch.mask| && ch.mask[i] == 0 ==> IsZero(st.hV[i])
  {
    var maskAttend := Masks.AttendMask(ch.mask, ch.eIdx);
    st := st0;
    var l := 0;
    while l < |layers|
      invariant 0 <= l <= |layers|
      invariant st == EncoderStack(ch, layers[..l], st0)
    {
      assert layers[..l + 1][..l] == layers[..l];
      st := EncoderLayerForward(ch, layers[l], maskAttend, st);
      l := l + 1;
    }
    assert layers[..l] == layers;
  }
}
