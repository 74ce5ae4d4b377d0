/**
 * The autoregressive decoder's teacher-forced path (TMPNN.forward,
 * struct2seq.py): how each residue's relational input is assembled from the
 * backward and forward views, and the stack of decoder layers applied to it.
 *
 * The decoder layers themselves (attention, feed-forward, layer norm) are
 * floating-point arithmetic and enter as a parameter `layer`; what the model
 * keeps is which values each layer is allowed to see.
 */
module Decoder {
  import opened Tensors
  import Masks

  /**
   * One neighbour slot of the decoder's relational input for neighbour j:
   * the channel-wise concatenation [h_E | h_S[j] | h_V[j]] built by two
   * calls of cat_neighbors_nodes, kept as its three blocks.
   */
  datatype Feat = Feat(edge: Vec, seqEmb: Vec, node: Vec)

  predicate FeatWidth(f: Feat, w: nat) {
    |f.edge| == w && |f.seqEmb| == w && |f.node| == w
  }

  function ZeroFeat(w: nat): Feat {
    Feat(Zeros(w), Zeros(w), Zeros(w))
  }

  /** `mask_bw * x + mask_fw * y` on one neighbour slot. */
  function Mix(bw: int, fw: int, x: Feat, y: Feat): (f: Feat)
    requires |x.edge| == |y.edge| && |x.seqEmb| == |y.seqEmb| && |x.node| == |y.node|
    ensures |f.edge| == |x.edge| && |f.seqEmb| == |x.seqEmb| && |f.node| == |x.node|
  {
    Feat(Add(Scale(bw, x.edge), Scale(fw, y.edge)),
         Add(Scale(bw, x.seqEmb), Scale(fw, y.seqEmb)),
         Add(Scale(bw, x.node), Scale(fw, y.node)))
  }

  /** With at most one of the two bits set, the mix selects that view, or nothing. */
  lemma MixSelect(bw: int, fw: int, x: Feat, y: Feat, w: nat)
    requires FeatWidth(x, w) && FeatWidth(y, w)
    requires (bw == 1 && fw == 0) || (bw == 0 && fw == 1) || (bw == 0 && fw == 0)
    ensures Mix(bw, fw, x, y) == if bw == 1 then x else if fw == 1 then y else ZeroFeat(w)
  {
    ScaleByBit(bw, x.edge); ScaleByBit(bw, x.seqEmb); ScaleByBit(bw, x.node);
    ScaleByBit(fw, y.edge); ScaleByBit(fw, y.seqEmb); ScaleByBit(fw, y.node);
    AddZeros(x.edge); AddZeros(x.seqEmb); AddZeros(x.node);
    AddZeros(y.edge); AddZeros(y.seqEmb); AddZeros(y.node);
    assert Add(Zeros(w), Zeros(w)) == Zeros(w);
  }

  /**
   * What the decoder of one chain is given: the neighbour index, the residue
   * mask, the encoder's edge states h_E, the decoder's input node states hV0,
   * the channel width, the amino-acid embedding W_seq and the decoder layers.
   * `layer(l, v, row)` is decoder layer l at one residue before its mask
   * gating: a function of that residue's node state and its K-slot
   * relational row only (attention runs over each residue's own neighbours).
   */
  datatype Net = Net(
    eIdx: seq<seq<nat>>,
    mask: seq<int>,
    hE: seq<seq<Vec>>,
    hV0: seq<Vec>,
    width: nat,
    embed: nat -> Vec,
    layer: (nat, Vec, seq<Feat>) -> Vec)
  {
    /** The tensor shapes the source relies on (torch raises on others). */
    ghost predicate Valid() {
      && |eIdx| == |mask| && |hE| == |mask| && |hV0| == |mask|
      && IsBinary(mask)
      && IndexesInto(eIdx, |mask|)
      && (forall i :: 0 <= i < |hE| ==> |hE[i]| == |eIdx[i]|)
      && (forall i, k :: 0 <= i < |hE| && 0 <= k < |hE[i]| ==> |hE[i][k]| == width)
      && AllWidth(hV0, width)
      && (forall s :: |embed(s)| == width)
      && (forall l, v, row :: |layer(l, v, row)| == width)
    }

    function N(): nat {
      |mask|
    }
  }

  /** h_S = W_seq(S): the embedding of every residue's amino acid. */
  function EmbedSeq(net: Net, S: seq<nat>): (h: seq<Vec>)
    requires net.Valid()
    ensures |h| == |S| && AllWidth(h, net.width)
    ensures forall j :: 0 <= j < |S| ==> h[j] == net.embed(S[j])
  {
    seq(|S|, j requires 0 <= j < |S| => net.embed(S[j]))
  }

  /** zeros_like(h_S). */
  function ZeroStates(net: Net): (h: seq<Vec>)
    ensures |h| == net.N() && AllWidth(h, net.width)
    ensures forall j :: 0 <= j < |h| ==> h[j] == Zeros(net.width)
  {
    seq(net.N(), _ => Zeros(net.width))
  }

  /**
   * Row i of `mask_bw * cat(hVl, cat(hSbw, h_E)) + mask_fw * cat(hV0, cat(hSfw, h_E))`:
   * the relational input of residue i to a decoder layer whose input node
   * states are hVl. The teacher-forced path passes W_seq(S) as hSbw and zeros
   * as hSfw; the sampler passes its partly filled h_S buffer as both.
   */
  function DecoderRow(net: Net, hVl: seq<Vec>, hSbw: seq<Vec>, hSfw: seq<Vec>, i: nat): (row: seq<Feat>)
    requires net.Valid() && i < net.N()
    requires |hVl| == net.N() && |hSbw| == net.N() && |hSfw| == net.N()
    requires AllWidth(hVl, net.width) && AllWidth(hSbw, net.width) && AllWidth(hSfw, net.width)
    ensures |row| == |net.eIdx[i]|
    ensures forall k :: 0 <= k < |row| ==> FeatWidth(row[k], net.width)
  {
    var ar := Masks.AutoregressiveMask(net.eIdx);
    var bw := Masks.BackwardMask(net.mask, ar);
    var fw := Masks.ForwardMask(net.mask, ar);
    seq(|net.eIdx[i]|, k requires 0 <= k < |net.eIdx[i]| =>
      var e := net.eIdx[i][k];
      Mix(bw[i][k], fw[i][k], Feat(net.hE[i][k], hSbw[e], hVl[e]), Feat(net.hE[i][k], hSfw[e], net.hV0[e])))
  }

  /**
   * What slot k of residue i carries: nothing for a padded residue; for a
   * backward neighbour (decoded before i) its amino-acid embedding and its
   * state at the current layer; for a forward neighbour (itself or later)
   * only the forward view with the encoder-side node state.
   */
  lemma RowSelect(net: Net, hVl: seq<Vec>, hSbw: seq<Vec>, hSfw: seq<Vec>, i: nat, k: nat)
    requires net.Valid() && i < net.N()
    requires |hVl| == net.N() && |hSbw| == net.N() && |hSfw| == net.N()
    requires AllWidth(hVl, net.width) && AllWidth(hSbw, net.width) && AllWidth(hSfw, net.width)
    requires k < |net.eIdx[i]|
    ensures var e := net.eIdx[i][k];
      DecoderRow(net, hVl, hSbw, hSfw, i)[k] ==
        if net.mask[i] == 0 then ZeroFeat(net.width)
        else if e < i then Feat(net.hE[i][k], hSbw[e], hVl[e])
        else Feat(net.hE[i][k], hSfw[e], net.hV0[e])
  {
    var e := net.eIdx[i][k];
    var ar := Masks.AutoregressiveMask(net.eIdx);
    Masks.BackwardForwardPartition(net.mask, net.eIdx, i, k);
    MixSelect(Masks.BackwardMask(net.mask, ar)[i][k], Masks.ForwardMask(net.mask, ar)[i][k],
      Feat(net.hE[i][k], hSbw[e], hVl[e]), Feat(net.hE[i][k], hSfw[e], net.hV0[e]), net.width);
  }

  /**
   * Two rows of residue i agree when the inputs agree where they can be
   * seen: at backward neighbours for the decoded states, at forward
   * neighbours for the forward view's sequence block.
   */
  lemma RowsAgree(net: Net, hVl: seq<Vec>, hSbw: seq<Vec>, hSfw: seq<Vec>,
                  hVl': seq<Vec>, hSbw': seq<Vec>, hSfw': seq<Vec>, i: nat)
    requires net.Valid() && i < net.N()
    requires |hVl| == net.N() && |hSbw| == net.N() && |hSfw| == net.N()
    requires AllWidth(hVl, net.width) && AllWidth(hSbw, net.width) && AllWidth(hSfw, net.width)
    requires |hVl'| == net.N() && |hSbw'| == net.N() && |hSfw'| == net.N()
    requires AllWidth(hVl', net.width) && AllWidth(hSbw', net.width) && AllWidth(hSfw', net.width)
    requires forall k :: 0 <= k < |net.eIdx[i]| && net.eIdx[i][k] < i ==>
      hSbw[net.eIdx[i][k]] == hSbw'[net.eIdx[i][k]] && hVl[net.eIdx[i][k]] == hVl'[net.eIdx[i][k]]
    requires forall k :: 0 <= k < |net.eIdx[i]| && net.eIdx[i][k] >= i ==>
      hSfw[net.eIdx[i][k]] == hSfw'[net.eIdx[i][k]]
    ensures DecoderRow(net, hVl, hSbw, hSfw, i) == DecoderRow(net, hVl', hSbw', hSfw', i)
  {
    var r := DecoderRow(net, hVl, hSbw, hSfw, i);
    var r' := DecoderRow(net, hVl', hSbw', hSfw', i);
    forall k | 0 <= k < |net.eIdx[i]| ensures r[k] == r'[k] {
      RowSelect(net, hVl, hSbw, hSfw, i, k);
      RowSelect(net, hVl', hSbw', hSfw', i, k);
    }
  }

  /**
   * DecoderLayer.forward: decoder layer l applied at every residue of hV
   * (with the relational rows `rows`), then gated by maskV.
   */
  function DecoderLayerForward(net: Net, l: nat, hV: seq<Vec>, rows: seq<seq<Feat>>, maskV: seq<int>): (out: seq<Vec>)
    requires net.Valid()
    requires |rows| == |hV| && |maskV| == |hV|
    ensures |out| == |hV| && AllWidth(out, net.width)
    ensures forall i :: 0 <= i < |hV| ==> out[i] == Scale(maskV[i], net.layer(l, hV[i], rows[i]))
    ensures forall i :: 0 <= i < |hV| && maskV[i] == 0 ==> IsZero(out[i])
  {
    Gate(maskV, seq(|hV|, i requires 0 <= i < |hV| => net.layer(l, hV[i], rows[i])))
  }

  /**
   * The node states after l decoder layers of the teacher-forced pass fed
   * the amino-acid sequence S: every layer sees real embeddings at backward
   * neighbours and zero embeddings at forward ones. After at least one layer
   * a padded residue's state is zero.
   */
  function TeacherForced(net: Net, S: seq<nat>, l: nat): (h: seq<Vec>)
    requires net.Valid() && |S| == net.N()
    ensures |h| == net.N() && AllWidth(h, net.width)
    ensures l > 0 ==> forall i :: 0 <= i < net.N() && net.mask[i] == 0 ==> IsZero(h[i])
    decreases l
  {
    if l == 0 then net.hV0
    else
      var prev := TeacherForced(net, S, l - 1);
      var hS := EmbedSeq(net, S);
      var zS := ZeroStates(net);
      var rows := seq(net.N(), i requires 0 <= i < net.N() => DecoderRow(net, prev, hS, zS, i));
      DecoderLayerForward(net, l - 1, prev, rows, net.mask)
  }

  /** Proof step, not a result: one layer of the teacher-forced pass at residue i. */
  lemma TeacherForcedStep(net: Net, S: seq<nat>, l: nat, i: nat)
    requires net.Valid() && |S| == net.N() && i < net.N()
    ensures var prev := TeacherForced(net, S, l);
      TeacherForced(net, S, l + 1)[i] ==
        Scale(net.mask[i], net.layer(l, prev[i], DecoderRow(net, prev, EmbedSeq(net, S), ZeroStates(net), i)))
  {
  }

  /**
   * Causality of the teacher-forced pass: the state of residue i at any
   * layer depends on the amino acids of residues before i only; the
   * identities at positions i and later never reach it.
   */
  lemma {:induction false} TeacherForcedCausal(net: Net, S1: seq<nat>, S2: seq<nat>, l: nat, i: nat)
    requires net.Valid() && |S1| == net.N() && |S2| == net.N() && i < net.N()
    requires S1[..i] == S2[..i]
    ensures TeacherForced(net, S1, l)[i] == TeacherForced(net, S2, l)[i]
    decreases l
  {
    if l > 0 {
      var p1 := TeacherForced(net, S1, l - 1);
      var p2 := TeacherForced(net, S2, l - 1);
      forall e | 0 <= e <= i
        ensures p1[e] == p2[e]
      {
        PrefixAgree(S1, S2, i, e);
        TeacherForcedCausal(net, S1, S2, l - 1, e);
      }
      PrefixValues(S1, S2, i);
      LayerAgrees(net, S1, S2, l - 1, i);
    }
  }

  /**
   * One layer preserves agreement at residue i: if the amino acids before i
   * and the states up to and including i agree, so does residue i's state
   * one layer up.
   */
  lemma LayerAgrees(net: Net, S1: seq<nat>, S2: seq<nat>, l: nat, i: nat)
    requires net.Valid() && |S1| == net.N() && |S2| == net.N() && i < net.N()
    requires forall e :: 0 <= e < i ==> S1[e] == S2[e]
    requires forall e :: 0 <= e <= i ==> TeacherForced(net, S1, l)[e] == TeacherForced(net, S2, l)[e]
    ensures TeacherForced(net, S1, l + 1)[i] == TeacherForced(net, S2, l + 1)[i]
  {
    var p1 := TeacherForced(net, S1, l);
    var p2 := TeacherForced(net, S2, l);
    var zS := ZeroStates(net);
    RowsAgree(net, p1, EmbedSeq(net, S1), zS, p2, EmbedSeq(net, S2), zS, i);
    TeacherForcedStep(net, S1, l, i);
    TeacherForcedStep(net, S2, l, i);
  }

  /** Proof step, not a result: sequences that agree before i agree before every e <= i. */
  lemma PrefixAgree(S1: seq<nat>, S2: seq<nat>, i: nat, e: nat)
    requires i <= |S1| && i <= |S2| && S1[..i] == S2[..i] && e <= i
    ensures S1[..e] == S2[..e]
  {
    assert S1[..e] == S1[..i][..e] && S2[..e] == S2[..i][..e];
  }

  /** Proof step, not a result: sequences that agree before i agree at every e < i. */
  lemma PrefixValues(S1: seq<nat>, S2: seq<nat>, i: nat)
    requires i <= |S1| && i <= |S2| && S1[..i] == S2[..i]
    ensures forall e :: 0 <= e < i ==> S1[e] == S2[e]
  {
    forall e | 0 <= e < i
      ensures S1[e] == S2[e]
    {
      assert S1[e] == S1[..i][e] && S2[e] == S2[..i][e];
    }
  }

  /** Causality for all layers and all residues up to t at once. */
  lemma TeacherForcedPrefix(net: Net, S1: seq<nat>, S2: seq<nat>, t: nat)
    requires net.Valid() && |S1| == net.N() && |S2| == net.N() && t < net.N()
    requires S1[..t] == S2[..t]
    ensures forall l: nat, i :: 0 <= i <= t ==> TeacherForced(net, S1, l)[i] == TeacherForced(net, S2, l)[i]
  {
    forall l: nat, i | 0 <= i <= t
      ensures TeacherForced(net, S1, l)[i] == TeacherForced(net, S2, l)[i]
    {
      assert S1[..i] == S1[..t][..i];
      assert S2[..i] == S2[..t][..i];
      TeacherForcedCausal(net, S1, S2, l, i);
    }
  }

  /**
   * The decoder loop of TMPNN.forward: starting from hV0, each decoder layer
   * rebuilds the relational rows from the current node states and replaces
   * them; the result is the teacher-forced state after `layers` layers.
   */
  method DecodeTeacherForced(net: Net, S: seq<nat>, layers: nat) returns (hV: seq<Vec>)
    requires net.Valid() && |S| == net.N()
    ensures hV == TeacherForced(net, S, layers)
    ensures layers > 0 ==> forall i :: 0 <= i < net.N() && net.mask[i] == 0 ==> IsZero(hV[i])
  {
    var hS := EmbedSeq(net, S);
    var hSencoder := ZeroStates(net);
    hV := net.hV0;
    for l := 0 to layers
      invariant hV == TeacherForced(net, S, l)
    {
      var rows := seq(net.N(), i requires 0 <= i < net.N() => DecoderRow(net, hV, hS, hSencoder, i));
      hV := DecoderLayerForward(net, l, hV, rows, net.mask);
    }
  }
}
