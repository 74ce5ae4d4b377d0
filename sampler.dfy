/**
 * TMPNN.sample (struct2seq.py): sequential decoding of one chain, position
 * by position, into preallocated zero buffers
 *   S        array<nat>      [N]               sampled amino acids
 *   hS       array<Vec>      [N]               their embeddings W_seq(S)
 *   hV       array<seq<Vec>> [layers + 1][N]   h_V_stack, one row per layer,
 *                                               row 0 the decoder's input
 * Step t runs every decoder layer on the length-1 slice t only, draws S[t]
 * from the top layer's state at t, and writes slot t of S and hS.
 *
 * The draw (output head, temperature, softmax and torch.multinomial) is the
 * parameter `draw(t, v)`: the token that step t picks given top-layer state
 * v. Nothing is assumed of it except that it is an index of the vocab-sized
 * head output, so every outcome of the random draw is covered.
 */
module Sampler {
  import opened Tensors
  import opened Decoder

  /** Buffer shapes: N slots of h_S and layers + 1 rows of N slots, every vector of the model width. */
  ghost predicate Shaped(net: Net, layers: nat, hS: seq<Vec>, stack: seq<seq<Vec>>) {
    && net.Valid()
    && |hS| == net.N() && AllWidth(hS, net.width)
    && |stack| == layers + 1
    && (forall l :: 0 <= l < |stack| ==> |stack[l]| == net.N() && AllWidth(stack[l], net.width))
  }

  /**
   * The buffers before step t, apart from how the tokens were chosen:
   * positions before t hold embeddings of S and every layer's state, which
   * are those of the teacher-forced pass on S; positions t and later are
   * still at their zero initialisation.
   */
  ghost predicate Prefilled(net: Net, layers: nat, t: nat, S: seq<nat>, hS: seq<Vec>, stack: seq<seq<Vec>>)
  {
    && Shaped(net, layers, hS, stack)
    && t <= net.N() && |S| == net.N()
    && (forall e :: 0 <= e < |hS| ==> hS[e] == if e < t then net.embed(S[e]) else Zeros(net.width))
    && stack[0] == net.hV0
    && (forall l, i :: 1 <= l < |stack| && 0 <= i < net.N() ==>
          stack[l][i] == if i < t then TeacherForced(net, S, l)[i] else Zeros(net.width))
  }

  /**
   * The buffers before step t: prefilled from S, where each token before t
   * is the draw from the teacher-forced top-layer state at its position and
   * the tokens from t on are still 0.
   */
  ghost predicate Decoded(net: Net, layers: nat, draw: (nat, Vec) -> nat, t: nat,
                          S: seq<nat>, hS: seq<Vec>, stack: seq<seq<Vec>>)
  {
    && Prefilled(net, layers, t, S, hS, stack)
    && (forall e :: 0 <= e < |S| ==>
          if e < t then S[e] == draw(e, TeacherForced(net, S, layers)[e]) else S[e] == 0)
  }

  /**
   * `layer(h_V_t, h_ESV_t, mask_V=mask[:, t:t + 1])` of step t: decoder layer
   * l on the length-1 slice t, with the relational row built from the
   * layer's input row hVl and the h_S buffer for both views.
   */
  function LayerAt(net: Net, l: nat, hVl: seq<Vec>, hS: seq<Vec>, t: nat): (v: Vec)
    requires net.Valid() && t < net.N()
    requires |hVl| == net.N() && |hS| == net.N() && AllWidth(hVl, net.width) && AllWidth(hS, net.width)
    ensures |v| == net.width
    ensures net.mask[t] == 0 ==> IsZero(v)
  {
    DecoderLayerForward(net, l, [hVl[t]], [DecoderRow(net, hVl, hS, hS, t)], [net.mask[t]])[0]
  }

  /**
   * h_V_stack[l] as layer l of step t reads it: the buffer row, with slot t
   * already written by layer l - 1 of the same step.
   */
  function SlotInput(net: Net, layers: nat, hS: seq<Vec>, stack: seq<seq<Vec>>, t: nat, l: nat): (row: seq<Vec>)
    requires Shaped(net, layers, hS, stack) && t < net.N() && l <= layers
    ensures |row| == net.N() && AllWidth(row, net.width)
    ensures forall i :: 0 <= i < net.N() && i != t ==> row[i] == stack[l][i]
    decreases l, 0
  {
    if l == 0 then stack[0] else stack[l][t := SlotOutput(net, layers, hS, stack, t, l - 1)]
  }

  /** What layer l of step t writes into h_V_stack[l + 1][:, t]. */
  function SlotOutput(net: Net, layers: nat, hS: seq<Vec>, stack: seq<seq<Vec>>, t: nat, l: nat): (v: Vec)
    requires Shaped(net, layers, hS, stack) && t < net.N() && l < layers
    ensures |v| == net.width
    ensures net.mask[t] == 0 ==> IsZero(v)
    decreases l, 1
  {
    LayerAt(net, l, SlotInput(net, layers, hS, stack, t, l), hS, t)
  }

  /**
   * At step t the sampler's relational row for residue t equals the
   * teacher-forced row on the current S: its backward neighbours are already
   * decoded, and its forward neighbours (E_idx >= t) enter only through the
   * forward view, where the still-zero h_S slots coincide with the
   * zeros_like(h_S) of the teacher-forced path.
   */
  lemma SamplerRowMatchesTeacher(net: Net, S: seq<nat>, l: nat, t: nat, hVl: seq<Vec>, hSt: seq<Vec>)
    requires net.Valid() && |S| == net.N() && t < net.N()
    requires |hVl| == net.N() && AllWidth(hVl, net.width) && |hSt| == net.N() && AllWidth(hSt, net.width)
    requires forall e :: 0 <= e < t ==> hVl[e] == TeacherForced(net, S, l)[e] && hSt[e] == net.embed(S[e])
    requires forall e :: t <= e < net.N() ==> hSt[e] == Zeros(net.width)
    ensures DecoderRow(net, hVl, hSt, hSt, t) ==
      DecoderRow(net, TeacherForced(net, S, l), EmbedSeq(net, S), ZeroStates(net), t)
  {
    RowsAgree(net, hVl, hSt, hSt, TeacherForced(net, S, l), EmbedSeq(net, S), ZeroStates(net), t);
  }

  /**
   * Layer l run on the length-1 slice at t gives the teacher-forced state of
   * layer l + 1 at t, when its input row holds the teacher-forced states of
   * layer l up to and including t.
   */
  lemma LayerAtMatchesTeacher(net: Net, layers: nat, t: nat,
                              S: seq<nat>, hS: seq<Vec>, stack: seq<seq<Vec>>, l: nat, hVl: seq<Vec>)
    requires Prefilled(net, layers, t, S, hS, stack) && t < net.N()
    requires |hVl| == net.N() && AllWidth(hVl, net.width)
    requires forall e :: 0 <= e <= t ==> hVl[e] == TeacherForced(net, S, l)[e]
    ensures LayerAt(net, l, hVl, hS, t) == TeacherForced(net, S, l + 1)[t]
  {
    SamplerRowMatchesTeacher(net, S, l, t, hVl, hS);
    TeacherForcedStep(net, S, l, t);
  }

  /**
   * Sampler causality: every layer l of step t writes into slot t exactly
   * the teacher-forced state of layer l + 1 at t on the current S, and reads
   * a row that agrees with the teacher-forced states up to and including t.
   */
  lemma {:induction false} SlotMatchesTeacher(net: Net, layers: nat, t: nat,
                                              S: seq<nat>, hS: seq<Vec>, stack: seq<seq<Vec>>, l: nat)
    requires Prefilled(net, layers, t, S, hS, stack) && t < net.N() && l <= layers
    ensures forall e :: 0 <= e <= t ==> SlotInput(net, layers, hS, stack, t, l)[e] == TeacherForced(net, S, l)[e]
    ensures l < layers ==> SlotOutput(net, layers, hS, stack, t, l) == TeacherForced(net, S, l + 1)[t]
    decreases l
  {
    var row := SlotInput(net, layers, hS, stack, t, l);
    if l > 0 {
      SlotMatchesTeacher(net, layers, t, S, hS, stack, l - 1);
      forall e | 0 <= e <= t
        ensures row[e] == TeacherForced(net, S, l)[e]
      {
        if e < t {
          assert row[e] == stack[l][e];
        }
      }
    }
    if l < layers {
      LayerAtMatchesTeacher(net, layers, t, S, hS, stack, l, row);
    }
  }

  /**
   * The stack after the layer loop of step t: slot t of every row above the
   * input row holds the teacher-forced state on the current S.
   */
  ghost function StackAfterLayers(net: Net, S: seq<nat>, t: nat, stack: seq<seq<Vec>>): (st: seq<seq<Vec>>)
    requires net.Valid() && |S| == net.N() && t < net.N()
    requires forall l :: 0 <= l < |stack| ==> |stack[l]| == net.N()
  {
    seq(|stack|, l requires 0 <= l < |stack| =>
      if l == 0 then stack[0] else stack[l][t := TeacherForced(net, S, l)[t]])
  }

  /** The buffer-level stack after the layer loop is the teacher-forced one. */
  lemma SlotsAreTeacher(net: Net, layers: nat, t: nat,
                        S: seq<nat>, hS: seq<Vec>, stack: seq<seq<Vec>>, st: seq<seq<Vec>>)
    requires Prefilled(net, layers, t, S, hS, stack) && t < net.N()
    requires |st| == layers + 1
    requires forall l :: 0 <= l <= layers ==>
      st[l] == if l == 0 then stack[0] else stack[l][t := SlotOutput(net, layers, hS, stack, t, l - 1)]
    ensures st == StackAfterLayers(net, S, t, stack)
  {
    var after := StackAfterLayers(net, S, t, stack);
    forall l | 0 <= l <= layers
      ensures st[l] == after[l]
    {
      if l >= 1 {
        SlotRowIsTeacher(net, layers, t, S, hS, stack, l);
      }
    }
  }

  /** Row l of the stack after the layer loop, l >= 1, is the teacher-forced one at slot t. */
  lemma SlotRowIsTeacher(net: Net, layers: nat, t: nat, S: seq<nat>, hS: seq<Vec>, stack: seq<seq<Vec>>, l: nat)
    requires Prefilled(net, layers, t, S, hS, stack) && t < net.N() && 1 <= l <= layers
    ensures stack[l][t := SlotOutput(net, layers, hS, stack, t, l - 1)] == StackAfterLayers(net, S, t, stack)[l]
  {
    SlotMatchesTeacher(net, layers, t, S, hS, stack, l - 1);
  }

  /**
   * Writing the drawn token and its embedding at slot t, after the layer
   * loop has filled slot t of the stack, takes the buffers from the state
   * before step t to the state before step t + 1.
   */
  lemma DecodedAdvance(net: Net, layers: nat, draw: (nat, Vec) -> nat, t: nat,
                       S: seq<nat>, hS: seq<Vec>, stack: seq<seq<Vec>>, s: nat)
    requires t < net.N()
    requires Decoded(net, layers, draw, t, S, hS, stack)
    requires s == draw(t, TeacherForced(net, S, layers)[t])
    ensures Decoded(net, layers, draw, t + 1, S[t := s], hS[t := net.embed(s)],
                    StackAfterLayers(net, S, t, stack))
  {
    AdvanceShaped(net, layers, t, S, hS, stack, s);
    AdvanceTokens(net, layers, draw, t, S, hS, stack, s);
    AdvanceStack(net, layers, t, S, hS, stack, s);
  }

  /** The written buffers keep their shapes. */
  lemma AdvanceShaped(net: Net, layers: nat, t: nat,
                      S: seq<nat>, hS: seq<Vec>, stack: seq<seq<Vec>>, s: nat)
    requires t < net.N()
    requires Prefilled(net, layers, t, S, hS, stack)
    ensures Shaped(net, layers, hS[t := net.embed(s)], StackAfterLayers(net, S, t, stack))
  {
    var st := StackAfterLayers(net, S, t, stack);
    forall l | 0 <= l < |st|
      ensures |st[l]| == net.N() && AllWidth(st[l], net.width)
    {
      forall i | 0 <= i < net.N()
        ensures |st[l][i]| == net.width
      {
        if l >= 1 && i == t {
          assert st[l][i] == TeacherForced(net, S, l)[t];
        } else {
          assert st[l][i] == stack[l][i];
        }
      }
    }
  }

  /** The tokens and their embeddings before t + 1 are the draws on the new S. */
  lemma AdvanceTokens(net: Net, layers: nat, draw: (nat, Vec) -> nat, t: nat,
                      S: seq<nat>, hS: seq<Vec>, stack: seq<seq<Vec>>, s: nat)
    requires t < net.N()
    requires Decoded(net, layers, draw, t, S, hS, stack)
    requires s == draw(t, TeacherForced(net, S, layers)[t])
    ensures var S' := S[t := s];
      forall e :: 0 <= e < |S'| ==>
        if e < t + 1 then S'[e] == draw(e, TeacherForced(net, S', layers)[e]) else S'[e] == 0
    ensures var S' := S[t := s];
      forall e :: 0 <= e < |hS| ==>
        hS[t := net.embed(s)][e] == if e < t + 1 then net.embed(S'[e]) else Zeros(net.width)
  {
    var S' := S[t := s];
    assert S'[..t] == S[..t];
    TeacherForcedPrefix(net, S, S', t);
  }

  /** The stack after the layer loop is the teacher-forced one on the new S up to t. */
  lemma AdvanceStack(net: Net, layers: nat, t: nat,
                     S: seq<nat>, hS: seq<Vec>, stack: seq<seq<Vec>>, s: nat)
    requires t < net.N()
    requires Prefilled(net, layers, t, S, hS, stack)
    ensures var st := StackAfterLayers(net, S, t, stack);
      && st[0] == net.hV0
      && forall l, i :: 1 <= l < |st| && 0 <= i < net.N() ==>
           st[l][i] == if i < t + 1 then TeacherForced(net, S[t := s], l)[i] else Zeros(net.width)
  {
    var S' := S[t := s];
    var st := StackAfterLayers(net, S, t, stack);
    assert S'[..t] == S[..t];
    TeacherForcedPrefix(net, S, S', t);
    assert st[0] == stack[0];
  }

  /**
   * The layer loop of step t: every decoder layer l is run on the length-1
   * slice at t, and its output is written to slot t of h_V_stack[l + 1];
   * no other slot changes.
   */
  method DecodeSlot(net: Net, layers: nat, t: nat, hS: array<Vec>, hV: array<seq<Vec>>)
    requires t < net.N()
    requires hS.Length == net.N() && hV.Length == layers + 1
    requires Shaped(net, layers, hS[..], hV[..])
    modifies hV
    ensures forall l :: 0 <= l <= layers ==>
      hV[l] == if l == 0 then old(hV[0]) else old(hV[l])[t := SlotOutput(net, layers, hS[..], old(hV[..]), t, l - 1)]
  {
    var V := hV[..];
    var hSt := hS[..];
    var l := 0;
    while l < layers
      invariant 0 <= l <= layers
      invariant LayersDone(net, layers, hSt, V, t, l, hV[..])
    {
      WriteSlot(net, layers, hSt, V, t, l, hV);
      l := l + 1;
    }
  }

  /** The stack after layers 0 .. l - 1 of step t have written their slots. */
  ghost predicate LayersDone(net: Net, layers: nat, hS: seq<Vec>, stack: seq<seq<Vec>>, t: nat, l: nat, cur: seq<seq<Vec>>)
    requires Shaped(net, layers, hS, stack) && t < net.N() && l <= layers
  {
    && |cur| == layers + 1
    && forall l' :: 0 <= l' <= layers ==>
         cur[l'] == if l' <= l then SlotInput(net, layers, hS, stack, t, l') else stack[l']
  }

  /** `h_V_stack[l + 1][:, t, :] = layer(...)` for decoder layer l of step t. */
  method WriteSlot(net: Net, layers: nat, hS: seq<Vec>, stack: seq<seq<Vec>>, t: nat, l: nat, hV: array<seq<Vec>>)
    requires Shaped(net, layers, hS, stack) && t < net.N() && l < layers
    requires LayersDone(net, layers, hS, stack, t, l, hV[..])
    modifies hV
    ensures LayersDone(net, layers, hS, stack, t, l + 1, hV[..])
  {
    var hVl := hV[l];
    var v := LayerAt(net, l, hVl, hS, t);
    assert v == SlotOutput(net, layers, hS, stack, t, l);
    hV[l + 1] := hV[l + 1][t := v];
  }

  /**
   * Step t on values: the layer loop's stack, followed by the draw from its
   * top row and the writes of S[t] and hS[t], gives the state before step
   * t + 1.
   */
  lemma StepAdvances(net: Net, layers: nat, draw: (nat, Vec) -> nat, t: nat,
                     S: seq<nat>, hS: seq<Vec>, stack: seq<seq<Vec>>, st: seq<seq<Vec>>, s: nat)
    requires Decoded(net, layers, draw, t, S, hS, stack) && t < net.N()
    requires |st| == layers + 1
    requires forall l :: 0 <= l <= layers ==>
      st[l] == if l == 0 then stack[0] else stack[l][t := SlotOutput(net, layers, hS, stack, t, l - 1)]
    requires s == draw(t, st[layers][t])
    ensures Decoded(net, layers, draw, t + 1, S[t := s], hS[t := net.embed(s)], st)
  {
    SlotsAreTeacher(net, layers, t, S, hS, stack, st);
    assert st[layers][t] == TeacherForced(net, S, layers)[t];
    DecodedAdvance(net, layers, draw, t, S, hS, stack, s);
  }

  /**
   * One iteration of the sampling loop. Write discipline: it writes slot t
   * of h_V_stack[l + 1] for every layer l, then S[t] and hS[t]; every other
   * slot is unchanged, and the buffers move from the state before step t to
   * the state before step t + 1.
   */
  method SampleStep(net: Net, layers: nat, draw: (nat, Vec) -> nat, t: nat,
                    S: array<nat>, hS: array<Vec>, hV: array<seq<Vec>>)
    requires t < net.N()
    requires S.Length == net.N() && hS.Length == net.N() && hV.Length == layers + 1
    requires Decoded(net, layers, draw, t, S[..], hS[..], hV[..])
    modifies S, hS, hV
    ensures Decoded(net, layers, draw, t + 1, S[..], hS[..], hV[..])
    ensures S[..] == old(S[..])[t := S[t]] && S[t] == draw(t, hV[layers][t])
    ensures hS[..] == old(hS[..])[t := net.embed(S[t])]
    ensures hV[0] == old(hV[0])
    ensures forall l :: 1 <= l <= layers ==> hV[l] == old(hV[l])[t := hV[l][t]]
  {
    ghost var S0 := S[..];
    ghost var hS0 := hS[..];
    ghost var V := hV[..];
    DecodeSlot(net, layers, t, hS, hV);
    ghost var st := hV[..];
    var s := draw(t, hV[layers][t]);
    StepAdvances(net, layers, draw, t, S0, hS0, V, st, s);
    WriteToken(net, t, S, hS, s);
  }

  /** `S[:, t] = S_t` and `h_S[:, t, :] = self.W_s(S_t)`. */
  method WriteToken(net: Net, t: nat, S: array<nat>, hS: array<Vec>, s: nat)
    requires t < S.Length && t < hS.Length
    modifies S, hS
    ensures S[..] == old(S[..])[t := s]
    ensures hS[..] == old(hS[..])[t := net.embed(s)]
  {
    hS[t] := net.embed(s);
    S[t] := s;
  }

  /** The zero-initialised buffers, with h_V_stack[0] the decoder input, are the state before step 0. */
  lemma DecodedInitially(net: Net, layers: nat, draw: (nat, Vec) -> nat,
                         S: seq<nat>, hS: seq<Vec>, stack: seq<seq<Vec>>)
    requires net.Valid() && |S| == net.N() && |hS| == net.N() && |stack| == layers + 1
    requires forall e :: 0 <= e < net.N() ==> S[e] == 0 && hS[e] == Zeros(net.width)
    requires stack[0] == net.hV0
    requires forall l :: 1 <= l <= layers ==> stack[l] == seq(net.N(), _ => Zeros(net.width))
    ensures Decoded(net, layers, draw, 0, S, hS, stack)
  {
  }

  /** After the last step every token is the draw from the teacher-forced state on the whole sequence. */
  lemma DecodedComplete(net: Net, layers: nat, draw: (nat, Vec) -> nat,
                        S: seq<nat>, hS: seq<Vec>, stack: seq<seq<Vec>>)
    requires Decoded(net, layers, draw, net.N(), S, hS, stack)
    ensures |S| == net.N()
    ensures forall t :: 0 <= t < |S| ==> S[t] == draw(t, TeacherForced(net, S, layers)[t])
  {
  }

  /**
   * TMPNN.sample for one chain with `layers` decoder layers: the returned
   * sequence has one token per residue, each an index of the vocabulary, and
   * it is the fixed point of the teacher-forced pass: every token is what
   * the draw picks from the teacher-forced top-layer state at its position
   * on the sampled sequence itself.
   */
  method Sample(net: Net, layers: nat, draw: (nat, Vec) -> nat, vocab: nat) returns (seqOut: seq<nat>)
    requires net.Valid()
    requires forall t, v :: draw(t, v) < vocab
    ensures |seqOut| == net.N()
    ensures forall t :: 0 <= t < |seqOut| ==> seqOut[t] < vocab
    ensures forall t :: 0 <= t < |seqOut| ==> seqOut[t] == draw(t, TeacherForced(net, seqOut, layers)[t])
  {
    var n := net.N();
    var S := new nat[n](_ => 0);
    var hS := new Vec[n](_ => Zeros(net.width));
    var hV := new seq<Vec>[layers + 1](l => if l == 0 then net.hV0 else seq(n, _ => Zeros(net.width)));
    DecodedInitially(net, layers, draw, S[..], hS[..], hV[..]);
    var t := 0;
    while t < n
      invariant 0 <= t <= n
      invariant S.Length == n && hS.Length == n && hV.Length == layers + 1
      invariant Decoded(net, layers, draw, t, S[..], hS[..], hV[..])
    {
      SampleStep(net, layers, draw, t, S, hS, hV);
      t := t + 1;
    }
    seqOut := S[..];
    DecodedComplete(net, layers, draw, seqOut, hS[..], hV[..]);
  }
}
