# TMPNN index and mask logic in Dafny

TMPNN (`tmpnn/tmpnn_beta/ipa_version/struct2seq.py`) is a structure-to-sequence
network for transmembrane proteins. It has a message-passing encoder over the
K nearest neighbours of each residue, an invariant-point-attention (IPA)
module, and an autoregressive decoder. A sequential sampler (`TMPNN.sample`)
draws one amino acid per residue. The training script
(`tmpnn/tmpnn_beta/ipa_version/train_s2s.py`) also scores CRF-decoded topology
labels with a masked accuracy count.

This project models the discrete logic inside that network. This logic
decides what each residue is allowed to see:

- **`Masks`** (`masks.dfy`):
  - the autoregressive mask;
  - the backward and forward decoder views `mask_bw` and `mask_fw`;
  - the encoder's pairwise `mask_attend`;
  - the IPA square mask.
- **`PairScatter`** (`pair_scatter.dfy`): the IPA step that moves the
  K-neighbour edge window into a dense L x L pair array.
- **`Encoder`** (`encoder.dfy`): the encoder layers and their mask gating.
- **`Decoder`** (`decoder.dfy`): the teacher-forced decoder of
  `TMPNN.forward`. Each residue's relational row is assembled from the
  backward and forward views. The model proves the pass causal: the state of
  residue i depends only on the amino acids before i.
- **`Sampler`** (`sampler.dfy`): `TMPNN.sample` as an imperative loop over
  preallocated arrays.
  - `S` is an `array<nat>`, `h_S` an `array<Vec>`, and `h_V_stack` an
    `array<seq<Vec>>` with one row per layer, like the source's list of
    tensors.
  - The model proves the write discipline: step t writes only slot t.
  - The model proves that the sampled sequence is a fixed point of the
    teacher-forced pass. Each token is what the draw picks from the
    teacher-forced top-layer state on the sampled sequence itself.
- **`LabelAccuracy`** (`label_accuracy.dfy`):
  - the in-place padding of the decoded label lists;
  - the masked match count;
  - the running sums of the train, validation and test loops.
- **`Tensors`** (`tensors.dfy`): vectors, 0/1 masks, the neighbour gather,
  and the `mask_V * h_V` gate.

How the neural parts are represented:

- Tensors are nested sequences, and the batch axis is dropped wherever
  every operation acts per chain.
- Each neural layer is a function parameter: the decoder layer `layer`, the
  encoder's `node`/`edge` updates, and the embedding `embed`.
- The output head together with `torch.multinomial` is the parameter
  `draw(t, v)`. Its only constraint is `draw(t, v) < vocab`, so every outcome
  of the random draw is covered.

## Model

| member | source | states |
|---|---|---|
| Tensors.Gate | tmpnn/tmpnn_beta/ipa_version/struct2seq.py:549-551 | `mask_V * h_V`: a padded residue's node state becomes zero, a real residue's state passes through unchanged (same gating at 590-592) |
| Masks.AutoregressiveMask | tmpnn/tmpnn_beta/ipa_version/struct2seq.py:670-678 | entry (i, k) is 0/1 and is 1 exactly when `E_idx[i][k] < i`, so neither the residue itself nor a later one is ever backward |
| Masks.BackwardMask | tmpnn/tmpnn_beta/ipa_version/struct2seq.py:729 | `mask_bw = mask_1D * mask_attend` has the neighbour window's shape |
| Masks.ForwardMask | tmpnn/tmpnn_beta/ipa_version/struct2seq.py:732 | `mask_fw = mask_1D * (1 - mask_attend)` has the neighbour window's shape |
| Masks.BackwardForwardPartition | tmpnn/tmpnn_beta/ipa_version/struct2seq.py:727-733 | bw and fw are 0/1, `bw + fw == mask[i]`, `bw * fw == 0`; bw is 1 iff the residue is real and the neighbour precedes it, fw is 1 iff the residue is real and the neighbour is itself or later; a padded residue has neither (same construction at 792-795) |
| Masks.AttendMask | tmpnn/tmpnn_beta/ipa_version/struct2seq.py:696-697 | `mask[i] * gather_nodes(mask)[i][k]` has the neighbour window's shape (same at 784-785) |
| Masks.AttendMaskBothValid | tmpnn/tmpnn_beta/ipa_version/struct2seq.py:696-697 | an encoder slot is 0/1, and is 1 iff both the residue and its neighbour are real |
| Masks.SquareMask | tmpnn/tmpnn_beta/ipa_version/struct2seq.py:258-259 | `inf * (mask[i] * mask[j] - 1)` is an L x L array |
| Masks.SquareMaskValues | tmpnn/tmpnn_beta/ipa_version/struct2seq.py:63 | with `inf = 1e5`, the square mask is symmetric, 0 for a pair of real residues and -inf for any pair with padding (lines 258-259) |
| PairScatter.ScatterRowLastWrite | tmpnn/tmpnn_beta/ipa_version/struct2seq.py:152-154 | a scattered row holds z[k] at column `E_idx[k]` when no later slot writes that column |
| PairScatter.ScatterRowUnlisted | tmpnn/tmpnn_beta/ipa_version/struct2seq.py:152-154 | a column that no slot lists keeps its zero initialisation |
| PairScatter.Scatter | tmpnn/tmpnn_beta/ipa_version/struct2seq.py:152-154 | the dense L x L pair array holds `z[i][k]` at `(i, E_idx[i][k])` (distinct indices per row) and zero at every pair whose column is not a neighbour |
| PairScatter.PairRepresentation | tmpnn/tmpnn_beta/ipa_version/struct2seq.py:150-154 | as written: scattered as above when `L > neighbor`, the unscattered window itself when `L <= neighbor` |
| PairScatter.ShortChainPairMisplaced | tmpnn/tmpnn_beta/ipa_version/struct2seq.py:150-154 | for a two-residue chain the as-written pair (1, 0) holds the self edge of residue 1, where the scattered array holds the edge to residue 0 |
| Encoder.NeighborView | tmpnn/tmpnn_beta/ipa_version/struct2seq.py:700 | `cat_neighbors_nodes(h_V, h_E, E_idx)` pairs slot (i, k)'s edge with the node state of residue `E_idx[i][k]` |
| Encoder.EncoderLayerForward | tmpnn/tmpnn_beta/ipa_version/struct2seq.py:539-564 | the layer keeps the chain's shapes; a padded residue leaves with a zero node state, a real one with its node update of the incoming neighbour view; each residue's edge update reads the gated node states of itself and its neighbours |
| Encoder.PaddedNeighborsSilent | tmpnn/tmpnn_beta/ipa_version/struct2seq.py:549-553 | after a layer, the edge update and the next layer's neighbour view see a zero node state at every padded neighbour |
| Encoder.EncoderStack | tmpnn/tmpnn_beta/ipa_version/struct2seq.py:698-701 | the stack keeps the shapes, is the identity with no layers, and with at least one layer leaves every padded residue's node state zero |
| Encoder.Encode | tmpnn/tmpnn_beta/ipa_version/struct2seq.py:696-701 | the encoder loop (also 784-788) computes the encoder stack and, with at least one layer, zeroes every padded node state |
| Decoder.Mix | tmpnn/tmpnn_beta/ipa_version/struct2seq.py:738 | `mask_bw * x + mask_fw * y` on one slot keeps the edge, sequence and node widths of its two views |
| Decoder.MixSelect | tmpnn/tmpnn_beta/ipa_version/struct2seq.py:738 | `mask_bw * x + mask_fw * y` with at most one bit set selects the backward view, the forward view, or zero |
| Decoder.EmbedSeq | tmpnn/tmpnn_beta/ipa_version/struct2seq.py:692 | `W_seq(S)` gives one width-w embedding per residue, the embedding of that residue's amino acid |
| Decoder.DecoderRow | tmpnn/tmpnn_beta/ipa_version/struct2seq.py:737-738 | residue i's relational row `mask_bw * h_ESV + h_ESV_encoder_fw` has one slot per neighbour, each with the three blocks at the channel width |
| Decoder.RowSelect | tmpnn/tmpnn_beta/ipa_version/struct2seq.py:720-738 | slot k of a residue's relational row is zero for a padded residue; for a backward neighbour it is `[h_E | h_S[e] | h_V^l[e]]`; otherwise it is the forward view `[h_E | 0-or-h_S[e] | h_V^0[e]]` |
| Decoder.RowsAgree | tmpnn/tmpnn_beta/ipa_version/struct2seq.py:720-738 | two relational rows of residue i are equal when their inputs agree at backward neighbours (states and embeddings) and at forward neighbours (forward embeddings) |
| Decoder.DecoderLayerForward | tmpnn/tmpnn_beta/ipa_version/struct2seq.py:580-593 | a decoder layer keeps the width and is its layer function gated by `mask_V`; padded outputs are zero |
| Decoder.TeacherForced | tmpnn/tmpnn_beta/ipa_version/struct2seq.py:718-739 | the teacher-forced node states keep the shape, and after at least one layer every padded residue's state is zero |
| Decoder.TeacherForcedCausal | tmpnn/tmpnn_beta/ipa_version/struct2seq.py:720-739 | at every layer, residue i's teacher-forced state is the same for any two sequences that agree before i |
| Decoder.LayerAgrees | tmpnn/tmpnn_beta/ipa_version/struct2seq.py:735-739 | one decoder layer keeps residue i's state equal for two sequences when their amino acids before i and their states up to i are equal |
| Decoder.TeacherForcedPrefix | tmpnn/tmpnn_beta/ipa_version/struct2seq.py:720-739 | sequences agreeing before t give the same states at every layer for all residues up to t |
| Decoder.DecodeTeacherForced | tmpnn/tmpnn_beta/ipa_version/struct2seq.py:735-739 | the decoder loop of `forward` computes the teacher-forced states, with every padded residue zero after at least one layer |
| Sampler.LayerAt | tmpnn/tmpnn_beta/ipa_version/struct2seq.py:810-815 | decoder layer l on the length-1 slice t gives a state of the channel width, zero when residue t is padded (`mask_V = mask[:, t:t+1]`) |
| Sampler.SlotInput | tmpnn/tmpnn_beta/ipa_version/struct2seq.py:810-812 | the row that layer l of step t reads is `h_V_stack[l]` with only slot t possibly replaced by what layer l - 1 has just written; every other residue's state is the buffer's |
| Sampler.SlotOutput | tmpnn/tmpnn_beta/ipa_version/struct2seq.py:813-815 | what layer l of step t writes into `h_V_stack[l + 1][:, t]` has the channel width and is zero when residue t is padded |
| Sampler.SamplerRowMatchesTeacher | tmpnn/tmpnn_beta/ipa_version/struct2seq.py:803-812 | at step t, the sampler's row for residue t (one `h_S` buffer for both views, forward slots still zero) equals the teacher-forced row, which uses `zeros_like(h_S)` for the forward view (line 723) |
| Sampler.LayerAtMatchesTeacher | tmpnn/tmpnn_beta/ipa_version/struct2seq.py:810-815 | decoder layer l on the length-1 slice t gives the teacher-forced state of layer l + 1 at t, when its input row holds the teacher-forced states of layer l up to and including t |
| Sampler.SlotMatchesTeacher | tmpnn/tmpnn_beta/ipa_version/struct2seq.py:808-815 | inside step t, every layer l reads a row that agrees with the teacher-forced states up to and including t, and writes into slot t the teacher-forced state of layer l + 1 |
| Sampler.SlotRowIsTeacher | tmpnn/tmpnn_beta/ipa_version/struct2seq.py:813-815 | row l + 1 of `h_V_stack` with slot t written by layer l is the teacher-forced row at slot t |
| Sampler.SlotsAreTeacher | tmpnn/tmpnn_beta/ipa_version/struct2seq.py:808-815 | after the layer loop of step t, slot t of every row above the input row holds the teacher-forced state on the current S, and every other slot is unchanged |
| Sampler.WriteSlot | tmpnn/tmpnn_beta/ipa_version/struct2seq.py:810-815 | one layer's write extends the rows already written in step t by row l + 1, slot t, and nothing else |
| Sampler.DecodeSlot | tmpnn/tmpnn_beta/ipa_version/struct2seq.py:808-815 | the layer loop writes into slot t of each `h_V_stack[l + 1]` the output of layer l on the row that layer l - 1 has just written; row 0 and all other slots are unchanged |
| Sampler.WriteToken | tmpnn/tmpnn_beta/ipa_version/struct2seq.py:824-825 | `h_S[t] = W_seq(S_t)` and `S[t] = S_t` change only slot t of the two buffers |
| Sampler.AdvanceTokens | tmpnn/tmpnn_beta/ipa_version/struct2seq.py:818-825 | after the write, every token before t + 1 is the draw from the teacher-forced top-layer state on the new S, later tokens are still 0, and `h_S` holds their embeddings |
| Sampler.AdvanceStack | tmpnn/tmpnn_beta/ipa_version/struct2seq.py:813-825 | after the write, the stack holds the teacher-forced states on the new S at every slot up to t and zeros after it |
| Sampler.DecodedAdvance | tmpnn/tmpnn_beta/ipa_version/struct2seq.py:818-825 | writing the drawn token and its embedding at slot t moves the buffers from the state before step t to the state before step t + 1 |
| Sampler.StepAdvances | tmpnn/tmpnn_beta/ipa_version/struct2seq.py:808-825 | the layer loop, the draw from `h_V_stack[-1][t]` and the writes together move the buffers from the state before step t to the state before step t + 1 |
| Sampler.DecodedInitially | tmpnn/tmpnn_beta/ipa_version/struct2seq.py:798-800 | the zero buffers, with `h_V_stack[0]` the decoder input, are the state before step 0 |
| Sampler.DecodedComplete | tmpnn/tmpnn_beta/ipa_version/struct2seq.py:801-825 | after the last step, every token is the draw from the teacher-forced top-layer state at its position on the whole sequence |
| Sampler.SampleStep | tmpnn/tmpnn_beta/ipa_version/struct2seq.py:798-825 | step t writes only `S[t]` (the draw from `h_V_stack[-1][t]`), `h_S[t] = W_seq(S[t])` and slot t of `h_V_stack[l + 1]`; every other slot is unchanged; later slots stay at their zero initialisation |
| Sampler.Sample | tmpnn/tmpnn_beta/ipa_version/struct2seq.py:792-833 | the result has one token per residue, each below `vocab`, and every token is the draw from the teacher-forced top-layer state at its position on the returned sequence |
| LabelAccuracy.Padded | tmpnn/tmpnn_beta/ipa_version/train_s2s.py:156-157 | a list no longer than n ends with length n; a list of length n or longer is unchanged; the decoded prefix is kept and only zeros are appended |
| LabelAccuracy.PadAll | tmpnn/tmpnn_beta/ipa_version/train_s2s.py:155-157 | padding keeps the number of lists and pads each one |
| LabelAccuracy.PadToLength | tmpnn/tmpnn_beta/ipa_version/train_s2s.py:155-157 | the in-place loop leaves every list of the batch padded (same loop at 200-202 and 279-281) |
| LabelAccuracy.PaddedIsRectangular | tmpnn/tmpnn_beta/ipa_version/train_s2s.py:155-158 | lists of at most n labels all have exactly n labels after padding |
| LabelAccuracy.RowMatchesCounts | tmpnn/tmpnn_beta/ipa_version/train_s2s.py:159 | with a 0/1 mask, a row's `sum((dec == C) * mask)` is the number of real residues with a correct label |
| LabelAccuracy.RowMatchesPerfect | tmpnn/tmpnn_beta/ipa_version/train_s2s.py:159 | a row whose decoded labels are all correct counts its whole `sum(mask)` |
| LabelAccuracy.RowTotalCounts | tmpnn/tmpnn_beta/ipa_version/train_s2s.py:175 | with a 0/1 mask, a row's `sum(mask)` is its number of real residues |
| LabelAccuracy.RowMatchesBounds | tmpnn/tmpnn_beta/ipa_version/train_s2s.py:159 | with a 0/1 mask, a row's count lies between 0 and its mask sum |
| LabelAccuracy.RowMatchesIgnoresMasked | tmpnn/tmpnn_beta/ipa_version/train_s2s.py:159 | labels at mask-0 positions do not change the count |
| LabelAccuracy.PaddingFillerIrrelevant | tmpnn/tmpnn_beta/ipa_version/train_s2s.py:157-159 | any filler over the padded tail gives the count that the zero filler gives |
| LabelAccuracy.MatchCountPerfect | tmpnn/tmpnn_beta/ipa_version/train_s2s.py:159 | a batch decoded without error counts `sum(mask)`, the weight that line 175 adds |
| LabelAccuracy.MatchCountBounds | tmpnn/tmpnn_beta/ipa_version/train_s2s.py:159 | with 0/1 masks, a batch's count lies between 0 and `sum(mask)` (same at 204 and 283) |
| LabelAccuracy.BatchCount | tmpnn/tmpnn_beta/ipa_version/train_s2s.py:158-159 | a batch has a count exactly when its padded lists form one [B, n] tensor |
| LabelAccuracy.BatchCountBounds | tmpnn/tmpnn_beta/ipa_version/train_s2s.py:159 | with 0/1 masks a batch's count lies between 0 and its number of real residues |
| LabelAccuracy.BatchCountDefined | tmpnn/tmpnn_beta/ipa_version/train_s2s.py:154-159 | one decoded list per chain, none longer than n, always yields a count |
| LabelAccuracy.BatchAccuracy | tmpnn/tmpnn_beta/ipa_version/train_s2s.py:154-159 | one iteration of the accuracy loop (also 199-204 and 278-283), padding the decoded lists in place, stacking them and counting, gives the batch count, or None where the stacking or comparison raises |
| LabelAccuracy.AddBatch | tmpnn/tmpnn_beta/ipa_version/train_s2s.py:160 | one more batch is defined exactly when the sums so far and the batch count are; then `cctop_sum` grows by the batch count and `weights` by the batch's `sum(mask)` (line 175) |
| LabelAccuracy.EpochTallyDefined | tmpnn/tmpnn_beta/ipa_version/train_s2s.py:158-160 | the loop over the batches reaches its end with running sums exactly when no batch's tensor conversion raises |
| LabelAccuracy.EpochTallyBounds | tmpnn/tmpnn_beta/ipa_version/train_s2s.py:160-175 | with 0/1 masks the running correct count never exceeds the running weight |
| LabelAccuracy.EpochTallyStep | tmpnn/tmpnn_beta/ipa_version/train_s2s.py:158-160 | the tally of one more batch adds that batch's count to the running sums, or is none once a batch has no count |
| LabelAccuracy.EpochNoneStays | tmpnn/tmpnn_beta/ipa_version/train_s2s.py:158 | once one batch's tensor conversion raises, the epoch has no tally |
| LabelAccuracy.EpochAccuracy | tmpnn/tmpnn_beta/ipa_version/train_s2s.py:125-175 | the per-batch accumulation loop (also 182-209 and 263-287) computes the epoch tally, with `0 <= correct <= weights` for 0/1 masks |
| LabelAccuracy.AccuracyRate | tmpnn/tmpnn_beta/ipa_version/train_s2s.py:213 | `cctop_sum / weights` is undefined exactly when the weight is 0: nan in the source when batches ran with all-zero masks, a ZeroDivisionError (already at the loss division of line 211, 214 or 289) on an empty loader, where both sums are still the floats `0.`; otherwise the rate times the weight is the count, and the rate lies in [0, 1] when the count is within the weight (same at 216 and 291) |

## Left out

- Neural arithmetic is left out: linear and embedding layers, activations, softmax, layer norm, dropout, the LM head, the IPA scores and outputs, the outer product, edge self-attention and the transition layer. It is floating point on libraries outside this model, so it enters only as uninterpreted function parameters.
- Rigid frames (`rigid_utils`) and the OpenFold primitives are not part of this model.
- The CRF (`torchcrf`) is not part of this model. Its decode is only a list of labels per chain.
- `protein_features` (`ProteinFeatures`, `gather_nodes`, `cat_neighbors_nodes`) is not part of this model. `Tensors.GatherNodes` and `Encoder.NeighborView` state the gather semantics as an assumption.
- The randomness of `torch.multinomial`, the temperature and the output head are the `draw` parameter. The sampler's results hold for every draw.
- The batch axis is left out of the masks, encoder, decoder and sampler, since every operation there acts on each chain independently.
- Sampler.Sample: the fixed point (each token is the draw on the teacher-forced pass over the returned sequence) assumes eval mode. `DecoderLayer.forward` applies dropout (lines 584 and 588), and `sample` (lines 772-833) never switches the model to eval mode. In training mode, the two passes draw different dropout masks and the identity does not hold. The model makes each decoder layer one deterministic function shared by both passes. Causality (`Decoder.TeacherForcedCausal`) holds for any fixed layer function.
- Sampler.Sample: the source's `sample` skips the IPA module and feeds the encoder output to the decoder as `h_V_stack[0]`. `forward` uses the post-IPA node states instead (lines 706-710). The model takes the decoder input `hV0` as a parameter. Its fixed-point theorem therefore relates `sample` to a teacher-forced pass on the same `hV0`, which is the encoder output and not `forward`'s.
- `struct2seq.py` as written does not compile. Line 687 passes the keyword `dtype` twice to `torch.ones_like`, which Python rejects as a syntax error when the file is loaded, so `import struct2seq` (train_s2s.py:16) fails whatever the inputs.
- `sample` unpacks the feature module's result into three values, while `forward` unpacks four (lines 779 and 689). With the four results that `forward` expects, `sample` raises at line 779 on every call and never reaches the mask at line 784 or the decoding loop. The feature module is not part of this model.
- `sample` declares `mask=None` (line 772) but has no fallback for it: it would call `mask.unsqueeze(-1)` on `None` at line 784. `forward`'s fallback is the broken line 687.
- The model describes `forward` and `sample` as they would run with lines 687 and 779 repaired, on given features and always with an explicit mask.
- `DecoderLayer.step` (lines 595-610) calls a non-existent `attention.step` and is not used. It is not modelled.
- `log_probs` in `sample` is allocated and never written. It is not modelled.
- IPA scatter collisions: with repeated indices in a row, the model lets the last slot win. The distinct-index guarantees of `PairScatter.Scatter` assume no collisions.
- Encoder.EncoderLayerForward: the edge update is taken to act on each residue's own row of K edges. The model states which node states that update sees, not its arithmetic.
- LabelAccuracy.BatchCount: the model counts only when there is one padded list per chain and every list has exactly n labels. Torch also counts whenever the decoded tensor `[B', m]` broadcasts against `C: [B, n]`, that is, when on each axis the two sizes are equal or one of them is 1. Examples: lists of one length m >= 2 against n == 1; lists of length 1 against n == 0; a single list `[1, n]` against B > 1 chains; several lists against a single chain. The model gives None in all of these. The CRF decodes one list per chain with one label per real residue, so none of them arises from its output. Conversely, for a batch of zero chains the model gives the count 0, while torch raises when n >= 2: `torch.tensor([])` at line 158 has shape [0], which does not broadcast against `C: [0, n]`. The data loader is not part of this model, so whether it can yield an empty batch is not modelled.
- LabelAccuracy.EpochAccuracy: the mask is an int grid; the source's float mask is left out.
- The rest of `train_s2s.py` is left out: argument parsing, datasets, logging, wandb, checkpoints, optimiser, scheduler, and the float loss and perplexity sums. None of it affects the modelled counts.
- Device selection and the IPA offload and in-place paths (`_offload_inference`, `inplace_safe`) are memory optimisations and are left out.

## Findings

| source | as written | input that shows it | evidently intended | confidence | as-written member | corrected member |
|---|---|---|---|---|---|---|
| tmpnn/tmpnn_beta/ipa_version/struct2seq.py:150-154 | the K-neighbour window z is scattered into the L x L pair array only when `L > neighbor`; otherwise z is used unscattered, so column k of row i is neighbour slot k, not residue k | L = 2, neighbor = 30, `E_idx = [[0, 1], [1, 0]]`: pair (1, 0) gets the self edge `z[1][0]` instead of the edge to residue 0, `z[1][1]` | scatter for every chain length, so that pair (i, j) always carries the edge from i to j (the comment at line 149 says so) | not executed | PairScatter.PairRepresentation, PairScatter.ShortChainPairMisplaced | PairScatter.Scatter |
