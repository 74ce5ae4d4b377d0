/**
 * The topology-label accuracy of the training script (train_s2s.py), for
 * the training, validation and test loops alike: the CRF's decoded label
 * lists are padded with zeros to the batch's residue length, stacked into a
 * tensor, compared with the true labels, and the comparisons at real
 * residues are counted; the counts and the numbers of real residues are
 * summed over the batches of an epoch.
 *
 * Labels are ints; the residue mask is an int grid (0 for padding, 1 for a
 * real residue).
 */
module LabelAccuracy {
  import opened Tensors

  datatype Option<T> = None | Some(value: T)

  /**
   * `bag[i] += [0 for _ in range(n - len(bag[i]))]` under the guard
   * `len(bag[i]) != n`: a short list is extended with zeros to length n; a
   * list of length n or longer is left as it is (the range is empty).
   */
  function Padded(b: seq<int>, n: nat): (p: seq<int>)
    ensures |b| <= n ==> |p| == n
    ensures |b| >= n ==> p == b
    ensures |b| <= |p| && p[..|b|] == b
    ensures forall j :: |b| <= j < |p| ==> p[j] == 0
  {
    if |b| != n then b + seq(if n > |b| then n - |b| else 0, _ => 0) else b
  }

  /** Every list of the batch padded. */
  function PadAll(bags: seq<seq<int>>, n: nat): (ps: seq<seq<int>>)
    ensures |ps| == |bags|
    ensures forall i :: 0 <= i < |bags| ==> ps[i] == Padded(bags[i], n)
  {
    seq(|bags|, i requires 0 <= i < |bags| => Padded(bags[i], n))
  }

  /**
   * The padding loop `for i in range(len(bag_list))`, updating each list of
   * the batch in place: afterwards the list at every index is its padded
   * original, and the number of lists is unchanged.
   */
  method PadToLength(bags: array<seq<int>>, n: nat)
    modifies bags
    ensures bags[..] == PadAll(old(bags[..]), n)
  {
    var i := 0;
    while i < bags.Length
      invariant 0 <= i <= bags.Length
      invariant forall j :: 0 <= j < i ==> bags[j] == Padded(old(bags[j]), n)
      invariant forall j :: i <= j < bags.Length ==> bags[j] == old(bags[j])
    {
      if |bags[i]| != n {
        bags[i] := bags[i] + seq(if n > |bags[i]| then n - |bags[i]| else 0, _ => 0);
      }
      i := i + 1;
    }
  }

  /** Every row has exactly n entries. */
  predicate Rectangular(rows: seq<seq<int>>, n: nat) {
    forall i :: 0 <= i < |rows| ==> |rows[i]| == n
  }

  /**
   * The CRF decodes at most one label per residue, so after padding every
   * list has exactly the batch's residue length and the lists stack into a
   * [B, n] tensor.
   */
  lemma PaddedIsRectangular(bags: seq<seq<int>>, n: nat)
    requires forall i :: 0 <= i < |bags| ==> |bags[i]| <= n
    ensures Rectangular(PadAll(bags, n), n)
  {
  }

  /**
   * `sum((dec == gold) * mask)` over one row: each position contributes its
   * mask value when the labels agree and nothing otherwise.
   */
  function RowMatches(d: seq<int>, c: seq<int>, m: seq<int>): (r: int)
    requires |d| == |c| == |m|
    decreases |d|
  {
    if |d| == 0 then 0
    else
      var last := |d| - 1;
      RowMatches(d[..last], c[..last], m[..last]) + (if d[last] == c[last] then m[last] else 0)
  }

  /** `sum(mask)` over one row. */
  function RowTotal(m: seq<int>): (r: int)
    decreases |m|
  {
    if |m| == 0 then 0 else RowTotal(m[..|m| - 1]) + m[|m| - 1]
  }

  /** The positions of a row that are real residues with a correct label. */
  ghost function MatchSet(d: seq<int>, c: seq<int>, m: seq<int>): set<nat>
    requires |d| == |c| == |m|
  {
    set j: nat | j < |d| && m[j] == 1 && d[j] == c[j]
  }

  /** With a 0/1 mask, the row count is the number of correctly labelled real residues. */
  lemma {:induction false} RowMatchesCounts(d: seq<int>, c: seq<int>, m: seq<int>)
    requires |d| == |c| == |m| && IsBinary(m)
    ensures RowMatches(d, c, m) == |MatchSet(d, c, m)|
    decreases |d|
  {
    if |d| > 0 {
      var last := |d| - 1;
      RowMatchesCounts(d[..last], c[..last], m[..last]);
      var prev := MatchSet(d[..last], c[..last], m[..last]);
      assert IsBinary(m[..last]);
      if m[last] == 1 && d[last] == c[last] {
        assert MatchSet(d, c, m) == prev + {last};
        assert last !in prev;
      } else {
        assert MatchSet(d, c, m) == prev;
      }
    }
  }

  /** With a 0/1 mask, a row's count lies between 0 and its number of real residues. */
  lemma {:induction false} RowMatchesBounds(d: seq<int>, c: seq<int>, m: seq<int>)
    requires |d| == |c| == |m| && IsBinary(m)
    ensures 0 <= RowMatches(d, c, m) <= RowTotal(m)
    decreases |d|
  {
    if |d| > 0 {
      var last := |d| - 1;
      assert IsBinary(m[..last]);
      RowMatchesBounds(d[..last], c[..last], m[..last]);
    }
  }

  /** A row decoded without error counts its whole mask sum. */
  lemma {:induction false} RowMatchesPerfect(c: seq<int>, m: seq<int>)
    requires |c| == |m|
    ensures RowMatches(c, c, m) == RowTotal(m)
    decreases |c|
  {
    if |c| > 0 {
      var last := |c| - 1;
      RowMatchesPerfect(c[..last], m[..last]);
    }
  }

  /** With a 0/1 mask, a row's mask sum is its number of real residues. */
  lemma RowTotalCounts(m: seq<int>)
    requires IsBinary(m)
    ensures RowTotal(m) == |set j: nat | j < |m| && m[j] == 1|
  {
    RowMatchesPerfect(m, m);
    RowMatchesCounts(m, m, m);
    assert MatchSet(m, m, m) == set j: nat | j < |m| && m[j] == 1;
  }

  /** Labels at positions whose mask is 0 do not change a row's count. */
  lemma {:induction false} RowMatchesIgnoresMasked(d: seq<int>, d': seq<int>, c: seq<int>, m: seq<int>)
    requires |d| == |d'| == |c| == |m|
    requires forall j :: 0 <= j < |m| && m[j] != 0 ==> d[j] == d'[j]
    ensures RowMatches(d, c, m) == RowMatches(d', c, m)
    decreases |d|
  {
    if |d| > 0 {
      var last := |d| - 1;
      RowMatchesIgnoresMasked(d[..last], d'[..last], c[..last], m[..last]);
    }
  }

  /**
   * Whatever value fills the padded tail of a decoded list, the count is the
   * same as with the zeros the script uses, since the CRF's list covers
   * every real residue and the tail lies over padding.
   */
  lemma PaddingFillerIrrelevant(b: seq<int>, filler: seq<int>, c: seq<int>, m: seq<int>)
    requires |b| + |filler| == |c| == |m|
    requires forall j :: |b| <= j < |m| ==> m[j] == 0
    ensures RowMatches(b + filler, c, m) == RowMatches(Padded(b, |c|), c, m)
  {
    RowMatchesIgnoresMasked(b + filler, Padded(b, |c|), c, m);
  }

  /** `sum((dec == gold) * mask)` over a batch of rows. */
  function MatchCount(dec: seq<seq<int>>, gold: seq<seq<int>>, mask: seq<seq<int>>): (r: int)
    requires |dec| == |gold| == |mask|
    requires forall i :: 0 <= i < |dec| ==> |dec[i]| == |gold[i]| == |mask[i]|
    decreases |dec|
  {
    if |dec| == 0 then 0
    else
      var last := |dec| - 1;
      MatchCount(dec[..last], gold[..last], mask[..last]) + RowMatches(dec[last], gold[last], mask[last])
  }

  /** `sum(mask)` over a batch: its number of real residues. */
  function MaskTotal(mask: seq<seq<int>>): (r: int)
    decreases |mask|
  {
    if |mask| == 0 then 0 else MaskTotal(mask[..|mask| - 1]) + RowTotal(mask[|mask| - 1])
  }

  /** A batch decoded without error counts every real residue: the count is `sum(mask)`. */
  lemma {:induction false} MatchCountPerfect(gold: seq<seq<int>>, mask: seq<seq<int>>)
    requires |gold| == |mask|
    requires forall i :: 0 <= i < |gold| ==> |gold[i]| == |mask[i]|
    ensures MatchCount(gold, gold, mask) == MaskTotal(mask)
    decreases |gold|
  {
    if |gold| > 0 {
      var last := |gold| - 1;
      MatchCountPerfect(gold[..last], mask[..last]);
      RowMatchesPerfect(gold[last], mask[last]);
    }
  }

  /** With 0/1 masks, a batch's count lies between 0 and its number of real residues. */
  lemma {:induction false} MatchCountBounds(dec: seq<seq<int>>, gold: seq<seq<int>>, mask: seq<seq<int>>)
    requires |dec| == |gold| == |mask|
    requires forall i :: 0 <= i < |dec| ==> |dec[i]| == |gold[i]| == |mask[i]|
    requires IsBinaryGrid(mask)
    ensures 0 <= MatchCount(dec, gold, mask) <= MaskTotal(mask)
    decreases |dec|
  {
    if |dec| > 0 {
      var last := |dec| - 1;
      MatchCountBounds(dec[..last], gold[..last], mask[..last]);
      RowMatchesBounds(dec[last], gold[last], mask[last]);
    }
  }

  /**
   * One batch as the accuracy count sees it: the CRF's decoded lists, the
   * true labels C and the mask, both [B, n], and n = S.size(1).
   */
  datatype LabelBatch = LabelBatch(decoded: seq<seq<int>>, labels: seq<seq<int>>, mask: seq<seq<int>>, n: nat)
  {
    predicate WellFormed() {
      && |labels| == |mask|
      && Rectangular(labels, n) && Rectangular(mask, n)
    }
  }

  /**
   * The accuracy count of one batch: None where torch.tensor or the
   * comparison with C would raise (the padded lists are not one [B, n]
   * tensor), otherwise the masked match count.
   */
  function BatchCount(b: LabelBatch): (r: Option<int>)
    requires b.WellFormed()
    ensures r.Some? <==> |b.decoded| == |b.labels| && Rectangular(PadAll(b.decoded, b.n), b.n)
  {
    var padded := PadAll(b.decoded, b.n);
    if |padded| == |b.labels| && Rectangular(padded, b.n) then
      Some(MatchCount(padded, b.labels, b.mask))
    else None
  }

  /** With 0/1 masks a batch's count lies between 0 and its number of real residues. */
  lemma BatchCountBounds(b: LabelBatch)
    requires b.WellFormed() && IsBinaryGrid(b.mask)
    ensures BatchCount(b).Some? ==> 0 <= BatchCount(b).value <= MaskTotal(b.mask)
  {
    if BatchCount(b).Some? {
      MatchCountBounds(PadAll(b.decoded, b.n), b.labels, b.mask);
    }
  }

  /** A batch whose decoded lists are one per chain, none longer than n, always has a count. */
  lemma BatchCountDefined(b: LabelBatch)
    requires b.WellFormed()
    requires |b.decoded| == |b.labels|
    requires forall i :: 0 <= i < |b.decoded| ==> |b.decoded[i]| <= b.n
    ensures BatchCount(b).Some?
  {
    PaddedIsRectangular(b.decoded, b.n);
  }

  /** The running sums `cctop_sum` and `weights` of one loop over the batches. */
  datatype Tally = Tally(correct: int, weights: int)

  /** The sums after one more batch: its count and real residues added, or None. */
  function AddBatch(before: Option<Tally>, b: LabelBatch): (r: Option<Tally>)
    requires b.WellFormed()
    ensures r.Some? <==> before.Some? && BatchCount(b).Some?
    ensures r.Some? ==> r.value.correct == before.value.correct + BatchCount(b).value
    ensures r.Some? ==> r.value.weights == before.value.weights + MaskTotal(b.mask)
  {
    match before
    case None => None
    case Some(t) =>
      match BatchCount(b)
      case None => None
      case Some(acc) => Some(Tally(t.correct + acc, t.weights + MaskTotal(b.mask)))
  }

  /**
   * The sums after the given batches, starting from `cctop_sum = 0` and
   * `weights = 0`; None once a batch's count raises.
   */
  function EpochTally(batches: seq<LabelBatch>): (r: Option<Tally>)
    requires forall k :: 0 <= k < |batches| ==> batches[k].WellFormed()
    decreases |batches|
  {
    if |batches| == 0 then Some(Tally(0, 0))
    else
      var last := |batches| - 1;
      AddBatch(EpochTally(batches[..last]), batches[last])
  }

  /** The epoch has a tally exactly when every batch has a count. */
  lemma {:induction false} EpochTallyDefined(batches: seq<LabelBatch>)
    requires forall k :: 0 <= k < |batches| ==> batches[k].WellFormed()
    ensures EpochTally(batches).Some? <==> forall k :: 0 <= k < |batches| ==> BatchCount(batches[k]).Some?
    decreases |batches|
  {
    if |batches| > 0 {
      var last := |batches| - 1;
      var prefix := batches[..last];
      EpochTallyDefined(prefix);
      EpochTallyStep(batches, last);
      assert batches[..last + 1] == batches;
      if EpochTally(batches).Some? {
        forall k | 0 <= k < |batches|
          ensures BatchCount(batches[k]).Some?
        {
          if k < last {
            assert prefix[k] == batches[k];
          }
        }
      } else if EpochTally(prefix).None? {
        var k :| 0 <= k < last && BatchCount(prefix[k]).None?;
        assert prefix[k] == batches[k];
      }
    }
  }

  /** With 0/1 masks the epoch's running count never exceeds its running weight. */
  lemma {:induction false} EpochTallyBounds(batches: seq<LabelBatch>)
    requires forall k :: 0 <= k < |batches| ==> batches[k].WellFormed() && IsBinaryGrid(batches[k].mask)
    ensures EpochTally(batches).Some? ==> 0 <= EpochTally(batches).value.correct <= EpochTally(batches).value.weights
    decreases |batches|
  {
    if |batches| > 0 {
      var last := |batches| - 1;
      EpochTallyBounds(batches[..last]);
      BatchCountBounds(batches[last]);
    }
  }

  /**
   * The accuracy count of one batch as the loop body computes it: pad the
   * decoded lists in place, then count the masked matches; None where the
   * padded lists are not one [B, n] tensor.
   */
  method BatchAccuracy(b: LabelBatch) returns (r: Option<int>)
    requires b.WellFormed()
    ensures r == BatchCount(b)
  {
    var bags := new seq<int>[|b.decoded|](i requires 0 <= i < |b.decoded| => b.decoded[i]);
    assert bags[..] == b.decoded;
    PadToLength(bags, b.n);
    var padded := bags[..];
    assert padded == PadAll(b.decoded, b.n);
    if |padded| == |b.labels| && forall i :: 0 <= i < |padded| ==> |padded[i]| == b.n {
      r := Some(MatchCount(padded, b.labels, b.mask));
    } else {
      r := None;
    }
  }

  /**
   * The accuracy loop over the batches of an epoch (or of the test set):
   * per batch, count the masked matches and add count and real residues to
   * the running sums. The sums are the epoch tally, and with 0/1 masks the
   * count never exceeds the weight.
   */
  method EpochAccuracy(batches: seq<LabelBatch>) returns (r: Option<Tally>)
    requires forall k :: 0 <= k < |batches| ==> batches[k].WellFormed()
    ensures r == EpochTally(batches)
    ensures r.Some? && (forall k :: 0 <= k < |batches| ==> IsBinaryGrid(batches[k].mask)) ==>
      0 <= r.value.correct <= r.value.weights
  {
    var correct, weights := 0, 0;
    var k := 0;
    while k < |batches|
      invariant 0 <= k <= |batches|
      invariant EpochTally(batches[..k]) == Some(Tally(correct, weights))
    {
      var acc := BatchAccuracy(batches[k]);
      EpochTallyStep(batches, k);
      if acc.None? {
        EpochNoneStays(batches, k + 1);
        return None;
      }
      var next := Tally(correct + acc.value, weights + MaskTotal(batches[k].mask));
      assert EpochTally(batches[..k + 1]) == Some(next);
      correct, weights := next.correct, next.weights;
      k := k + 1;
    }
    assert batches[..k] == batches;
    r := Some(Tally(correct, weights));
    if forall k :: 0 <= k < |batches| ==> IsBinaryGrid(batches[k].mask) {
      EpochTallyBounds(batches);
    }
  }

  /** The tally after batch k from the tally before it. */
  lemma EpochTallyStep(batches: seq<LabelBatch>, k: nat)
    requires forall k :: 0 <= k < |batches| ==> batches[k].WellFormed()
    requires k < |batches|
    ensures var before := EpochTally(batches[..k]);
      var count := BatchCount(batches[k]);
      EpochTally(batches[..k + 1]) ==
        if before.None? || count.None? then None
        else Some(Tally(before.value.correct + count.value, before.value.weights + MaskTotal(batches[k].mask)))
  {
    var upto := batches[..k + 1];
    assert |upto| - 1 == k && upto[k] == batches[k];
    assert upto[..k] == batches[..k];
    assert EpochTally(upto) == AddBatch(EpochTally(batches[..k]), batches[k]);
  }

  /** Once a batch raises, the epoch has no tally. */
  lemma {:induction false} EpochNoneStays(batches: seq<LabelBatch>, k: nat)
    requires forall k :: 0 <= k < |batches| ==> batches[k].WellFormed()
    requires k <= |batches| && EpochTally(batches[..k]) == None
    ensures EpochTally(batches) == None
    decreases |batches| - k
  {
    if k < |batches| {
      assert batches[..k + 1][..k] == batches[..k];
      EpochNoneStays(batches, k + 1);
    } else {
      assert batches[..k] == batches;
    }
  }

  /**
   * `cctop_sum / weights`: the accuracy reported for the epoch. At weight 0
   * the source has no rate: nan when batches ran with all-zero masks, and a
   * ZeroDivisionError on an empty loader, where both sums are still the
   * floats `0.` and the loss division just before already raises. The model
   * returns None for both. Otherwise the rate times the weight is the count, and
   * it is a fraction between 0 and 1 when the count is within the weight.
   */
  function AccuracyRate(t: Tally): (rate: Option<real>)
    ensures rate.None? <==> t.weights == 0
    ensures rate.Some? ==> rate.value * t.weights as real == t.correct as real
    ensures rate.Some? && 0 <= t.correct <= t.weights ==> 0.0 <= rate.value <= 1.0
  {
    if t.weights == 0 then None else Some(t.correct as real / t.weights as real)
  }
}
