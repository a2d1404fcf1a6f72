/** The policy behind a shortlist handler: how a raw candidate list and the
    positive labels of one instance become the fixed-width triple
    (label_shortlist, labels_mask, sim_mask), and where the raw candidate
    list of each handler variant comes from. */
module Shortlist {
  import opened Results

  /** A label index; valid labels lie in [0, num_labels), and num_labels
      itself is the padding index. */
  type Label = int

  /** A float32 similarity or mask value. Nothing here does arithmetic on
      it; only the constants below are ever written. */
  type Sim = real

  /** The similarity written by the padding helper into unused slots. */
  const PadSim: Sim := -100.0

  /** min_nneg as the handlers pass it (the default of _adjust_shortlist). */
  const DefaultMinNneg: nat := 100

  /** The one mode string that selects the training policy. */
  const TrainMode: string := "train"

  /** Extra labels the Hybrid sampler draws beyond the corruption count. */
  const HybridOversample: nat := 350

  /** A raw candidate list with its similarities, as `query` returns it. */
  datatype Raw = Raw(shortlist: seq<Label>, sim: seq<Sim>)

  /** The three parallel arrays handed to the training loop. */
  datatype Fixed = Fixed(labels: seq<Label>, labelsMask: seq<real>, simMask: seq<real>)

  /** The exceptions the handlers can raise. */
  datatype Error =
    | NotImplemented(name: string)   // unknown shortlist method
    | KeyError(index: nat)           // no row for this instance
    | NotSubscriptable               // Extended queried before update_dynamic
    | ShapeMismatch                  // numpy cannot fit the raw list into the output
    | SubsampleError                 // the positives' draw is of a size choice/itemgetter refuse

  function Fill<T>(n: nat, x: T): (r: seq<T>)
    ensures |r| == n && forall i :: 0 <= i < n ==> r[i] == x
  {
    seq(n, _ => x)
  }

  function Min(a: nat, b: nat): (r: nat)
  {
    if a < b then a else b
  }

  // ---------------------------------------------------------------------
  // Training mode
  // ---------------------------------------------------------------------

  /** `choice` is what np.random.choice(n, k, replace=False) may return:
      k distinct positions below n. */
  predicate IsChoice(choice: seq<nat>, n: nat, k: nat)
  {
    |choice| == k &&
    (forall i :: 0 <= i < k ==> choice[i] < n) &&
    (forall i, j :: 0 <= i < j < k ==> choice[i] != choice[j])
  }

  /** The subsampling branch raises: it runs when there are more positives
      than slots, and then a negative draw size makes np.random.choice fail,
      an empty draw makes operator.itemgetter() itself raise, and a draw of
      one position makes itemgetter return a single label, which
      np.fromiter rejects. */
  predicate SubsampleFails(n: nat, size: nat, minNneg: nat)
  {
    n > size && size < minNneg + 2
  }

  /** What the training policy needs: the subsampling branch does not raise
      and `choice` is a draw it may make. */
  predicate SubsampleReady(n: nat, size: nat, minNneg: nat, choice: seq<nat>)
  {
    n > size ==> minNneg + 2 <= size && IsChoice(choice, n, size - minNneg)
  }

  /** The positives at the chosen positions, in the order drawn. */
  function Pick(pos: seq<Label>, choice: seq<nat>): (r: seq<Label>)
    requires forall i :: 0 <= i < |choice| ==> choice[i] < |pos|
    ensures |r| == |choice|
    ensures forall i :: 0 <= i < |choice| ==> r[i] == pos[choice[i]]
  {
    seq(|choice|, i requires 0 <= i < |choice| => pos[choice[i]])
  }

  /** The positives that stay: all of them, in their order, when they fit;
      otherwise size - minNneg of them at distinct drawn positions. */
  function Kept(pos: seq<Label>, size: nat, minNneg: nat, choice: seq<nat>): (r: seq<Label>)
    requires SubsampleReady(|pos|, size, minNneg, choice)
    ensures |r| <= size
    ensures |pos| <= size ==> r == pos
    ensures |pos| > size ==> |r| == size - minNneg
  {
    if |pos| > size then Pick(pos, choice) else pos
  }

  /** The raw candidates that are not kept positives, in raw order,
      duplicates included. */
  function Negatives(raw: seq<Label>, kept: seq<Label>): (r: seq<Label>)
    ensures |r| <= |raw|
    ensures forall i :: 0 <= i < |r| ==> r[i] in raw && r[i] !in kept
  {
    if raw == [] then []
    else (if raw[0] in kept then [] else [raw[0]]) + Negatives(raw[1..], kept)
  }

  /** Training policy: kept positives, then negatives, cut to `size` and
      padded; both masks are 1.0 on the positive run and 0.0 after it. */
  function TrainAdjust(pos: seq<Label>, raw: seq<Label>, size: nat, pad: Label,
                       minNneg: nat, choice: seq<nat>): (r: Fixed)
    requires SubsampleReady(|pos|, size, minNneg, choice)
    ensures |r.labels| == size && |r.labelsMask| == size && |r.simMask| == size
  {
    var kept := Kept(pos, size, minNneg, choice);
    var all := kept + Negatives(raw, kept);
    var n := Min(|all|, size);
    var mask := Fill(|kept|, 1.0) + Fill(size - |kept|, 0.0);
    Fixed(all[..n] + Fill(size - n, pad), mask, mask)
  }

  // ---------------------------------------------------------------------
  // Any other mode
  // ---------------------------------------------------------------------

  /** Evaluation policy: the raw list left-aligned and padded, each slot
      flagged when its label is positive, the raw similarities left-aligned
      (a single similarity is broadcast) and zero after them. numpy refuses
      a raw list longer than the output and a similarity list of any other
      length. */
  function EvalAdjust(pos: seq<Label>, raw: seq<Label>, sim: seq<Sim>, size: nat, pad: Label)
    : (r: Result<Fixed, Error>)
    ensures r.Ok? <==> |raw| <= size && (|sim| == |raw| || |sim| == 1)
    ensures r.Err? ==> r.error == ShapeMismatch
    ensures r.Ok? ==> |r.value.labels| == size && |r.value.labelsMask| == size && |r.value.simMask| == size
  {
    if |raw| > size || (|sim| != |raw| && |sim| != 1) then Err(ShapeMismatch)
    else
      var sims := if |sim| == 1 then Fill(|raw|, sim[0]) else sim;
      Ok(Fixed(raw + Fill(size - |raw|, pad),
               seq(size, i => if 0 <= i < |raw| && raw[i] in pos then 1.0 else 0.0),
               sims + Fill(size - |raw|, 0.0)))
  }

  /** _adjust_shortlist: the training policy exactly when mode is "train".
      `choice` stands for the random draw and is constrained only where the
      draw happens. */
  function Adjust(mode: string, size: nat, pad: Label, pos: seq<Label>, raw: seq<Label>,
                  sim: seq<Sim>, minNneg: nat, choice: seq<nat>): (r: Result<Fixed, Error>)
    requires mode == TrainMode && !SubsampleFails(|pos|, size, minNneg) ==>
      SubsampleReady(|pos|, size, minNneg, choice)
    ensures mode == TrainMode ==> (r.Ok? <==> !SubsampleFails(|pos|, size, minNneg))
    ensures mode == TrainMode && r.Err? ==> r.error == SubsampleError
    ensures r.Ok? ==> |r.value.labels| == size && |r.value.labelsMask| == size && |r.value.simMask| == size
  {
    if mode == TrainMode then
      if SubsampleFails(|pos|, size, minNneg) then Err(SubsampleError)
      else Ok(TrainAdjust(pos, raw, size, pad, minNneg, choice))
    else EvalAdjust(pos, raw, sim, size, pad)
  }

  // ---------------------------------------------------------------------
  // Lemmas: negatives and subsampling
  // ---------------------------------------------------------------------

  /** Each label occurs among the negatives exactly as often as in the raw
      list, unless it is a kept positive, in which case never. */
  lemma {:induction false} NegativesCount(raw: seq<Label>, kept: seq<Label>, x: Label)
    ensures multiset(Negatives(raw, kept))[x] == if x in kept then 0 else multiset(raw)[x]
  {
    if raw != [] {
      var head: seq<Label> := if raw[0] in kept then [] else [raw[0]];
      assert Negatives(raw, kept) == head + Negatives(raw[1..], kept);
      NegativesCount(raw[1..], kept, x);
      assert raw == [raw[0]] + raw[1..];
      assert multiset(raw) == multiset{raw[0]} + multiset(raw[1..]);
    }
  }

  lemma NegativesMembership(raw: seq<Label>, kept: seq<Label>, x: Label)
    ensures x in Negatives(raw, kept) <==> x in raw && x !in kept
  {
    NegativesCount(raw, kept, x);
  }

  /** Filtering respects the raw order: it distributes over concatenation. */
  lemma {:induction false} NegativesAppend(a: seq<Label>, b: seq<Label>, kept: seq<Label>)
    ensures Negatives(a + b, kept) == Negatives(a, kept) + Negatives(b, kept)
  {
    if a == [] {
      assert a + b == b;
    } else {
      assert (a + b)[0] == a[0];
      assert (a + b)[1..] == a[1..] + b;
      NegativesAppend(a[1..], b, kept);
    }
  }

  /** When no raw candidate is a kept positive (in particular when there
      are no positives), every raw candidate is a negative. */
  lemma {:induction false} NegativesWithoutPositives(raw: seq<Label>, kept: seq<Label>)
    requires forall i :: 0 <= i < |raw| ==> raw[i] !in kept
    ensures Negatives(raw, kept) == raw
  {
    if raw != [] {
      assert forall i :: 0 <= i < |raw[1..]| ==> raw[1..][i] == raw[i + 1];
      NegativesWithoutPositives(raw[1..], kept);
      assert raw == [raw[0]] + raw[1..];
    }
  }

  /** Drawing distinct positions is drawing without replacement: the picked
      labels form a sub-multiset of the positives. */
  lemma {:induction false} PickWithoutReplacement(pos: seq<Label>, choice: seq<nat>)
    requires forall i :: 0 <= i < |choice| ==> choice[i] < |pos|
    requires forall i, j :: 0 <= i < j < |choice| ==> choice[i] != choice[j]
    ensures multiset(Pick(pos, choice)) <= multiset(pos)
    decreases |choice|
  {
    if |choice| > 0 {
      var k := |choice| - 1;
      var c := choice[k];
      var rest := pos[..c] + pos[c + 1..];
      var shifted := seq(k, i requires 0 <= i < k => if choice[i] < c then choice[i] else choice[i] - 1);
      forall i | 0 <= i < k
        ensures choice[i] != c && shifted[i] < |rest| && rest[shifted[i]] == pos[choice[i]]
      {
        assert choice[i] != choice[k];
      }
      assert Pick(rest, shifted) == Pick(pos, choice[..k]);
      PickWithoutReplacement(rest, shifted);
      assert Pick(pos, choice) == Pick(pos, choice[..k]) + [pos[c]];
      assert pos == pos[..c] + [pos[c]] + pos[c + 1..];
    }
  }

  /** Subsampling keeps exactly size - minNneg positives drawn without
      replacement, and keeps every positive, in order, when they fit. */
  lemma SubsampleKeepsDistinctPositions(pos: seq<Label>, size: nat, minNneg: nat, choice: seq<nat>)
    requires SubsampleReady(|pos|, size, minNneg, choice)
    ensures var kept := Kept(pos, size, minNneg, choice);
      (|pos| <= size ==> kept == pos) &&
      (|pos| > size ==>
         |kept| == size - minNneg &&
         (forall i :: 0 <= i < |kept| ==> kept[i] == pos[choice[i]]) &&
         multiset(kept) <= multiset(pos))
  {
    if |pos| > size {
      PickWithoutReplacement(pos, choice);
    }
  }

  // ---------------------------------------------------------------------
  // Lemmas: the training output
  // ---------------------------------------------------------------------

  /** label_shortlist is the first `size` entries of kept positives followed
      by negatives, followed by padding. */
  lemma TrainLayout(pos: seq<Label>, raw: seq<Label>, size: nat, pad: Label,
                    minNneg: nat, choice: seq<nat>)
    requires SubsampleReady(|pos|, size, minNneg, choice)
    ensures var kept := Kept(pos, size, minNneg, choice);
      TrainAdjust(pos, raw, size, pad, minNneg, choice).labels
        == (kept + Negatives(raw, kept) + Fill(size, pad))[..size]
  {
    var kept := Kept(pos, size, minNneg, choice);
    var all := kept + Negatives(raw, kept);
    var n := Min(|all|, size);
    var r := TrainAdjust(pos, raw, size, pad, minNneg, choice);
    var want := (all + Fill(size, pad))[..size];
    forall i | 0 <= i < size ensures r.labels[i] == want[i] {
      if i < n {
        assert r.labels[i] == all[i];
      } else {
        assert r.labels[i] == pad;
      }
    }
  }

  /** On every filled slot the mask says whether the label there is a kept
      positive; padding slots are never flagged; sim_mask copies the mask. */
  lemma TrainMaskMarksPositives(pos: seq<Label>, raw: seq<Label>, size: nat, pad: Label,
                                minNneg: nat, choice: seq<nat>)
    requires SubsampleReady(|pos|, size, minNneg, choice)
    ensures var kept := Kept(pos, size, minNneg, choice);
      var filled := |kept| + |Negatives(raw, kept)|;
      var r := TrainAdjust(pos, raw, size, pad, minNneg, choice);
      r.simMask == r.labelsMask &&
      forall i :: 0 <= i < size ==>
        (r.labelsMask[i] == 1.0 <==> i < filled && r.labels[i] in kept) &&
        (r.labelsMask[i] == 1.0 <==> i < |kept|) &&
        (r.labelsMask[i] == 1.0 || r.labelsMask[i] == 0.0)
  {
    var kept := Kept(pos, size, minNneg, choice);
    var negs := Negatives(raw, kept);
    var all := kept + negs;
    var r := TrainAdjust(pos, raw, size, pad, minNneg, choice);
    forall i | 0 <= i < size && |kept| <= i < |all|
      ensures r.labels[i] !in kept
    {
      assert r.labels[i] == negs[i - |kept|];
      NegativesMembership(raw, kept, negs[i - |kept|]);
    }
  }

  /** When the positives fit, every one of them is in the output, in its
      given order, flagged positive; this holds even when that leaves fewer
      than minNneg slots for negatives. */
  lemma TrainAllPositivesKept(pos: seq<Label>, raw: seq<Label>, size: nat, pad: Label,
                              minNneg: nat, choice: seq<nat>)
    requires |pos| <= size
    ensures var r := TrainAdjust(pos, raw, size, pad, minNneg, choice);
      forall j :: 0 <= j < |pos| ==> r.labels[j] == pos[j] && r.labelsMask[j] == 1.0
  {
    var r := TrainAdjust(pos, raw, size, pad, minNneg, choice);
    var all := pos + Negatives(raw, pos);
    forall j | 0 <= j < |pos| ensures r.labels[j] == pos[j] {
      assert r.labels[j] == all[j];
    }
  }

  /** When the positives do not fit, the trailing minNneg slots are never
      flagged, and the flagged run is a draw without replacement. */
  lemma TrainReservesNegatives(pos: seq<Label>, raw: seq<Label>, size: nat, pad: Label,
                               minNneg: nat, choice: seq<nat>)
    requires SubsampleReady(|pos|, size, minNneg, choice)
    requires |pos| > size
    ensures var r := TrainAdjust(pos, raw, size, pad, minNneg, choice);
      var kept := r.labels[..size - minNneg];
      multiset(kept) <= multiset(pos) &&
      (forall i :: 0 <= i < size - minNneg ==> r.labelsMask[i] == 1.0) &&
      (forall i :: size - minNneg <= i < size ==> r.labelsMask[i] == 0.0 && r.simMask[i] == 0.0)
  {
    var k := Kept(pos, size, minNneg, choice);
    var r := TrainAdjust(pos, raw, size, pad, minNneg, choice);
    PickWithoutReplacement(pos, choice);
    TrainLayout(pos, raw, size, pad, minNneg, choice);
    assert r.labels[..size - minNneg] == k;
  }

  /** A positive dropped by subsampling that the index retrieved stays in
      the candidate list as a negative, and no slot holding it is flagged. */
  lemma TrainDroppedPositiveIsNegative(pos: seq<Label>, raw: seq<Label>, size: nat, pad: Label,
                                       minNneg: nat, choice: seq<nat>, p: Label)
    requires SubsampleReady(|pos|, size, minNneg, choice)
    requires p in pos && p in raw && p !in Kept(pos, size, minNneg, choice)
    ensures var kept := Kept(pos, size, minNneg, choice);
      var r := TrainAdjust(pos, raw, size, pad, minNneg, choice);
      p in Negatives(raw, kept) &&
      forall i :: 0 <= i < size && r.labels[i] == p ==> r.labelsMask[i] == 0.0
  {
    NegativesMembership(raw, Kept(pos, size, minNneg, choice), p);
    TrainMaskMarksPositives(pos, raw, size, pad, minNneg, choice);
  }

  // ---------------------------------------------------------------------
  // Lemmas: the evaluation output
  // ---------------------------------------------------------------------

  /** The raw list appears unchanged and in order at the front; every slot
      after it is padding with mask 0 and similarity 0. */
  lemma EvalKeepsOrder(pos: seq<Label>, raw: seq<Label>, sim: seq<Sim>, size: nat, pad: Label)
    requires EvalAdjust(pos, raw, sim, size, pad).Ok?
    ensures var f := EvalAdjust(pos, raw, sim, size, pad).value;
      f.labels[..|raw|] == raw &&
      forall i :: |raw| <= i < size ==>
        f.labels[i] == pad && f.labelsMask[i] == 0.0 && f.simMask[i] == 0.0
  {
  }

  /** labels_mask[i] is 1.0 exactly when slot i holds a raw candidate that
      is a positive, and 0.0 otherwise. */
  lemma EvalMarksPositives(pos: seq<Label>, raw: seq<Label>, sim: seq<Sim>, size: nat, pad: Label)
    requires EvalAdjust(pos, raw, sim, size, pad).Ok?
    ensures var f := EvalAdjust(pos, raw, sim, size, pad).value;
      forall i :: 0 <= i < size ==>
        (f.labelsMask[i] == 1.0 <==> i < |raw| && f.labels[i] in pos) &&
        (f.labelsMask[i] == 1.0 || f.labelsMask[i] == 0.0)
  {
  }

  /** sim_mask carries the raw similarities left-aligned, then zeros. */
  lemma EvalSimsLeftAligned(pos: seq<Label>, raw: seq<Label>, sim: seq<Sim>, size: nat, pad: Label)
    requires |raw| <= size && |sim| == |raw|
    ensures EvalAdjust(pos, raw, sim, size, pad).Ok?
    ensures EvalAdjust(pos, raw, sim, size, pad).value.simMask == sim + Fill(size - |raw|, 0.0)
  {
  }

  /** The negatives of the worked example. */
  lemma TrainExampleNegatives()
    ensures Negatives([3, 9, 10, 11, 12], [3, 7]) == [9, 10, 11, 12]
  {
    var kept: seq<Label> := [3, 7];
    var tail: seq<Label> := [9, 10, 11, 12];
    assert [3, 9, 10, 11, 12] == [3] + tail;
    NegativesAppend([3], tail, kept);
    assert Negatives([3], kept) == [];
    NegativesWithoutPositives(tail, kept);
  }

  /** The first five of the worked example's candidates after padding. */
  lemma TrainExampleWindow(w: seq<Label>)
    requires w == [3, 7] + [9, 10, 11, 12] + Fill(5, 1000)
    ensures w[..5] == [3, 7, 9, 10, 11]
  {
    assert w[0] == 3 && w[1] == 7 && w[2] == 9 && w[3] == 10 && w[4] == 11;
  }

  /** The labels of the worked example: both positives fit, so they come
      first, then the negatives in raw order, cut to the width. */
  lemma TrainExampleLabels()
    ensures TrainAdjust([3, 7], [3, 9, 10, 11, 12], 5, 1000, 2, []).labels == [3, 7, 9, 10, 11]
  {
    var kept: seq<Label> := [3, 7];
    var raw: seq<Label> := [3, 9, 10, 11, 12];
    TrainExampleNegatives();
    assert Kept(kept, 5, 2, []) == kept;
    TrainLayout(kept, raw, 5, 1000, 2, []);
    TrainExampleWindow(kept + Negatives(raw, kept) + Fill(5, 1000));
  }

  /** A run of two flags followed by three clear slots. */
  lemma TrainExampleMaskWindow()
    ensures Fill(2, 1.0) + Fill(3, 0.0) == [1.0, 1.0, 0.0, 0.0, 0.0]
  {
    var m := Fill(2, 1.0) + Fill(3, 0.0);
    assert m[0] == 1.0 && m[1] == 1.0 && m[2] == 0.0 && m[3] == 0.0 && m[4] == 0.0;
  }

  /** The masks of the worked example: the run of two kept positives. */
  lemma TrainExampleMasks()
    ensures TrainAdjust([3, 7], [3, 9, 10, 11, 12], 5, 1000, 2, []).labelsMask == [1.0, 1.0, 0.0, 0.0, 0.0]
    ensures TrainAdjust([3, 7], [3, 9, 10, 11, 12], 5, 1000, 2, []).simMask == [1.0, 1.0, 0.0, 0.0, 0.0]
  {
    var kept: seq<Label> := [3, 7];
    assert Kept(kept, 5, 2, []) == kept;
    TrainExampleMaskWindow();
  }

  /** The worked example, training mode. */
  lemma TrainExample()
    ensures Adjust(TrainMode, 5, 1000, [3, 7], [3, 9, 10, 11, 12], [0.9, 0.8, 0.7, 0.6, 0.5], 2, [])
      == Ok(Fixed([3, 7, 9, 10, 11], [1.0, 1.0, 0.0, 0.0, 0.0], [1.0, 1.0, 0.0, 0.0, 0.0]))
  {
    assert !SubsampleFails(2, 5, 2);
    TrainExampleLabels();
    TrainExampleMasks();
  }

  /** The worked example, any other mode. */
  lemma EvalExample()
    ensures Adjust("test", 5, 1000, [3, 7], [3, 9, 10, 11, 12], [0.9, 0.8, 0.7, 0.6, 0.5], 2, [])
      == Ok(Fixed([3, 9, 10, 11, 12], [1.0, 0.0, 0.0, 0.0, 0.0], [0.9, 0.8, 0.7, 0.6, 0.5]))
  {
    var r := EvalAdjust([3, 7], [3, 9, 10, 11, 12], [0.9, 0.8, 0.7, 0.6, 0.5], 5, 1000);
    assert r.value.labelsMask == [1.0, 0.0, 0.0, 0.0, 0.0];
    assert r.value.simMask == [0.9, 0.8, 0.7, 0.6, 0.5] + [];
    assert r.value == Fixed([3, 9, 10, 11, 12], [1.0, 0.0, 0.0, 0.0, 0.0], [0.9, 0.8, 0.7, 0.6, 0.5]);
    assert Adjust("test", 5, 1000, [3, 7], [3, 9, 10, 11, 12], [0.9, 0.8, 0.7, 0.6, 0.5], 2, []) == r;
  }

  // ---------------------------------------------------------------------
  // Candidate sources
  // ---------------------------------------------------------------------

  /** A keyed table: one row per instance index, and whether any data has
      been loaded into it. */
  datatype Table<T> = Table(rows: map<nat, seq<T>>, dataInit: bool)

  /** A negative sampler: draws sampleSize labels from [0, numLabels). */
  datatype Sampler = Sampler(numLabels: nat, sampleSize: nat, replace: bool, dataInit: bool)

  /** One draw of a sampler: labels and a placeholder similarity each. */
  datatype Draw = Draw(labels: seq<Label>, sims: seq<Sim>)

  /** What a sampler may return. */
  predicate IsDraw(s: Sampler, d: Draw)
  {
    |d.labels| == s.sampleSize && |d.sims| == s.sampleSize &&
    (forall i :: 0 <= i < |d.labels| ==> 0 <= d.labels[i] < s.numLabels) &&
    (!s.replace ==> forall i, j :: 0 <= i < j < |d.labels| ==> d.labels[i] != d.labels[j])
  }

  /** The sampler the Hybrid handler builds: corruption + 350 labels drawn
      with replacement. */
  function HybridSampler(numLabels: nat, corruption: nat): (s: Sampler)
    ensures s.sampleSize == corruption + HybridOversample && s.replace
  {
    Sampler(numLabels, corruption + HybridOversample, true, true)
  }

  /** The index table and the similarity table hold rows of equal length
      under the same keys. */
  predicate Parallel(ix: Table<Label>, sm: Table<Sim>)
  {
    ix.rows.Keys == sm.rows.Keys &&
    forall k :: k in ix.rows ==> |ix.rows[k]| == |sm.rows[k]|
  }

  /** Table.query: the row for a key, KeyError for a missing key. */
  function Lookup<T>(t: Table<T>, index: nat): (r: Result<seq<T>, Error>)
    ensures r.Ok? <==> index in t.rows
    ensures r.Ok? ==> r.value == t.rows[index]
    ensures r.Err? ==> r.error == KeyError(index)
  {
    if index in t.rows then Ok(t.rows[index]) else Err(KeyError(index))
  }

  /** Static query: the row of the index table, then of the similarity table. */
  function StaticQuery(ix: Table<Label>, sm: Table<Sim>, index: nat): (r: Result<Raw, Error>)
    ensures r.Ok? <==> index in ix.rows && index in sm.rows
    ensures r.Ok? ==> r.value == Raw(ix.rows[index], sm.rows[index])
    ensures r.Err? ==> r.error == KeyError(index)
  {
    match Lookup(ix, index)
    case Err(e) => Err(e)
    case Ok(row) =>
      match Lookup(sm, index)
      case Err(e) => Err(e)
      case Ok(simRow) => Ok(Raw(row, simRow))
  }

  /** Hybrid query: the static row followed by one fresh sampler draw. */
  function HybridQuery(ix: Table<Label>, sm: Table<Sim>, index: nat, d: Draw): (r: Result<Raw, Error>)
    ensures r.Ok? <==> index in ix.rows && index in sm.rows
    ensures r.Ok? ==> r.value == Raw(ix.rows[index] + d.labels, sm.rows[index] + d.sims)
    ensures r.Err? ==> r.error == KeyError(index)
  {
    match StaticQuery(ix, sm, index)
    case Err(e) => Err(e)
    case Ok(st) => Ok(Raw(st.shortlist + d.labels, st.sim + d.sims))
  }

  /** Extended query: the static row followed by the externally supplied
      row for the same index, each injected label with similarity 0. */
  function ExtendedQuery(ix: Table<Label>, sm: Table<Sim>, dynamic: Option<map<nat, seq<Label>>>,
                         index: nat): (r: Result<Raw, Error>)
    ensures r.Ok? <==> index in ix.rows && index in sm.rows && dynamic.Some? && index in dynamic.value
    ensures index in ix.rows && index in sm.rows && dynamic.None? ==> r == Err(NotSubscriptable)
    ensures index in ix.rows && index in sm.rows && dynamic.Some? && index !in dynamic.value ==>
      r == Err(KeyError(index))
    ensures index !in ix.rows || index !in sm.rows ==> r == Err(KeyError(index))
    ensures r.Ok? ==>
      var extra := dynamic.value[index];
      r.value == Raw(ix.rows[index] + extra, sm.rows[index] + Fill(|extra|, 0.0))
  {
    match StaticQuery(ix, sm, index)
    case Err(e) => Err(e)
    case Ok(st) =>
      if dynamic.None? then Err(NotSubscriptable)
      else if index !in dynamic.value then Err(KeyError(index))
      else
        var extra := dynamic.value[index];
        Ok(Raw(st.shortlist + extra, st.sim + Fill(|extra|, 0.0)))
  }

  // ---------------------------------------------------------------------
  // Lemmas: candidate sources
  // ---------------------------------------------------------------------

  /** On parallel tables a static query succeeds exactly for stored keys
      and returns rows of equal length. */
  lemma StaticQueryParallel(ix: Table<Label>, sm: Table<Sim>, index: nat)
    requires Parallel(ix, sm)
    ensures var q := StaticQuery(ix, sm, index);
      (q.Ok? <==> index in ix.rows) &&
      (q.Err? ==> q.error == KeyError(index)) &&
      (q.Ok? ==> q.value.shortlist == ix.rows[index] && q.value.sim == sm.rows[index] &&
                 |q.value.sim| == |q.value.shortlist|)
  {
  }

  /** A Hybrid query fails exactly when the static one does; otherwise its
      prefix is the static row, its suffix the draw, and its length the
      static length plus the sample size, with valid labels appended. */
  lemma HybridQueryExtendsStatic(ix: Table<Label>, sm: Table<Sim>, s: Sampler, index: nat, d: Draw)
    requires Parallel(ix, sm) && IsDraw(s, d)
    ensures var q := HybridQuery(ix, sm, index, d);
      (q.Ok? <==> StaticQuery(ix, sm, index).Ok?) &&
      (q.Ok? ==>
         var row := StaticQuery(ix, sm, index).value.shortlist;
         |q.value.shortlist| == |row| + s.sampleSize &&
         |q.value.sim| == |q.value.shortlist| &&
         q.value.shortlist[..|row|] == row &&
         q.value.shortlist[|row|..] == d.labels &&
         q.value.sim == StaticQuery(ix, sm, index).value.sim + d.sims &&
         forall i :: |row| <= i < |q.value.shortlist| ==> 0 <= q.value.shortlist[i] < s.numLabels)
  {
    var q := HybridQuery(ix, sm, index, d);
    if q.Ok? {
      var row := StaticQuery(ix, sm, index).value.shortlist;
      assert q.value.shortlist == row + d.labels;
      forall i | |row| <= i < |q.value.shortlist|
        ensures 0 <= q.value.shortlist[i] < s.numLabels
      {
        assert q.value.shortlist[i] == d.labels[i - |row|];
      }
    }
  }

  /** An Extended query, once the external rows are set and hold the index,
      is the static row followed by the external row, and every injected
      label carries similarity 0. */
  lemma ExtendedQueryExtendsStatic(ix: Table<Label>, sm: Table<Sim>,
                                   dynamic: Option<map<nat, seq<Label>>>, index: nat)
    requires Parallel(ix, sm)
    ensures var q := ExtendedQuery(ix, sm, dynamic, index);
      (q.Ok? <==> index in ix.rows && dynamic.Some? && index in dynamic.value) &&
      (index in ix.rows && dynamic.None? ==> q == Err(NotSubscriptable)) &&
      (q.Ok? ==>
         var row := ix.rows[index];
         var extra := dynamic.value[index];
         q.value.shortlist[..|row|] == row &&
         q.value.shortlist[|row|..] == extra &&
         |q.value.sim| == |q.value.shortlist| &&
         q.value.sim[..|row|] == sm.rows[index] &&
         forall i :: |row| <= i < |q.value.sim| ==> q.value.sim[i] == 0.0)
  {
    var q := ExtendedQuery(ix, sm, dynamic, index);
    if q.Ok? {
      var row := ix.rows[index];
      var extra := dynamic.value[index];
      assert q.value.shortlist == row + extra;
      assert q.value.sim == sm.rows[index] + Fill(|extra|, 0.0);
    }
  }

  /** Outside training, a Hybrid handler cannot fit its candidates: the draw
      alone adds corruption + 350 labels to a width of size + corruption, so
      any static row longer than size - 350 makes numpy refuse the copy. */
  lemma HybridEvalRejectsLongRows(ix: Table<Label>, sm: Table<Sim>, numLabels: nat, index: nat,
                                  d: Draw, size: nat, corruption: nat, mode: string,
                                  pos: seq<Label>, minNneg: nat, choice: seq<nat>)
    requires Parallel(ix, sm) && IsDraw(HybridSampler(numLabels, corruption), d)
    requires index in ix.rows && |ix.rows[index]| + HybridOversample > size
    requires mode != TrainMode
    ensures var q := HybridQuery(ix, sm, index, d);
      q.Ok? &&
      Adjust(mode, size + corruption, numLabels, pos, q.value.shortlist, q.value.sim, minNneg, choice)
        == Err(ShapeMismatch)
  {
    HybridQueryExtendsStatic(ix, sm, HybridSampler(numLabels, corruption), index, d);
  }
}
