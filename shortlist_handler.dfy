/** The shortlist handler objects: one class whose `kind` selects the
    variant (static table, live sampler, table plus sampler, table plus
    externally supplied rows), the per-instance adjustment written over
    fixed-width arrays, and the factory that picks a variant by name. */
module ShortlistHandler {
  import opened Results
  import opened Shortlist

  datatype Variant = Static | Extended | Hybrid | Dynamic

  /** The method name that selects each variant. */
  function VariantName(v: Variant): (r: string)
  {
    match v
    case Static => "static"
    case Extended => "extended"
    case Hybrid => "hybrid"
    case Dynamic => "dynamic"
  }

  /** The dispatch of construct_handler: one of the four names, or
      NotImplementedError naming the value. */
  function ParseMethod(name: string): (r: Result<Variant, Error>)
    ensures r.Ok? ==> VariantName(r.value) == name
    ensures r.Err? ==> r.error == NotImplemented(name)
  {
    if name == "static" then Ok(Static)
    else if name == "extended" then Ok(Extended)
    else if name == "hybrid" then Ok(Hybrid)
    else if name == "dynamic" then Ok(Dynamic)
    else Err(NotImplemented(name))
  }

  /** Every variant is reachable by its own name, so a name is rejected
      exactly when it names no variant. */
  lemma ParseMethodRoundTrip(v: Variant, name: string)
    ensures ParseMethod(VariantName(v)) == Ok(v)
    ensures ParseMethod(name).Err? <==> forall w: Variant :: VariantName(w) != name
  {
    if ParseMethod(name).Ok? {
      assert VariantName(ParseMethod(name).value) == name;
    }
  }

  class Handler {
    const kind: Variant
    const mode: string
    const numLabels: nat
    /** Written into every unused slot of label_shortlist. */
    const labelPaddingIndex: Label
    /** Width of every output array. */
    const sizeShortlist: nat
    /** Per-instance candidate rows (Static, Hybrid, Extended). */
    var indices: Table<Label>
    /** Per-instance similarity rows, parallel to `indices`. */
    var sims: Table<Sim>
    /** The live candidate source: Dynamic's only source, Hybrid's noise. */
    const sampler: Sampler
    /** Extended's externally supplied rows; None until update_dynamic. */
    var dynamicRows: Option<map<nat, seq<Label>>>

    constructor Static(numLabels: nat, mode: string, sizeShortlist: nat)
      ensures kind == Variant.Static && this.mode == mode && this.numLabels == numLabels
      ensures labelPaddingIndex == numLabels && this.sizeShortlist == sizeShortlist
      ensures indices == Table(map[], false) && sims == Table(map[], false)
      ensures dynamicRows == None
    {
      kind := Variant.Static;
      this.mode := mode;
      this.numLabels := numLabels;
      labelPaddingIndex := numLabels;
      this.sizeShortlist := sizeShortlist;
      indices := Table(map[], false);
      sims := Table(map[], false);
      sampler := Sampler(numLabels, 0, false, false);
      dynamicRows := None;
    }

    constructor Dynamic(numLabels: nat, shorty: Sampler, mode: string, sizeShortlist: nat)
      ensures kind == Variant.Dynamic && this.mode == mode && this.numLabels == numLabels
      ensures labelPaddingIndex == numLabels && this.sizeShortlist == sizeShortlist
      ensures indices == Table(map[], false) && sims == Table(map[], false)
      ensures dynamicRows == None
      ensures sampler == shorty
    {
      kind := Variant.Dynamic;
      this.mode := mode;
      this.numLabels := numLabels;
      labelPaddingIndex := numLabels;
      this.sizeShortlist := sizeShortlist;
      indices := Table(map[], false);
      sims := Table(map[], false);
      sampler := shorty;
      dynamicRows := None;
    }

    /** The width grows by the corruption count: static row plus noise. */
    constructor Hybrid(numLabels: nat, mode: string, sizeShortlist: nat, corruption: nat)
      ensures kind == Variant.Hybrid && this.mode == mode && this.numLabels == numLabels
      ensures labelPaddingIndex == numLabels && this.sizeShortlist == sizeShortlist + corruption
      ensures indices == Table(map[], false) && sims == Table(map[], false)
      ensures dynamicRows == None
      ensures sampler == HybridSampler(numLabels, corruption)
    {
      kind := Variant.Hybrid;
      this.mode := mode;
      this.numLabels := numLabels;
      labelPaddingIndex := numLabels;
      indices := Table(map[], false);
      sims := Table(map[], false);
      sampler := HybridSampler(numLabels, corruption);
      dynamicRows := None;
      this.sizeShortlist := sizeShortlist + corruption;
    }

    /** The width grows by the corruption count: static row plus injected rows. */
    constructor Extended(numLabels: nat, mode: string, sizeShortlist: nat, corruption: nat)
      ensures kind == Variant.Extended && this.mode == mode && this.numLabels == numLabels
      ensures labelPaddingIndex == numLabels && this.sizeShortlist == sizeShortlist + corruption
      ensures indices == Table(map[], false) && sims == Table(map[], false)
      ensures dynamicRows == None
    {
      kind := Variant.Extended;
      this.mode := mode;
      this.numLabels := numLabels;
      labelPaddingIndex := numLabels;
      indices := Table(map[], false);
      sims := Table(map[], false);
      sampler := Sampler(numLabels, 0, false, false);
      dynamicRows := None;
      this.sizeShortlist := sizeShortlist + corruption;
    }

    /** update_dynamic: install the externally mined rows. */
    method UpdateDynamic(rows: map<nat, seq<Label>>)
      requires kind == Variant.Extended
      modifies this`dynamicRows
      ensures dynamicRows == Some(rows)
    {
      dynamicRows := Some(rows);
    }

    /** load_shortlist: both tables take the contents read from disk. */
    method LoadShortlist(storedIndices: Table<Label>, storedSims: Table<Sim>)
      requires kind != Variant.Dynamic
      modifies this`indices, this`sims
      ensures indices == storedIndices && sims == storedSims
    {
      indices := storedIndices;
      sims := storedSims;
    }

    /** The flag the cold-start guard consults: the sampler's for Dynamic,
        the index table's otherwise. */
    function DataInit(): (r: bool)
      reads this
      ensures kind == Variant.Dynamic ==> r == sampler.dataInit
      ensures kind != Variant.Dynamic ==> r == indices.dataInit
    {
      if kind == Variant.Dynamic then sampler.dataInit else indices.dataInit
    }

    /** query: where each variant takes its raw candidates from. `draw` is
        the sampler's output for this call; only Dynamic and Hybrid use it. */
    function Query(index: nat, draw: Draw): (r: Result<Raw, Error>)
      reads this
      ensures kind == Variant.Dynamic ==> r == Ok(Raw(draw.labels, draw.sims))
      ensures kind != Variant.Dynamic && r.Ok? ==> index in indices.rows && index in sims.rows
      ensures kind != Variant.Dynamic && r.Ok? ==>
        |indices.rows[index]| <= |r.value.shortlist| &&
        r.value.shortlist[..|indices.rows[index]|] == indices.rows[index]
    {
      match kind
      case Static => StaticQuery(indices, sims, index)
      case Dynamic => Ok(Raw(draw.labels, draw.sims))
      case Hybrid => HybridQuery(indices, sims, index, draw)
      case Extended => ExtendedQuery(indices, sims, dynamicRows, index)
    }

    /** _pad_seq: both lists grow by the number of slots `indices` is short
        of the width, with the padding index and -100 respectively. */
    method PadSeq(labels: seq<Label>, sim: seq<Sim>) returns (paddedLabels: seq<Label>, paddedSim: seq<Sim>)
      ensures |labels| >= sizeShortlist ==> paddedLabels == labels && paddedSim == sim
      ensures |labels| < sizeShortlist ==>
        |paddedLabels| == sizeShortlist && |paddedSim| == |sim| + sizeShortlist - |labels|
      ensures paddedLabels[..|labels|] == labels && paddedSim[..|sim|] == sim
      ensures forall i :: |labels| <= i < |paddedLabels| ==> paddedLabels[i] == labelPaddingIndex
      ensures forall i :: |sim| <= i < |paddedSim| ==> paddedSim[i] == PadSim
    {
      var padLength := if |labels| < sizeShortlist then sizeShortlist - |labels| else 0;
      paddedLabels := labels + Fill(padLength, labelPaddingIndex);
      paddedSim := sim + Fill(padLength, PadSim);
    }

    /** _adjust_shortlist: the training branch exactly when mode is "train". */
    method AdjustShortlist(pos: seq<Label>, raw: seq<Label>, sim: seq<Sim>, minNneg: nat, choice: seq<nat>)
      returns (r: Result<Fixed, Error>)
      requires mode == TrainMode && !SubsampleFails(|pos|, sizeShortlist, minNneg) ==>
        SubsampleReady(|pos|, sizeShortlist, minNneg, choice)
      ensures r == Adjust(mode, sizeShortlist, labelPaddingIndex, pos, raw, sim, minNneg, choice)
    {
      if mode == TrainMode {
        if |pos| > sizeShortlist && sizeShortlist < minNneg + 2 {
          return Err(SubsampleError);
        }
        var f := AdjustForTraining(pos, raw, minNneg, choice);
        r := Ok(f);
      } else {
        r := AdjustForEvaluation(pos, raw, sim);
      }
    }

    /** The training branch over fixed-width arrays: outputs pre-filled with
        padding and zeros, the mask prefix set to 1.0, then the prefix of
        positives-then-negatives copied in. */
    method AdjustForTraining(pos: seq<Label>, raw: seq<Label>, minNneg: nat, choice: seq<nat>)
      returns (f: Fixed)
      requires SubsampleReady(|pos|, sizeShortlist, minNneg, choice)
      ensures f == TrainAdjust(pos, raw, sizeShortlist, labelPaddingIndex, minNneg, choice)
    {
      var size := sizeShortlist;
      var pad := labelPaddingIndex;
      var labelsMask := new real[size](_ => 0.0);
      var simMask := new real[size](_ => 0.0);
      var labelShortlist := new Label[size](_ => pad);
      var kept := Kept(pos, size, minNneg, choice);
      var negs := Negatives(raw, kept);
      for i := 0 to |kept|
        invariant forall j :: 0 <= j < size ==> labelsMask[j] == (if j < i then 1.0 else 0.0)
        invariant forall j :: 0 <= j < size ==> simMask[j] == labelsMask[j]
        invariant forall j :: 0 <= j < size ==> labelShortlist[j] == pad
      {
        labelsMask[i] := 1.0;
        simMask[i] := 1.0;
      }
      var all := kept + negs;
      var n := Min(|all|, size);
      for i := 0 to n
        invariant forall j :: 0 <= j < size ==> labelShortlist[j] == (if j < i then all[j] else pad)
        invariant forall j :: 0 <= j < size ==> labelsMask[j] == (if j < |kept| then 1.0 else 0.0)
        invariant forall j :: 0 <= j < size ==> simMask[j] == labelsMask[j]
      {
        labelShortlist[i] := all[i];
      }
      ghost var want := TrainAdjust(pos, raw, size, pad, minNneg, choice);
      assert labelShortlist[..] == want.labels;
      assert labelsMask[..] == want.labelsMask;
      assert simMask[..] == want.simMask;
      f := Fixed(labelShortlist[..], labelsMask[..], simMask[..]);
    }

    /** The other branch over fixed-width arrays: the raw list copied in,
        the per-slot positive check, then the similarities copied in. */
    method AdjustForEvaluation(pos: seq<Label>, raw: seq<Label>, sim: seq<Sim>)
      returns (r: Result<Fixed, Error>)
      ensures r == EvalAdjust(pos, raw, sim, sizeShortlist, labelPaddingIndex)
    {
      var size := sizeShortlist;
      var pad := labelPaddingIndex;
      var labelsMask := new real[size](_ => 0.0);
      var labelShortlist := new Label[size](_ => pad);
      if |raw| > size {
        return Err(ShapeMismatch);
      }
      for i := 0 to |raw|
        invariant forall j :: 0 <= j < size ==> labelShortlist[j] == (if j < i then raw[j] else pad)
        invariant forall j :: 0 <= j < size ==> labelsMask[j] == 0.0
      {
        labelShortlist[i] := raw[i];
      }
      for idx := 0 to |raw|
        invariant forall j :: 0 <= j < size ==> labelShortlist[j] == (if j < |raw| then raw[j] else pad)
        invariant forall j :: 0 <= j < size ==>
          labelsMask[j] == (if j < idx && raw[j] in pos then 1.0 else 0.0)
      {
        if raw[idx] in pos {
          labelsMask[idx] := 1.0;
        }
      }
      var simMask := new real[size](_ => 0.0);
      if |sim| != |raw| && |sim| != 1 {
        return Err(ShapeMismatch);
      }
      for i := 0 to |raw|
        invariant forall j :: 0 <= j < size ==> labelShortlist[j] == (if j < |raw| then raw[j] else pad)
        invariant forall j :: 0 <= j < size ==>
          labelsMask[j] == (if j < |raw| && raw[j] in pos then 1.0 else 0.0)
        invariant forall j :: 0 <= j < size ==>
          simMask[j] == (if j < i then (if |sim| == 1 then sim[0] else sim[j]) else 0.0)
      {
        simMask[i] := if |sim| == 1 then sim[0] else sim[i];
      }
      ghost var want := EvalAdjust(pos, raw, sim, size, pad).value;
      assert labelShortlist[..] == want.labels;
      assert labelsMask[..] == want.labelsMask;
      assert simMask[..] == want.simMask;
      r := Ok(Fixed(labelShortlist[..], labelsMask[..], simMask[..]));
    }

    /** get_shortlist / _get_sl: all zeros (labels included) while nothing
        is loaded, without querying; otherwise query and adjust with the
        default min_nneg. */
    method GetShortlist(index: nat, pos: seq<Label>, draw: Draw, choice: seq<nat>)
      returns (r: Result<Fixed, Error>)
      requires mode == TrainMode && !SubsampleFails(|pos|, sizeShortlist, DefaultMinNneg) ==>
        SubsampleReady(|pos|, sizeShortlist, DefaultMinNneg, choice)
      ensures !DataInit() ==>
        r == Ok(Fixed(Fill(sizeShortlist, 0), Fill(sizeShortlist, 0.0), Fill(sizeShortlist, 0.0)))
      ensures DataInit() ==>
        r == match Query(index, draw)
             case Err(e) => Err(e)
             case Ok(q) => Adjust(mode, sizeShortlist, labelPaddingIndex, pos, q.shortlist, q.sim,
                                  DefaultMinNneg, choice)
    {
      if DataInit() {
        var q := Query(index, draw);
        if q.Err? {
          return Err(q.error);
        }
        r := AdjustShortlist(pos, q.value.shortlist, q.value.sim, DefaultMinNneg, choice);
      } else {
        var labels := new Label[sizeShortlist](_ => 0);
        var labelsMask := new real[sizeShortlist](_ => 0.0);
        var simMask := new real[sizeShortlist](_ => 0.0);
        assert labels[..] == Fill(sizeShortlist, 0);
        assert labelsMask[..] == Fill(sizeShortlist, 0.0) && simMask[..] == Fill(sizeShortlist, 0.0);
        r := Ok(Fixed(labels[..], labelsMask[..], simMask[..]));
      }
    }
  }

  /** construct_handler: build the variant the name selects, or fail with
      NotImplementedError for any other name. */
  method ConstructHandler(shortlistMethod: string, numLabels: nat, mode: string,
                          sizeShortlist: nat, shorty: Sampler, corruption: nat)
    returns (r: Result<Handler, Error>)
    ensures ParseMethod(shortlistMethod).Err? ==> r == Err(NotImplemented(shortlistMethod))
    ensures ParseMethod(shortlistMethod).Ok? ==>
      r.Ok? && fresh(r.value) && r.value.kind == ParseMethod(shortlistMethod).value &&
      r.value.mode == mode && r.value.numLabels == numLabels &&
      r.value.labelPaddingIndex == numLabels &&
      r.value.sizeShortlist == (if r.value.kind in {Variant.Hybrid, Variant.Extended}
                                then sizeShortlist + corruption else sizeShortlist) &&
      r.value.indices == Table(map[], false) && r.value.sims == Table(map[], false) &&
      r.value.dynamicRows == None &&
      (r.value.kind == Variant.Dynamic ==> r.value.sampler == shorty) &&
      (r.value.kind == Variant.Hybrid ==> r.value.sampler == HybridSampler(numLabels, corruption)) &&
      (r.value.kind != Variant.Dynamic ==> !r.value.DataInit())
  {
    var parsed := ParseMethod(shortlistMethod);
    if parsed.Err? {
      return Err(parsed.error);
    }
    var h: Handler;
    if parsed.value == Variant.Static {
      h := new Handler.Static(numLabels, mode, sizeShortlist);
    } else if parsed.value == Variant.Extended {
      h := new Handler.Extended(numLabels, mode, sizeShortlist, corruption);
    } else if parsed.value == Variant.Hybrid {
      h := new Handler.Hybrid(numLabels, mode, sizeShortlist, corruption);
    } else {
      h := new Handler.Dynamic(numLabels, shorty, mode, sizeShortlist);
    }
    r := Ok(h);
  }
}
