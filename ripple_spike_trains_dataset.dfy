/**
  A model of the spike-train dataset adapter of the HFO (high-frequency
  oscillation) detector: the alignment of the UP and DOWN spike trains
  (`prepare_spikes_data`) and the indexed-sample view over an already-loaded
  spike array (`SpikeTrainsDataset`).

  A numeric 2-D array is a sequence of rows, each row a sequence of integers.
  Elements are spike indicators or spike timestamps, so `int` suffices.
 */
module SpikeTrainsData {

  datatype Option<+T> = None | Some(value: T)

  /** A 2-D numeric array, one inner sequence per row. */
  type SpikeArray = seq<seq<int>>

  /** One sample handed to the training loop: the data and its label. */
  type Sample = (seq<int>, bool)

  function Min(a: nat, b: nat): nat {
    if a <= b then a else b
  }

  /** Every row has a column 0, so that `array[:, 0]` is defined. */
  predicate HasFirstColumn(m: SpikeArray) {
    forall i :: 0 <= i < |m| ==> |m[i]| >= 1
  }

  /** `array[:, 0]`: column 0 of every row, in row order. */
  function FirstColumn(m: SpikeArray): (c: seq<int>)
    requires HasFirstColumn(m)
    ensures |c| == |m|
    ensures forall i :: 0 <= i < |c| ==> c[i] == m[i][0]
  {
    if m == [] then [] else [m[0][0]] + FirstColumn(m[1..])
  }

  /** `s[:n]` for a non-negative bound: the first `n` elements, or all of `s` when it is shorter. */
  function Take(s: seq<int>, n: nat): (r: seq<int>)
    ensures |r| == Min(n, |s|)
    ensures r <= s
  {
    if n <= |s| then s[..n] else s
  }

  /**
    `prepare_spikes_data`: drop the channel-index column of both trains and
    crop both to the length of the shorter one.
   */
  function PrepareSpikesData(up: SpikeArray, down: SpikeArray): (r: (seq<int>, seq<int>))
    requires HasFirstColumn(up) && HasFirstColumn(down)
    ensures |r.0| == |r.1| == Min(|up|, |down|)
    ensures forall i :: 0 <= i < |r.0| ==> r.0[i] == up[i][0] && r.1[i] == down[i][0]
    ensures r.0 <= FirstColumn(up) && r.1 <= FirstColumn(down)
  {
    var upSpikeTimes := FirstColumn(up);
    var downSpikeTimes := FirstColumn(down);
    var lenSmallerSpikeTrain := Min(|upSpikeTimes|, |downSpikeTimes|);
    (Take(upSpikeTimes, lenSmallerSpikeTrain), Take(downSpikeTimes, lenSmallerSpikeTrain))
  }

  /** The shorter train is never cropped: its output is its whole first column. */
  lemma PrepareSpikesDataKeepsShorter(up: SpikeArray, down: SpikeArray)
    requires HasFirstColumn(up) && HasFirstColumn(down)
    ensures |up| <= |down| ==> PrepareSpikesData(up, down).0 == FirstColumn(up)
    ensures |down| <= |up| ==> PrepareSpikesData(up, down).1 == FirstColumn(down)
  {
  }

  /** With equal row counts nothing is cropped. */
  lemma PrepareSpikesDataSameRowCount(up: SpikeArray, down: SpikeArray)
    requires HasFirstColumn(up) && HasFirstColumn(down)
    requires |up| == |down|
    ensures PrepareSpikesData(up, down) == (FirstColumn(up), FirstColumn(down))
  {
    PrepareSpikesDataKeepsShorter(up, down);
  }

  /**
    The output is fully determined by its length and its elements: any pair
    of equal-length trains of the cropped length whose elements are the
    rows' first entries is the output.
   */
  lemma PrepareSpikesDataDetermined(up: SpikeArray, down: SpikeArray, u: seq<int>, d: seq<int>)
    requires HasFirstColumn(up) && HasFirstColumn(down)
    requires |u| == |d| == Min(|up|, |down|)
    requires forall i :: 0 <= i < |u| ==> u[i] == up[i][0] && d[i] == down[i][0]
    ensures PrepareSpikesData(up, down) == (u, d)
  {
    var r := PrepareSpikesData(up, down);
    assert r.0 == u by {
      forall i | 0 <= i < |u| ensures r.0[i] == u[i] { }
    }
    assert r.1 == d by {
      forall i | 0 <= i < |d| ensures r.1[i] == d[i] { }
    }
  }

  /** Taking column 0 commutes with keeping the first `k` rows. */
  lemma FirstColumnOfRowPrefix(m: SpikeArray, k: nat)
    requires HasFirstColumn(m) && k <= |m|
    ensures FirstColumn(m[..k]) == FirstColumn(m)[..k]
  {
  }

  /**
    An independent reading of the alignment: cropping the rows first and
    taking column 0 afterwards gives the same pair.
   */
  lemma PrepareSpikesDataCropRowsFirst(up: SpikeArray, down: SpikeArray)
    requires HasFirstColumn(up) && HasFirstColumn(down)
    ensures var n := Min(|up|, |down|);
      PrepareSpikesData(up, down) == (FirstColumn(up[..n]), FirstColumn(down[..n]))
  {
    var n := Min(|up|, |down|);
    FirstColumnOfRowPrefix(up, n);
    FirstColumnOfRowPrefix(down, n);
  }

  /** Three UP rows and two DOWN rows align to two spikes each; column 1 is dropped. */
  lemma PrepareSpikesDataExample()
    ensures PrepareSpikesData([[1, 0], [0, 1], [1, 1]], [[1, 0], [1, 0]]) == ([1, 0], [1, 1])
  {
    PrepareSpikesDataDetermined([[1, 0], [0, 1], [1, 1]], [[1, 0], [1, 0]], [1, 0], [1, 1]);
  }

  /**
    `SpikeTrainsDataset`: an indexed view over the spike array loaded at
    construction. The fields are set once and never changed, so the object
    is a value. `transform` is applied to every sample; `targetTransform` is
    kept but has no effect on the label.
   */
  datatype SpikeTrainsDataset = SpikeTrainsDataset(
    inputSpikes: SpikeArray,
    transform: Option<seq<int> -> seq<int>>,
    targetTransform: Option<bool -> bool>)
  {
    /** `__len__`: the number of samples is the number of rows. */
    function Len(): (n: nat)
      ensures n == |inputSpikes|
    {
      |inputSpikes|
    }

    /** `__getitem__`: row `idx`, transformed when a transform is set, labelled `False`. */
    function GetItem(idx: nat): (r: Sample)
      requires idx < Len()
      ensures !r.1
      ensures transform.None? ==> r.0 == inputSpikes[idx]
      ensures transform.Some? ==> r.0 == transform.value(inputSpikes[idx])
    {
      var currSpikeTrain := inputSpikes[idx];
      var sampleLabel := false;
      var sample := if transform.Some? then transform.value(currSpikeTrain) else currSpikeTrain;
      (sample, sampleLabel)
    }
  }

  /** The target transform never changes a sample or its label. */
  lemma TargetTransformHasNoEffect(ds: SpikeTrainsDataset, tt: Option<bool -> bool>, idx: nat)
    requires idx < ds.Len()
    ensures ds.(targetTransform := tt).GetItem(idx) == ds.GetItem(idx)
    ensures ds.(targetTransform := tt).Len() == ds.Len()
  {
  }

  /** An identity transform gives the same samples as no transform. */
  lemma IdentityTransformIsNoTransform(ds: SpikeTrainsDataset, idx: nat)
    requires idx < ds.Len()
    ensures ds.(transform := Some(s => s)).GetItem(idx) == ds.(transform := None).GetItem(idx)
  {
  }

  /**
    Without a transform, reading the samples for every index in `[0, Len())`
    gives back exactly the stored array, each sample labelled `False`.
   */
  lemma SamplesEnumerateRows(ds: SpikeTrainsDataset)
    requires ds.transform.None?
    ensures seq(ds.Len(), i requires 0 <= i < ds.Len() => ds.GetItem(i).0) == ds.inputSpikes
    ensures forall i :: 0 <= i < ds.Len() ==> !ds.GetItem(i).1
  {
  }

  /** Every stored row is the data of some in-range sample, before transformation. */
  lemma EveryRowIsASample(ds: SpikeTrainsDataset, row: seq<int>)
    requires row in ds.inputSpikes
    ensures exists idx: nat :: idx < ds.Len() && ds.(transform := None).GetItem(idx).0 == row
  {
    var idx :| 0 <= idx < |ds.inputSpikes| && ds.inputSpikes[idx] == row;
    assert ds.(transform := None).GetItem(idx).0 == row;
  }
}
