# Spike-train dataset adapter, modelled in Dafny

This project models the dataset adapter of the HFO (high-frequency oscillation)
detector, found in `src/hfo/data/ripple_spike_trains_dataset.py`. It covers two parts:

- `prepare_spikes_data` aligns the UP and DOWN spike trains. It keeps only column 0
  of each 2-D array, which drops the channel index. Then it crops both trains to the
  row count of the shorter one.
- `SpikeTrainsDataset` gives indexed access to a spike array that is loaded once at
  construction. `__len__` is the row count. `__getitem__(idx)` returns row `idx`,
  passed through the optional `transform`, together with the constant label `False`.

A 2-D numeric array is a `seq<seq<int>>`, one inner sequence per row. Elements are
spike indicators or timestamps, so they are `int`. The dataset never changes after
construction, so it is modelled as the datatype `SpikeTrainsData.SpikeTrainsDataset`.
Its fields are the loaded array, an optional transform `seq<int> -> seq<int>` and an
optional target transform. The datatype's constructor stands for `__init__` once the
array has been loaded.

The dataset never calls `prepare_spikes_data`. `__len__` is the row count of the
array exactly as loaded, and the model keeps the two separate.

All definitions are in `ripple_spike_trains_dataset.dfy`, module `SpikeTrainsData`.

## Model

| member | source | states |
|---|---|---|
| `SpikeTrainsData.FirstColumn` | src/hfo/data/ripple_spike_trains_dataset.py:17-18 | `array[:, 0]` needs every row to have a column 0. Its result has one entry per row, and entry `i` is `m[i][0]` |
| `SpikeTrainsData.Take` | src/hfo/data/ripple_spike_trains_dataset.py:23-24 | `s[:n]` has length `min(n, len(s))` and is a prefix of `s` |
| `SpikeTrainsData.PrepareSpikesData` | src/hfo/data/ripple_spike_trains_dataset.py:15-26 | Needs a column 0 in every row of both inputs. Both outputs have length `min(rows(up), rows(down))`, so their lengths are equal. Output element `i` is `up[i][0]` and `down[i][0]`. Each output is a prefix of its input's first column |
| `SpikeTrainsData.PrepareSpikesDataKeepsShorter` | src/hfo/data/ripple_spike_trains_dataset.py:20-24 | The train with fewer rows is not cropped: its output is its whole first column |
| `SpikeTrainsData.PrepareSpikesDataSameRowCount` | src/hfo/data/ripple_spike_trains_dataset.py:22-24 | When both inputs have the same row count, nothing is cropped and the outputs are exactly the two first columns |
| `SpikeTrainsData.PrepareSpikesDataDetermined` | src/hfo/data/ripple_spike_trains_dataset.py:15-26 | Any pair with the cropped length whose elements are the rows' column-0 entries is the output, so length and elements fully determine it |
| `SpikeTrainsData.FirstColumnOfRowPrefix` | src/hfo/data/ripple_spike_trains_dataset.py:17-24 | Taking column 0 of the first `k` rows gives the first `k` entries of column 0 |
| `SpikeTrainsData.PrepareSpikesDataCropRowsFirst` | src/hfo/data/ripple_spike_trains_dataset.py:15-26 | Cropping the rows first and then taking column 0 gives the same pair as the source's order (column first, then crop) |
| `SpikeTrainsData.PrepareSpikesDataExample` | src/hfo/data/ripple_spike_trains_dataset.py:15-26 | UP `[[1,0],[0,1],[1,1]]` and DOWN `[[1,0],[1,0]]` align to `([1,0],[1,1])`: column 1 is dropped and the third UP row is cropped |
| `SpikeTrainsData.SpikeTrainsDataset.Len` | src/hfo/data/ripple_spike_trains_dataset.py:52-56 | The number of samples is the number of rows of the stored array |
| `SpikeTrainsData.SpikeTrainsDataset.GetItem` | src/hfo/data/ripple_spike_trains_dataset.py:58-83 | Needs `0 <= idx < len`. The label is always `False`. With no transform the sample is row `idx`; with a transform it is `transform(row idx)` |
| `SpikeTrainsData.TargetTransformHasNoEffect` | src/hfo/data/ripple_spike_trains_dataset.py:77-80 | Replacing the target transform changes neither the length nor any sample or label |
| `SpikeTrainsData.IdentityTransformIsNoTransform` | src/hfo/data/ripple_spike_trains_dataset.py:73-75 | The identity transform gives the same samples as having no transform |
| `SpikeTrainsData.SamplesEnumerateRows` | src/hfo/data/ripple_spike_trains_dataset.py:52-83 | With no transform, reading every index in `[0, len)` gives back exactly the stored array, with every label `False` |
| `SpikeTrainsData.EveryRowIsASample` | src/hfo/data/ripple_spike_trains_dataset.py:56-67 | Every stored row is the untransformed data of some in-range index |

In the model, `__getitem__` only reads the dataset, and because the dataset is a value
no call can change it. The source does not guarantee this; see the `GetItem` line
under "## Left out".

## Left out

- Loading the array with `np.load` (line 42) is file I/O. The datatype takes the already-loaded array.
- The `verbose` preview through `preview_np_array` (lines 43-44) is diagnostic output only. `utils.io` is not part of this model.
- The conversion from numpy to torch with `from_numpy` (line 47) is a foreign library call. It does not change the contents.
- The torch `Dataset` base class (lines 1, 28) only supplies the length and item protocol.
- The parameter `annotations_filename` (line 33) is never used.
- The label logic and the target-transform logic are unimplemented placeholders (lines 70-71, 79-80). The model keeps the constant `False` label and a target transform that does nothing, and adds no label semantics.
- SpikeTrainsData.SpikeTrainsDataset.GetItem: indices are restricted to `[0, len)`. Python's negative-index wrap-around and the `IndexError` for out-of-range indices are not modelled.
- SpikeTrainsData.SpikeTrainsDataset.GetItem: aliasing is not modelled. Indexing the stored tensor with an int (line 67) returns a view that shares storage with the stored array. The model assumes the transform (line 75) does not mutate its argument. A transform that updates the row in place, or a caller that mutates the returned sample, would change the stored array and every later `__getitem__` result. Mutation through either path is not modelled.
- Element dtypes are not modelled. Every element is an unbounded `int`.
- numpy arrays are rectangular. The model asks only that every row has a column 0, because that is the only column the code reads. A `seq<seq<int>>` with no rows cannot record a column count. So an array of shape `(0, 0)`, where `[:, 0]` (lines 17-18) raises `IndexError`, is modelled as `[]`: `HasFirstColumn` holds vacuously and `FirstColumn` returns `[]`.
