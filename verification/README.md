# EMG windowing and burst extraction

This project models the two sample-sequence routines of the EMG analysis script
`Analisis_emg.py`. They sit between the Butterworth filter cascade and the per-burst
statistics.

- **Windowing** (`hanning`). The filtered signal is cut into consecutive blocks of
  `window_size` samples, starting at index 0. The start indices are the values of
  Python's `range(0, n - window_size, window_size)`. Each block is multiplied element by
  element with the window. The tapered blocks are concatenated with `np.concatenate`.
- **Burst extraction** (`distinto_de_cero`). The windowed signal is scanned left to
  right. Runs of samples that are not exactly zero are collected into bursts. Zeros are
  dropped. Bursts are emitted in input order and are never empty.

Samples are `real`. The window is a sequence argument, and its length plays the role of
`window_size`. Both routines are loops in the source, so each is a `method` with a
loop. Each method is proved equal to a functional definition: `Windowing.Tapered` for
windowing and `Segmentation.Runs` for extraction. The properties are lemmas about those
functions.

Files:

- `sequences.dfy`: concatenation of a list of sequences, and where its elements land.
- `windowing.dfy`: `range`, the tapered blocks, `hanning` and its error cases.
- `segmentation.dfy`: maximal non-zero runs, the extraction loop, flattening,
  maximality, uniqueness, idempotence and edge cases.
- `pipeline.dfy`: the script's sequence of windowing then extraction (lines 116-120).
  With a window whose last entry is zero, no burst crosses a block boundary.

An idealised block windowing would keep `floor(n / w)` blocks and give an empty result
when `n < w`. The loop bound `n - window_size` at Analisis_emg.py:54 instead gives
`floor((n - 1) / w)` blocks when `n > w`. So the last full block is dropped when `n` is
a multiple of `w`, and the last sample is never used. When `n <= w` no block is
produced, and `np.concatenate([])` at line 61 raises. A window size of 0 makes `range`
raise. The model follows the code and returns an error value in both cases.

## Model

| member | source | states |
|---|---|---|
| `Windowing.Range` | Analisis_emg.py:54 | `range(start, stop, step)` with a positive step is non-empty exactly when `start < stop`, and every value lies in `[start, stop)` |
| `Windowing.RangeAt` | Analisis_emg.py:54 | the `k`-th value of the range is `start + k * step` |
| `Windowing.RangeLength` | Analisis_emg.py:54 | the range has `(stop - start - 1) / step + 1` values when `start < stop`, otherwise none |
| `Windowing.BlocksFrom` | Analisis_emg.py:54-58 | every tapered block has exactly `window_size` samples |
| `Windowing.Taper` | Analisis_emg.py:57 | `segmento * ventana`; no contract of its own: `TaperedAt` and `TaperedAtPosition` state each product it contributes to the output |
| `Sequences.Concat` | Analisis_emg.py:61 | `np.concatenate` of the block list; no contract of its own: `ConcatUniformLength` gives its length and `ConcatUniformAt` puts element `t` of member `j` at position `j * w + t` |
| `Windowing.WindowedBlocks` | Analisis_emg.py:51-58 | the list `datos_aventanados`; no contract of its own: `TaperedLength` gives its size and `WindowedBlockAt` gives each block |
| `Windowing.Tapered` | Analisis_emg.py:54-61 | the value `hanning` returns; no contract of its own: `TaperedLength` (its length) together with `TaperedAtPosition` (each sample) determine it completely |
| `Windowing.Hanning` | Analisis_emg.py:47-63 | window size 0 is the `range` error; `n <= w` is the empty-concatenation error; otherwise the result is the concatenation of the tapered blocks |
| `Windowing.BlocksFromAt` | Analisis_emg.py:54-57 | block `j` of the loop started at `i` is `data[i + j*w .. i + j*w + w]` times the window, and it ends before the last input sample |
| `Windowing.BlocksFromCount` | Analisis_emg.py:54 | the loop appends one block per value of `range(i, n - w, w)` |
| `Windowing.WindowedBlockAt` | Analisis_emg.py:54-58 | the blocks follow `range(0, n - w, w)`; block `j` starts at `j * w` and is that slice of the input times the window, so blocks are contiguous, in order and start at 0 |
| `Windowing.TaperedLength` | Analisis_emg.py:54-61 | for `n > w` there are `floor((n - 1) / w)` blocks, otherwise none; the output has `w` samples per block and at most `n - 1` samples |
| `Windowing.DropsLastFullBlock` | Analisis_emg.py:54 | when `n` is a multiple of `w` (and `n > w`) only `n / w - 1` blocks are produced |
| `Windowing.TaperedAt` | Analisis_emg.py:54-58 | `output[j*w + t] == data[j*w + t] * window[t]` for each block `j` and offset `t < w` |
| `Windowing.TaperedAtPosition` | Analisis_emg.py:54-61 | every output position `k` is a real input position, and `output[k] == data[k] * window[k % w]` |
| `Windowing.BlockEdgesZero` | Analisis_emg.py:50-58 | if the window is zero at both ends, every output sample at a block's first or last position (`k % w == 0` or `k % w == w - 1`) is zero |
| `Segmentation.Runs` | Analisis_emg.py:67-82 | every emitted run is non-empty and has no zero sample; an input that starts with a non-zero sample has a first run that starts with it |
| `Segmentation.ExtractBursts` | Analisis_emg.py:67-82 | the left-to-right scan with the buffer `segmento_actual` returns exactly `Runs(s)` |
| `Segmentation.ScanStep` | Analisis_emg.py:71-77 | a non-zero sample extends the current run; a zero closes a non-empty current run; a zero after no run is skipped |
| `Segmentation.ScanKeepsInvariant` | Analisis_emg.py:71-77 | each loop step keeps "finished runs, then the runs of the buffer plus the rest, are the runs of the input" |
| `Segmentation.RunThenZero` | Analisis_emg.py:72-77 | a run followed by a zero is emitted whole, and the scan restarts after the zero |
| `Segmentation.SingleRun` | Analisis_emg.py:79-80 | a non-empty input with no zero is exactly one segment, equal to the input |
| `Segmentation.LeadingZeros` | Analisis_emg.py:74-75 | zeros in front of the signal produce no segment |
| `Segmentation.RunsFlatten` | Analisis_emg.py:71-80 | concatenating the segments in order gives the input with every zero removed |
| `Segmentation.NoRunsIffAllZero` | Analisis_emg.py:67-82 | the result is empty exactly when every sample is zero (including the empty input) |
| `Segmentation.RunsCountBound` | Analisis_emg.py:75-80 | there are at most (number of zeros) + 1 segments, and at most (number of zeros) when the input starts with a zero |
| `Segmentation.Gaps` | Analisis_emg.py:71-82 | there is one zero gap around and between each pair of segments; the first gap is empty exactly when the input starts with a non-zero sample |
| `Segmentation.RunsAreMaximal` | Analisis_emg.py:71-82 | every input is its segments interleaved with zero gaps, and each gap between two segments has at least one zero, so segments are maximal runs |
| `Segmentation.RunsOfWeave` | Analisis_emg.py:71-82 | interleaving any non-empty, zero-free runs with zero gaps, at least one zero between runs, and scanning again gives exactly those runs |
| `Segmentation.RunsOfJoin` | Analisis_emg.py:71-82 | joining non-empty, zero-free runs with a single 0 between them and scanning again gives the same runs |
| `Segmentation.ExtractionIdempotent` | Analisis_emg.py:71-82 | re-extracting from the segments joined by single zeros reproduces the segments |
| `Segmentation.RunsAppendAfterZero` | Analisis_emg.py:72-77 | when `a` is empty or ends in a zero, the segments of `a + b` are those of `a` followed by those of `b` |
| `Pipeline.RunsOfConcat` | Analisis_emg.py:71-80 | for blocks that each end in a zero, the segments of their concatenation are the segments of each block, in block order |
| `Pipeline.BlocksEndInZero` | Analisis_emg.py:50-58 | with a window whose last entry is zero, every tapered block ends in a zero sample |
| `Pipeline.BurstsStayInBlocks` | Analisis_emg.py:47-82 | with a window whose last entry is zero, the segments of the windowed signal are the segments of the blocks taken one by one, so each segment lies inside a single block |
| `Pipeline.WindowAndExtract` | Analisis_emg.py:116-120 | windowing then extraction fails exactly as `hanning` does; otherwise it returns the runs of the windowed signal, and for a window ending in zero these are the blocks' runs, block by block |

## Left out

- `pasabaja`, `pasaalta` and `filtros` (Analisis_emg.py:12-43): Butterworth design and zero-phase filtering are SciPy floating-point calls with no logic of their own. The model starts from the filtered signal.
- `fft_segmentos` (Analisis_emg.py:85-99): a SciPy FFT followed by matplotlib plots.
- `calcular_media_segmentos` (Analisis_emg.py:164-172): numpy mean, median and standard deviation, printed to the console. It returns nothing.
- The one-way ANOVA with `f_oneway` and the 0.05 threshold message (Analisis_emg.py:200-210): floating-point statistics and console output.
- Loading the data file (Analisis_emg.py:103-106) and all plotting (Analisis_emg.py:127-159, 177-195): I/O and presentation.
- The values of `np.hanning` (Analisis_emg.py:50): the cosine is not modelled. The window is an argument. The zero end points are a stated precondition where the properties need them.
- A negative `window_size`: the window length is a `nat`. In the source, `np.hanning` then gives an empty array, the range is empty, and `np.concatenate` raises, as in the `n <= w` case.
- The unused `fs` argument of `hanning` (Analisis_emg.py:47): it has no effect on the result.
- IEEE-754 behaviour: samples are exact reals. NaN, the equality `-0.0 == 0` and rounding in the products are not modelled.
- The conversion of each finished buffer to a numpy array (`np.array(segmento_actual)`, Analisis_emg.py:76 and 80): a segment is a fresh sequence value, so copying versus sharing is not visible.
