/** Block windowing of the filtered EMG signal (`hanning`, Analisis_emg.py:47-63).

    The signal is cut into consecutive blocks of `w` samples whose start indices are
    those of Python's `range(0, n - w, w)`; each block is multiplied element by element
    with the window and the tapered blocks are concatenated. The window itself
    (`np.hanning(w)`) is a parameter here, so `w` is its length. */
module Windowing {
  import opened Sequences

  datatype Result<T, E> = Ok(value: T) | Err(error: E)

  /** Why `hanning` raises instead of returning a signal. */
  datatype WindowError =
    | ZeroStep             // `range(0, n, 0)`: the window size is 0
    | NothingToConcatenate // no block fits, so `np.concatenate([])` raises

  /** Python's `range(start, stop, step)` for a positive `step`. */
  function Range(start: int, stop: int, step: nat): (r: seq<int>)
    requires step >= 1
    ensures |r| > 0 <==> start < stop
    ensures forall k :: 0 <= k < |r| ==> start <= r[k] < stop
    decreases stop - start
  {
    if start < stop then [start] + Range(start + step, stop, step) else []
  }

  /** The `k`-th value of `range(start, stop, step)` is `start + k * step`. */
  lemma {:induction false} RangeAt(start: int, stop: int, step: nat, k: nat)
    requires step >= 1 && k < |Range(start, stop, step)|
    ensures Range(start, stop, step)[k] == start + k * step
    decreases k
  {
    if k > 0 {
      RangeAt(start + step, stop, step, k - 1);
      assert start + step + (k - 1) * step == start + k * step;
    }
  }

  /** `segmento * ventana`: element-wise product of a block with the window. */
  function Taper(block: seq<real>, window: seq<real>): seq<real>
    requires |block| == |window|
  {
    seq(|window|, t requires 0 <= t < |window| => block[t] * window[t])
  }

  /** Start index of every block: the values of `range(0, n - w, w)`. */
  function BlockStarts(n: nat, w: nat): seq<int>
    requires w >= 1
  {
    Range(0, n - w, w)
  }

  /** The tapered blocks that start at `i`, `i + w`, ... while the start is below `n - w`. */
  function BlocksFrom(data: seq<real>, window: seq<real>, i: nat): (r: seq<seq<real>>)
    requires |window| >= 1
    ensures Uniform(r, |window|)
    decreases |data| - i
  {
    var w := |window|;
    if i < |data| - w then [Taper(data[i..i + w], window)] + BlocksFrom(data, window, i + w) else []
  }

  /** The list `datos_aventanados` before concatenation. */
  function WindowedBlocks(data: seq<real>, window: seq<real>): seq<seq<real>>
    requires |window| >= 1
  {
    BlocksFrom(data, window, 0)
  }

  /** The concatenated windowed signal (the value `hanning` returns when it does not raise). */
  function Tapered(data: seq<real>, window: seq<real>): seq<real>
    requires |window| >= 1
  {
    Concat(WindowedBlocks(data, window))
  }

  /** `hanning(data, window_size, fs)` with `window_size == |window|`: a stepped loop
      appends the tapered blocks to a list, which is then concatenated. */
  method Hanning(data: seq<real>, window: seq<real>) returns (r: Result<seq<real>, WindowError>)
    ensures |window| == 0 ==> r == Err(ZeroStep)
    ensures |window| >= 1 && |data| <= |window| ==> r == Err(NothingToConcatenate)
    ensures |window| >= 1 && |data| > |window| ==> r == Ok(Tapered(data, window))
  {
    var n := |data|;
    var w := |window|;
    if w == 0 {
      return Err(ZeroStep);
    }
    var blocks: seq<seq<real>> := [];
    var i := 0;
    while i < n - w
      invariant WindowedBlocks(data, window) == blocks + BlocksFrom(data, window, i)
      decreases n - w - i
    {
      var segment := data[i..i + w];
      assert blocks + BlocksFrom(data, window, i) == (blocks + [Taper(segment, window)]) + BlocksFrom(data, window, i + w);
      blocks := blocks + [Taper(segment, window)];
      i := i + w;
    }
    assert blocks == WindowedBlocks(data, window);
    assert n > w ==> WindowedBlocks(data, window) != [];
    if blocks == [] {
      return Err(NothingToConcatenate);
    }
    r := Ok(Concat(blocks));
  }

  /** Block `j` of those starting at `i` is the input from `i + j * w` on, tapered. */
  lemma {:induction false} BlocksFromAt(data: seq<real>, window: seq<real>, i: nat, j: nat)
    requires |window| >= 1 && j < |BlocksFrom(data, window, i)|
    ensures i + j * |window| + |window| < |data|
    ensures BlocksFrom(data, window, i)[j] == Taper(data[i + j * |window|..i + j * |window| + |window|], window)
    decreases j
  {
    var w := |window|;
    if j > 0 {
      BlocksFromAt(data, window, i + w, j - 1);
      assert i + w + (j - 1) * w == i + j * w;
    }
  }

  /** One block per value of `range(i, n - w, w)`. */
  lemma {:induction false} BlocksFromCount(data: seq<real>, window: seq<real>, i: nat)
    requires |window| >= 1
    ensures |BlocksFrom(data, window, i)| == |Range(i, |data| - |window|, |window|)|
    decreases |data| - i
  {
    if i < |data| - |window| {
      BlocksFromCount(data, window, i + |window|);
    }
  }

  /** The blocks follow `range(0, n - w, w)`: block `j` is the input from the `j`-th value
      of the range on, `j * w`, tapered; so blocks are contiguous, in order, from index 0,
      and never reach the last input sample. */
  lemma WindowedBlockAt(data: seq<real>, window: seq<real>, j: nat)
    requires |window| >= 1 && j < |WindowedBlocks(data, window)|
    ensures |WindowedBlocks(data, window)| == |BlockStarts(|data|, |window|)|
    ensures BlockStarts(|data|, |window|)[j] == j * |window|
    ensures j * |window| + |window| < |data|
    ensures WindowedBlocks(data, window)[j] == Taper(data[j * |window|..j * |window| + |window|], window)
  {
    BlocksFromCount(data, window, 0);
    BlocksFromAt(data, window, 0, j);
    RangeAt(0, |data| - |window|, |window|, j);
  }

  /** Euclidean division is determined by quotient and remainder. */
  lemma DivUnique(x: int, d: int, q: int, rem: int)
    requires d >= 1 && x == q * d + rem && 0 <= rem < d
    ensures x / d == q && x % d == rem
  {
    var q', r' := x / d, x % d;
    assert (q' - q) * d == rem - r';
    SmallMultipleIsZero(q' - q, d);
  }

  /** The only multiple of `d` strictly between `-d` and `d` is 0. */
  lemma SmallMultipleIsZero(e: int, d: int)
    requires d >= 1 && -d < e * d < d
    ensures e == 0
  {
  }

  /** Multiplying by a positive number preserves strict order. */
  lemma MultipleCancel(a: int, b: int, d: int)
    requires d >= 1 && a * d < b * d
    ensures a < b
  {
  }

  /** `range(start, stop, step)` has `ceil((stop - start) / step)` elements. */
  lemma {:induction false} RangeLength(start: int, stop: int, step: nat)
    requires step >= 1
    ensures |Range(start, stop, step)| == if start < stop then (stop - start - 1) / step + 1 else 0
    decreases stop - start
  {
    if start < stop {
      var x := stop - start - 1;
      RangeLength(start + step, stop, step);
      if start + step < stop {
        var q := (x - step) / step;
        DivUnique(x - step, step, q, (x - step) % step);
        DivUnique(x, step, q + 1, (x - step) % step);
      } else {
        DivUnique(x, step, 0, x);
      }
    }
  }

  /** For `n > w` there are `floor((n - 1) / w)` blocks, not `floor(n / w)`; the windowed
      signal has `w` samples per block, so it never reaches the last input sample. */
  lemma {:induction false} TaperedLength(data: seq<real>, window: seq<real>)
    requires |window| >= 1
    ensures |WindowedBlocks(data, window)| == if |data| > |window| then (|data| - 1) / |window| else 0
    ensures |Tapered(data, window)| == |WindowedBlocks(data, window)| * |window|
    ensures |data| > |window| ==> |Tapered(data, window)| <= |data| - 1
  {
    var n, w := |data|, |window|;
    BlocksFromCount(data, window, 0);
    RangeLength(0, n - w, w);
    if n > w {
      var q := (n - w - 1) / w;
      DivUnique(n - w - 1, w, q, (n - w - 1) % w);
      DivUnique(n - 1, w, q + 1, (n - w - 1) % w);
      assert (q + 1) * w + (n - 1) % w == n - 1;
    }
    ConcatUniformLength(WindowedBlocks(data, window), w);
  }

  /** When `n` is a multiple of `w` the last full block is dropped. */
  lemma DropsLastFullBlock(data: seq<real>, window: seq<real>)
    requires |window| >= 1 && |data| > |window| && |data| % |window| == 0
    ensures |WindowedBlocks(data, window)| == |data| / |window| - 1
  {
    var n, w := |data|, |window|;
    TaperedLength(data, window);
    var q := n / w;
    DivUnique(n, w, q, 0);
    DivUnique(n - 1, w, q - 1, w - 1);
  }

  /** Sample `t` of block `j` of the output is input sample `j * w + t` times window entry `t`. */
  lemma TaperedAt(data: seq<real>, window: seq<real>, j: nat, t: nat)
    requires |window| >= 1 && j < |WindowedBlocks(data, window)| && t < |window|
    ensures j * |window| + t < |Tapered(data, window)| && j * |window| + t < |data|
    ensures Tapered(data, window)[j * |window| + t] == data[j * |window| + t] * window[t]
  {
    WindowedBlockAt(data, window, j);
    ConcatUniformAt(WindowedBlocks(data, window), |window|, j, t);
  }

  /** Position `k` of the output lies in block `k / w`, at offset `k % w`. */
  lemma TaperedAtPosition(data: seq<real>, window: seq<real>, k: nat)
    requires |window| >= 1 && k < |Tapered(data, window)|
    ensures k < |data|
    ensures Tapered(data, window)[k] == data[k] * window[k % |window|]
  {
    var w := |window|;
    TaperedLength(data, window);
    BlockOfPosition(k, |WindowedBlocks(data, window)|, w);
    TaperedAt(data, window, k / w, k % w);
  }

  /** Position `k` below `m * w` is offset `k % w` of block `k / w`, one of the first `m`. */
  lemma BlockOfPosition(k: nat, m: nat, w: nat)
    requires w >= 1 && k < m * w
    ensures k / w < m && k == (k / w) * w + k % w && 0 <= k % w < w
  {
    var j := k / w;
    assert j * w <= k;
    MultipleCancel(j, m, w);
  }

  /** With a window that is zero at both ends (as the Hann window is), the first and the
      last sample of every block of the output are zero. */
  lemma BlockEdgesZero(data: seq<real>, window: seq<real>)
    requires |window| >= 1 && window[0] == 0.0 && window[|window| - 1] == 0.0
    ensures forall k :: 0 <= k < |Tapered(data, window)| && (k % |window| == 0 || k % |window| == |window| - 1) ==>
              Tapered(data, window)[k] == 0.0
  {
    forall k | 0 <= k < |Tapered(data, window)| && (k % |window| == 0 || k % |window| == |window| - 1)
      ensures Tapered(data, window)[k] == 0.0
    {
      TaperedAtPosition(data, window, k);
    }
  }
}
