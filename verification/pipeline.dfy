/** The script's sequencing of the two stages (Analisis_emg.py:116-120): the filtered
    signal is windowed block by block, then split into bursts. With a window whose last
    entry is zero, as the Hann window's is, every block ends in a zero sample, so no
    burst can run from one block into the next. */
module Pipeline {
  import opened Sequences
  import opened Windowing
  import opened Segmentation

  /** The bursts of each block, block by block. */
  function BurstsPerBlock(blocks: seq<seq<real>>): seq<seq<seq<real>>>
  {
    seq(|blocks|, j requires 0 <= j < |blocks| => Runs(blocks[j]))
  }

  /** Every block is empty or ends in a zero sample. */
  predicate EndsInZero(blocks: seq<seq<real>>)
  {
    forall j :: 0 <= j < |blocks| ==> blocks[j] == [] || blocks[j][|blocks[j]| - 1] == 0.0
  }

  /** Bursts of blocks that end in zeros are the bursts of each block, concatenated. */
  lemma {:induction false} RunsOfConcat(blocks: seq<seq<real>>)
    requires EndsInZero(blocks)
    ensures Runs(Concat(blocks)) == Concat(BurstsPerBlock(blocks))
  {
    if blocks != [] {
      RunsOfConcat(blocks[1..]);
      RunsAppendAfterZero(blocks[0], Concat(blocks[1..]));
      assert BurstsPerBlock(blocks)[1..] == BurstsPerBlock(blocks[1..]);
    }
  }

  /** With a window whose last entry is zero, every tapered block ends in a zero sample. */
  lemma BlocksEndInZero(data: seq<real>, window: seq<real>)
    requires |window| >= 1 && window[|window| - 1] == 0.0
    ensures EndsInZero(WindowedBlocks(data, window))
  {
    var blocks := WindowedBlocks(data, window);
    forall j | 0 <= j < |blocks|
      ensures blocks[j] == [] || blocks[j][|blocks[j]| - 1] == 0.0
    {
      WindowedBlockAt(data, window, j);
    }
  }

  /** `b` is one of the bursts of a single block. */
  predicate BurstOfOneBlock(b: seq<real>, blocks: seq<seq<real>>)
  {
    exists j :: 0 <= j < |blocks| && b in Runs(blocks[j])
  }

  /** Each burst of the windowed signal is a burst of a single block: the bursts of the
      whole signal are exactly the bursts of the blocks, taken block by block. */
  lemma BurstsStayInBlocks(data: seq<real>, window: seq<real>)
    requires |window| >= 1 && window[|window| - 1] == 0.0
    ensures Runs(Tapered(data, window)) == Concat(BurstsPerBlock(WindowedBlocks(data, window)))
    ensures forall k :: 0 <= k < |Runs(Tapered(data, window))| ==>
              BurstOfOneBlock(Runs(Tapered(data, window))[k], WindowedBlocks(data, window))
  {
    var blocks := WindowedBlocks(data, window);
    var perBlock := BurstsPerBlock(blocks);
    var bursts := Runs(Tapered(data, window));
    BlocksEndInZero(data, window);
    RunsOfConcat(blocks);
    assert bursts == Concat(perBlock);
    forall k | 0 <= k < |bursts|
      ensures BurstOfOneBlock(bursts[k], blocks)
    {
      ConcatMember(perBlock, k);
      var j, m :| 0 <= j < |perBlock| && 0 <= m < |perBlock[j]| && bursts[k] == perBlock[j][m];
      assert bursts[k] in Runs(blocks[j]);
    }
  }

  /** Lines 116-120 of the script: window the filtered signal, then extract its bursts. */
  method WindowAndExtract(filtered: seq<real>, window: seq<real>) returns (r: Result<seq<seq<real>>, WindowError>)
    ensures |window| == 0 ==> r == Err(ZeroStep)
    ensures |window| >= 1 && |filtered| <= |window| ==> r == Err(NothingToConcatenate)
    ensures |window| >= 1 && |filtered| > |window| ==> r == Ok(Runs(Tapered(filtered, window)))
    ensures |window| >= 1 && window[|window| - 1] == 0.0 && r.Ok? ==>
              r.value == Concat(BurstsPerBlock(WindowedBlocks(filtered, window)))
  {
    var windowed := Hanning(filtered, window);
    match windowed {
      case Err(e) =>
        r := Err(e);
      case Ok(signal) =>
        var bursts := ExtractBursts(signal);
        if window[|window| - 1] == 0.0 {
          BurstsStayInBlocks(filtered, window);
        }
        r := Ok(bursts);
    }
  }
}
