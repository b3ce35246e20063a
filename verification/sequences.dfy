/** Concatenation of a list of sequences, as `np.concatenate` does for the list of
    tapered blocks and as a flattening of a list of bursts. */
module Sequences {

  /** The sequences of `ss`, one after another, in order. */
  function Concat<T>(ss: seq<seq<T>>): seq<T>
  {
    if ss == [] then [] else ss[0] + Concat(ss[1..])
  }

  /** All members of `ss` have length `w`. */
  predicate Uniform<T>(ss: seq<seq<T>>, w: nat)
  {
    forall k :: 0 <= k < |ss| ==> |ss[k]| == w
  }

  /** Concatenating `m` sequences of length `w` gives `m * w` elements. */
  lemma {:induction false} ConcatUniformLength<T>(ss: seq<seq<T>>, w: nat)
    requires Uniform(ss, w)
    ensures |Concat(ss)| == |ss| * w
  {
    if ss != [] {
      ConcatUniformLength(ss[1..], w);
      assert |ss| * w == w + (|ss| - 1) * w;
    }
  }

  /** In a concatenation of length-`w` sequences, element `t` of member `j`
      sits at position `j * w + t`. */
  lemma {:induction false} ConcatUniformAt<T>(ss: seq<seq<T>>, w: nat, j: nat, t: nat)
    requires Uniform(ss, w)
    requires j < |ss| && t < w
    ensures j * w + t < |Concat(ss)|
    ensures Concat(ss)[j * w + t] == ss[j][t]
  {
    if j > 0 {
      ConcatUniformAt(ss[1..], w, j - 1, t);
      assert j * w + t == w + ((j - 1) * w + t);
    }
  }

  /** Every element of a concatenation comes from one of its members. */
  lemma {:induction false} ConcatMember<T>(ss: seq<seq<T>>, k: nat)
    requires k < |Concat(ss)|
    ensures exists j, t :: 0 <= j < |ss| && 0 <= t < |ss[j]| && Concat(ss)[k] == ss[j][t]
  {
    if k < |ss[0]| {
      assert Concat(ss)[k] == ss[0][k];
    } else {
      ConcatMember(ss[1..], k - |ss[0]|);
      var j, t :| 0 <= j < |ss[1..]| && 0 <= t < |ss[1..][j]| && Concat(ss[1..])[k - |ss[0]|] == ss[1..][j][t];
      assert Concat(ss)[k] == ss[j + 1][t];
    }
  }
}
