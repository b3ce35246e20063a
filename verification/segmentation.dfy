/** Burst extraction from the windowed signal (`distinto_de_cero`, Analisis_emg.py:67-82).

    A burst is a maximal run of consecutive samples that are not exactly zero. `Runs`
    is the reference definition, by recursion on the first sample; `ExtractBursts` is
    the left-to-right scan of the source, proved equal to it. */
module Segmentation {
  import opened Sequences

  /** No sample of `s` is zero. */
  predicate NonZero(s: seq<real>)
  {
    forall i :: 0 <= i < |s| ==> s[i] != 0.0
  }

  /** A burst: a non-empty sequence of non-zero samples. */
  predicate IsBurst(b: seq<real>)
  {
    b != [] && NonZero(b)
  }

  /** The maximal runs of non-zero samples of `s`, in order of occurrence. */
  function Runs(s: seq<real>): (r: seq<seq<real>>)
    ensures forall k :: 0 <= k < |r| ==> IsBurst(r[k])
    ensures s != [] && s[0] != 0.0 ==> r != [] && r[0] != [] && r[0][0] == s[0]
  {
    if s == [] then []
    else if s[0] == 0.0 then Runs(s[1..])
    else if |s| > 1 && s[1] != 0.0 then
      // s[0] extends the run that starts at s[1]
      var rest := Runs(s[1..]);
      [[s[0]] + rest[0]] + rest[1..]
    else
      // s[0] is a run of its own
      [[s[0]]] + Runs(s[1..])
  }

  /** The samples of `s` that are not zero, in order. */
  function NonZeros(s: seq<real>): seq<real>
  {
    if s == [] then []
    else if s[0] != 0.0 then [s[0]] + NonZeros(s[1..])
    else NonZeros(s[1..])
  }

  /** The number of zero samples of `s`. */
  function CountZeros(s: seq<real>): nat
  {
    if s == [] then 0
    else (if s[0] == 0.0 then 1 else 0) + CountZeros(s[1..])
  }

  /** `m` zero samples. */
  function Zeros(m: nat): seq<real>
  {
    if m == 0 then [] else [0.0] + Zeros(m - 1)
  }

  /** A leading zero is dropped. */
  lemma RunsZeroHead(t: seq<real>)
    ensures Runs([0.0] + t) == Runs(t)
  {
    assert ([0.0] + t)[1..] == t;
  }

  /** A non-zero sample in front of a run joins that run. */
  lemma RunsJoinHead(x: real, t: seq<real>)
    requires x != 0.0 && t != [] && t[0] != 0.0
    ensures Runs([x] + t) == [[x] + Runs(t)[0]] + Runs(t)[1..]
  {
    assert ([x] + t)[1..] == t;
  }

  /** A non-zero sample in front of a zero, or at the end, is a run of its own. */
  lemma RunsAloneHead(x: real, t: seq<real>)
    requires x != 0.0 && (t == [] || t[0] == 0.0)
    ensures Runs([x] + t) == [[x]] + Runs(t)
  {
    assert ([x] + t)[1..] == t;
  }

  /** A burst followed by a zero ends as a run of its own. */
  lemma {:induction false} RunThenZero(b: seq<real>, rest: seq<real>)
    requires IsBurst(b)
    ensures Runs(b + [0.0] + rest) == [b] + Runs(rest)
  {
    var s := b + [0.0] + rest;
    assert s[0] == b[0];
    if |b| == 1 {
      assert s[1..] == [0.0] + rest;
      assert s[1..][1..] == rest;
      assert [s[0]] == b;
    } else {
      assert s[1..] == b[1..] + [0.0] + rest;
      assert s[1] == b[1];
      RunThenZero(b[1..], rest);
      assert [s[0]] + b[1..] == b;
    }
  }

  /** A sequence with no zero sample, when not empty, is exactly one burst. */
  lemma {:induction false} SingleRun(b: seq<real>)
    requires IsBurst(b)
    ensures Runs(b) == [b]
  {
    if |b| > 1 {
      SingleRun(b[1..]);
      assert [b[0]] + b[1..] == b;
    } else {
      assert b == [b[0]] && b[1..] == [];
    }
  }

  /** Leading zeros are dropped. */
  lemma {:induction false} LeadingZeros(m: nat, t: seq<real>)
    ensures Runs(Zeros(m) + t) == Runs(t)
  {
    if m > 0 {
      assert (Zeros(m) + t)[1..] == Zeros(m - 1) + t;
      LeadingZeros(m - 1, t);
    } else {
      assert Zeros(m) + t == t;
    }
  }

  /** Concatenating the bursts in order gives the input with its zeros removed. */
  lemma {:induction false} RunsFlatten(s: seq<real>)
    ensures Concat(Runs(s)) == NonZeros(s)
  {
    if s != [] {
      RunsFlatten(s[1..]);
      if s[0] != 0.0 && |s| > 1 && s[1] != 0.0 {
        var rest := Runs(s[1..]);
        assert Concat(rest) == rest[0] + Concat(rest[1..]);
        assert ([[s[0]] + rest[0]] + rest[1..])[1..] == rest[1..];
      } else if s[0] != 0.0 {
        assert ([[s[0]]] + Runs(s[1..]))[1..] == Runs(s[1..]);
      }
    }
  }

  /** No burst exactly when every sample is zero (in particular for the empty input). */
  lemma {:induction false} NoRunsIffAllZero(s: seq<real>)
    ensures Runs(s) == [] <==> forall i :: 0 <= i < |s| ==> s[i] == 0.0
  {
    if s != [] {
      NoRunsIffAllZero(s[1..]);
      if s[0] == 0.0 {
        assert forall i :: 1 <= i < |s| ==> s[i] == s[1..][i - 1];
      }
    }
  }

  /** There are at most one more bursts than zeros; at most as many when `s` starts with a zero. */
  lemma {:induction false} RunsCountBound(s: seq<real>)
    ensures |Runs(s)| <= CountZeros(s) + 1
    ensures s != [] && s[0] == 0.0 ==> |Runs(s)| <= CountZeros(s)
  {
    if s != [] {
      RunsCountBound(s[1..]);
    }
  }

  /** Nonnegative gap lengths that separate consecutive bursts by at least one zero. */
  predicate Separating(gaps: seq<nat>)
  {
    forall k :: 1 <= k < |gaps| - 1 ==> gaps[k] >= 1
  }

  /** `gaps[0]` zeros, `bursts[0]`, `gaps[1]` zeros, ..., `bursts[m-1]`, `gaps[m]` zeros. */
  function Weave(gaps: seq<nat>, bursts: seq<seq<real>>): seq<real>
    requires |gaps| == |bursts| + 1
    decreases |bursts|
  {
    if bursts == [] then Zeros(gaps[0])
    else Zeros(gaps[0]) + bursts[0] + Weave(gaps[1..], bursts[1..])
  }

  /** The lengths of the zero gaps around and between the bursts of `s`. */
  function Gaps(s: seq<real>): (g: seq<nat>)
    ensures |g| == |Runs(s)| + 1
    ensures s != [] && s[0] != 0.0 ==> g[0] == 0
    ensures s != [] && s[0] == 0.0 ==> g[0] >= 1
  {
    if s == [] then [0]
    else if s[0] == 0.0 then
      var g := Gaps(s[1..]);
      [g[0] + 1] + g[1..]
    else if |s| > 1 && s[1] != 0.0 then Gaps(s[1..])
    else [0] + Gaps(s[1..])
  }

  /** One more leading zero in front of a woven sequence. */
  lemma {:induction false} WeaveMoreZeros(z: nat, later: seq<nat>, bursts: seq<seq<real>>)
    requires |later| == |bursts|
    ensures Weave([z + 1] + later, bursts) == [0.0] + Weave([z] + later, bursts)
  {
    var g, g' := [z] + later, [z + 1] + later;
    assert g[1..] == later && g'[1..] == later;
    if bursts != [] {
      var rest := Weave(later, bursts[1..]);
      assert Weave(g', bursts) == Zeros(z + 1) + bursts[0] + rest;
      assert Weave(g, bursts) == Zeros(z) + bursts[0] + rest;
    }
  }

  /** Maximality: every input is its bursts woven with zero gaps, and consecutive bursts
      are separated by at least one zero. */
  lemma {:induction false} RunsAreMaximal(s: seq<real>)
    ensures Separating(Gaps(s))
    ensures s == Weave(Gaps(s), Runs(s))
  {
    if s == [] {
      return;
    }
    var t := s[1..];
    assert s == [s[0]] + t;
    var g, r := Gaps(t), Runs(t);
    RunsAreMaximal(t);
    if s[0] == 0.0 {
      RunsZeroHead(t);
      assert [g[0]] + g[1..] == g;
      WeaveMoreZeros(g[0], g[1..], r);
    } else if t != [] && t[0] != 0.0 {
      RunsJoinHead(s[0], t);
      MaximalJoinHead(s[0], g, r);
    } else {
      RunsAloneHead(s[0], t);
      MaximalAloneHead(s[0], t, g, r);
    }
  }

  /** Step of `RunsAreMaximal` where the first sample joins the run after it. */
  lemma MaximalJoinHead(x: real, g: seq<nat>, r: seq<seq<real>>)
    requires |g| == |r| + 1 && r != [] && g[0] == 0
    ensures Weave(g, [[x] + r[0]] + r[1..]) == [x] + Weave(g, r)
  {
    var r' := [[x] + r[0]] + r[1..];
    assert r'[1..] == r[1..];
    assert Zeros(0) == [];
  }

  /** Step of `RunsAreMaximal` where the first sample is a run of its own. */
  lemma MaximalAloneHead(x: real, t: seq<real>, g: seq<nat>, r: seq<seq<real>>)
    requires |g| == |r| + 1 && Separating(g) && t == Weave(g, r)
    requires t == [] || t[0] == 0.0
    requires forall k :: 0 <= k < |r| ==> IsBurst(r[k])
    ensures Separating([0] + g)
    ensures Weave([0] + g, [[x]] + r) == [x] + Weave(g, r)
  {
    var g', r' := [0] + g, [[x]] + r;
    assert g'[1..] == g && r'[1..] == r;
    assert Zeros(0) == [];
  }

  /** Uniqueness: weaving bursts with separating zero gaps and splitting again gives
      back exactly those bursts. */
  lemma {:induction false} RunsOfWeave(gaps: seq<nat>, bursts: seq<seq<real>>)
    requires |gaps| == |bursts| + 1 && Separating(gaps)
    requires forall k :: 0 <= k < |bursts| ==> IsBurst(bursts[k])
    ensures Runs(Weave(gaps, bursts)) == bursts
    decreases |bursts|
  {
    if bursts == [] {
      LeadingZeros(gaps[0], []);
      assert Zeros(gaps[0]) + [] == Zeros(gaps[0]);
    } else if gaps[1] == 0 {
      WeaveLastBurst(gaps, bursts);
      LeadingZeros(gaps[0], bursts[0]);
      SingleRun(bursts[0]);
    } else {
      var gaps' := [gaps[1] - 1] + gaps[2..];
      var rest := Weave(gaps', bursts[1..]);
      WeaveNextBurst(gaps, bursts);
      SeparatingShift(gaps);
      assert Weave(gaps, bursts) == Zeros(gaps[0]) + (bursts[0] + [0.0] + rest);
      LeadingZeros(gaps[0], bursts[0] + [0.0] + rest);
      RunThenZero(bursts[0], rest);
      RunsOfWeave(gaps', bursts[1..]);
      assert [bursts[0]] + bursts[1..] == bursts;
    }
  }

  /** A burst followed by no zero gap is the last one. */
  lemma WeaveLastBurst(gaps: seq<nat>, bursts: seq<seq<real>>)
    requires |gaps| == |bursts| + 1 && Separating(gaps) && bursts != [] && gaps[1] == 0
    ensures |bursts| == 1 && Weave(gaps, bursts) == Zeros(gaps[0]) + bursts[0]
  {
    assert Weave(gaps[1..], bursts[1..]) == Zeros(0) == [];
  }

  /** A burst followed by a non-empty zero gap: peel off the burst and one zero. */
  lemma WeaveNextBurst(gaps: seq<nat>, bursts: seq<seq<real>>)
    requires |gaps| == |bursts| + 1 && bursts != [] && gaps[1] >= 1
    ensures Weave(gaps[1..], bursts[1..]) == [0.0] + Weave([gaps[1] - 1] + gaps[2..], bursts[1..])
  {
    assert gaps[1..] == [gaps[1] - 1 + 1] + gaps[2..];
    WeaveMoreZeros(gaps[1] - 1, gaps[2..], bursts[1..]);
  }

  /** Dropping the first gap and shortening the next keeps the gaps separating. */
  lemma SeparatingShift(gaps: seq<nat>)
    requires |gaps| >= 2 && Separating(gaps) && gaps[1] >= 1
    ensures Separating([gaps[1] - 1] + gaps[2..])
  {
    var gaps' := [gaps[1] - 1] + gaps[2..];
    assert forall k :: 1 <= k < |gaps'| ==> gaps'[k] == gaps[k + 1];
  }

  /** The bursts joined with a single zero between consecutive ones. */
  function Join(bursts: seq<seq<real>>): seq<real>
  {
    if bursts == [] then []
    else if |bursts| == 1 then bursts[0]
    else bursts[0] + [0.0] + Join(bursts[1..])
  }

  /** Splitting bursts joined by single zeros gives them back. */
  lemma {:induction false} RunsOfJoin(bursts: seq<seq<real>>)
    requires forall k :: 0 <= k < |bursts| ==> IsBurst(bursts[k])
    ensures Runs(Join(bursts)) == bursts
  {
    if |bursts| == 1 {
      SingleRun(bursts[0]);
    } else if |bursts| > 1 {
      RunThenZero(bursts[0], Join(bursts[1..]));
      RunsOfJoin(bursts[1..]);
      assert [bursts[0]] + bursts[1..] == bursts;
    }
  }

  /** Idempotence: re-extracting from the bursts joined with single zeros reproduces them. */
  lemma ExtractionIdempotent(s: seq<real>)
    ensures Runs(Join(Runs(s))) == Runs(s)
  {
    RunsOfJoin(Runs(s));
  }

  /** Bursts do not cross a zero: when `a` is empty or ends in a zero, the bursts of
      `a + b` are those of `a` followed by those of `b`. */
  lemma {:induction false} RunsAppendAfterZero(a: seq<real>, b: seq<real>)
    requires a == [] || a[|a| - 1] == 0.0
    ensures Runs(a + b) == Runs(a) + Runs(b)
  {
    if a == [] {
      assert a + b == b;
      return;
    }
    assert (a + b)[1..] == a[1..] + b;
    if a[0] == 0.0 {
      RunsAppendAfterZero(a[1..], b);
    } else {
      assert |a| >= 2;
      RunsAppendAfterZero(a[1..], b);
      if a[1] != 0.0 {
        var ra := Runs(a[1..]);
        assert Runs(a[1..] + b) == ra + Runs(b);
        assert (ra + Runs(b))[1..] == ra[1..] + Runs(b);
      }
    }
  }

  /** One step of the scan: what the remaining bursts become after sample `s[i]`. */
  lemma ScanStep(s: seq<real>, i: nat, current: seq<real>)
    requires i < |s| && NonZero(current)
    ensures s[i] != 0.0 ==> Runs((current + [s[i]]) + s[i + 1..]) == Runs(current + s[i..])
    ensures s[i] == 0.0 && current != [] ==> Runs(current + s[i..]) == [current] + Runs(s[i + 1..])
    ensures s[i] == 0.0 && current == [] ==> Runs(current + s[i..]) == Runs(s[i + 1..])
  {
    var rest := s[i..];
    assert rest == [s[i]] + s[i + 1..];
    if s[i] != 0.0 {
      assert (current + [s[i]]) + s[i + 1..] == current + rest;
    } else if current != [] {
      RunThenZero(current, s[i + 1..]);
      assert current + rest == current + [0.0] + s[i + 1..];
    } else {
      RunsZeroHead(s[i + 1..]);
      assert current + rest == rest;
    }
  }

  /** The loop invariant of `ExtractBursts` is kept by one step of the scan. */
  lemma ScanKeepsInvariant(s: seq<real>, i: nat, segments: seq<seq<real>>, current: seq<real>)
    requires i < |s| && NonZero(current)
    requires segments + Runs(current + s[i..]) == Runs(s)
    ensures s[i] != 0.0 ==>
              NonZero(current + [s[i]]) && segments + Runs((current + [s[i]]) + s[i + 1..]) == Runs(s)
    ensures s[i] == 0.0 && current != [] ==> (segments + [current]) + Runs([] + s[i + 1..]) == Runs(s)
    ensures s[i] == 0.0 && current == [] ==> segments + Runs([] + s[i + 1..]) == Runs(s)
  {
    ScanStep(s, i, current);
    assert [] + s[i + 1..] == s[i + 1..];
    if s[i] == 0.0 && current != [] {
      assert (segments + [current]) + Runs(s[i + 1..]) == segments + ([current] + Runs(s[i + 1..]));
    }
  }

  /** `segmentos`: the scan of the source, one sample at a time, with the run in
      progress kept in `current` (`segmento_actual`). */
  method ExtractBursts(s: seq<real>) returns (segments: seq<seq<real>>)
    ensures segments == Runs(s)
  {
    segments := [];
    var current: seq<real> := [];
    var i := 0;
    assert current + s[i..] == s;
    while i < |s|
      invariant 0 <= i <= |s|
      invariant NonZero(current)
      invariant segments + Runs(current + s[i..]) == Runs(s)
    {
      ScanKeepsInvariant(s, i, segments, current);
      if s[i] != 0.0 {
        current := current + [s[i]];
      } else if |current| > 0 {
        segments := segments + [current];
        current := [];
      }
      i := i + 1;
    }
    assert current + s[i..] == current;
    if |current| > 0 {
      SingleRun(current);
      segments := segments + [current];
    }
  }
}
