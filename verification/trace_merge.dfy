/** Outlier filtering of hardware traces: out of one input's trace history, the
    values seen more than `max_outliers` times are trusted and OR-ed together;
    every other value is discarded as noise. */
module TraceMerge {
  import opened Occurrences

  /** A hardware trace: a 64-bit map of the cache lines the test case touched. */
  type Trace = bv64

  /** Every bit set in `v` is also set in `m`. */
  predicate Covers(m: Trace, v: Trace)
  {
    v | m == m
  }

  /** A bit position within a trace. */
  type BitIndex = b: bv8 | b < 64

  /** Bit `b` of `t` is set. */
  predicate HasBit(t: Trace, b: BitIndex)
  {
    t & (1 << b) != 0
  }

  /** `u` covers every value of `s`. */
  ghost predicate CoversAll(u: Trace, s: seq<Trace>)
  {
    forall v :: v in s ==> Covers(u, v)
  }

  /** `u` covers every trusted value of `h`. */
  ghost predicate IsUpperBound(u: Trace, h: seq<Trace>, threshold: int)
  {
    forall v :: Qualifies(h, v, threshold) ==> Covers(u, v)
  }

  /** `m` is the bitwise OR of exactly the trusted values of `h`: it covers each of
      them, and every trace that covers all of them covers `m`. */
  ghost predicate IsOrOfQualifying(m: Trace, h: seq<Trace>, threshold: int)
  {
    IsUpperBound(m, h, threshold) && forall u :: IsUpperBound(u, h, threshold) ==> Covers(u, m)
  }

  /** The OR of a sequence of traces, folded from 0. */
  function OrAll(s: seq<Trace>): Trace
    decreases |s|
  {
    if s == [] then 0 else OrAll(s[..|s| - 1]) | s[|s| - 1]
  }

  /** The merged trace that the loop of trace_test_case builds for one input: 0,
      OR-ed with each value at the occurrence that makes it trusted. */
  function MergedTrace(h: seq<Trace>, threshold: int): Trace
  {
    OrAll(Trusted(h, threshold))
  }

  /** OR-ing `x` into `m` gives a trace that covers both. */
  lemma OrCoversBoth(m: Trace, x: Trace)
    ensures Covers(m | x, m) && Covers(m | x, x)
  {
  }

  /** Covering is transitive. */
  lemma CoversTransitive(a: Trace, b: Trace, c: Trace)
    requires Covers(a, b) && Covers(b, c)
    ensures Covers(a, c)
  {
  }

  /** A trace that covers both `m` and `x` covers their OR. */
  lemma CoversOr(u: Trace, m: Trace, x: Trace)
    requires Covers(u, m) && Covers(u, x)
    ensures Covers(u, m | x)
  {
  }

  /** Only 0 is covered by 0. */
  lemma CoveredByZero(m: Trace)
    requires Covers(0, m)
    ensures m == 0
  {
  }

  lemma OrAllSnoc(s: seq<Trace>, x: Trace)
    ensures OrAll(s + [x]) == OrAll(s) | x
  {
    assert (s + [x])[..|s|] == s;
  }

  /** `OrAll(s)` covers every value of `s`. */
  lemma {:induction false} OrAllCoversEach(s: seq<Trace>)
    ensures CoversAll(OrAll(s), s)
    decreases |s|
  {
    if s != [] {
      var p, x := s[..|s| - 1], s[|s| - 1];
      assert s == p + [x];
      OrAllCoversEach(p);
      var prev := OrAll(p);
      OrCoversBoth(prev, x);
      assert OrAll(s) == prev | x;
      forall v | v in s
        ensures Covers(OrAll(s), v)
      {
        if v in p {
          CoversTransitive(OrAll(s), prev, v);
        }
      }
    }
  }

  /** Covering all of `p + [x]` is covering all of `p`, and `x`. */
  lemma CoversAllPrefix(u: Trace, p: seq<Trace>, x: Trace)
    requires CoversAll(u, p + [x])
    ensures CoversAll(u, p) && Covers(u, x)
  {
    assert x in p + [x];
    forall v | v in p ensures Covers(u, v) { assert v in p + [x]; }
  }

  /** Every trace that covers all values of `s` covers `OrAll(s)`. */
  lemma {:induction false} OrAllIsLeast(s: seq<Trace>, u: Trace)
    requires CoversAll(u, s)
    ensures Covers(u, OrAll(s))
    decreases |s|
  {
    if s == [] {
      assert OrAll(s) == 0;
    } else {
      var p, x := s[..|s| - 1], s[|s| - 1];
      assert s == p + [x];
      CoversAllPrefix(u, p, x);
      OrAllIsLeast(p, u);
      OrAllSnoc(p, x);
      CoversOr(u, OrAll(p), x);
    }
  }

  /** `OrAll(s)` is the least trace covering every value of `s`. */
  lemma OrAllIsLeastCover(s: seq<Trace>)
    ensures CoversAll(OrAll(s), s)
    ensures forall u :: CoversAll(u, s) ==> Covers(u, OrAll(s))
  {
    OrAllCoversEach(s);
    forall u | CoversAll(u, s)
      ensures Covers(u, OrAll(s))
    {
      OrAllIsLeast(s, u);
    }
  }

  /** The merged trace is the OR of exactly the values occurring more than
      `threshold` times. */
  lemma MergedTraceIsOrOfQualifying(h: seq<Trace>, threshold: int)
    ensures IsOrOfQualifying(MergedTrace(h, threshold), h, threshold)
  {
    var s := Trusted(h, threshold);
    TrustedIsQualifying(h, threshold);
    OrAllIsLeastCover(s);
    forall u
      ensures IsUpperBound(u, h, threshold) <==> CoversAll(u, s)
    {
    }
  }

  /** A history that is all noise merges to 0. */
  lemma AllNoiseMergesToZero(h: seq<Trace>, threshold: int)
    requires forall v :: !Qualifies(h, v, threshold)
    ensures MergedTrace(h, threshold) == 0
  {
    MergedTraceIsOrOfQualifying(h, threshold);
    assert IsUpperBound(0, h, threshold);
    CoveredByZero(MergedTrace(h, threshold));
  }

  /** A trace characterised as the OR of the trusted values is 0 when nothing is
      trusted. */
  lemma NothingTrustedIsZero(m: Trace, h: seq<Trace>, threshold: int)
    requires IsOrOfQualifying(m, h, threshold)
    requires forall v :: !Qualifies(h, v, threshold)
    ensures m == 0
  {
    assert IsUpperBound(0, h, threshold);
    CoveredByZero(m);
  }

  /** A bit of a covered trace is a bit of the covering trace. */
  lemma CoveredBit(m: Trace, v: Trace, b: BitIndex)
    requires Covers(m, v) && HasBit(v, b)
    ensures HasBit(m, b)
  {
  }

  /** `m` with bit `b` cleared: it covers `m` only when `m` lacks bit `b`. */
  function ClearBit(m: Trace, b: BitIndex): (c: Trace)
    ensures Covers(c, m) ==> !HasBit(m, b)
  {
    m & !(1 << b)
  }

  /** Clearing a bit that `v` lacks keeps `v` covered. */
  lemma ClearBitCovers(m: Trace, v: Trace, b: BitIndex)
    requires Covers(m, v) && !HasBit(v, b)
    ensures Covers(ClearBit(m, b), v)
  {
  }

  /** When no trusted value has bit `b`, neither has their OR. */
  lemma NoTrustedBit(h: seq<Trace>, threshold: int, b: BitIndex, m: Trace)
    requires IsOrOfQualifying(m, h, threshold)
    requires forall v :: Qualifies(h, v, threshold) ==> !HasBit(v, b)
    ensures !HasBit(m, b)
  {
    var u := ClearBit(m, b);
    forall v | Qualifies(h, v, threshold)
      ensures Covers(u, v)
    {
      ClearBitCovers(m, v, b);
    }
    assert IsUpperBound(u, h, threshold);
  }

  /** The bitwise reading of the same fact: bit `b` of the merged trace is set
      exactly when some trusted value has bit `b` set. */
  lemma MergedTraceBits(h: seq<Trace>, threshold: int, b: BitIndex)
    ensures HasBit(MergedTrace(h, threshold), b) <==> exists v :: Qualifies(h, v, threshold) && HasBit(v, b)
  {
    MergedTraceIsOrOfQualifying(h, threshold);
    var m := MergedTrace(h, threshold);
    if v :| Qualifies(h, v, threshold) && HasBit(v, b) {
      CoveredBit(m, v, b);
    } else {
      NoTrustedBit(h, threshold, b, m);
    }
  }

  /** Two traces that are both the OR of the trusted values are the same trace:
      the characterisation leaves no choice. */
  lemma OrOfQualifyingIsUnique(m1: Trace, m2: Trace, h: seq<Trace>, threshold: int)
    requires IsOrOfQualifying(m1, h, threshold) && IsOrOfQualifying(m2, h, threshold)
    ensures m1 == m2
  {
    assert Covers(m1, m2) && Covers(m2, m1);
  }

  /** One more reading `x` ORs `x` into the merged trace exactly when `x` had
      been seen `threshold` times before. */
  lemma MergeStep(p: seq<Trace>, x: Trace, threshold: int)
    ensures MergedTrace(p + [x], threshold) ==
            if Count(p, x) == threshold then MergedTrace(p, threshold) | x else MergedTrace(p, threshold)
  {
    TrustedSnoc(p, x, threshold);
    var before := Trusted(p, threshold);
    if Count(p, x) == threshold {
      OrAllSnoc(before, x);
    } else {
      assert before + [] == before;
    }
  }

  /** Lines 132-141 for one input: a Counter over the history, and the OR of each
      value at the occurrence that lifts its count to `maxOutliers + 1`. */
  method MergeTraceHistory(history: seq<Trace>, maxOutliers: int) returns (merged: Trace)
    ensures merged == MergedTrace(history, maxOutliers)
    ensures IsOrOfQualifying(merged, history, maxOutliers)
  {
    merged := 0;
    var occurrences: map<Trace, nat> := map[];
    for j := 0 to |history|
      invariant Counts(occurrences, history[..j])
      invariant merged == MergedTrace(history[..j], maxOutliers)
    {
      var trace := history[j];
      assert history[..j + 1] == history[..j] + [trace];
      MergeStep(history[..j], trace, maxOutliers);
      CounterStep(occurrences, history[..j], trace);
      occurrences := occurrences[trace := Get(occurrences, trace) + 1];
      if Get(occurrences, trace) <= maxOutliers {
        // too few occurrences so far: possibly noise
        continue;
      } else if Get(occurrences, trace) == maxOutliers + 1 {
        merged := merged | trace;
      }
    }
    assert history[..|history|] == history;
    MergedTraceIsOrOfQualifying(history, maxOutliers);
  }
}
