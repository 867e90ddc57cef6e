/** Outlier filtering of performance-counter readings: out of one input's history
    of first-counter readings, the values seen more than the threshold number of
    times are trusted, and the largest of them (or 0) is kept. */
module PfcFilter {
  import opened Occurrences

  /** Python's `max` on two integers. */
  function Max(a: int, b: int): int
  {
    if a < b then b else a
  }

  /** `r` is the maximum of 0 and every trusted reading of `h`. */
  ghost predicate IsMaxOfQualifying(r: int, h: seq<int>, threshold: int)
  {
    && 0 <= r
    && (forall v :: Qualifies(h, v, threshold) ==> v <= r)
    && (r == 0 || Qualifies(h, r, threshold))
  }

  /** The maximum of 0 and the values of `s`, folded from the left. */
  function MaxAll(s: seq<int>): int
    decreases |s|
  {
    if s == [] then 0 else Max(MaxAll(s[..|s| - 1]), s[|s| - 1])
  }

  /** The filtered first counter that the loop of trace_test_case builds for one
      input: 0, maxed with each reading at the occurrence that makes it trusted. */
  function FilteredPfc(h: seq<int>, threshold: int): int
  {
    MaxAll(Trusted(h, threshold))
  }

  lemma MaxAllSnoc(s: seq<int>, x: int)
    ensures MaxAll(s + [x]) == Max(MaxAll(s), x)
  {
    assert (s + [x])[..|s|] == s;
  }

  /** `MaxAll(s)` is at least 0 and every value of `s`, and it is 0 or one of them. */
  lemma {:induction false} MaxAllIsMax(s: seq<int>)
    ensures 0 <= MaxAll(s)
    ensures forall v :: v in s ==> v <= MaxAll(s)
    ensures MaxAll(s) == 0 || MaxAll(s) in s
    decreases |s|
  {
    if s != [] {
      var p, x := s[..|s| - 1], s[|s| - 1];
      assert s == p + [x];
      MaxAllIsMax(p);
      MaxAllSnoc(p, x);
    }
  }

  /** The filtered first counter is the maximum of 0 and every reading occurring
      more than `threshold` times. */
  lemma FilteredPfcIsMaxOfQualifying(h: seq<int>, threshold: int)
    ensures IsMaxOfQualifying(FilteredPfc(h, threshold), h, threshold)
  {
    TrustedIsQualifying(h, threshold);
    MaxAllIsMax(Trusted(h, threshold));
  }

  /** The characterisation leaves no choice: two results that are both the
      maximum of 0 and the trusted readings are equal. */
  lemma MaxOfQualifyingIsUnique(r1: int, r2: int, h: seq<int>, threshold: int)
    requires IsMaxOfQualifying(r1, h, threshold) && IsMaxOfQualifying(r2, h, threshold)
    ensures r1 == r2
  {
  }

  /** A history with no trusted reading, or whose trusted readings are all
      negative, filters to 0. */
  lemma NoPositiveTrustedFiltersToZero(h: seq<int>, threshold: int)
    requires forall v :: Qualifies(h, v, threshold) ==> v <= 0
    ensures FilteredPfc(h, threshold) == 0
  {
    FilteredPfcIsMaxOfQualifying(h, threshold);
  }

  /** One more reading `x` takes the maximum with `x` exactly when `x` had been
      seen `threshold` times before. */
  lemma FilterStep(p: seq<int>, x: int, threshold: int)
    ensures FilteredPfc(p + [x], threshold) ==
            if Count(p, x) == threshold then Max(FilteredPfc(p, threshold), x) else FilteredPfc(p, threshold)
  {
    TrustedSnoc(p, x, threshold);
    var before := Trusted(p, threshold);
    if Count(p, x) == threshold {
      MaxAllSnoc(before, x);
    } else {
      assert before + [] == before;
    }
  }

  /** Lines 146-156 for one input: a Counter over the first-counter readings, and
      the maximum taken at the occurrence that lifts a reading's count to
      `threshold + 1`. */
  method MaxPfcHistory(readings: seq<int>, threshold: int) returns (filtered: int)
    ensures filtered == FilteredPfc(readings, threshold)
    ensures IsMaxOfQualifying(filtered, readings, threshold)
  {
    filtered := 0;
    var occurrences: map<int, nat> := map[];
    for j := 0 to |readings|
      invariant Counts(occurrences, readings[..j])
      invariant filtered == FilteredPfc(readings[..j], threshold)
    {
      var reading := readings[j];
      assert readings[..j + 1] == readings[..j] + [reading];
      FilterStep(readings[..j], reading, threshold);
      CounterStep(occurrences, readings[..j], reading);
      occurrences := occurrences[reading := Get(occurrences, reading) + 1];
      if Get(occurrences, reading) <= threshold {
        // too few occurrences so far: possibly noise
        continue;
      } else if Get(occurrences, reading) == threshold + 1 {
        filtered := Max(filtered, reading);
      }
    }
    assert readings[..|readings|] == readings;
    FilteredPfcIsMaxOfQualifying(readings, threshold);
  }
}
