/** The measurement side of the x86 executor: a test case is run for a number of
    rounds, each round's CSV rows are appended to per-input histories, and the
    histories are then reduced to one hardware trace per input (and one triple of
    performance counters per input for the coverage hook). The device is a
    function from the round number to what that round's CSV file holds. */
module Executor {
  import opened Occurrences
  import opened TraceMerge
  import opened PfcFilter

  /** One CSV row: the CACHE_MAP column and the three performance counters. */
  datatype Row = Row(cacheMap: Trace, pfc1: int, pfc2: int, pfc3: int)

  /** What one round of the device yields: a CSV file without a CACHE_MAP column,
      or the rows of the file, one per input in input order. */
  datatype RoundOutput = MissingCacheMap | Csv(rows: seq<Row>)

  /** The ways trace_test_case stops with an exception. */
  datatype Error =
    | TraceNotProduced  // the round's CSV has no CACHE_MAP column
    | TooManyRows       // a round has more rows than there are inputs
    | MissingReading    // single round: some input has no row to return

  datatype Option<T> = None | Some(value: T)

  datatype Result<T> = Success(value: T) | Failure(error: Error)

  /** A triple of counter values, as handed to the coverage hook. */
  datatype PfcTriple = PfcTriple(pfc1: int, pfc2: int, pfc3: int)

  /** The three counter histories of one input. */
  datatype PfcHistory = PfcHistory(pfc1: seq<int>, pfc2: seq<int>, pfc3: seq<int>)

  /** The configuration values that trace_test_case reads. */
  datatype Config = Config(numMeasurements: int, maxOutliers: int, ignoreFirstCacheLine: bool)

  /** All bits but bit 63. */
  const FirstCacheLineMask: Trace := 0x7FFF_FFFF_FFFF_FFFF

  /** Bit 63 alone. */
  const FirstCacheLineBit: Trace := 0x8000_0000_0000_0000

  /** The trace stored for a raw CACHE_MAP: with `ignore`, bit 63 (the first cache
      line) is cleared and every other bit kept, so that putting back the raw
      bit 63 restores the raw value; without it, the raw value. */
  function StoredTrace(raw: Trace, ignore: bool): (t: Trace)
    ensures ignore ==> !HasBit(t, 63)
    ensures ignore ==> t | (raw & FirstCacheLineBit) == raw
    ensures !ignore ==> t == raw
  {
    if ignore then raw & FirstCacheLineMask else raw
  }

  /** The number of measurements asked for: 0 stands for the configured default. */
  function Measurements(numMeasurements: int, conf: Config): (n: int)
    ensures numMeasurements != 0 ==> n == numMeasurements
    ensures numMeasurements == 0 ==> n == conf.numMeasurements
  {
    if numMeasurements == 0 then conf.numMeasurements else numMeasurements
  }

  /** The number of rounds `range(n)` runs: none for a negative `n`. */
  function Rounds(n: int): (r: nat)
    ensures n >= 0 ==> r == n
    ensures n < 0 ==> r == 0
  {
    if n < 0 then 0 else n
  }

  /** The rows of a round; a round without CACHE_MAP contributes none. */
  function RowsOf(out: RoundOutput): seq<Row>
  {
    if out.Csv? then out.rows else []
  }

  /** How a round fails for `count` inputs, if it does. */
  function RoundError(out: RoundOutput, count: nat): (e: Option<Error>)
    ensures e == None <==> out.Csv? && |out.rows| <= count
    ensures e == Some(TraceNotProduced) <==> out.MissingCacheMap?
    ensures e == Some(TooManyRows) <==> out.Csv? && |out.rows| > count
  {
    if out.MissingCacheMap? then Some(TraceNotProduced)
    else if |out.rows| > count then Some(TooManyRows)
    else None
  }

  /** Rounds `0 .. k - 1` all complete for `count` inputs. */
  predicate RoundsSucceed(measure: nat -> RoundOutput, k: nat, count: nat)
  {
    forall r: nat :: r < k ==> RoundError(measure(r), count) == None
  }

  /** The first of rounds `0 .. n - 1` that fails. */
  function FirstFailingRound(measure: nat -> RoundOutput, n: nat, count: nat): (k: nat)
    requires !RoundsSucceed(measure, n, count)
    ensures k < n && RoundsSucceed(measure, k, count) && RoundError(measure(k), count) != None
  {
    if RoundsSucceed(measure, n - 1, count) then n - 1 else FirstFailingRound(measure, n - 1, count)
  }

  /** A failing round all of whose predecessors succeed is the first failing round. */
  lemma {:induction false} FirstFailingRoundIsFirst(measure: nat -> RoundOutput, n: nat, count: nat, k: nat)
    requires k < n && RoundsSucceed(measure, k, count) && RoundError(measure(k), count) != None
    ensures !RoundsSucceed(measure, n, count)
    ensures FirstFailingRound(measure, n, count) == k
  {
    assert RoundError(measure(k), count) != None;
    if k < n - 1 {
      FirstFailingRoundIsFirst(measure, n - 1, count, k);
    }
  }

  /** The rows recorded for input `i` over rounds `0 .. k - 1`: round by round,
      the round's `i`-th row when it has one. */
  function RowHistory(measure: nat -> RoundOutput, k: nat, i: nat): seq<Row>
  {
    if k == 0 then []
    else
      var rows := RowsOf(measure(k - 1));
      RowHistory(measure, k - 1, i) + (if i < |rows| then [rows[i]] else [])
  }

  /** The stored traces of a sequence of rows. */
  function Traces(rows: seq<Row>, ignore: bool): (ts: seq<Trace>)
    ensures |ts| == |rows|
  {
    seq(|rows|, j requires 0 <= j < |rows| => StoredTrace(rows[j].cacheMap, ignore))
  }

  /** The three counter columns of a sequence of rows. */
  function Readings(rows: seq<Row>): (h: PfcHistory)
    ensures |h.pfc1| == |h.pfc2| == |h.pfc3| == |rows|
  {
    PfcHistory(seq(|rows|, j requires 0 <= j < |rows| => rows[j].pfc1),
               seq(|rows|, j requires 0 <= j < |rows| => rows[j].pfc2),
               seq(|rows|, j requires 0 <= j < |rows| => rows[j].pfc3))
  }

  /** The trace history of input `i` after `k` rounds. */
  function TraceHistory(measure: nat -> RoundOutput, k: nat, i: nat, ignore: bool): seq<Trace>
  {
    Traces(RowHistory(measure, k, i), ignore)
  }

  /** The counter histories of input `i` after `k` rounds. */
  function PfcHistoryOf(measure: nat -> RoundOutput, k: nat, i: nat): PfcHistory
  {
    Readings(RowHistory(measure, k, i))
  }

  /** `h` with one more reading of each counter. */
  function AppendReadings(h: PfcHistory, row: Row): (h': PfcHistory)
    ensures h'.pfc1 == h.pfc1 + [row.pfc1] && h'.pfc2 == h.pfc2 + [row.pfc2] && h'.pfc3 == h.pfc3 + [row.pfc3]
  {
    PfcHistory(h.pfc1 + [row.pfc1], h.pfc2 + [row.pfc2], h.pfc3 + [row.pfc3])
  }

  /** Storing one more row appends its trace and its counters. */
  lemma ColumnsSnoc(rows: seq<Row>, row: Row, ignore: bool)
    ensures Traces(rows + [row], ignore) == Traces(rows, ignore) + [StoredTrace(row.cacheMap, ignore)]
    ensures Readings(rows + [row]) == AppendReadings(Readings(rows), row)
  {
    assert Traces(rows + [row], ignore)[..|rows|] == Traces(rows, ignore);
    assert Readings(rows + [row]).pfc1[..|rows|] == Readings(rows).pfc1;
    assert Readings(rows + [row]).pfc2[..|rows|] == Readings(rows).pfc2;
    assert Readings(rows + [row]).pfc3[..|rows|] == Readings(rows).pfc3;
  }

  /** A history never holds more entries than there were rounds. */
  lemma {:induction false} RowHistoryBounded(measure: nat -> RoundOutput, k: nat, i: nat)
    ensures |RowHistory(measure, k, i)| <= k
  {
    if k > 0 {
      RowHistoryBounded(measure, k - 1, i);
    }
  }

  /** When every round yields a row for input `i`, its history after `k` rounds
      has one entry per round, in round order. */
  lemma {:induction false} RowHistoryInRoundOrder(measure: nat -> RoundOutput, k: nat, i: nat)
    requires forall r: nat :: r < k ==> i < |RowsOf(measure(r))|
    ensures |RowHistory(measure, k, i)| == k
    ensures forall r: nat :: r < k ==> RowHistory(measure, k, i)[r] == RowsOf(measure(r))[i]
  {
    if k > 0 {
      RowHistoryInRoundOrder(measure, k - 1, i);
    }
  }

  /** When every round yields a row for input `i`, its trace history and each of
      its three counter histories after `k` rounds hold one reading per round, in
      round order. */
  lemma HistoriesInRoundOrder(measure: nat -> RoundOutput, k: nat, i: nat, ignore: bool)
    requires forall r: nat :: r < k ==> i < |RowsOf(measure(r))|
    ensures |TraceHistory(measure, k, i, ignore)| == k
    ensures |PfcHistoryOf(measure, k, i).pfc1| == |PfcHistoryOf(measure, k, i).pfc2| == |PfcHistoryOf(measure, k, i).pfc3| == k
    ensures forall r: nat :: r < k ==>
      && TraceHistory(measure, k, i, ignore)[r] == StoredTrace(RowsOf(measure(r))[i].cacheMap, ignore)
      && PfcHistoryOf(measure, k, i).pfc1[r] == RowsOf(measure(r))[i].pfc1
      && PfcHistoryOf(measure, k, i).pfc2[r] == RowsOf(measure(r))[i].pfc2
      && PfcHistoryOf(measure, k, i).pfc3[r] == RowsOf(measure(r))[i].pfc3
  {
    RowHistoryInRoundOrder(measure, k, i);
  }

  /** The rows input `i` gets from a single round. */
  function FirstRoundRows(out: RoundOutput, i: nat): seq<Row>
  {
    if i < |RowsOf(out)| then [RowsOf(out)[i]] else []
  }

  /** After one round, input `i` holds that round's `i`-th row, if there is one. */
  lemma FirstRoundHistory(measure: nat -> RoundOutput, i: nat)
    ensures RowHistory(measure, 1, i) == FirstRoundRows(measure(0), i)
  {
    assert RowHistory(measure, 0, i) == [];
  }

  /** With the first cache line ignored, no stored trace has bit 63 set. */
  lemma MaskedHistoryHasNoBit63(measure: nat -> RoundOutput, k: nat, i: nat)
    ensures forall j :: 0 <= j < |TraceHistory(measure, k, i, true)| ==> !HasBit(TraceHistory(measure, k, i, true)[j], 63)
  {
  }

  /** With the first cache line ignored, the merged trace has bit 63 clear too. */
  lemma MaskedMergeHasNoBit63(measure: nat -> RoundOutput, k: nat, i: nat, maxOutliers: int)
    ensures !HasBit(MergedTrace(TraceHistory(measure, k, i, true), maxOutliers), 63)
  {
    var h := TraceHistory(measure, k, i, true);
    MergedTraceBits(h, maxOutliers, 63);
    forall v | Qualifies(h, v, maxOutliers)
      ensures !HasBit(v, 63)
    {
      assert v in h;
    }
  }

  /** Lines 114-122 for one round: each row goes to the histories of the input
      at its position; a row beyond the last input is an IndexError. */
  method RecordRound(traces: seq<seq<Trace>>, readings: seq<PfcHistory>, rows: seq<Row>, ignore: bool)
    returns (ok: bool, traces': seq<seq<Trace>>, readings': seq<PfcHistory>)
    requires |traces| == |readings|
    ensures ok <==> |rows| <= |traces|
    ensures ok ==> |traces'| == |traces| && |readings'| == |readings|
    ensures ok ==> forall i :: 0 <= i < |traces| ==>
      traces'[i] == traces[i] + (if i < |rows| then [StoredTrace(rows[i].cacheMap, ignore)] else [])
    ensures ok ==> forall i :: 0 <= i < |readings| ==>
      readings'[i] == if i < |rows| then AppendReadings(readings[i], rows[i]) else readings[i]
  {
    traces', readings' := traces, readings;
    for i := 0 to |rows|
      invariant i <= |traces|
      invariant |traces'| == |traces| && |readings'| == |readings|
      invariant forall i' :: 0 <= i' < |traces| ==>
        traces'[i'] == traces[i'] + (if i' < i then [StoredTrace(rows[i'].cacheMap, ignore)] else [])
      invariant forall i' :: 0 <= i' < |readings| ==>
        readings'[i'] == if i' < i then AppendReadings(readings[i'], rows[i']) else readings[i']
    {
      if i >= |traces| {
        return false, traces', readings';
      }
      traces' := traces'[i := traces'[i] + [StoredTrace(rows[i].cacheMap, ignore)]];
      readings' := readings'[i := AppendReadings(readings'[i], rows[i])];
    }
    ok := true;
  }

  /** Lines 124-127: the first trace of each input, and the first reading of each
      of its counters; an input with an empty history is an IndexError. */
  method FirstOfEach(traces: seq<seq<Trace>>, readings: seq<PfcHistory>)
    returns (ok: bool, firsts: seq<Trace>, triples: seq<PfcTriple>)
    requires |traces| == |readings|
    ensures ok <==> forall i :: 0 <= i < |traces| ==>
      traces[i] != [] && readings[i].pfc1 != [] && readings[i].pfc2 != [] && readings[i].pfc3 != []
    ensures ok ==> |firsts| == |traces| && |triples| == |readings|
    ensures ok ==> forall i :: 0 <= i < |traces| ==>
      firsts[i] == traces[i][0] && triples[i] == PfcTriple(readings[i].pfc1[0], readings[i].pfc2[0], readings[i].pfc3[0])
  {
    firsts, triples := [], [];
    for i := 0 to |traces|
      invariant |firsts| == i && |triples| == i
      invariant forall i' :: 0 <= i' < i ==>
        traces[i'] != [] && readings[i'].pfc1 != [] && readings[i'].pfc2 != [] && readings[i'].pfc3 != []
      invariant forall i' :: 0 <= i' < i ==>
        firsts[i'] == traces[i'][0] && triples[i'] == PfcTriple(readings[i'].pfc1[0], readings[i'].pfc2[0], readings[i'].pfc3[0])
    {
      if traces[i] == [] || readings[i].pfc1 == [] || readings[i].pfc2 == [] || readings[i].pfc3 == [] {
        return false, firsts, triples;
      }
      firsts := firsts + [traces[i][0]];
      triples := triples + [PfcTriple(readings[i].pfc1[0], readings[i].pfc2[0], readings[i].pfc3[0])];
    }
    ok := true;
  }

  /** Lines 130-141: each input's trace history merged on its own, in input order. */
  method MergeAll(traces: seq<seq<Trace>>, maxOutliers: int) returns (merged: seq<Trace>)
    ensures |merged| == |traces|
    ensures forall i :: 0 <= i < |traces| ==> IsOrOfQualifying(merged[i], traces[i], maxOutliers)
  {
    merged := [];
    for i := 0 to |traces|
      invariant |merged| == i
      invariant forall i' :: 0 <= i' < i ==> IsOrOfQualifying(merged[i'], traces[i'], maxOutliers)
    {
      var m := MergeTraceHistory(traces[i], maxOutliers);
      merged := merged + [m];
    }
  }

  /** Lines 144-156: for each input, the largest trusted first-counter reading
      (or 0); the second and third counters stay 0. */
  method FilterAll(readings: seq<PfcHistory>, threshold: int) returns (filtered: seq<PfcTriple>)
    ensures |filtered| == |readings|
    ensures forall i :: 0 <= i < |readings| ==>
      && IsMaxOfQualifying(filtered[i].pfc1, readings[i].pfc1, threshold)
      && filtered[i].pfc2 == 0 && filtered[i].pfc3 == 0
  {
    filtered := [];
    for i := 0 to |readings|
      invariant |filtered| == i
      invariant forall i' :: 0 <= i' < i ==>
        && IsMaxOfQualifying(filtered[i'].pfc1, readings[i'].pfc1, threshold)
        && filtered[i'].pfc2 == 0 && filtered[i'].pfc3 == 0
    {
      var f := MaxPfcHistory(readings[i].pfc1, threshold);
      filtered := filtered + [PfcTriple(f, 0, 0)];
    }
  }

  /** Lines 98-122: `rounds` rounds of measurement for `count` inputs. Either a
      round fails, and the call stops right after asking the device for that
      round, or every round's rows have been appended to the histories. */
  method MeasureRounds(count: nat, rounds: nat, measure: nat -> RoundOutput, ignore: bool)
    returns (failure: Option<Error>, traces: seq<seq<Trace>>, readings: seq<PfcHistory>, roundsRun: nat)
    ensures failure == None <==> RoundsSucceed(measure, rounds, count)
    ensures failure != None ==>
      var k := FirstFailingRound(measure, rounds, count);
      failure == RoundError(measure(k), count) && roundsRun == k + 1
    ensures failure == None ==>
      && roundsRun == rounds && |traces| == count && |readings| == count
      && (forall i :: 0 <= i < count ==> traces[i] == TraceHistory(measure, rounds, i, ignore))
      && (forall i :: 0 <= i < count ==> readings[i] == PfcHistoryOf(measure, rounds, i))
  {
    traces := seq(count, _ => []);
    readings := seq(count, _ => PfcHistory([], [], []));
    roundsRun := 0;
    for r := 0 to rounds
      invariant roundsRun == r
      invariant RoundsSucceed(measure, r, count)
      invariant |traces| == count && |readings| == count
      invariant forall i :: 0 <= i < count ==> traces[i] == TraceHistory(measure, r, i, ignore)
      invariant forall i :: 0 <= i < count ==> readings[i] == PfcHistoryOf(measure, r, i)
    {
      var out := measure(r);
      roundsRun := roundsRun + 1;
      if out.MissingCacheMap? {
        FirstFailingRoundIsFirst(measure, rounds, count, r);
        return Some(TraceNotProduced), traces, readings, roundsRun;
      }
      var ok;
      ok, traces, readings := RecordRound(traces, readings, out.rows, ignore);
      if !ok {
        FirstFailingRoundIsFirst(measure, rounds, count, r);
        return Some(TooManyRows), traces, readings, roundsRun;
      }
      forall i | 0 <= i < count
        ensures traces[i] == TraceHistory(measure, r + 1, i, ignore)
        ensures readings[i] == PfcHistoryOf(measure, r + 1, i)
      {
        if i < |out.rows| {
          ColumnsSnoc(RowHistory(measure, r, i), out.rows[i], ignore);
        }
      }
    }
    failure := None;
  }

  /** `X86Intel.trace_test_case` (lines 71-161). Returns the per-input result,
      the argument the coverage hook receives (None when no hook is installed or
      it is not reached), and the number of rounds the device was asked for. */
  method TraceTestCase<Input>(inputs: seq<Input>, numMeasurements: int, conf: Config, coverage: bool,
                              measure: nat -> RoundOutput)
    returns (result: Result<seq<Trace>>, hook: Option<seq<PfcTriple>>, roundsRun: nat)
    // no inputs: nothing is measured
    ensures |inputs| == 0 ==> result == Success([]) && hook == None && roundsRun == 0
    // a failing round ends the call right there
    ensures |inputs| > 0 && !RoundsSucceed(measure, Rounds(Measurements(numMeasurements, conf)), |inputs|) ==>
      var k := FirstFailingRound(measure, Rounds(Measurements(numMeasurements, conf)), |inputs|);
      result == Failure(RoundError(measure(k), |inputs|).value) && hook == None && roundsRun == k + 1
    // a single round: the first traces, unfiltered, and the raw counters for the hook
    ensures |inputs| > 0 && Measurements(numMeasurements, conf) == 1 && RoundsSucceed(measure, 1, |inputs|) ==>
      var rows := RowsOf(measure(0));
      && roundsRun == 1
      && (|rows| < |inputs| ==> result == Failure(MissingReading) && hook == None)
      && (|rows| == |inputs| ==>
            && result.Success? && |result.value| == |inputs|
            && (forall i :: 0 <= i < |inputs| ==> result.value[i] == StoredTrace(rows[i].cacheMap, conf.ignoreFirstCacheLine))
            && (coverage ==>
                  && hook.Some? && |hook.value| == |inputs|
                  && forall i :: 0 <= i < |inputs| ==> hook.value[i] == PfcTriple(rows[i].pfc1, rows[i].pfc2, rows[i].pfc3))
            && (!coverage ==> hook == None))
    // several rounds (or none): per input, the OR of the trusted traces, and the
    // largest trusted first counter for the hook
    ensures |inputs| > 0 && Measurements(numMeasurements, conf) != 1 &&
            RoundsSucceed(measure, Rounds(Measurements(numMeasurements, conf)), |inputs|) ==>
      var n := Rounds(Measurements(numMeasurements, conf));
      && roundsRun == n
      && result.Success? && |result.value| == |inputs|
      && (forall i :: 0 <= i < |inputs| ==>
            IsOrOfQualifying(result.value[i], TraceHistory(measure, n, i, conf.ignoreFirstCacheLine), conf.maxOutliers))
      && (coverage ==>
            && hook.Some? && |hook.value| == |inputs|
            && forall i :: 0 <= i < |inputs| ==>
              && IsMaxOfQualifying(hook.value[i].pfc1, PfcHistoryOf(measure, n, i).pfc1, conf.maxOutliers * 2)
              && hook.value[i].pfc2 == 0 && hook.value[i].pfc3 == 0)
      && (!coverage ==> hook == None)
    // no rounds at all (a count of 0 with a default of 0, or a negative count):
    // every input merges to 0, and so does every counter the hook gets
    ensures |inputs| > 0 && Measurements(numMeasurements, conf) <= 0 ==>
      && roundsRun == 0
      && result == Success(seq(|inputs|, _ => 0))
      && (coverage ==> hook == Some(seq(|inputs|, _ => PfcTriple(0, 0, 0))))
  {
    hook := None;
    roundsRun := 0;
    if |inputs| == 0 {
      return Success([]), hook, roundsRun;
    }
    var count := |inputs|;
    var ignore := conf.ignoreFirstCacheLine;
    var n := Measurements(numMeasurements, conf);
    var failure, traces, readings;
    failure, traces, readings, roundsRun := MeasureRounds(count, Rounds(n), measure, ignore);
    if failure.Some? {
      return Failure(failure.value), hook, roundsRun;
    }

    if n == 1 {
      forall i | 0 <= i < count
        ensures traces[i] == Traces(FirstRoundRows(measure(0), i), ignore)
        ensures readings[i] == Readings(FirstRoundRows(measure(0), i))
      {
        FirstRoundHistory(measure, i);
      }
      var ok, firsts, triples := FirstOfEach(traces, readings);
      if !ok {
        return Failure(MissingReading), hook, roundsRun;
      }
      // every input got a row, so the round had as many rows as inputs
      assert |FirstRoundRows(measure(0), count - 1)| > 0;
      if coverage {
        hook := Some(triples);
      }
      return Success(firsts), hook, roundsRun;
    }

    // remove outliers and merge
    var merged := MergeAll(traces, conf.maxOutliers);
    // the same for the first counter, keeping the largest trusted reading
    var filtered := FilterAll(readings, conf.maxOutliers * 2);
    if n <= 0 {
      // every history is empty, so nothing is trusted
      forall i | 0 <= i < count
        ensures merged[i] == 0 && filtered[i] == PfcTriple(0, 0, 0)
      {
        assert traces[i] == [] && readings[i].pfc1 == [];
        NothingTrustedIsZero(merged[i], traces[i], conf.maxOutliers);
      }
      assert merged == seq(count, _ => 0);
      assert filtered == seq(count, _ => PfcTriple(0, 0, 0));
    }
    if coverage {
      hook := Some(filtered);
    }
    return Success(merged), hook, roundsRun;
  }
}
