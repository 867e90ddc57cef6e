# Measurement aggregation of the x86 executor

This project models how the Intel x86 executor of the fuzzer turns repeated
hardware measurements into one hardware trace per input. The model covers
`X86Intel.trace_test_case`. A test case runs for a number of measurement rounds.
Each round yields one CSV row per input, holding:

- `CACHE_MAP`, a 64-bit map of the touched cache lines;
- three performance counters, `pfc1` to `pfc3`.

The rows are appended to per-input histories. With the first-cache-line option on,
bit 63 of each trace is cleared first. After the rounds:

- A single round returns each input's first trace unfiltered. The coverage hook
  gets the raw counter triples.
- Several rounds go through an outlier filter:
  - a `Counter` counts how often each value occurs in an input's history;
  - a trace is OR-ed into the input's result when its count reaches
    `max_outliers + 1`;
  - a `pfc1` reading is maxed into the hook's first slot when its count reaches
    `2 * max_outliers + 1`;
  - the hook's second and third slots stay 0.

The modules follow that structure:

- `Occurrences`: the counter, and when a value becomes trusted. A value is
  trusted when it occurs more than the threshold number of times. The first
  occurrence past the threshold is its crossing occurrence.
- `TraceMerge`: the per-input merge of traces. It is specified as the least upper
  bound, under bitwise inclusion, of the trusted traces.
- `PfcFilter`: the per-input maximum of the trusted `pfc1` readings.
- `Executor`: the rounds, masking, the single-round shortcut, the error paths and
  the whole call.

The device is a parameter `measure: nat -> RoundOutput`. It gives what round `r`'s
CSV file holds: either rows, or a file without a `CACHE_MAP` column. The
exceptions of the call are modelled as `Result.Failure` values:

- `TraceNotProduced` is the exception raised at line 112.
- `TooManyRows` is the `IndexError` raised at line 118 when a round has more rows
  than there are inputs.
- `MissingReading` is the `IndexError` at lines 126-127. It is raised when a
  single round has fewer rows than inputs.

Further points of the code that the model keeps:

- The `ignore_first_cache_line` mask `0x7FFFFFFFFFFFFFFF` clears bit 63, the
  most significant bit, and keeps every other bit.
- `num_measurements == 0` means the configured default number of rounds.
- A negative count runs no rounds. It then takes the several-rounds path, so every
  input gets 0.
- A round with fewer rows than inputs is not an error when there are several
  rounds: the missing inputs' histories are just shorter. More rows than inputs
  is an error.

## Model

| member | source | states |
|---|---|---|
| Occurrences.CounterStep | src/executor.py:132-134 | feeding a value to a counter that holds the counts of a history gives the counts of the extended history; the count read before the increment is the number of earlier occurrences |
| Occurrences.TrustedSnoc | src/executor.py:133-141 | one more reading adds that value to the trusted list exactly when it had been seen `threshold` times before |
| Occurrences.TrustedIsQualifying | src/executor.py:132-141 | the trusted list holds exactly the values occurring more than `threshold` times (both directions), each once |
| Occurrences.QualifiesIffCrossing | src/executor.py:134-141 | a value occurs more than `threshold` times exactly when one of its occurrences raises its count from `threshold` to `threshold + 1` |
| Occurrences.CrossingIsUnique | src/executor.py:134-141 | every earlier occurrence of the value at a crossing leaves its count at most `threshold`, and every later one above `threshold + 1`, so that occurrence is the only crossing |
| Occurrences.CountPrefixMonotone | src/executor.py:133-134 | the count of a value over a longer prefix of the history is never smaller |
| TraceMerge.OrAllIsLeastCover | src/executor.py:141 | the OR of a list covers every element, and is covered by every trace covering all of them |
| TraceMerge.MergeStep | src/executor.py:133-141 | one more trace changes the merged trace (to its OR with that trace) only when that trace had been seen exactly `max_outliers` times before; earlier and later occurrences leave it unchanged |
| TraceMerge.MergedTraceIsOrOfQualifying | src/executor.py:130-141 | the merged trace covers every trace occurring more than `max_outliers` times, and is covered by any trace that covers them all |
| TraceMerge.OrOfQualifyingIsUnique | src/executor.py:130-141 | that characterisation determines the merged trace uniquely |
| TraceMerge.MergedTraceBits | src/executor.py:130-141 | bit `b` of the merged trace is set exactly when some trace occurring more than `max_outliers` times has bit `b` set |
| TraceMerge.NothingTrustedIsZero | src/executor.py:130-141 | any trace characterised as the OR of the trusted traces is 0 when no trace is trusted |
| TraceMerge.AllNoiseMergesToZero | src/executor.py:130-141 | an input none of whose traces occurs more than `max_outliers` times merges to 0, not to an error |
| TraceMerge.MergeTraceHistory | src/executor.py:131-141 | the Counter loop for one input returns the OR of exactly the traces occurring more than `max_outliers` times (loop invariant: the counter holds the counts of the prefix seen so far) |
| PfcFilter.MaxAllIsMax | src/executor.py:156 | folding `max` from 0 gives a value at least 0 and at least every element, equal to 0 or to one of them |
| PfcFilter.FilterStep | src/executor.py:148-156 | one more reading changes the filtered value (to the max with that reading) only when that reading had been seen exactly `threshold` times before |
| PfcFilter.FilteredPfcIsMaxOfQualifying | src/executor.py:144-156 | the filtered first counter is at least 0 and every reading occurring more than the threshold number of times, and is 0 or one of those readings |
| PfcFilter.MaxOfQualifyingIsUnique | src/executor.py:144-156 | that characterisation determines the filtered value uniquely |
| PfcFilter.NoPositiveTrustedFiltersToZero | src/executor.py:144-156 | when no trusted reading is positive, the filtered first counter is 0 |
| PfcFilter.MaxPfcHistory | src/executor.py:145-156 | the Counter loop over one input's `pfc1` readings returns the maximum of 0 and the readings occurring more than the threshold number of times |
| Executor.StoredTrace | src/executor.py:115-117 | with the option set, the stored trace has bit 63 clear and putting back the raw bit 63 gives the raw value; without it, the raw value |
| Executor.RoundError | src/executor.py:111-118 | a round fails with `TraceNotProduced` exactly when its CSV lacks `CACHE_MAP`, with `TooManyRows` exactly when it has more rows than inputs, and succeeds exactly when it has at most one row per input |
| Executor.FirstFailingRound | src/executor.py:100-118 | when some round fails, the returned round fails and every earlier round succeeds |
| Executor.FirstFailingRoundIsFirst | src/executor.py:100-118 | a failing round whose predecessors all succeed is the first failing round |
| Executor.ColumnsSnoc | src/executor.py:118-122 | storing one more row appends its stored trace to the trace history and each of its counters to the matching counter history |
| Executor.RowHistoryBounded | src/executor.py:98-122 | an input's history never has more entries than there were rounds |
| Executor.RowHistoryInRoundOrder | src/executor.py:98-122 | when every round yields a row for an input, its history has one row per round, in round order |
| Executor.HistoriesInRoundOrder | src/executor.py:98-122 | under the same condition, the trace history and each of the three counter histories has length `n` and holds round `r`'s reading at position `r` |
| Executor.FirstRoundHistory | src/executor.py:124-127 | after one round an input holds that round's row at its position, if there is one |
| Executor.MaskedHistoryHasNoBit63 | src/executor.py:116-118 | with the option set, no stored trace has bit 63 set |
| Executor.MaskedMergeHasNoBit63 | src/executor.py:116-141 | with the option set, the merged trace has bit 63 clear as well |
| Executor.RecordRound | src/executor.py:114-122 | a round's rows are accepted exactly when there are at most as many as inputs; then row `i` is appended to input `i`'s trace and counter histories, and other inputs are unchanged |
| Executor.MeasureRounds | src/executor.py:98-122 | the round loop fails exactly when some round fails, stops at the first failing round having run it, and otherwise returns each input's histories after all rounds |
| Executor.FirstOfEach | src/executor.py:124-127 | succeeds exactly when every input has a first trace and first counter readings, and returns those |
| Executor.MergeAll | src/executor.py:130-141 | one merged trace per input, in input order, each the OR of exactly that input's trusted traces |
| Executor.FilterAll | src/executor.py:144-156 | one triple per input, in input order: the maximum of 0 and the trusted `pfc1` readings, then 0 and 0 |
| Executor.TraceTestCase | src/executor.py:71-161 | no inputs give `[]` with no round run and no hook call; a failing round gives its error after exactly the rounds up to it; a single round gives each input's stored trace and the raw counters, or `MissingReading` when a row is missing; otherwise each input's result is the OR of its trusted traces and the hook gets the filtered triples; with no rounds at all (a count of 0 with a default of 0, or a negative count) every result and every hook triple is 0 |

## Left out

- Kernel-module setup in `X86Intel.__init__` is not modelled. It writes sysfs files and shells out to `lscpu`, `modprobe` and `wrmsr`.
- `write_to_pseudo_file`, `load_test_case`, the input upload and the load check (lines 84-96) are not modelled. They are file I/O, and the load check only logs.
- The kernel-module presence check (lines 78-79) is not modelled. It only logs.
- Running a round is abstracted away. The `taskset`/`cat`/`tee` subprocess, `measurement_cpu` and the reading of `measurement.txt` are replaced by the `measure` parameter. That parameter yields the parsed rows, or the missing `CACHE_MAP` column, of each round.
- CSV parsing is not modelled. A missing `pfc` column or a non-numeric cell (a `KeyError` or `ValueError` from `int()`) cannot be expressed, because rows arrive already parsed.
- A `CACHE_MAP` wider than 64 bits cannot be expressed. Traces are 64-bit values, as the device emits them.
- The coverage hook is not called. `TraceTestCase` returns the argument it would receive, or `None` when no hook is installed or the call does not reach it.
- `LOGGER` calls, `read_base_addresses` and `get_executor` are not modelled. They are logging, a file read and configuration dispatch.
- Executor.MeasureRounds: after a failing round, the partly filled histories are not stated. The exception discards them in the source.
