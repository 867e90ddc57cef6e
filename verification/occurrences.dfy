/** Occurrence counting over a history of readings: what a `collections.Counter`
    holds after it has been fed a history one element at a time, when a value
    stops being treated as noise, and the one occurrence at which that happens. */
module Occurrences {

  /** How many times `v` occurs in `h`. */
  function Count<T(==)>(h: seq<T>, v: T): nat
  {
    multiset(h)[v]
  }

  /** Reading a counter: a key that was never incremented reads as 0. */
  function Get<T>(counter: map<T, nat>, v: T): nat
  {
    if v in counter then counter[v] else 0
  }

  /** `v` is trusted: it occurs more than `threshold` times in `h`. With a negative
      threshold no count ever steps onto `threshold + 1`, so nothing is trusted. */
  predicate Qualifies<T(==)>(h: seq<T>, v: T, threshold: int)
  {
    0 <= threshold < Count(h, v)
  }

  /** The occurrence at index `j` is the one that raises the count of `h[j]`
      from `threshold` to `threshold + 1`. */
  predicate IsCrossing<T(==)>(h: seq<T>, j: int, threshold: int)
  {
    0 <= j < |h| && Count(h[..j + 1], h[j]) == threshold + 1
  }

  lemma CountSnoc<T>(h: seq<T>, x: T, v: T)
    ensures Count(h + [x], v) == Count(h, v) + (if v == x then 1 else 0)
  {
    assert multiset(h + [x]) == multiset(h) + multiset{x};
  }

  /** The values of `h` in the order in which they became trusted: the value at
      each crossing occurrence, in history order. */
  function Trusted<T(==)>(h: seq<T>, threshold: int): seq<T>
    decreases |h|
  {
    if h == [] then []
    else Trusted(h[..|h| - 1], threshold) + (if IsCrossing(h, |h| - 1, threshold) then [h[|h| - 1]] else [])
  }

  /** One more reading `x` adds `x` to the trusted values exactly when `x` had
      been seen `threshold` times before. */
  lemma TrustedSnoc<T>(p: seq<T>, x: T, threshold: int)
    ensures Trusted(p + [x], threshold) ==
            Trusted(p, threshold) + (if Count(p, x) == threshold then [x] else [])
  {
    var h := p + [x];
    assert h[..|h| - 1] == p;
    assert h[..|h|] == h;
    CountSnoc(p, x, x);
  }

  /** The trusted values are exactly the values occurring more than `threshold`
      times, each listed once. */
  lemma {:induction false} TrustedIsQualifying<T>(h: seq<T>, threshold: int)
    ensures forall v :: v in Trusted(h, threshold) <==> Qualifies(h, v, threshold)
    ensures forall i, j :: 0 <= i < j < |Trusted(h, threshold)| ==> Trusted(h, threshold)[i] != Trusted(h, threshold)[j]
    decreases |h|
  {
    if h != [] {
      var p, x := h[..|h| - 1], h[|h| - 1];
      assert h == p + [x];
      TrustedIsQualifying(p, threshold);
      TrustedSnoc(p, x, threshold);
      forall v
        ensures Count(h, v) == Count(p, v) + (if v == x then 1 else 0)
      {
        CountSnoc(p, x, v);
      }
      var before := Trusted(p, threshold);
      if Count(p, x) == threshold {
        assert x !in before;
        forall i, j | 0 <= i < j < |before| + 1
          ensures (before + [x])[i] != (before + [x])[j]
        {
          if j == |before| {
            assert before[i] in before;
          }
        }
      }
    }
  }

  /** Counting a longer prefix never gives less. */
  lemma {:induction false} CountPrefixMonotone<T>(h: seq<T>, i: nat, j: nat, v: T)
    requires i <= j <= |h|
    ensures Count(h[..i], v) <= Count(h[..j], v)
    decreases j - i
  {
    if i < j {
      CountPrefixMonotone(h, i, j - 1, v);
      assert h[..j] == h[..j - 1] + [h[j - 1]];
      CountSnoc(h[..j - 1], h[j - 1], v);
    }
  }

  /** If the first `n` readings already hold `v` more than `threshold` times,
      one of them is the crossing occurrence of `v`. */
  lemma {:induction false} CrossingWithin<T>(h: seq<T>, v: T, threshold: int, n: nat)
    requires n <= |h| && 0 <= threshold < Count(h[..n], v)
    ensures exists j :: 0 <= j < n && IsCrossing(h, j, threshold) && h[j] == v
  {
    assert h[..0] == [];
    assert 0 < n;
    assert h[..n] == h[..n - 1] + [h[n - 1]];
    CountSnoc(h[..n - 1], h[n - 1], v);
    if threshold < Count(h[..n - 1], v) {
      CrossingWithin(h, v, threshold, n - 1);
    } else {
      assert IsCrossing(h, n - 1, threshold) && h[n - 1] == v;
    }
  }

  /** A value is trusted exactly when one of its occurrences is a crossing. */
  lemma {:induction false} QualifiesIffCrossing<T>(h: seq<T>, v: T, threshold: int)
    ensures Qualifies(h, v, threshold) <==> exists j :: IsCrossing(h, j, threshold) && h[j] == v
  {
    assert h[..|h|] == h;
    if Qualifies(h, v, threshold) {
      CrossingWithin(h, v, threshold, |h|);
    }
    forall j | IsCrossing(h, j, threshold) && h[j] == v
      ensures Qualifies(h, v, threshold)
    {
      CountPrefixMonotone(h, j + 1, |h|, v);
    }
  }

  /** The crossing occurrence of a value is unique: every earlier occurrence of it
      still leaves its count at or below the threshold, and every later one
      takes the count past `threshold + 1`. */
  lemma {:induction false} CrossingIsUnique<T>(h: seq<T>, j: nat, threshold: int)
    requires IsCrossing(h, j, threshold)
    ensures forall k :: 0 <= k < j && h[k] == h[j] ==> Count(h[..k + 1], h[k]) <= threshold
    ensures forall k :: j < k < |h| && h[k] == h[j] ==> Count(h[..k + 1], h[k]) > threshold + 1
  {
    forall k | 0 <= k < j && h[k] == h[j]
      ensures Count(h[..k + 1], h[k]) <= threshold
    {
      CountPrefixMonotone(h, k + 1, j, h[j]);
      assert h[..j + 1] == h[..j] + [h[j]];
      CountSnoc(h[..j], h[j], h[j]);
    }
    forall k | j < k < |h| && h[k] == h[j]
      ensures Count(h[..k + 1], h[k]) > threshold + 1
    {
      CountPrefixMonotone(h, j + 1, k, h[j]);
      assert h[..k + 1] == h[..k] + [h[k]];
      CountSnoc(h[..k], h[k], h[k]);
    }
  }
  /** `counter` holds the number of occurrences of every value of `h`. */
  ghost predicate Counts<T(!new)>(counter: map<T, nat>, h: seq<T>)
  {
    forall v :: Get(counter, v) == Count(h, v)
  }

  /** Feeding `x` to a counter that holds the counts of `p` gives a counter that
      holds the counts of `p + [x]`; the count it reads for `x` before the update
      is the number of earlier occurrences of `x`. */
  lemma CounterStep<T(!new)>(seen: map<T, nat>, p: seq<T>, x: T)
    requires Counts(seen, p)
    ensures Get(seen, x) == Count(p, x)
    ensures Counts(seen[x := Get(seen, x) + 1], p + [x])
  {
    forall v
      ensures Get(seen[x := Get(seen, x) + 1], v) == Count(p + [x], v)
    {
      CountSnoc(p, x, v);
    }
  }
}
