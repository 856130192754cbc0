/** The shared vocabulary of the pipeline: hourly power samples and sums
    over them. A `Sample` is one row of the `Potencia_kW` frame indexed by
    `Timestamp`. */
module Series {
  import opened Calendar

  datatype Option<T> = None | Some(value: T)

  /** A value or the reason there is none. */
  datatype Result<T, E> = Success(value: T) | Failure(error: E)

  /** One power reading in kW at a timestamp (seconds since the epoch). */
  datatype Sample = Sample(ts: int, kw: real)

  function Values(s: seq<Sample>): (v: seq<real>)
    ensures |v| == |s|
    ensures forall i :: 0 <= i < |s| ==> v[i] == s[i].kw
  {
    seq(|s|, i requires 0 <= i < |s| => s[i].kw)
  }

  /** Sum of a sequence of reals. */
  function Sum(xs: seq<real>): real {
    if |xs| == 0 then 0.0 else xs[0] + Sum(xs[1..])
  }

  /** Total energy of a series in kWh (one sample stands for one hour). */
  function Total(s: seq<Sample>): real {
    if |s| == 0 then 0.0 else s[0].kw + Total(s[1..])
  }

  /** Consecutive timestamps exactly one hour apart. */
  predicate HourlyGrid(s: seq<Sample>) {
    forall i :: 0 <= i < |s| ==> s[i].ts == s[0].ts + SecondsPerHour * i
  }

  /** Same timestamps, in the same order. */
  predicate SameStamps(a: seq<Sample>, b: seq<Sample>) {
    |a| == |b| && forall i :: 0 <= i < |a| ==> a[i].ts == b[i].ts
  }

  lemma {:induction false} TotalIsSumOfValues(s: seq<Sample>)
    ensures Total(s) == Sum(Values(s))
  {
    if |s| > 0 {
      TotalIsSumOfValues(s[1..]);
      assert Values(s)[1..] == Values(s[1..]);
    }
  }

  lemma {:induction false} SumAppend(a: seq<real>, b: seq<real>)
    ensures Sum(a + b) == Sum(a) + Sum(b)
  {
    if |a| == 0 {
      assert a + b == b;
    } else {
      SumAppend(a[1..], b);
      assert (a + b)[1..] == a[1..] + b;
    }
  }
}
