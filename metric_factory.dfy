/** The Metric factory: each constructor rejects a null key, sanitizes the
    key and stores the other arguments as given. */
module MetricFactory {
  import opened Wrappers
  import opened Core
  import KeyHelper
  import MetricExtensions

  /** Metric.Counter(key, adjustment). */
  function Counter(key: Option<string>, adjustment: int32): (r: Result<Metric>)
    ensures r.Err? <==> key.None?
    ensures r.Err? ==> r.error == ArgumentNull("key")
    ensures r.Ok? ==> && r.value.Counter?
                      && r.value.key == KeyHelper.Sanitized(key)
                      && r.value.adjustment == adjustment
  {
    if key.None? then Err(ArgumentNull("key"))
    else Ok(Core.Counter(KeyHelper.Sanitized(key), adjustment))
  }

  /** Metric.Increment(key): a counter adjusted by 1. */
  function Increment(key: Option<string>): (r: Result<Metric>)
    ensures r == Counter(key, 1)
  {
    if key.None? then Err(ArgumentNull("key"))
    else Ok(Core.Counter(KeyHelper.Sanitized(key), 1))
  }

  /** Metric.Decrement(key): a counter adjusted by -1. */
  function Decrement(key: Option<string>): (r: Result<Metric>)
    ensures r == Counter(key, -1)
  {
    if key.None? then Err(ArgumentNull("key"))
    else Ok(Core.Counter(KeyHelper.Sanitized(key), -1))
  }

  /** Metric.Sample(key, value, frequency): the null check comes first; only
      a frequency greater than 1 is refused, so 1 itself and NaN pass. The
      int value is stored as a double. */
  function Sample(key: Option<string>, value: int32, frequency: Double): (r: Result<Metric>)
    ensures r.Err? <==> key.None? || GreaterThan(frequency, 1.0)
    ensures key.None? ==> r == Err(ArgumentNull("key"))
    ensures key.Some? && GreaterThan(frequency, 1.0) ==> r == Err(ArgumentOutOfRange("frequency"))
    ensures r.Ok? ==> && r.value.Sample?
                      && r.value.key == KeyHelper.Sanitized(key)
                      && r.value.value == Finite(value as real)
                      && r.value.frequency == frequency
  {
    if key.None? then Err(ArgumentNull("key"))
    else if GreaterThan(frequency, 1.0) then Err(ArgumentOutOfRange("frequency"))
    else Ok(Core.Sample(KeyHelper.Sanitized(key), Finite(value as real), frequency))
  }

  /** Metric.Timing(key, elapsed). */
  function Timing(key: Option<string>, elapsed: Double): (r: Result<Metric>)
    ensures r.Err? <==> key.None?
    ensures r.Err? ==> r.error == ArgumentNull("key")
    ensures r.Ok? ==> && r.value.Timing?
                      && r.value.key == KeyHelper.Sanitized(key)
                      && r.value.duration == elapsed
  {
    if key.None? then Err(ArgumentNull("key"))
    else Ok(Core.Timing(KeyHelper.Sanitized(key), elapsed))
  }

  /** Metric.KeyValue(key, value, timestamp): the timestamp is always present. */
  function KeyValue(key: Option<string>, value: Double, timestamp: DateTime): (r: Result<Metric>)
    ensures r.Err? <==> key.None?
    ensures r.Err? ==> r.error == ArgumentNull("key")
    ensures r.Ok? ==> && r.value.KeyValue?
                      && r.value.key == KeyHelper.Sanitized(key)
                      && r.value.value == value
                      && r.value.timestamp == Some(timestamp)
  {
    if key.None? then Err(ArgumentNull("key"))
    else Ok(Core.KeyValue(KeyHelper.Sanitized(key), value, Some(timestamp)))
  }

  /** The frequency guard at its edges: exactly 1 and NaN are accepted,
      anything above 1 is refused. */
  lemma SampleFrequencyEdges(k: string, v: int32)
    ensures Sample(Some(k), v, Finite(1.0)).Ok?
    ensures Sample(Some(k), v, NaN).Ok?
    ensures Sample(Some(k), v, NegativeInfinity).Ok?
    ensures Sample(Some(k), v, Finite(1.5)) == Err(ArgumentOutOfRange("frequency"))
    ensures Sample(Some(k), v, PositiveInfinity) == Err(ArgumentOutOfRange("frequency"))
  {
  }

  /** A metric whose key was sanitized, as every factory above stores it,
      carries a key that sanitizing again leaves unchanged and that holds no
      ':', so its wire line parses back to that key. */
  lemma FactoryKeys(key: Option<string>, m: Metric, format: MetricFormat, nf: MetricExtensions.NumberFormat)
    requires m.key == KeyHelper.Sanitized(key)
    requires MetricExtensions.PipeFree(nf)
    ensures KeyHelper.Sanitized(Some(m.key)) == m.key
    ensures ':' !in m.key
    ensures var p := MetricExtensions.ParseLine(MetricExtensions.Render(m, format, nf));
      p.Some? && p.value.name == KeyHelper.Sanitized(key)
  {
    KeyHelper.SanitizeIdempotent(key);
    KeyHelper.SanitizedHasNoDelimiters(key);
    assert ':' in KeyHelper.PatternExcluded;
    MetricExtensions.RenderRoundTrip(m, format, nf);
  }
}
