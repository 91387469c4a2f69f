/** The metric values the renderer and the factory exchange: the four metric
    structs as one union, the wire formats, and the .NET value types they
    carry. */
module Core {
  import opened Wrappers

  newtype int32 = x: int | -0x8000_0000 <= x < 0x8000_0000

  /** A .NET double: a finite value or one of the IEEE-754 special values. */
  datatype Double = Finite(r: real) | NaN | PositiveInfinity | NegativeInfinity

  /** The C# comparison `d > x`, which is false when `d` is NaN. */
  predicate GreaterThan(d: Double, x: real)
  {
    match d
    case Finite(r) => r > x
    case PositiveInfinity => true
    case _ => false
  }

  /** A System.DateTime, by its tick count. */
  datatype DateTime = DateTime(ticks: int)

  /** Counter, Timing, Sample and KeyValue. */
  datatype Metric =
    | Counter(key: string, adjustment: int32)
    | Timing(key: string, duration: Double)
    | Sample(key: string, value: Double, frequency: Double)
    | KeyValue(key: string, value: Double, timestamp: Option<DateTime>)

  /** MetricFormat. */
  datatype MetricFormat = StatsD | StatSite
}
