/** Value types shared by metric submissions and their aggregation
    (relay-metrics/src/protocol.rs). Floating point numbers are modelled by `real`. */
module Metrics {

  datatype DurationPrecision = NanoSecond | MilliSecond | Second

  datatype MetricUnit = Duration(precision: DurationPrecision) | NoUnit

  datatype MetricType = Counter | Distribution | Set | Gauge

  /** A single submitted value. Set values are 32-bit hashes. */
  datatype MetricValue =
    | CounterValue(amount: real)
    | DistributionValue(sample: real)
    | SetValue(hash: nat)
    | GaugeValue(level: real)
  {
    function Ty(): MetricType {
      match this
      case CounterValue(_) => Counter
      case DistributionValue(_) => Distribution
      case SetValue(_) => Set
      case GaugeValue(_) => Gauge
    }
  }

  /** A metric submission. `timestamp` is in whole seconds since the UNIX epoch. */
  datatype Metric = Metric(
    name: string,
    unit: MetricUnit,
    value: MetricValue,
    timestamp: nat,
    tags: map<string, string>)
}
