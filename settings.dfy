/** The pipeline's fixed configuration. */
module Settings {

  /** Payerne. */
  const LatTarget: real := 46.81
  const LonTarget: real := 6.94

  /** The variables every run must provide, fetched in this order. */
  const CoreVars: seq<string> := ["T", "U", "V", "P"]

  /** Humidity names, tried in this order until one gives a usable column. */
  const HumidityNames: seq<string> := ["RELHUM", "QV"]

  /** A column with fewer levels than this is treated as missing. */
  const MinLevels: nat := 5
}
