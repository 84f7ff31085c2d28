/** The records that travel between the engine, its stores and its configuration. */
module Model {

  // Instants and durations count nanoseconds. Instant 0 is Go's zero time, the only
  // instant for which time.Time.IsZero answers true.
  const SECOND: int := 1_000_000_000

  const RESULT_SUCCESS := "success"
  const RESULT_FAILURE := "failure"

  datatype Event = Event(
    timestamp: int,
    readerID: string,
    uid: string,
    result: string,
    errorCode: string,
    source: string)

  datatype WindowMetrics = WindowMetrics(
    windowSec: int,
    attempts: int,
    failures: int,
    aps: real,
    fr: real,
    uds: real,
    tv: real)

  const NO_METRICS := WindowMetrics(0, 0, 0, 0.0, 0.0, 0.0, 0.0)

  datatype Alert = Alert(
    timestamp: int,
    readerID: string,
    severity: string,
    alertType: string,
    windowSec: int,
    metrics: WindowMetrics,
    score: real,
    rules: seq<string>,
    context: map<string, string>)

  datatype Weights = Weights(aps: real, fr: real, uds: real, tv: real)

  datatype DetectionConfig = DetectionConfig(
    windows: seq<int>,
    apsThreshold: real,
    failureRatioThreshold: real,
    uidDiversityThreshold: real,
    timingVarianceThreshold: real,
    attackScoreThreshold: real,
    weights: Weights,
    epsilon: real,
    minAttempts: int,
    apsElevatedThreshold: real,
    alertCooldown: int,
    dedupeWindow: int,
    maxClockSkew: int,
    maxFutureSkew: int)
  {
    /** What loading a configuration establishes: positive windows and a positive epsilon. */
    ghost predicate Valid() {
      && epsilon > 0.0
      && forall i :: 0 <= i < |windows| ==> windows[i] > 0
    }
  }

  datatype AccessConfig = AccessConfig(
    enabled: bool,
    whitelistOnly: bool,
    whitelist: seq<string>,
    blacklist: seq<string>,
    readerWhitelists: map<string, seq<string>>,
    readerBlacklists: map<string, seq<string>>)

  datatype Config = Config(detection: DetectionConfig, access: AccessConfig) {
    ghost predicate Valid() {
      detection.Valid()
    }
  }

  /** The places where one call of ProcessEvent reads the wall clock, in program order. */
  datatype Site =
    | AtStart
    | AtDedupe
    | AtAccess
    | AtAccessStamp
    | AtStreak
    | AtStreakStamp
    | AtWindow(sec: int)
    | AtWindowStamp(sec: int)
    | AtMetrics

  /** What the clock shows at each of those places during one call. */
  type Clock = Site -> int
}
