/** The rows the simulator stores: one per-second sensor sample, and the
    summary row shared by the 15-minute and the hourly tables. */
module Records {

  /** One row of the per-second sample table. */
  datatype Sample = Sample(userId: int, timestamp: int, heartRate: int, respirationRate: int, activity: int)
  {
    /** The reading of one metric in this sample. */
    function Reading(m: Metric): int {
      match m
      case HeartRate => heartRate
      case RespirationRate => respirationRate
      case Activity => activity
    }
  }

  /** The three measured quantities. */
  datatype Metric = HeartRate | RespirationRate | Activity

  /** The avg_x / max_x / min_x columns of one metric in a summary row. */
  datatype Stat = Stat(avg: real, max: int, min: int)
  {
    /** The ordering every summary keeps: min_x <= avg_x <= max_x. */
    predicate Ordered() {
      min as real <= avg <= max as real
    }
  }

  /** One row of the 15-minute table or of the hourly table: the subject,
      the first and last timestamp covered, and a Stat per metric
      (hr for *_hr, rr for *_rr, activity for *_activity). */
  datatype Summary = Summary(userId: int, segStart: int, segEnd: int, hr: Stat, rr: Stat, activity: Stat)
  {
    function StatOf(m: Metric): Stat {
      match m
      case HeartRate => hr
      case RespirationRate => rr
      case Activity => activity
    }

    predicate Ordered() {
      hr.Ordered() && rr.Ordered() && activity.Ordered()
    }
  }

  datatype Result<T, E> = Success(value: T) | Failure(error: E)
}
