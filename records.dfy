/**
 * The stored session summary, reduced to the fields the label, readiness
 * and export code read. What the source obtains by parsing (the RFC 3339
 * `created_at` through the `time` crate, the metrics payload through
 * serde) is carried here as the parse's outcome.
 */
module Records {
  import opened Wrappers
  import P = PvtMetrics
  import N = NBackMetrics

  datatype ClientInfo = ClientInfo(platform: string, tz: string)

  /** Quality-control counters collected during a run. */
  datatype QualityFlags = QualityFlags(
    focusLostEvents: nat,
    visibilityBlurEvents: nat,
    minTrialsMet: bool)

  /**
   * A persisted summary. `createdInstant` is what parsing `createdAt` as
   * RFC 3339 yields (seconds since the Unix epoch); `pvt` and `nback` are
   * what deserialising the metrics payload as the respective record yields.
   */
  datatype SummaryRecord = SummaryRecord(
    id: string,
    task: string,
    createdAt: string,
    client: ClientInfo,
    qc: QualityFlags,
    notes: Option<string>,
    createdInstant: Option<int>,
    pvt: Option<P.PvtMetrics>,
    nback: Option<N.NBackMetrics>)
}
