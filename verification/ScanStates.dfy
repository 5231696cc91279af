/** Scan ids, and the states of a scan row as the store keeps them. */
module ScanStates {
  /** A scan id is a UUID, read as the number its bytes spell. */
  type ScanId = nat

  datatype ScanState = Queued | Running | Complete | Failed | Cancelled

  /** Not finished: such a scan can be cancelled but not deleted. */
  predicate InFlight(state: ScanState) {
    state == Queued || state == Running
  }
}
