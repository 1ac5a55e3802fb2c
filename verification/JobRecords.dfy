/** Job records as every backend stores them. */
module JobRecords {
  import opened Options

  /** `Other` is a status found in a store that this build does not know. */
  datatype Status = Queued | Running | Complete | Error | Cancelled | Other(name: string)

  predicate Terminal(s: Status) {
    s == Complete || s == Error || s == Cancelled
  }

  datatype JobRecord = JobRecord(jobId: nat, status: Status, error: Option<string>, createdAt: real, updatedAt: real)
}
