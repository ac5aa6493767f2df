/** The states of a job and of its items; only items wait in a conflict. */
module JobStatus {
  datatype Status = Queued | Running | Paused | Completed | Failed | Cancelled | NeedsAttention | Conflict

  /** How a turn may leave a copy or move job, and how it may leave any other, when the user leaves it alone. */
  const TRANSFER_ENDS: set<Status> := {Completed, Failed, NeedsAttention}
  const OTHER_ENDS: set<Status> := {Completed, Failed}
}
