/** The record shapes shared by the billing estimator. Instants are time
    values: integer milliseconds since 1970-01-01T00:00:00Z, i.e. the ISO
    strings of a seat already read as dates. */
module Types {
  import opened Results

  /** A seat's `pendingCancellationDate`: `null`, the empty string (which,
      being falsy, also means "no cancellation"), or an ISO date. */
  datatype Cancellation = NullDate | EmptyText | IsoDate(at: int)
  {
    /** Whether the field is truthy, i.e. names a cancellation. */
    predicate Present()
    {
      IsoDate?
    }
  }

  /** A Copilot seat as the seats API reports it. */
  datatype UserSeat = UserSeat(
    login: string,
    userId: int,
    assignedAt: int,
    pendingCancellationDate: Cancellation,
    lastActivityAt: Option<int>)

  /** A closed billing interval `[start, end]`. */
  datatype DateRange = DateRange(start: int, end: int)

  /** The outcome of `estimateMonthlyCost`. */
  datatype BillingEstimate = BillingEstimate(
    activeUserCount: nat,
    unitPrice: real,
    estimatedCost: real,
    calculationMethod: string,
    confidence: string,
    disclaimers: seq<string>)
}
