/** Time as integer seconds (UTC) and the periods the lending rules use. */
module Clock {

  const SecondsPerDay: int := 86400

  /** `timedelta(days=30)`: the loan period and the renewal extension. */
  const LoanPeriod: int := 30 * SecondsPerDay

  /** `timedelta(days=7)`: how long a reservation stays valid. */
  const ReservationPeriod: int := 7 * SecondsPerDay

  /** `(now - due).days` for a due date in the past: the whole days elapsed,
      rounded down. */
  function DaysLate(due: int, now: int): (d: nat)
    requires due < now
    ensures d * SecondsPerDay <= now - due < (d + 1) * SecondsPerDay
  {
    (now - due) / SecondsPerDay
  }

  /** Later returns are never charged fewer days. */
  lemma DaysLateMonotone(due: int, t1: int, t2: int)
    requires due < t1 <= t2
    ensures DaysLate(due, t1) <= DaysLate(due, t2)
  {
  }

  /** The count grows by exactly one per additional day. */
  lemma DaysLateShift(due: int, now: int, k: nat)
    requires due < now
    ensures DaysLate(due, now + k * SecondsPerDay) == DaysLate(due, now) + k
  {
  }
}
