/**
 * Values of the booking ledger: gym classes, booking records, the status of a
 * record, and what the two state-changing operations report back.
 */
module BookingTypes {

  datatype Option<+T> = None | Some(value: T)

  /** The one user the ledger books for; the application has no log-in. */
  const CurrentUserId: string := "current-user"

  /** The display name used when the caller gives none. */
  const DefaultUserName: string := "Utilisateur"

  /**
   * A scheduled class. Only the fields the ledger reads or writes are kept:
   * its identity, its capacity, how many confirmed places are taken, and the
   * FIFO waitlist of user ids.
   */
  datatype GymClass = GymClass(
    id: string,
    maxCapacity: int,
    currentBookings: int,
    waitlist: seq<string>)

  /** A record once created is only ever flipped to Cancelled, never deleted. */
  datatype Status = Confirmed | Waitlist | Cancelled

  /**
   * A booking record of the current user. The source derives `id` from the
   * clock; here it is drawn from a counter held by the ledger.
   */
  datatype Booking = Booking(
    id: nat,
    classId: string,
    userId: string,
    userName: string,
    status: Status)

  datatype Error = ClassNotFound | AlreadyBooked | BookingNotFound

  /** The result of booking a class: a failure, a confirmed place, or a 1-based waitlist position. */
  datatype BookResult = BookFailed(error: Error) | BookedConfirmed | BookedOnWaitlist(position: nat)
  {
    predicate Success() { !BookFailed? }
  }

  /** The result of cancelling a booking. */
  datatype CancelResult = CancelFailed(error: Error) | CancelSucceeded
  {
    predicate Success() { CancelSucceeded? }
  }
}
