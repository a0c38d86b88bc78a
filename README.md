# Gym-class booking ledger

A Dafny model of the booking ledger of the gym-class scheduling application:
the `useBookings` hook, which keeps a list of classes (capacity, confirmed
occupancy, FIFO waitlist of user ids) and the current user's booking
records. It answers four read-only queries: free places, class full, user
booked, user on a waitlist. It offers two operations that replace both lists
with updated copies:

- **bookClass** takes a confirmed place when one is free. Otherwise it appends
  the user to the class's waitlist and reports their 1-based position.
- **cancelBooking** flips the user's active record to cancelled and gives its
  place back in one of three ways:
  - a waitlist record leaves the waitlist;
  - a confirmed record hands its place to the head of the waitlist;
  - a confirmed record frees the place when nobody waits.

Files:

- `booking_types.dfy` (module `BookingTypes`): classes, records, statuses and
  operation results. Only the fields the ledger reads or writes are kept.
- `booking_queries.dfy` (module `BookingQueries`): the read-only queries, plus
  the list operations `find`, `filter` and `map` that both updates are written
  with, each with the facts the proofs use.
- `booking_ledger.dfy` (module `BookingLedger`): the class `Ledger`, whose
  fields `classes`, `userBookings` and `nextId` are reassigned by `BookClass`
  and `CancelBooking`. The change each operation makes to the one class it
  touches is the function `Admit` or `Release`, applied through the same
  id-matching conditional map the hook uses. The module also holds the
  invariant `Valid()` and the lemmas showing that every path of both
  operations preserves it.
- `booking_scenarios.dfy` (module `BookingScenarios`): three call sequences on
  the initial schedule, with the state checked after each call:
  - the last place of class 8 is taken and then given back;
  - a second booking of class 3 is refused;
  - the user joins class 2's waitlist behind two others and then leaves it.

The invariant `Valid()` holds between calls:

- class ids are unique;
- every record belongs to the current user, names an existing class and has
  an id below the counter;
- record ids differ, and a class has at most one active record;
- every class stays within capacity;
- a confirmed record has a place counted for it;
- the user is on a class's waitlist, at most once, exactly when their active
  record for that class has the waitlist status.

Three behaviours of the code are worth knowing, since one might expect
otherwise; the model follows the code:

- `isUserBooked` is true for any record that is not cancelled, including a
  waitlist record (src/hooks/useBookings.ts:55). One might expect it to count
  confirmed records only, making "booked" and "on the waitlist" exclusive. In
  the code, being on a waitlist implies being booked
  (`WaitlistAgreesWithRecords`, `ActiveStatus`).
- Cancelling a waitlist record filters every occurrence of the user out of
  the waitlist (line 127). Under the invariant that is exactly one position
  (`LeaveWaitlist`).
- Promotion only drops the head of the waitlist (line 135); no record of
  the promoted user is updated. The ledger holds records for the current
  user only, and `PromoteHead` proves that the head is never that user, so no
  record of the ledger is left inconsistent.

## Model

| member | source | states |
|---|---|---|
| BookingQueries.AvailableSpots | src/hooks/useBookings.ts:46-48 | places left are positive exactly when occupancy is below capacity, and lie between 0 and the capacity for a class within capacity |
| BookingQueries.IsClassFull | src/hooks/useBookings.ts:50-52 | a class is full exactly when no places are left, and then exactly 0 are left when it is within capacity |
| BookingQueries.FindClass | src/hooks/useBookings.ts:64 | `classes.find` by id: the index found holds the id and no earlier class does; nothing is found exactly when no class has the id |
| BookingQueries.OnlyOneWithId | src/hooks/useBookings.ts:73-77 | with unique ids, the class at an index is the only one the id-matching `map` touches |
| BookingQueries.FindClassUnique | src/hooks/useBookings.ts:59 | with unique ids, the lookup finds the one class carrying the id |
| BookingQueries.FindClassSameIds | src/hooks/useBookings.ts:73-77 | a `map` that keeps every class id keeps every lookup by id |
| BookingQueries.IsUserOnWaitlist | src/hooks/useBookings.ts:58-61 | true only if some class with the id has the current user in its waitlist; false for an unknown class |
| BookingQueries.OnWaitlistOfClass | src/hooks/useBookings.ts:58-61 | with unique ids, the query is true exactly when the user is in that class's waitlist |
| BookingQueries.ActiveFor | src/hooks/useBookings.ts:55 | the test inside both record lookups holds exactly for a record of the class whose status is confirmed or waitlist |
| BookingQueries.FindActiveBooking | src/hooks/useBookings.ts:118 | `userBookings.find` of a non-cancelled record of the class: the first such index, and none exactly when no record is active for the class |
| BookingQueries.IsUserBooked | src/hooks/useBookings.ts:54-56 | `some` over the records agrees with the `find` of an active record |
| BookingQueries.ActiveStatus | src/hooks/useBookings.ts:54-56 | a status is reported exactly when the user is booked, and it is never cancelled |
| BookingQueries.FindActiveAppend | src/hooks/useBookings.ts:87 | appending a record leaves an earlier active record the one found, and otherwise finds the new record if it is active |
| BookingQueries.ActiveStatusAppend | src/hooks/useBookings.ts:112 | appending a record changes the status only of a class the user was not booked in |
| BookingQueries.FindActiveSame | src/hooks/useBookings.ts:147-149 | changing records without changing which are active for a class keeps what is found for it |
| BookingQueries.ActiveView | src/hooks/useBookings.ts:156 | the exposed records are exactly the non-cancelled ones, and the user is booked in a class exactly when one of them names it |
| BookingQueries.ActiveViewAppend | src/hooks/useBookings.ts:156 | a new non-cancelled record appears at the end of the exposed records |
| BookingQueries.Filter | src/hooks/useBookings.ts:127 | `filter` keeps exactly the elements that pass, is no longer than its input, and is the input when all pass |
| BookingQueries.FilterAppend | src/hooks/useBookings.ts:156 | filtering a concatenation is the concatenation of the filtered parts |
| BookingQueries.FilterDropsOne | src/hooks/useBookings.ts:127 | when one position fails, the filter removes exactly that position and keeps the others in order |
| BookingQueries.MapWhere | src/hooks/useBookings.ts:147-149 | the conditional `map` of both updates keeps the length, transforms every selected element and keeps every other one |
| BookingQueries.MapWhereOne | src/hooks/useBookings.ts:147-149 | a `map` whose condition selects exactly one element is an update of that one position |
| BookingLedger.InitialClasses | src/hooks/useBookings.ts:26-39 | the twelve initial classes have unique ids, are within capacity and do not list the current user |
| BookingLedger.Ledger.constructor | src/hooks/useBookings.ts:42-43 | the ledger starts with the given classes and no records, and satisfies the invariant |
| BookingLedger.Ledger.BookClass | src/hooks/useBookings.ts:63-115 | unknown class: not found, nothing changes; already booked (confirmed or waitlist): refused, nothing changes; full class: the user is appended to that class's waitlist, the reported position is their 1-based place in it, and one waitlist record is appended; otherwise that class's occupancy goes up by one and one confirmed record is appended; no other class changes, the invariant is kept, and afterwards the record's status for the class is the one reported |
| BookingLedger.Ledger.CancelBooking | src/hooks/useBookings.ts:117-152 | succeeds exactly when the user is booked in the class, and otherwise changes nothing; on success only the found record becomes cancelled; a waitlist record removes the user's one position from the waitlist and keeps the rest in order; a confirmed record drops the waitlist's head, or lowers occupancy by one when nobody waits; no other class changes, the invariant is kept, and the user is no longer booked in the class |
| BookingLedger.WaitlistAgreesWithRecords | src/hooks/useBookings.ts:54-61 | under the invariant, the user is on a class's waitlist exactly when their active record for it has the waitlist status, and an active record always names an existing class |
| BookingLedger.ClassUpdateKeepsLookup | src/hooks/useBookings.ts:73-77 | replacing a class by one with the same id keeps ids unique and every lookup |
| BookingLedger.Admit | src/hooks/useBookings.ts:71-102 | a full class keeps its occupancy and its waitlist grows by one; otherwise the waitlist is kept and occupancy grows by one; id and capacity never change |
| BookingLedger.AdmitFits | src/hooks/useBookings.ts:71-102 | on a class the user holds nothing in, the admitted class fits a waitlist record when the class was full and a confirmed record otherwise |
| BookingLedger.Release | src/hooks/useBookings.ts:124-144 | id and capacity never change; the waitlist path filters the waitlist with `NotCurrentUser`, the test at line 127, keeping occupancy and never lengthening the waitlist |
| BookingLedger.ReleaseFits | src/hooks/useBookings.ts:124-144 | on a class that fits the cancelled record, the released class fits no record, and cancelling a waitlist record removes exactly the user's one position |
| BookingLedger.JoinWaitlist | src/hooks/useBookings.ts:71-77 | appending the user to a waitlist they are not on makes the class fit a waitlist record |
| BookingLedger.TakePlace | src/hooks/useBookings.ts:97-102 | taking a place in a class that is not full keeps occupancy within capacity and fits a confirmed record |
| BookingLedger.LeaveWaitlist | src/hooks/useBookings.ts:124-129 | the filter removes the user's single position, keeps every other waiting id in order, and leaves the user off the waitlist |
| BookingLedger.PromoteHead | src/hooks/useBookings.ts:130-137 | the promoted head is never the cancelling user, and dropping it leaves occupancy unchanged and the class fitting no record |
| BookingLedger.FreePlace | src/hooks/useBookings.ts:138-144 | freeing a confirmed place when nobody waits never takes occupancy below zero |
| BookingLedger.OnlyOneWithBookingId | src/hooks/useBookings.ts:147-149 | under the invariant, the record flipped by id is the only one carrying that id |
| BookingLedger.BookKeepsInvariant | src/hooks/useBookings.ts:71-112 | updating the booked class and appending a record with a fresh id keeps the invariant, and leaves that record's status as the class's active status |
| BookingLedger.BookKeepsRecords | src/hooks/useBookings.ts:79-87 | the appended record has a fresh id, names an existing class, and is the only active record of its class |
| BookingLedger.BookKeepsLinks | src/hooks/useBookings.ts:71-112 | every class still fits the user's active record after the booking |
| BookingLedger.CancelKeepsInvariant | src/hooks/useBookings.ts:124-149 | updating the class and flipping the record to cancelled keeps the invariant, and leaves the user not booked in the class |
| BookingLedger.CancelKeepsRecords | src/hooks/useBookings.ts:147-149 | flipping a record's status keeps ids distinct and every record naming an existing class |
| BookingLedger.CancelKeepsLinks | src/hooks/useBookings.ts:124-149 | every class still fits the user's active record after the cancellation, and the class now has none |

## Left out

- React state, `useCallback` and re-rendering are not modelled: each operation acts on the current state and replaces it, as the hook's setters do once the updates are applied. Updates that read a stale snapshot between two calls in one render are not modelled. The hook picks the path of an update from its snapshot of the class and applies it to the latest list; `Admit` and `Release` pick the path from the class they update, which is the same class when no snapshot is stale.
- Record ids are drawn from a counter `nextId` instead of `booking-${Date.now()}`. Two bookings within one millisecond would get the same id in the source, and cancelling one would then flip both. The model assumes fresh ids.
- The `bookedAt` timestamp, and the class fields that only the schedule displays (day, start, duration, name, colour, instructor, description), are not modelled.
- The French result messages are not modelled: results are the datatypes `BookResult` and `CancelResult`, whose error values name the three failure messages.
- The invariant covers the current user only. The seed waitlists name other users who have no records, so waitlist membership and record status are not linked for them.
- The promoted user's own record is not modelled, because the ledger holds no records for other users.
- The application's pages, dialogs and layout, which only call into the ledger, are not part of this model.
