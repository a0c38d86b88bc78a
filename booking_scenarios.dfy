module BookingScenarios {
  import opened BookingTypes
  import opened BookingQueries
  import opened BookingLedger

  /** Taking the last place of a class, then cancelling it while nobody waits. */
  method LastPlaceScenario() {
    var ledger := new Ledger(InitialClasses());
    ghost var before := ledger.classes[7];
    assert before == GymClass("8", 20, 19, []);
    FindClassUnique(ledger.classes, "8", 7);
    var booked := ledger.BookClass("8");
    assert booked == BookedConfirmed;
    assert ledger.classes[7] == before.(currentBookings := 20);
    FindClassUnique(ledger.classes, "8", 7);
    var cancelled := ledger.CancelBooking("8");
    assert cancelled == CancelSucceeded;
    assert ledger.classes[7] == before;
  }

  /** A second booking of a class the user already holds is refused and changes nothing. */
  method DoubleBookingScenario() {
    var ledger := new Ledger(InitialClasses());
    FindClassUnique(ledger.classes, "3", 2);
    var booked := ledger.BookClass("3");
    assert booked == BookedConfirmed;
    ghost var classes, records := ledger.classes, ledger.userBookings;
    FindClassUnique(classes, "3", 2);
    var again := ledger.BookClass("3");
    assert again == BookFailed(AlreadyBooked);
    assert ledger.classes == classes && ledger.userBookings == records;
  }

  /** Joining a full class's waitlist behind two others, then leaving it. */
  method WaitlistScenario() {
    var ledger := new Ledger(InitialClasses());
    FindClassUnique(ledger.classes, "2", 1);
    var booked := ledger.BookClass("2", "Alice");
    assert booked == BookedOnWaitlist(3);
    assert ledger.classes[1].waitlist == ["user1", "user2", CurrentUserId];
    var cancelled := ledger.CancelBooking("2");
    assert cancelled == CancelSucceeded;
    assert ledger.classes[1].waitlist == ["user1", "user2"];
    assert ledger.classes[1].currentBookings == 20;
  }
}
