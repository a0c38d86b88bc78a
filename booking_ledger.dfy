/**
 * The booking ledger: the list of classes and the current user's booking
 * records, replaced by booking and cancelling.
 */
module BookingLedger {
  import opened BookingTypes
  import opened BookingQueries

  /** The user occurs at most once in the waitlist. */
  ghost predicate AtMostOnce(w: seq<string>, u: string) {
    forall j, k :: 0 <= j < k < |w| ==> !(w[j] == u && w[k] == u)
  }

  /**
   * How a class and the current user's active record for it (if any) fit
   * together: occupancy stays within capacity, a confirmed record has a place
   * counted for it, and the user is on the waitlist, once, exactly when the
   * record is a waitlist record. Other users in the waitlist have no records
   * here and are not constrained.
   */
  ghost predicate ClassLinked(c: GymClass, status: Option<Status>) {
    && WithinCapacity(c)
    && (status == Some(Confirmed) ==> c.currentBookings >= 1)
    && (CurrentUserId in c.waitlist <==> status == Some(Waitlist))
    && AtMostOnce(c.waitlist, CurrentUserId)
  }

  ghost predicate LinkedAt(cs: seq<GymClass>, bs: seq<Booking>, i: nat)
    requires i < |cs|
  {
    ClassLinked(cs[i], ActiveStatus(bs, cs[i].id))
  }

  /** Every class fits the current user's active record for it. */
  ghost predicate ClassesLinked(cs: seq<GymClass>, bs: seq<Booking>) {
    forall i :: 0 <= i < |cs| ==> LinkedAt(cs, bs, i)
  }

  /** Record `k` belongs to the current user, names an existing class and has an id below the counter. */
  ghost predicate RecordFits(cs: seq<GymClass>, bs: seq<Booking>, nextId: nat, k: nat)
    requires k < |bs|
  {
    bs[k].id < nextId && bs[k].userId == CurrentUserId && FindClass(cs, bs[k].classId).Some?
  }

  /** Records `k` and `l` have different ids, and are not both active in one class. */
  ghost predicate RecordsApart(bs: seq<Booking>, k: nat, l: nat)
    requires k < |bs| && l < |bs|
  {
    && bs[k].id != bs[l].id
    && (bs[k].status != Cancelled && bs[l].status != Cancelled ==> bs[k].classId != bs[l].classId)
  }

  ghost predicate RecordsWellFormed(cs: seq<GymClass>, bs: seq<Booking>, nextId: nat) {
    && (forall k :: 0 <= k < |bs| ==> RecordFits(cs, bs, nextId, k))
    && (forall k, l :: 0 <= k < l < |bs| ==> RecordsApart(bs, k, l))
  }

  /** The ledger's invariant over its classes, its records and its id counter. */
  ghost predicate LedgerInvariant(cs: seq<GymClass>, bs: seq<Booking>, nextId: nat) {
    && UniqueClassIds(cs)
    && RecordsWellFormed(cs, bs, nextId)
    && ClassesLinked(cs, bs)
  }

  /** What a list of classes must satisfy to start a ledger with no records. */
  ghost predicate SeedOk(cs: seq<GymClass>) {
    && UniqueClassIds(cs)
    && forall i :: 0 <= i < |cs| ==> WithinCapacity(cs[i]) && CurrentUserId !in cs[i].waitlist
  }

  /** The classes the application starts with (schedule and display fields left out). */
  function InitialClasses(): (r: seq<GymClass>)
    ensures |r| == 12 && SeedOk(r)
  {
    [ GymClass("1", 15, 12, []),
      GymClass("2", 20, 20, ["user1", "user2"]),
      GymClass("3", 12, 8, []),
      GymClass("4", 16, 14, []),
      GymClass("5", 15, 15, ["user3"]),
      GymClass("6", 25, 18, []),
      GymClass("7", 20, 16, []),
      GymClass("8", 20, 19, []),
      GymClass("9", 15, 10, []),
      GymClass("10", 30, 22, []),
      GymClass("11", 25, 25, ["user4", "user5", "user6"]),
      GymClass("12", 15, 6, []) ]
  }

  class Ledger {
    var classes: seq<GymClass>
    var userBookings: seq<Booking>
    /** Source of fresh booking ids. */
    var nextId: nat

    ghost predicate Valid()
      reads this
    {
      LedgerInvariant(classes, userBookings, nextId)
    }

    /** A ledger over the given classes and no records; the application passes InitialClasses(). */
    constructor (seed: seq<GymClass>)
      requires SeedOk(seed)
      ensures Valid()
      ensures classes == seed && userBookings == []
    {
      classes := seed;
      userBookings := [];
      nextId := 0;
    }

    /**
     * bookClass: a confirmed place if the class has one, otherwise the end of
     * its waitlist; refused if the class is unknown or already booked.
     */
    method BookClass(classId: string, userName: string := DefaultUserName) returns (r: BookResult)
      requires Valid()
      modifies this
      ensures Valid()
      ensures r.Success() ==> ActiveStatus(userBookings, classId) == Some(if r.BookedConfirmed? then Confirmed else Waitlist)
      ensures match FindClass(old(classes), classId)
        case None => r == BookFailed(ClassNotFound) && unchanged(this)
        case Some(i) =>
          var c := old(classes)[i];
          if IsUserBooked(old(userBookings), classId) then
            r == BookFailed(AlreadyBooked) && unchanged(this)
          else if IsClassFull(c) then
            && r == BookedOnWaitlist(|c.waitlist| + 1)
            && classes == old(classes)[i := c.(waitlist := c.waitlist + [CurrentUserId])]
            && classes[i].waitlist[r.position - 1] == CurrentUserId
            && userBookings == old(userBookings) + [Booking(old(nextId), classId, CurrentUserId, userName, Waitlist)]
            && nextId == old(nextId) + 1
          else
            && r == BookedConfirmed
            && classes == old(classes)[i := c.(currentBookings := c.currentBookings + 1)]
            && userBookings == old(userBookings) + [Booking(old(nextId), classId, CurrentUserId, userName, Confirmed)]
            && nextId == old(nextId) + 1
    {
      var found := FindClass(classes, classId);
      if found.None? {
        return BookFailed(ClassNotFound);
      }
      if IsUserBooked(userBookings, classId) {
        return BookFailed(AlreadyBooked);
      }
      var i := found.value;
      var c := classes[i];
      ghost var cs := classes;
      assert ClassLinked(c, None) by { assert LinkedAt(cs, userBookings, i); }
      var sel := (g: GymClass) => g.id == classId;
      var status;
      if IsClassFull(c) {
        status := Waitlist;
        r := BookedOnWaitlist(|c.waitlist| + 1);
      } else {
        status := Confirmed;
        r := BookedConfirmed;
      }
      var admit := (g: GymClass) => Admit(g);
      ghost var updated := Admit(c);
      AdmitFits(c);
      assert MapWhere(cs, sel, admit) == cs[i := updated] by {
        OnlyOneWithId(cs, i);
        MapWhereOne(cs, sel, admit, i);
      }
      classes := MapWhere(classes, sel, admit);
      var booking := Booking(nextId, classId, CurrentUserId, userName, status);
      userBookings := userBookings + [booking];
      nextId := nextId + 1;
      BookKeepsInvariant(old(classes), old(userBookings), old(nextId), i, updated, booking);
    }

    /**
     * cancelBooking: flips the user's active record for the class to Cancelled,
     * and gives its place back: off the waitlist for a waitlist record; for a
     * confirmed record to the head of the waitlist, or to the free places when
     * nobody waits.
     */
    method CancelBooking(classId: string) returns (r: CancelResult)
      requires Valid()
      modifies this
      ensures Valid()
      ensures nextId == old(nextId)
      ensures r.Success() <==> IsUserBooked(old(userBookings), classId)
      ensures !r.Success() ==> r == CancelFailed(BookingNotFound) && unchanged(this)
      ensures r.Success() ==> FindClass(old(classes), classId).Some? && !IsUserBooked(userBookings, classId)
      ensures r.Success() ==>
        var k := FindActiveBooking(old(userBookings), classId).value;
        var i := FindClass(old(classes), classId).value;
        var b, c := old(userBookings)[k], old(classes)[i];
        && userBookings == old(userBookings)[k := b.(status := Cancelled)]
        && if b.status == Waitlist then
             exists p :: 0 <= p < |c.waitlist| && c.waitlist[p] == CurrentUserId
               && classes == old(classes)[i := c.(waitlist := c.waitlist[..p] + c.waitlist[p + 1..])]
           else if |c.waitlist| > 0 then
             classes == old(classes)[i := c.(waitlist := c.waitlist[1..])]
           else
             classes == old(classes)[i := c.(currentBookings := c.currentBookings - 1)]
    {
      var found := FindActiveBooking(userBookings, classId);
      if found.None? {
        return CancelFailed(BookingNotFound);
      }
      var k := found.value;
      var booking := userBookings[k];
      assert RecordFits(classes, userBookings, nextId, k);
      var classFound := FindClass(classes, classId);
      if classFound.None? {
        // Every record names a class of the ledger, so this defensive branch is dead.
        assert false;
        return CancelFailed(ClassNotFound);
      }
      var i := classFound.value;
      var c := classes[i];
      ghost var cs, bs := classes, userBookings;
      assert ClassLinked(c, Some(booking.status)) by { assert LinkedAt(cs, bs, i); }
      var sel := (g: GymClass) => g.id == classId;
      var release := (g: GymClass) => Release(g, booking.status);
      ghost var released := Release(c, booking.status);
      assert MapWhere(cs, sel, release) == cs[i := released] by {
        OnlyOneWithId(cs, i);
        MapWhereOne(cs, sel, release, i);
      }
      classes := MapWhere(classes, sel, release);
      var bsel := (b: Booking) => b.id == booking.id;
      var cancel := (b: Booking) => b.(status := Cancelled);
      assert MapWhere(bs, bsel, cancel) == bs[k := booking.(status := Cancelled)] by {
        OnlyOneWithBookingId(cs, bs, nextId, k);
        MapWhereOne(bs, bsel, cancel, k);
      }
      userBookings := MapWhere(userBookings, bsel, cancel);
      ghost var p := ReleaseFits(c, booking.status);
      CancelKeepsInvariant(cs, bs, nextId, i, k, released);
      return CancelSucceeded;
    }
  }

  /** Replacing a class by one with the same id keeps ids unique and every lookup. */
  lemma ClassUpdateKeepsLookup(cs: seq<GymClass>, i: nat, c: GymClass)
    requires i < |cs| && c.id == cs[i].id
    ensures UniqueClassIds(cs) ==> UniqueClassIds(cs[i := c])
    ensures forall classId :: FindClass(cs[i := c], classId) == FindClass(cs, classId)
  {
    var cs' := cs[i := c];
    if UniqueClassIds(cs) {
      forall a, b | 0 <= a < b < |cs'| ensures IdsDiffer(cs', a, b) {
        assert IdsDiffer(cs, a, b);
      }
    }
    forall classId ensures FindClass(cs[i := c], classId) == FindClass(cs, classId) {
      FindClassSameIds(cs, cs[i := c], classId);
    }
  }

  /**
   * What the invariant means to a reader of the ledger: the user is on a
   * class's waitlist exactly when their active record for it is a waitlist
   * record, and an active record always names a class of the ledger.
   */
  lemma WaitlistAgreesWithRecords(cs: seq<GymClass>, bs: seq<Booking>, nextId: nat, classId: string)
    requires LedgerInvariant(cs, bs, nextId)
    ensures IsUserOnWaitlist(cs, classId) <==> ActiveStatus(bs, classId) == Some(Waitlist)
    ensures IsUserBooked(bs, classId) ==> FindClass(cs, classId).Some?
  {
    var found := FindActiveBooking(bs, classId);
    if found.Some? {
      assert RecordFits(cs, bs, nextId, found.value);
    }
    match FindClass(cs, classId)
    case None =>
    case Some(i) => assert LinkedAt(cs, bs, i);
  }

  // ---------------------------------------------------------------------
  // The effect of each path of bookClass and cancelBooking on one class
  // ---------------------------------------------------------------------

  /**
   * What booking does to the class: the user joins the end of the waitlist of
   * a full class, and otherwise takes one of its places.
   */
  function Admit(c: GymClass): (r: GymClass)
    ensures r.id == c.id && r.maxCapacity == c.maxCapacity
    ensures IsClassFull(c) ==> r.currentBookings == c.currentBookings && |r.waitlist| == |c.waitlist| + 1
    ensures !IsClassFull(c) ==> r.waitlist == c.waitlist && r.currentBookings == c.currentBookings + 1
  {
    if IsClassFull(c) then c.(waitlist := c.waitlist + [CurrentUserId])
    else c.(currentBookings := c.currentBookings + 1)
  }

  /** On a class the user holds nothing in, Admit leaves a class that fits the new record. */
  lemma AdmitFits(c: GymClass)
    requires ClassLinked(c, None)
    ensures ClassLinked(Admit(c), Some(if IsClassFull(c) then Waitlist else Confirmed))
  {
  }

  /** A full class the user holds nothing in: joining the end of its waitlist makes a waitlist record fit. */
  lemma JoinWaitlist(c: GymClass)
    requires ClassLinked(c, None)
    ensures ClassLinked(c.(waitlist := c.waitlist + [CurrentUserId]), Some(Waitlist))
  {
  }

  /** A class with a free place the user holds nothing in: taking the place makes a confirmed record fit. */
  lemma TakePlace(c: GymClass)
    requires ClassLinked(c, None) && !IsClassFull(c)
    ensures ClassLinked(c.(currentBookings := c.currentBookings + 1), Some(Confirmed))
  {
  }

  /**
   * Leaving the waitlist: the filter drops the user's single position `p` and
   * keeps every other waiting id in order, and the class then fits no record.
   */
  lemma LeaveWaitlist(c: GymClass, keep: string -> bool) returns (p: nat)
    requires ClassLinked(c, Some(Waitlist))
    requires forall id :: keep(id) <==> id != CurrentUserId
    ensures p < |c.waitlist| && c.waitlist[p] == CurrentUserId
    ensures Filter(c.waitlist, keep) == c.waitlist[..p] + c.waitlist[p + 1..]
    ensures ClassLinked(c.(waitlist := Filter(c.waitlist, keep)), None)
  {
    var w := c.waitlist;
    p :| 0 <= p < |w| && w[p] == CurrentUserId;
    assert forall j :: 0 <= j < |w| && j != p ==> keep(w[j]);
    FilterDropsOne(w, keep, p);
  }

  /**
   * Cancelling a confirmed place while others wait: the head of the waitlist
   * takes it over. The head is never the user cancelling, so the promoted
   * user is one whose records the ledger does not hold.
   */
  lemma PromoteHead(c: GymClass)
    requires ClassLinked(c, Some(Confirmed)) && |c.waitlist| > 0
    ensures c.waitlist[0] != CurrentUserId
    ensures ClassLinked(c.(waitlist := c.waitlist[1..]), None)
  {
  }

  /** The test the waitlist is filtered with when a waitlist record is cancelled. */
  predicate NotCurrentUser(id: string) {
    id != CurrentUserId
  }

  /**
   * What cancelling a record of the given status does to its class: a waitlist
   * record takes the user off the waitlist; a confirmed record hands its place
   * to the head of the waitlist, or frees it when nobody waits.
   */
  function Release(c: GymClass, status: Status): (r: GymClass)
    ensures r.id == c.id && r.maxCapacity == c.maxCapacity
    ensures status == Waitlist ==> r.currentBookings == c.currentBookings && |r.waitlist| <= |c.waitlist|
  {
    if status == Waitlist then c.(waitlist := Filter(c.waitlist, NotCurrentUser))
    else if |c.waitlist| > 0 then c.(waitlist := c.waitlist[1..])
    else c.(currentBookings := c.currentBookings - 1)
  }

  /**
   * Each path of Release, on a class that fits the record being cancelled,
   * leaves a class that fits no record; the waitlist path removes exactly the
   * user's one position `p`.
   */
  lemma ReleaseFits(c: GymClass, status: Status) returns (p: nat)
    requires status != Cancelled && ClassLinked(c, Some(status))
    ensures ClassLinked(Release(c, status), None)
    ensures status == Waitlist ==>
      && p < |c.waitlist| && c.waitlist[p] == CurrentUserId
      && Release(c, status) == c.(waitlist := c.waitlist[..p] + c.waitlist[p + 1..])
  {
    if status == Waitlist {
      p := LeaveWaitlist(c, NotCurrentUser);
    } else if |c.waitlist| > 0 {
      p := 0;
      PromoteHead(c);
    } else {
      p := 0;
      FreePlace(c);
    }
  }

  /** Cancelling a confirmed place while nobody waits: the place is freed, and occupancy stays non-negative. */
  lemma FreePlace(c: GymClass)
    requires ClassLinked(c, Some(Confirmed)) && |c.waitlist| == 0
    ensures ClassLinked(c.(currentBookings := c.currentBookings - 1), None)
  {
  }

  /** With distinct ids, record `k` is the only one carrying its id. */
  lemma OnlyOneWithBookingId(cs: seq<GymClass>, bs: seq<Booking>, nextId: nat, k: nat)
    requires RecordsWellFormed(cs, bs, nextId) && k < |bs|
    ensures forall m :: 0 <= m < |bs| && m != k ==> bs[m].id != bs[k].id
  {
    forall m | 0 <= m < |bs| && m != k ensures bs[m].id != bs[k].id {
      if m < k { assert RecordsApart(bs, m, k); } else { assert RecordsApart(bs, k, m); }
    }
  }

  /**
   * Booking keeps the invariant: the booked class is replaced by one with the
   * same id that fits a new active record, and that record, for a class the
   * user had no active record in, is appended with the next id.
   */
  lemma BookKeepsInvariant(cs: seq<GymClass>, bs: seq<Booking>, nextId: nat, i: nat, c: GymClass, b: Booking)
    requires LedgerInvariant(cs, bs, nextId)
    requires i < |cs| && c.id == cs[i].id
    requires !IsUserBooked(bs, c.id)
    requires b.id == nextId && b.classId == c.id && b.userId == CurrentUserId && b.status != Cancelled
    requires ClassLinked(c, Some(b.status))
    ensures LedgerInvariant(cs[i := c], bs + [b], nextId + 1)
    ensures ActiveStatus(bs + [b], c.id) == Some(b.status)
  {
    ActiveStatusAppend(bs, b, c.id);
    ClassUpdateKeepsLookup(cs, i, c);
    BookKeepsRecords(cs, bs, nextId, i, c, b);
    BookKeepsLinks(cs, bs, i, c, b);
  }

  lemma BookKeepsRecords(cs: seq<GymClass>, bs: seq<Booking>, nextId: nat, i: nat, c: GymClass, b: Booking)
    requires RecordsWellFormed(cs, bs, nextId)
    requires i < |cs| && c.id == cs[i].id
    requires FindActiveBooking(bs, c.id).None?
    requires b.id == nextId && b.classId == c.id && b.userId == CurrentUserId && b.status != Cancelled
    ensures RecordsWellFormed(cs[i := c], bs + [b], nextId + 1)
  {
    var cs', bs', nextId' := cs[i := c], bs + [b], nextId + 1;
    ClassUpdateKeepsLookup(cs, i, c);
    forall k | 0 <= k < |bs'| ensures RecordFits(cs', bs', nextId', k) {
      if k < |bs| {
        assert RecordFits(cs, bs, nextId, k) && bs'[k] == bs[k];
      } else {
        assert cs'[i].id == c.id;
      }
    }
    forall k, l | 0 <= k < l < |bs'| ensures RecordsApart(bs', k, l) {
      assert RecordFits(cs, bs, nextId, k) && bs'[k] == bs[k];
      if l == |bs| {
        assert !ActiveFor(bs[k], c.id);
      } else {
        assert RecordsApart(bs, k, l) && bs'[l] == bs[l];
      }
    }
  }

  lemma BookKeepsLinks(cs: seq<GymClass>, bs: seq<Booking>, i: nat, c: GymClass, b: Booking)
    requires UniqueClassIds(cs) && ClassesLinked(cs, bs)
    requires i < |cs| && c.id == cs[i].id
    requires !IsUserBooked(bs, c.id)
    requires b.classId == c.id && b.status != Cancelled
    requires ClassLinked(c, Some(b.status))
    ensures ClassesLinked(cs[i := c], bs + [b])
  {
    var cs', bs' := cs[i := c], bs + [b];
    OnlyOneWithId(cs, i);
    forall j | 0 <= j < |cs'| ensures LinkedAt(cs', bs', j)
    {
      ActiveStatusAppend(bs, b, cs'[j].id);
      if j != i {
        assert LinkedAt(cs, bs, j) && cs'[j] == cs[j];
      }
    }
  }

  /**
   * Cancelling keeps the invariant: the user's active record `k` for class `i`
   * is flipped to Cancelled, and the class is replaced by one with the same id
   * that fits having no active record.
   */
  lemma CancelKeepsInvariant(cs: seq<GymClass>, bs: seq<Booking>, nextId: nat, i: nat, k: nat, c: GymClass)
    requires LedgerInvariant(cs, bs, nextId)
    requires i < |cs| && k < |bs| && ActiveFor(bs[k], cs[i].id)
    requires c.id == cs[i].id && ClassLinked(c, None)
    ensures LedgerInvariant(cs[i := c], bs[k := bs[k].(status := Cancelled)], nextId)
    ensures !IsUserBooked(bs[k := bs[k].(status := Cancelled)], c.id)
  {
    ClassUpdateKeepsLookup(cs, i, c);
    CancelKeepsRecords(cs, bs, nextId, i, k, c);
    CancelKeepsLinks(cs, bs, nextId, i, k, c);
  }

  lemma CancelKeepsRecords(cs: seq<GymClass>, bs: seq<Booking>, nextId: nat, i: nat, k: nat, c: GymClass)
    requires RecordsWellFormed(cs, bs, nextId)
    requires i < |cs| && k < |bs| && c.id == cs[i].id
    ensures RecordsWellFormed(cs[i := c], bs[k := bs[k].(status := Cancelled)], nextId)
  {
    var bs' := bs[k := bs[k].(status := Cancelled)];
    ClassUpdateKeepsLookup(cs, i, c);
    var cs' := cs[i := c];
    forall m | 0 <= m < |bs'| ensures RecordFits(cs', bs', nextId, m) {
      assert RecordFits(cs, bs, nextId, m);
    }
    forall m, l | 0 <= m < l < |bs'| ensures RecordsApart(bs', m, l) {
      assert RecordsApart(bs, m, l);
    }
  }

  lemma CancelKeepsLinks(cs: seq<GymClass>, bs: seq<Booking>, nextId: nat, i: nat, k: nat, c: GymClass)
    requires UniqueClassIds(cs) && ClassesLinked(cs, bs) && RecordsWellFormed(cs, bs, nextId)
    requires i < |cs| && k < |bs| && ActiveFor(bs[k], cs[i].id)
    requires c.id == cs[i].id && ClassLinked(c, None)
    ensures ClassesLinked(cs[i := c], bs[k := bs[k].(status := Cancelled)])
    ensures !IsUserBooked(bs[k := bs[k].(status := Cancelled)], c.id)
  {
    var cs', bs' := cs[i := c], bs[k := bs[k].(status := Cancelled)];
    OnlyOneWithId(cs, i);
    forall m | 0 <= m < |bs'| ensures !ActiveFor(bs'[m], c.id) {
      if m < k {
        assert RecordsApart(bs, m, k);
      } else if m > k {
        assert RecordsApart(bs, k, m);
      }
    }
    forall j | 0 <= j < |cs'| ensures LinkedAt(cs', bs', j)
    {
      if j != i {
        FindActiveSame(bs, bs', cs'[j].id);
        assert LinkedAt(cs, bs, j) && cs'[j] == cs[j];
      }
    }
  }
}
