/**
 * The read-only side of the booking ledger, and the list operations
 * (`find`, `filter`, `map`) that the two state-changing operations are
 * built from, each with the facts about it that the ledger's proofs use.
 */
module BookingQueries {
  import opened BookingTypes

  // ---------------------------------------------------------------------
  // Capacity of one class
  // ---------------------------------------------------------------------

  /** The occupancy bound every class keeps. */
  predicate WithinCapacity(c: GymClass) {
    0 <= c.currentBookings <= c.maxCapacity
  }

  /** getAvailableSpots: places left before the class is full. */
  function AvailableSpots(c: GymClass): (r: int)
    ensures WithinCapacity(c) ==> 0 <= r <= c.maxCapacity
    ensures r > 0 <==> c.currentBookings < c.maxCapacity
  {
    c.maxCapacity - c.currentBookings
  }

  /** isClassFull: no place is left, so a booking goes to the waitlist. */
  function IsClassFull(c: GymClass): (r: bool)
    ensures r <==> AvailableSpots(c) <= 0
    ensures WithinCapacity(c) ==> (r <==> AvailableSpots(c) == 0)
  {
    c.currentBookings >= c.maxCapacity
  }

  // ---------------------------------------------------------------------
  // Looking up a class
  // ---------------------------------------------------------------------

  /** No two classes share an id. */
  ghost predicate UniqueClassIds(cs: seq<GymClass>) {
    forall i, j :: 0 <= i < j < |cs| ==> IdsDiffer(cs, i, j)
  }

  ghost predicate IdsDiffer(cs: seq<GymClass>, i: nat, j: nat)
    requires i < |cs| && j < |cs|
  {
    cs[i].id != cs[j].id
  }

  /** With unique ids, the class at `i` is the only one carrying its id. */
  lemma OnlyOneWithId(cs: seq<GymClass>, i: nat)
    requires UniqueClassIds(cs) && i < |cs|
    ensures forall j :: 0 <= j < |cs| && j != i ==> cs[j].id != cs[i].id
  {
    forall j | 0 <= j < |cs| && j != i ensures cs[j].id != cs[i].id {
      if j < i { assert IdsDiffer(cs, j, i); } else { assert IdsDiffer(cs, i, j); }
    }
  }

  /** The lookup of a class by id: the index of the first class carrying the id. */
  function FindClass(cs: seq<GymClass>, classId: string): (r: Option<nat>)
    ensures r.Some? ==> r.value < |cs| && cs[r.value].id == classId
    ensures r.Some? ==> forall j :: 0 <= j < r.value ==> cs[j].id != classId
    ensures r.None? <==> forall j :: 0 <= j < |cs| ==> cs[j].id != classId
  {
    if cs == [] then None
    else if cs[0].id == classId then Some(0)
    else match FindClass(cs[1..], classId)
      case None => None
      case Some(k) => Some(k + 1)
  }

  /** With unique ids, the class found is the only one carrying that id. */
  lemma FindClassUnique(cs: seq<GymClass>, classId: string, i: nat)
    requires UniqueClassIds(cs)
    requires i < |cs| && cs[i].id == classId
    ensures FindClass(cs, classId) == Some(i)
  {
    OnlyOneWithId(cs, i);
  }

  /** The lookup depends on the ids alone, so updating other fields of a class keeps it. */
  lemma FindClassSameIds(cs: seq<GymClass>, cs': seq<GymClass>, classId: string)
    requires |cs| == |cs'|
    requires forall j :: 0 <= j < |cs| ==> cs[j].id == cs'[j].id
    ensures FindClass(cs, classId) == FindClass(cs', classId)
  {
  }

  /** isUserOnWaitlist: the class exists and the current user is in its waitlist. */
  function IsUserOnWaitlist(cs: seq<GymClass>, classId: string): (r: bool)
    ensures r ==> exists i :: 0 <= i < |cs| && cs[i].id == classId && CurrentUserId in cs[i].waitlist
  {
    match FindClass(cs, classId)
    case None => false
    case Some(i) => CurrentUserId in cs[i].waitlist
  }

  /** With unique ids, isUserOnWaitlist reads exactly the waitlist of the class with that id. */
  lemma OnWaitlistOfClass(cs: seq<GymClass>, i: nat)
    requires UniqueClassIds(cs) && i < |cs|
    ensures IsUserOnWaitlist(cs, cs[i].id) <==> CurrentUserId in cs[i].waitlist
  {
    FindClassUnique(cs, cs[i].id, i);
  }

  // ---------------------------------------------------------------------
  // Looking up the current user's bookings
  // ---------------------------------------------------------------------

  /** The test both lookups of a record apply: a record of the class that is not cancelled. */
  function ActiveFor(b: Booking, classId: string): (r: bool)
    ensures r <==> b.classId == classId && (b.status == Confirmed || b.status == Waitlist)
  {
    b.classId == classId && b.status != Cancelled
  }

  /** The lookup of the user's record for a class: the index of the first active record for it. */
  function FindActiveBooking(bs: seq<Booking>, classId: string): (r: Option<nat>)
    ensures r.Some? ==> r.value < |bs| && ActiveFor(bs[r.value], classId)
    ensures r.Some? ==> forall j :: 0 <= j < r.value ==> !ActiveFor(bs[j], classId)
    ensures r.None? <==> forall j :: 0 <= j < |bs| ==> !ActiveFor(bs[j], classId)
  {
    if bs == [] then None
    else if ActiveFor(bs[0], classId) then Some(0)
    else match FindActiveBooking(bs[1..], classId)
      case None => None
      case Some(k) => Some(k + 1)
  }

  /**
   * isUserBooked: some record for the class is not cancelled. A waitlist
   * record counts as booked, exactly like a confirmed one.
   */
  function IsUserBooked(bs: seq<Booking>, classId: string): (r: bool)
    ensures r <==> FindActiveBooking(bs, classId).Some?
  {
    exists b :: b in bs && ActiveFor(b, classId)
  }

  /** The status of the user's active record for the class, if there is one. */
  function ActiveStatus(bs: seq<Booking>, classId: string): (r: Option<Status>)
    ensures r.Some? <==> IsUserBooked(bs, classId)
    ensures r != Some(Cancelled)
  {
    match FindActiveBooking(bs, classId)
    case None => None
    case Some(k) => Some(bs[k].status)
  }

  /** Appending a record leaves an earlier active record the one that is found. */
  lemma {:induction false} FindActiveAppend(bs: seq<Booking>, b: Booking, classId: string)
    ensures FindActiveBooking(bs + [b], classId) ==
      if FindActiveBooking(bs, classId).Some? then FindActiveBooking(bs, classId)
      else if ActiveFor(b, classId) then Some(|bs|)
      else None
  {
    if bs != [] {
      assert (bs + [b])[1..] == bs[1..] + [b];
      FindActiveAppend(bs[1..], b, classId);
    }
  }

  /**
   * Changing records that are not active for a class, into records that are
   * still not active for it, does not change what is found for that class.
   */
  lemma FindActiveSame(bs: seq<Booking>, bs': seq<Booking>, classId: string)
    requires |bs| == |bs'|
    requires forall j :: 0 <= j < |bs| ==> (ActiveFor(bs[j], classId) <==> ActiveFor(bs'[j], classId))
    ensures FindActiveBooking(bs, classId) == FindActiveBooking(bs', classId)
  {
  }

  /** Appending a record changes the active status only of a class that had no active record. */
  lemma ActiveStatusAppend(bs: seq<Booking>, b: Booking, classId: string)
    ensures ActiveStatus(bs + [b], classId) ==
      if IsUserBooked(bs, classId) then ActiveStatus(bs, classId)
      else if ActiveFor(b, classId) then Some(b.status)
      else None
  {
    FindActiveAppend(bs, b, classId);
    match FindActiveBooking(bs, classId)
    case Some(k) => assert (bs + [b])[k] == bs[k];
    case None =>
  }

  /** The records the ledger exposes: those not cancelled, in their original order. */
  function ActiveView(bs: seq<Booking>): (r: seq<Booking>)
    ensures forall b :: b in r <==> b in bs && b.status != Cancelled
    ensures forall classId :: IsUserBooked(bs, classId) <==> exists b :: b in r && b.classId == classId
  {
    Filter(bs, (b: Booking) => b.status != Cancelled)
  }

  /** A new record that is not cancelled shows up at the end of the non-cancelled view. */
  lemma ActiveViewAppend(bs: seq<Booking>, b: Booking)
    requires b.status != Cancelled
    ensures ActiveView(bs + [b]) == ActiveView(bs) + [b]
  {
    var keep := (x: Booking) => x.status != Cancelled;
    FilterAppend(bs, [b], keep);
    assert Filter([b], keep) == [b];
  }

  // ---------------------------------------------------------------------
  // The list operations the ledger updates its state with
  // ---------------------------------------------------------------------

  /** The elements that pass `keep`, in their original order. */
  function Filter<T(==,!new)>(s: seq<T>, keep: T -> bool): (r: seq<T>)
    ensures |r| <= |s|
    ensures forall x :: x in r <==> x in s && keep(x)
    ensures (forall j :: 0 <= j < |s| ==> keep(s[j])) ==> r == s
  {
    if s == [] then []
    else (if keep(s[0]) then [s[0]] else []) + Filter(s[1..], keep)
  }

  /** Filtering a concatenation filters each part and keeps them in order. */
  lemma {:induction false} FilterAppend<T(!new)>(s: seq<T>, t: seq<T>, keep: T -> bool)
    ensures Filter(s + t, keep) == Filter(s, keep) + Filter(t, keep)
  {
    if s != [] {
      var head := if keep(s[0]) then [s[0]] else [];
      var u := s + t;
      assert u[0] == s[0] && u[1..] == s[1..] + t;
      calc {
        Filter(u, keep);
        head + Filter(u[1..], keep);
        head + Filter(s[1..] + t, keep);
        { FilterAppend(s[1..], t, keep); }
        head + (Filter(s[1..], keep) + Filter(t, keep));
        (head + Filter(s[1..], keep)) + Filter(t, keep);
      }
    } else {
      assert s + t == t;
    }
  }

  /**
   * Filtering out the one element that fails removes exactly that position:
   * the others stay, in the same order.
   */
  lemma {:induction false} FilterDropsOne<T(!new)>(s: seq<T>, keep: T -> bool, p: nat)
    requires p < |s| && !keep(s[p])
    requires forall j :: 0 <= j < |s| && j != p ==> keep(s[j])
    ensures Filter(s, keep) == s[..p] + s[p + 1..]
  {
    var t := s[1..];
    assert forall j :: 0 <= j < |t| && j + 1 != p ==> keep(t[j]) by {
      forall j | 0 <= j < |t| && j + 1 != p ensures keep(t[j]) {
        assert t[j] == s[j + 1];
      }
    }
    if p == 0 {
      calc {
        Filter(s, keep);
        Filter(t, keep);
        t;
      }
    } else {
      calc {
        Filter(s, keep);
        [s[0]] + Filter(t, keep);
        { FilterDropsOne(t, keep, p - 1); }
        [s[0]] + (t[..p - 1] + t[p..]);
        { assert t[..p - 1] == s[1..p] && t[p..] == s[p + 1..]; }
        [s[0]] + (s[1..p] + s[p + 1..]);
        { assert [s[0]] + s[1..p] == s[..p]; }
        s[..p] + s[p + 1..];
      }
    }
  }

  /** The conditional map both updates use: every selected element is transformed, the others are kept. */
  function MapWhere<T>(s: seq<T>, sel: T -> bool, f: T -> T): (r: seq<T>)
    ensures |r| == |s|
    ensures forall j {:trigger r[j]} :: 0 <= j < |s| && sel(s[j]) ==> r[j] == f(s[j])
    ensures forall j {:trigger r[j]} :: 0 <= j < |s| && !sel(s[j]) ==> r[j] == s[j]
  {
    seq(|s|, j requires 0 <= j < |s| => if sel(s[j]) then f(s[j]) else s[j])
  }

  /** When exactly one element is selected, the map is an update at that one position. */
  lemma MapWhereOne<T>(s: seq<T>, sel: T -> bool, f: T -> T, i: nat)
    requires i < |s| && sel(s[i])
    requires forall j :: 0 <= j < |s| && j != i ==> !sel(s[j])
    ensures MapWhere(s, sel, f) == s[i := f(s[i])]
  {
  }
}
