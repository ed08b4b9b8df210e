/** The booking queries of the booking repository, each a filter followed by a
    sort over the booking table, with CURRENT_TIMESTAMP passed in as `now`. */
module BookingRepository {
  import opened Domain
  import opened Sorting

  /** The state tokens a booking listing accepts. */
  datatype State = AllBookings | FutureBookings | PastBookings | CurrentBookings
                 | WaitingBookings | RejectedBookings

  /** Whose bookings a listing shows: those the user made, or those on the
      user's items. */
  datatype Party = AsBooker | AsOwner

  /** `b.booker.id = ?1` or `b.item.owner.id = ?1`. */
  predicate Involves(party: Party, userId: int, b: Booking)
  {
    match party
    case AsBooker => b.bookerId == userId
    case AsOwner => b.itemOwnerId == userId
  }

  /** The WHERE condition each state adds; the time conditions are strict. */
  predicate InState(state: State, b: Booking, now: int)
  {
    match state
    case AllBookings => true
    case FutureBookings => now < b.start
    case PastBookings => now > b.end
    case CurrentBookings => now < b.end && now > b.start
    case WaitingBookings => b.status == Waiting
    case RejectedBookings => b.status == Rejected
  }

  function StartOf(b: Booking): int
  {
    b.start
  }

  /** The listing queries (findAllByBookerIdOrderByStartDesc, find{Future,
      Past,Current,Waiting,Rejected}BookingsBy{Booker,Owner},
      findAllBookingsByOwner): exactly the rows of `bookings` that involve the
      user and are in the state, each as often as it is stored, latest start
      first. */
  function FindBookings(bookings: seq<Booking>, party: Party, userId: int, state: State, now: int)
    : (r: seq<Booking>)
    ensures forall b :: multiset(r)[b] ==
                        (if Involves(party, userId, b) && InState(state, b, now) then multiset(bookings)[b] else 0)
    ensures forall b :: b in r <==> b in bookings && Involves(party, userId, b) && InState(state, b, now)
    ensures SortedBy(r, StartOf, true)
  {
    var matching := Filter(bookings, b => Involves(party, userId, b) && InState(state, b, now));
    var r := Sort(matching, StartOf, true);
    assert forall b :: b in r <==> b in multiset(matching);
    r
  }

  /** FUTURE keeps exactly the bookings that start after now. */
  lemma FutureBookingsExact(bookings: seq<Booking>, party: Party, userId: int, now: int, b: Booking)
    ensures b in FindBookings(bookings, party, userId, FutureBookings, now)
        <==> b in bookings && Involves(party, userId, b) && now < b.start
  {
  }

  /** PAST keeps exactly the bookings that ended before now. */
  lemma PastBookingsExact(bookings: seq<Booking>, party: Party, userId: int, now: int, b: Booking)
    ensures b in FindBookings(bookings, party, userId, PastBookings, now)
        <==> b in bookings && Involves(party, userId, b) && b.end < now
  {
  }

  /** CURRENT keeps exactly the bookings with start < now < end; a booking
      that starts or ends exactly now is not current. */
  lemma CurrentBookingsExact(bookings: seq<Booking>, party: Party, userId: int, now: int, b: Booking)
    ensures b in FindBookings(bookings, party, userId, CurrentBookings, now)
        <==> b in bookings && Involves(party, userId, b) && b.start < now < b.end
    ensures b.start == now || b.end == now ==> b !in FindBookings(bookings, party, userId, CurrentBookings, now)
  {
  }

  /** WAITING looks at the status only, whatever the time. */
  lemma WaitingBookingsExact(bookings: seq<Booking>, party: Party, userId: int, now: int, b: Booking)
    ensures b in FindBookings(bookings, party, userId, WaitingBookings, now)
        <==> b in bookings && Involves(party, userId, b) && b.status == Waiting
  {
  }

  /** REJECTED looks at the status only, whatever the time. */
  lemma RejectedBookingsExact(bookings: seq<Booking>, party: Party, userId: int, now: int, b: Booking)
    ensures b in FindBookings(bookings, party, userId, RejectedBookings, now)
        <==> b in bookings && Involves(party, userId, b) && b.status == Rejected
  {
  }

  /** The status filter of `findLastBooking`/`findNextBooking`. */
  predicate ApprovedFor(b: Booking, itemId: int)
  {
    b.itemId == itemId && b.status == Approved
  }

  /** findLastBooking: the approved bookings of the item that started before
      now, latest start first. */
  function FindLastBooking(bookings: seq<Booking>, itemId: int, now: int): (r: seq<Booking>)
    ensures forall b :: b in r <==> b in bookings && ApprovedFor(b, itemId) && b.start < now
    ensures SortedBy(r, StartOf, true)
  {
    var r := Sort(Filter(bookings, b => ApprovedFor(b, itemId) && b.start < now), StartOf, true);
    assert forall b :: b in r <==> b in multiset(r);
    r
  }

  /** findNextBooking: the approved bookings of the item that start after now,
      earliest start first. */
  function FindNextBooking(bookings: seq<Booking>, itemId: int, now: int): (r: seq<Booking>)
    ensures forall b :: b in r <==> b in bookings && ApprovedFor(b, itemId) && b.start > now
    ensures SortedBy(r, StartOf, false)
  {
    var r := Sort(Filter(bookings, b => ApprovedFor(b, itemId) && b.start > now), StartOf, false);
    assert forall b :: b in r <==> b in multiset(r);
    r
  }

  /** The head of findLastBooking is the approved booking of the item with the
      latest start before now; the list is empty only when there is none. */
  lemma LastBookingIsLatest(bookings: seq<Booking>, itemId: int, now: int)
    ensures var r := FindLastBooking(bookings, itemId, now);
      && (r == [] <==> forall b :: b in bookings ==> !(ApprovedFor(b, itemId) && b.start < now))
      && (r != [] ==>
            && r[0] in bookings && ApprovedFor(r[0], itemId) && r[0].start < now
            && forall b :: b in bookings && ApprovedFor(b, itemId) && b.start < now ==> b.start <= r[0].start)
  {
    var r := FindLastBooking(bookings, itemId, now);
    if r != [] {
      assert r[0] in r;
      forall b | b in bookings && ApprovedFor(b, itemId) && b.start < now
        ensures b.start <= r[0].start
      {
        assert b in r;
        var k :| 0 <= k < |r| && r[k] == b;
        assert k == 0 || InOrder(StartOf, true, r[0], r[k]);
      }
    }
  }

  /** The head of findNextBooking is the approved booking of the item with the
      earliest start after now; the list is empty only when there is none. */
  lemma NextBookingIsEarliest(bookings: seq<Booking>, itemId: int, now: int)
    ensures var r := FindNextBooking(bookings, itemId, now);
      && (r == [] <==> forall b :: b in bookings ==> !(ApprovedFor(b, itemId) && b.start > now))
      && (r != [] ==>
            && r[0] in bookings && ApprovedFor(r[0], itemId) && r[0].start > now
            && forall b :: b in bookings && ApprovedFor(b, itemId) && b.start > now ==> r[0].start <= b.start)
  {
    var r := FindNextBooking(bookings, itemId, now);
    if r != [] {
      assert r[0] in r;
      forall b | b in bookings && ApprovedFor(b, itemId) && b.start > now
        ensures r[0].start <= b.start
      {
        assert b in r;
        var k :| 0 <= k < |r| && r[k] == b;
        assert k == 0 || InOrder(StartOf, false, r[0], r[k]);
      }
    }
  }

  /** The condition of checkIfUserBookedItem: an approved booking of the item by
      the user that has already ended. */
  predicate Completed(b: Booking, itemId: int, userId: int, now: int)
  {
    b.itemId == itemId && b.bookerId == userId && b.status == Approved && b.end < now
  }

  /** `COUNT(b)` over the completed bookings. */
  function CountCompleted(bookings: seq<Booking>, itemId: int, userId: int, now: int): (n: nat)
    ensures n <= |bookings|
    ensures n > 0 <==> exists b :: b in bookings && Completed(b, itemId, userId, now)
  {
    if bookings == [] then 0
    else
      assert forall b :: b in bookings <==> b == bookings[0] || b in bookings[1..];
      (if Completed(bookings[0], itemId, userId, now) then 1 else 0)
        + CountCompleted(bookings[1..], itemId, userId, now)
  }

  /** checkIfUserBookedItem (`COUNT(b) > 0`): the user may comment on the item
      exactly when some booking of it by the user was approved and has ended. */
  function CheckIfUserBookedItem(bookings: seq<Booking>, itemId: int, userId: int, now: int): (r: bool)
    ensures r <==> exists b :: b in bookings && Completed(b, itemId, userId, now)
  {
    CountCompleted(bookings, itemId, userId, now) > 0
  }
}
