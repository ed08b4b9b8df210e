/** The booking service: creating a booking, the owner's approval or
    rejection, reading one booking, and the state-filtered listings of a
    booker's bookings and of the bookings on an owner's items. */
module BookingService {
  import opened Common
  import opened Domain
  import opened Paging
  import opened BookingRepository
  import opened Sorting
  import opened Store

  /** The body of a booking request: which item, for which period. */
  datatype BookingRequest = BookingRequest(itemId: int, start: int, end: int)

  // ---------------------------------------------------------------- create

  /** The booking `create` stores, or the first guard that fails: the user
      must exist, then the item, then the item must be available, and only
      then must the user not be its owner. */
  function CreateOutcome(users: map<int, User>, items: seq<Item>, request: BookingRequest,
                         userId: int, newId: int): (r: Result<Booking>)
    ensures r.Ok? <==> && userId in users
                       && Row(items, request.itemId).Some?
                       && Row(items, request.itemId).value.available
                       && Row(items, request.itemId).value.ownerId != userId
    ensures r.Ok? ==> && r.value.status == Waiting
                      && r.value.bookerId == userId
                      && r.value.itemId == request.itemId
                      && r.value.itemOwnerId == items[request.itemId - 1].ownerId
                      && r.value.start == request.start && r.value.end == request.end
                      && r.value.id == newId
  {
    if userId !in users then Err(NotFound(UserEntity))
    else match Row(items, request.itemId)
      case None => Err(NotFound(ItemEntity))
      case Some(item) =>
        if !item.available then Err(ItemNotAvailable)
        else if item.ownerId == userId then Err(BookYourOwnItem)
        else Ok(Booking(newId, request.start, request.end, request.itemId, item.ownerId, userId, Waiting))
  }

  /** An unknown user is reported before an unknown item. */
  lemma CreateChecksUserFirst(users: map<int, User>, items: seq<Item>, request: BookingRequest,
                              userId: int, newId: int)
    ensures userId !in users ==> CreateOutcome(users, items, request, userId, newId) == Err(NotFound(UserEntity))
    ensures userId in users && Row(items, request.itemId).None? ==>
              CreateOutcome(users, items, request, userId, newId) == Err(NotFound(ItemEntity))
  {
  }

  /** Availability is checked before ownership: an owner booking their own
      unavailable item is told the item is not available. */
  lemma UnavailableReportedBeforeOwnItem(users: map<int, User>, items: seq<Item>, request: BookingRequest,
                                         userId: int, newId: int)
    requires userId in users && Row(items, request.itemId).Some?
    ensures !items[request.itemId - 1].available ==>
              CreateOutcome(users, items, request, userId, newId) == Err(ItemNotAvailable)
    ensures items[request.itemId - 1].available && items[request.itemId - 1].ownerId == userId ==>
              CreateOutcome(users, items, request, userId, newId) == Err(BookYourOwnItem)
  {
  }

  /** `create`: runs the guards and saves the new booking in state WAITING
      under the next identity value; on any failure nothing is stored. */
  method Create(db: Database, request: BookingRequest, userId: int) returns (r: Result<Booking>)
    requires db.Valid()
    modifies db
    ensures db.Valid()
    ensures r == CreateOutcome(old(db.users), old(db.items), request, userId, |old(db.bookings)| + 1)
    ensures db.bookings == if r.Ok? then old(db.bookings) + [r.value] else old(db.bookings)
    ensures db.users == old(db.users) && db.lastUserId == old(db.lastUserId) && db.items == old(db.items)
    ensures db.requests == old(db.requests) && db.comments == old(db.comments)
  {
    if userId !in db.users {
      return Err(NotFound(UserEntity));
    }
    var found := Row(db.items, request.itemId);
    if found.None? {
      return Err(NotFound(ItemEntity));
    }
    var item := found.value;
    if !item.available {
      return Err(ItemNotAvailable);
    } else if item.ownerId == userId {
      return Err(BookYourOwnItem);
    }
    // save: the identity column numbers the new row
    var booking := Booking(|db.bookings| + 1, request.start, request.end, request.itemId, item.ownerId, userId, Waiting);
    db.bookings := db.bookings + [booking];
    r := Ok(booking);
  }

  /** A created booking carries the current owner of its item, so the stored
      bookings keep matching the items. */
  lemma CreateKeepsOwnersMatched(users: map<int, User>, items: seq<Item>, bookings: seq<Booking>,
                                 request: BookingRequest, userId: int)
    requires BookingsMatchItems(bookings, items)
    requires CreateOutcome(users, items, request, userId, |bookings| + 1).Ok?
    ensures BookingsMatchItems(bookings + [CreateOutcome(users, items, request, userId, |bookings| + 1).value], items)
  {
  }

  /** Where the stored bookings match the items, the owner a booking carries
      is the owner of its item now: isOwner, isBookerOrOwner and the owner
      listings, which read `itemOwnerId`, agree with the join
      `b.item.owner.id`. */
  lemma OwnerCopyIsItemOwner(bookings: seq<Booking>, items: seq<Item>, b: Booking, userId: int)
    requires BookingsMatchItems(bookings, items)
    requires b in bookings
    ensures 1 <= b.itemId <= |items|
    ensures IsOwner(b, userId) <==> items[b.itemId - 1].ownerId == userId
    ensures Involves(AsOwner, userId, b) <==> items[b.itemId - 1].ownerId == userId
  {
    var i :| 0 <= i < |bookings| && bookings[i] == b;
  }

  // --------------------------------------------------------------- approve

  /** isOwner: the acting user owns the booked item. */
  predicate IsOwner(b: Booking, userId: int)
  {
    b.itemOwnerId == userId
  }

  /** isBookerOrOwner: the acting user made the booking or owns the item. */
  predicate IsBookerOrOwner(b: Booking, userId: int)
  {
    b.bookerId == userId || b.itemOwnerId == userId
  }

  /** The booking `approve` stores, or the first guard that fails: the booking
      must exist, the user must own its item, and its status must be neither
      APPROVED nor REJECTED. The new status is APPROVED exactly when the owner
      approves. */
  function ApproveOutcome(bookings: seq<Booking>, userId: int, bookingId: int, approved: bool)
    : (r: Result<Booking>)
    ensures r.Ok? <==> && Row(bookings, bookingId).Some?
                       && IsOwner(bookings[bookingId - 1], userId)
                       && bookings[bookingId - 1].status !in {Approved, Rejected}
    ensures r.Ok? ==> r.value == bookings[bookingId - 1].(status := if approved then Approved else Rejected)
  {
    match Row(bookings, bookingId)
    case None => Err(NotFound(BookingEntity))
    case Some(b) =>
      if !IsOwner(b, userId) then Err(IncorrectOwner)
      else if b.status == Approved || b.status == Rejected then Err(ChangeBookingStatus)
      else Ok(b.(status := if approved then Approved else Rejected))
  }

  /** A user who does not own the item is refused as such, whatever the
      booking's status; the owner is refused a change of a decided booking. */
  lemma ApproveChecksOwnerFirst(bookings: seq<Booking>, userId: int, bookingId: int, approved: bool)
    requires Row(bookings, bookingId).Some?
    ensures !IsOwner(bookings[bookingId - 1], userId) ==>
              ApproveOutcome(bookings, userId, bookingId, approved) == Err(IncorrectOwner)
    ensures IsOwner(bookings[bookingId - 1], userId) && bookings[bookingId - 1].status in {Approved, Rejected} ==>
              ApproveOutcome(bookings, userId, bookingId, approved) == Err(ChangeBookingStatus)
  {
  }

  /** Once approve has succeeded, every further approve of that booking fails,
      whoever asks and whatever they decide: with ChangeBookingStatus for the
      owner, with IncorrectOwner for anybody else. */
  lemma SecondApproveFails(bookings: seq<Booking>, userId: int, bookingId: int, approved: bool,
                           otherUserId: int, approvedAgain: bool)
    requires ApproveOutcome(bookings, userId, bookingId, approved).Ok?
    ensures var decided := bookings[bookingId - 1 := ApproveOutcome(bookings, userId, bookingId, approved).value];
      var again := ApproveOutcome(decided, otherUserId, bookingId, approvedAgain);
      && again.Err?
      && again.error == (if otherUserId == userId then ChangeBookingStatus else IncorrectOwner)
  {
    var b := ApproveOutcome(bookings, userId, bookingId, approved).value;
    var decided := bookings[bookingId - 1 := b];
    assert Row(decided, bookingId) == Some(b);
  }

  /** approve never leads back to WAITING: a successful call always leaves a
      decided booking. */
  lemma ApproveDecides(bookings: seq<Booking>, userId: int, bookingId: int, approved: bool)
    requires ApproveOutcome(bookings, userId, bookingId, approved).Ok?
    ensures ApproveOutcome(bookings, userId, bookingId, approved).value.status in {Approved, Rejected}
    ensures bookings[bookingId - 1].status in {Waiting, Canceled}
  {
  }

  /** `approve`: sets the decided status on the stored booking and saves it;
      on any failure the booking keeps its status. */
  method Approve(db: Database, userId: int, bookingId: int, approved: bool) returns (r: Result<Booking>)
    requires db.Valid()
    modifies db
    ensures db.Valid()
    ensures r == ApproveOutcome(old(db.bookings), userId, bookingId, approved)
    ensures db.bookings == if r.Ok? then old(db.bookings)[bookingId - 1 := r.value] else old(db.bookings)
    ensures db.users == old(db.users) && db.lastUserId == old(db.lastUserId) && db.items == old(db.items)
    ensures db.requests == old(db.requests) && db.comments == old(db.comments)
  {
    var found := Row(db.bookings, bookingId);
    if found.None? {
      return Err(NotFound(BookingEntity));
    }
    var booking := found.value;
    if !IsOwner(booking, userId) {
      return Err(IncorrectOwner);
    }
    if booking.status == Approved || booking.status == Rejected {
      return Err(ChangeBookingStatus);
    }
    booking := booking.(status := if approved then Approved else Rejected);
    db.bookings := db.bookings[bookingId - 1 := booking];
    r := Ok(booking);
  }

  // --------------------------------------------------------------- getById

  /** getById: the stored booking, shown only to its booker and to the owner
      of its item. */
  function GetById(bookings: seq<Booking>, bookingId: int, userId: int): (r: Result<Booking>)
    ensures Row(bookings, bookingId).None? ==> r == Err(NotFound(BookingEntity))
    ensures r.Ok? <==> Row(bookings, bookingId).Some? && IsBookerOrOwner(bookings[bookingId - 1], userId)
    ensures r.Ok? ==> r.value == bookings[bookingId - 1]
    ensures r.Err? && Row(bookings, bookingId).Some? ==> r.error == IncorrectOwner
  {
    match Row(bookings, bookingId)
    case None => Err(NotFound(BookingEntity))
    case Some(b) => if IsBookerOrOwner(b, userId) then Ok(b) else Err(IncorrectOwner)
  }

  // ------------------------------------------------------------- listings

  /** The `switch (state)` of the listings: the six tokens it accepts. */
  function ParseState(token: string): (r: Option<State>)
    ensures r.Some? <==> token in ["ALL", "FUTURE", "PAST", "CURRENT", "WAITING", "REJECTED"]
  {
    if token == "ALL" then Some(AllBookings)
    else if token == "FUTURE" then Some(FutureBookings)
    else if token == "PAST" then Some(PastBookings)
    else if token == "CURRENT" then Some(CurrentBookings)
    else if token == "WAITING" then Some(WaitingBookings)
    else if token == "REJECTED" then Some(RejectedBookings)
    else None
  }

  /** The listing shared by getByBookerId and getByOwnerId: the user must
      exist, the page request is built next, and only then is the state token
      dispatched; the result is one page of the state's query. */
  function Listing(users: map<int, User>, bookings: seq<Booking>, party: Party, userId: int,
                   token: string, from: int, size: int, now: int): (r: Result<seq<Booking>>)
    ensures userId !in users ==> r == Err(NotFound(UserEntity))
    ensures userId in users && size < 1 ==> r == Err(IllegalArgument)
    ensures userId in users && size >= 1 && ParseState(token).None? ==> r == Err(UnsupportedStatus(token))
    ensures r.Ok? <==> userId in users && size >= 1 && ParseState(token).Some?
    ensures r.Ok? ==> |r.value| <= size
    ensures r.Ok? ==> forall b :: b in r.value ==>
                        b in bookings && Involves(party, userId, b) && InState(ParseState(token).value, b, now)
    ensures r.Ok? ==> SortedBy(r.value, StartOf, true)
  {
    if userId !in users then Err(NotFound(UserEntity))
    else match PageOf(from, size)
      case Err(e) => Err(e)
      case Ok(page) =>
        match ParseState(token)
        case None => Err(UnsupportedStatus(token))
        case Some(state) =>
          var all := FindBookings(bookings, party, userId, state, now);
          SliceKeepsOrder(all, page, StartOf, true);
          SliceMembers(all, page);
          Ok(Slice(all, page))
  }

  /** getByBookerId: a page of the bookings the user made. */
  function GetByBookerId(users: map<int, User>, bookings: seq<Booking>, bookerId: int,
                         token: string, from: int, size: int, now: int): (r: Result<seq<Booking>>)
    ensures r.Ok? ==> forall b :: b in r.value ==> b.bookerId == bookerId
  {
    Listing(users, bookings, AsBooker, bookerId, token, from, size, now)
  }

  /** getByOwnerId: a page of the bookings on the user's items. */
  function GetByOwnerId(users: map<int, User>, bookings: seq<Booking>, ownerId: int,
                        token: string, from: int, size: int, now: int): (r: Result<seq<Booking>>)
    ensures r.Ok? ==> forall b :: b in r.value ==> b.itemOwnerId == ownerId
  {
    Listing(users, bookings, AsOwner, ownerId, token, from, size, now)
  }

  /** An unknown token is refused by both listings alike, once the user is
      known and the page request is well formed. */
  lemma UnknownStateRefused(users: map<int, User>, bookings: seq<Booking>, userId: int,
                            token: string, from: int, size: int, now: int)
    requires userId in users && size >= 1
    requires token !in ["ALL", "FUTURE", "PAST", "CURRENT", "WAITING", "REJECTED"]
    ensures GetByBookerId(users, bookings, userId, token, from, size, now) == Err(UnsupportedStatus(token))
    ensures GetByOwnerId(users, bookings, userId, token, from, size, now) == Err(UnsupportedStatus(token))
  {
  }

  /** A listing is the page of its query that holds offset `from`: the rows
      of the query from page index (from > 0 ? from / size : 0) times size on. */
  lemma ListingIsPageOfQuery(users: map<int, User>, bookings: seq<Booking>, party: Party, userId: int,
                             token: string, from: int, size: int, now: int)
    requires Listing(users, bookings, party, userId, token, from, size, now).Ok?
    ensures var rows := Listing(users, bookings, party, userId, token, from, size, now).value;
      var all := FindBookings(bookings, party, userId, ParseState(token).value, now);
      var page := PageRequest(PageIndex(from, size), size);
      var first := page.page * page.size;
      && (first + size <= |all| ==> |rows| == size)
      && (first < |all| < first + size ==> |rows| == |all| - first)
      && forall k :: 0 <= k < |rows| ==> first + k < |all| && rows[k] == all[first + k]
  {
    assert PageOf(from, size) == Ok(PageRequest(PageIndex(from, size), size));
  }
}
