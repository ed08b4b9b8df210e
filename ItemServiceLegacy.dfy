/** The earlier, single-application revision of the item service. Its update
    and getById are the same code as the server revision's (module
    ItemService); what differs is that the owner's list and search are not
    paged, that createComment checks the booking before the user and the
    item, and the extra availability lookup used when booking. */
module ItemServiceLegacy {
  import opened Common
  import opened Domain
  import opened Paging
  import opened BookingRepository
  import opened Store
  import opened ItemService

  /** getByOwner: every item of the owner, in id order, each being exactly
      what getById(item id, owner) returns. */
  function GetByOwner(items: seq<Item>, bookings: seq<Booking>, comments: seq<Comment>,
                      ownerId: int, now: int): (r: seq<ItemView>)
    requires ItemsNumbered(items)
    ensures |r| == |OwnedItems(items, ownerId)|
    ensures forall k :: 0 <= k < |r| ==>
              && r[k].item == OwnedItems(items, ownerId)[k]
              && GetById(items, bookings, comments, r[k].item.id, ownerId, now) == Ok(r[k])
  {
    var owned := OwnedItems(items, ownerId);
    forall k | 0 <= k < |owned|
      ensures GetById(items, bookings, comments, owned[k].id, ownerId, now) == Ok(FullView(bookings, comments, owned[k], now))
    {
      assert owned[k] in owned;
      OwnerViewIsFullView(items, bookings, comments, owned[k], now);
    }
    FullViews(bookings, comments, owned, now)
  }

  /** The paged list of the server revision is one page of this list. */
  lemma PagedListIsPageOfFullList(items: seq<Item>, bookings: seq<Booking>, comments: seq<Comment>,
                                  ownerId: int, from: int, size: int, now: int)
    requires ItemsNumbered(items)
    requires size >= 1
    ensures ItemService.GetByOwner(items, bookings, comments, ownerId, from, size, now)
         == Ok(Slice(GetByOwner(items, bookings, comments, ownerId, now), PageOf(from, size).value))
  {
    PageOfViews(bookings, comments, OwnedItems(items, ownerId), PageOf(from, size).value, now);
  }

  /** search: the empty text gives the empty list; any other text gives every
      available item that contains it, in table order. */
  function Search(items: seq<Item>, text: string): (r: seq<Item>)
    ensures text == "" ==> r == []
    ensures text != "" ==> forall i :: i in r <==> i in items && Matches(i, text)
  {
    if text == "" then [] else SearchAll(items, text)
  }

  /** The paged search of the server revision returns one page of this one. */
  lemma PagedSearchIsPageOfFullSearch(items: seq<Item>, text: string, from: int, size: int)
    requires text != "" && size >= 1
    ensures ItemService.Search(items, text, from, size) == Ok(Slice(Search(items, text), PageOf(from, size).value))
  {
  }

  /** The comment createComment saves, or the first guard that fails. This
      revision asks about the booking first, then the user, then the item. */
  function CreateCommentOutcome(users: map<int, User>, items: seq<Item>, bookings: seq<Booking>,
                                itemId: int, userId: int, text: string, newId: int, now: int)
    : (r: Result<Comment>)
    ensures (forall b :: b in bookings ==> !Completed(b, itemId, userId, now)) ==> r == Err(CommentingDenied)
    ensures (exists b :: b in bookings && Completed(b, itemId, userId, now)) && userId !in users ==>
              r == Err(NotFound(UserEntity))
    ensures && (exists b :: b in bookings && Completed(b, itemId, userId, now))
            && userId in users && Row(items, itemId).None?
            ==> r == Err(NotFound(ItemEntity))
    ensures r.Ok? <==> && userId in users && Row(items, itemId).Some?
                       && exists b :: b in bookings && Completed(b, itemId, userId, now)
    ensures r.Ok? ==> r.value == Comment(newId, text, itemId, userId, now)
  {
    if !CheckIfUserBookedItem(bookings, itemId, userId, now) then Err(CommentingDenied)
    else if userId !in users then Err(NotFound(UserEntity))
    else if Row(items, itemId).None? then Err(NotFound(ItemEntity))
    else Ok(Comment(newId, text, itemId, userId, now))
  }

  /** The two revisions accept the same requests and store the same comment;
      they differ only in which error a rejected request gets. An unknown
      user without a completed booking is the witness: NotFound in the server
      revision, CommentingDenied here. */
  lemma RevisionsDifferOnlyInErrors(users: map<int, User>, items: seq<Item>, bookings: seq<Booking>,
                                    itemId: int, userId: int, text: string, newId: int, now: int)
    ensures var legacy := CreateCommentOutcome(users, items, bookings, itemId, userId, text, newId, now);
      var server := ItemService.CreateCommentOutcome(users, items, bookings, itemId, userId, text, newId, now);
      && (legacy.Ok? <==> server.Ok?)
      && (legacy.Ok? ==> legacy == server)
      && (userId !in users && bookings == [] ==>
            legacy == Err(CommentingDenied) && server == Err(NotFound(UserEntity)))
  {
  }

  /** `createComment`: stores the comment, stamped with the current time,
      under the next identity value; on any failure nothing is stored. */
  method CreateComment(db: Database, itemId: int, userId: int, text: string, now: int) returns (r: Result<Comment>)
    requires db.Valid()
    modifies db
    ensures db.Valid()
    ensures r == CreateCommentOutcome(old(db.users), old(db.items), old(db.bookings), itemId, userId, text,
                                      |old(db.comments)| + 1, now)
    ensures db.comments == if r.Ok? then old(db.comments) + [r.value] else old(db.comments)
    ensures db.users == old(db.users) && db.lastUserId == old(db.lastUserId) && db.items == old(db.items)
    ensures db.bookings == old(db.bookings) && db.requests == old(db.requests)
  {
    if !CheckIfUserBookedItem(db.bookings, itemId, userId, now) {
      return Err(CommentingDenied);
    }
    if userId !in db.users {
      return Err(NotFound(UserEntity));
    }
    if Row(db.items, itemId).None? {
      return Err(NotFound(ItemEntity));
    }
    var comment := Comment(|db.comments| + 1, text, itemId, userId, now);
    db.comments := db.comments + [comment];
    r := Ok(comment);
  }

  /** checkItemAvailabilityAndGet (findItemByIdEqualsAndAvailableIsTrue): the
      item when it exists and is available; an absent item and an unavailable
      one both give ItemNotAvailable. */
  function CheckItemAvailabilityAndGet(items: seq<Item>, itemId: int): (r: Result<Item>)
    ensures r.Ok? <==> Row(items, itemId).Some? && items[itemId - 1].available
    ensures r.Ok? ==> r.value == items[itemId - 1]
    ensures r.Err? ==> r.error == ItemNotAvailable
  {
    match Row(items, itemId)
    case Some(item) => if item.available then Ok(item) else Err(ItemNotAvailable)
    case None => Err(ItemNotAvailable)
  }
}
