/** The item service of the server application: the owner's partial update
    of an item, reading an item with its booking summaries and comments, the
    owner's paged item list, paged text search, and commenting on an item
    after a completed booking. */
module ItemService {
  import opened Common
  import opened Domain
  import opened Paging
  import opened Sorting
  import opened BookingRepository
  import opened Text
  import opened Store

  // ---------------------------------------------------------------- update

  /** The fields of an update request; `None` is a field left null. */
  datatype ItemPatch = ItemPatch(name: Option<string>, description: Option<string>, available: Option<bool>)

  /** The setters `update` applies: each non-null request field overwrites the
      stored one, every other field of the item keeps its value. */
  function ApplyPatch(item: Item, patch: ItemPatch): (r: Item)
    ensures r.id == item.id && r.ownerId == item.ownerId && r.requestId == item.requestId
    ensures patch.name.Some? ==> r.name == patch.name.value
    ensures patch.name.None? ==> r.name == item.name
    ensures patch.description.Some? ==> r.description == patch.description.value
    ensures patch.description.None? ==> r.description == item.description
    ensures patch.available.Some? ==> r.available == patch.available.value
    ensures patch.available.None? ==> r.available == item.available
  {
    var a := if patch.available.Some? then item.(available := patch.available.value) else item;
    var n := if patch.name.Some? then a.(name := patch.name.value) else a;
    if patch.description.Some? then n.(description := patch.description.value) else n
  }

  /** An update with every field null leaves the item as it is. */
  lemma EmptyPatchKeepsItem(item: Item)
    ensures ApplyPatch(item, ItemPatch(None, None, None)) == item
  {
  }

  /** Sending the same update twice has the effect of sending it once. */
  lemma PatchIdempotent(item: Item, patch: ItemPatch)
    ensures ApplyPatch(ApplyPatch(item, patch), patch) == ApplyPatch(item, patch)
  {
  }

  /** Two updates in a row act as one update carrying the later value of each
      field the later one sets and the earlier value of the others. */
  lemma PatchesCompose(item: Item, first: ItemPatch, second: ItemPatch)
    ensures ApplyPatch(ApplyPatch(item, first), second)
         == ApplyPatch(item, ItemPatch(
              if second.name.Some? then second.name else first.name,
              if second.description.Some? then second.description else first.description,
              if second.available.Some? then second.available else first.available))
  {
  }

  /** The item `update` saves, or the first guard that fails: the acting user
      must exist, then the item, then the stored item's owner must be that
      user (getItemIfHaveCorrectOwner). */
  function UpdateOutcome(users: map<int, User>, items: seq<Item>, patch: ItemPatch, ownerId: int, itemId: int)
    : (r: Result<Item>)
    ensures ownerId !in users ==> r == Err(NotFound(UserEntity))
    ensures ownerId in users && Row(items, itemId).None? ==> r == Err(NotFound(ItemEntity))
    ensures r.Ok? <==> ownerId in users && Row(items, itemId).Some? && items[itemId - 1].ownerId == ownerId
    ensures r.Err? && ownerId in users && Row(items, itemId).Some? ==> r.error == IncorrectOwner
    ensures r.Ok? ==> r.value == ApplyPatch(items[itemId - 1], patch)
  {
    if ownerId !in users then Err(NotFound(UserEntity))
    else match Row(items, itemId)
      case None => Err(NotFound(ItemEntity))
      case Some(stored) =>
        if stored.ownerId != ownerId then Err(IncorrectOwner)
        else Ok(ApplyPatch(stored, patch))
  }

  /** A successful update keeps the item's identity and owner. */
  lemma UpdateKeepsIdAndOwner(users: map<int, User>, items: seq<Item>, patch: ItemPatch, ownerId: int, itemId: int)
    requires ItemsNumbered(items)
    requires UpdateOutcome(users, items, patch, ownerId, itemId).Ok?
    ensures var updated := UpdateOutcome(users, items, patch, ownerId, itemId).value;
      updated.id == itemId && updated.ownerId == ownerId && updated.requestId == items[itemId - 1].requestId
  {
  }

  /** An update keeps the owner of the item, so the bookings stored against it
      still carry its owner. */
  lemma UpdateKeepsOwnersMatched(users: map<int, User>, items: seq<Item>, bookings: seq<Booking>,
                                 patch: ItemPatch, ownerId: int, itemId: int)
    requires BookingsMatchItems(bookings, items)
    requires UpdateOutcome(users, items, patch, ownerId, itemId).Ok?
    ensures BookingsMatchItems(bookings, items[itemId - 1 := UpdateOutcome(users, items, patch, ownerId, itemId).value])
  {
  }

  /** `update`: patches the stored item and saves it in place; on any failure
      the table is unchanged. */
  method Update(db: Database, patch: ItemPatch, ownerId: int, itemId: int) returns (r: Result<Item>)
    requires db.Valid()
    modifies db
    ensures db.Valid()
    ensures r == UpdateOutcome(old(db.users), old(db.items), patch, ownerId, itemId)
    ensures db.items == if r.Ok? then old(db.items)[itemId - 1 := r.value] else old(db.items)
    ensures db.users == old(db.users) && db.lastUserId == old(db.lastUserId) && db.bookings == old(db.bookings)
    ensures db.requests == old(db.requests) && db.comments == old(db.comments)
  {
    if ownerId !in db.users {
      return Err(NotFound(UserEntity));
    }
    if Row(db.items, itemId).None? {
      return Err(NotFound(ItemEntity));
    }
    var item := db.items[itemId - 1];
    if item.ownerId != ownerId {
      return Err(IncorrectOwner);
    }
    if patch.available.Some? {
      item := item.(available := patch.available.value);
    }
    if patch.name.Some? {
      item := item.(name := patch.name.value);
    }
    if patch.description.Some? {
      item := item.(description := patch.description.value);
    }
    db.items := db.items[itemId - 1 := item];
    r := Ok(item);
  }

  // --------------------------------------------------------------- getById

  /** An item as shown to a user: the nearest approved bookings after and
      before now (null unless filled in) and the item's comments. */
  datatype ItemView = ItemView(
    item: Item,
    nextBooking: Option<BookingShort>,
    lastBooking: Option<BookingShort>,
    comments: seq<Comment>)

  /** `stream().findFirst().orElse(null)` on a booking query. */
  function FirstShort(bookings: seq<Booking>): (r: Option<BookingShort>)
    ensures r.Some? <==> bookings != []
    ensures r.Some? ==> r.value == ToShort(bookings[0])
  {
    if bookings == [] then None else Some(ToShort(bookings[0]))
  }

  /** findByItemId on the comment table, in table order. */
  function CommentsOf(comments: seq<Comment>, itemId: int): (r: seq<Comment>)
    ensures forall c :: c in r <==> c in comments && c.itemId == itemId
  {
    Filter(comments, (c: Comment) => c.itemId == itemId)
  }

  /** The view with both booking summaries filled in. */
  function FullView(bookings: seq<Booking>, comments: seq<Comment>, item: Item, now: int): ItemView
  {
    ItemView(item,
             FirstShort(FindNextBooking(bookings, item.id, now)),
             FirstShort(FindLastBooking(bookings, item.id, now)),
             CommentsOf(comments, item.id))
  }

  /** Each item of a list with both booking summaries and its comments. */
  function FullViews(bookings: seq<Booking>, comments: seq<Comment>, items: seq<Item>, now: int): (r: seq<ItemView>)
    ensures |r| == |items|
    ensures forall k :: 0 <= k < |items| ==> r[k] == FullView(bookings, comments, items[k], now)
  {
    if items == [] then []
    else [FullView(bookings, comments, items[0], now)] + FullViews(bookings, comments, items[1..], now)
  }

  /** Taking a page and then building the views gives the page of the views. */
  lemma PageOfViews(bookings: seq<Booking>, comments: seq<Comment>, items: seq<Item>, p: PageRequest, now: int)
    ensures FullViews(bookings, comments, Slice(items, p), now) == Slice(FullViews(bookings, comments, items, now), p)
  {
    var rows := Slice(items, p);
    var views := FullViews(bookings, comments, items, now);
    var left := FullViews(bookings, comments, rows, now);
    var right := Slice(views, p);
    assert |right| == |left|;
    forall k | 0 <= k < |left| ensures left[k] == right[k] {
      assert right[k] == views[p.page * p.size + k];
    }
  }

  /** getById: the stored item with its comments; the next and last bookings
      are shown to the item's owner only. */
  function GetById(items: seq<Item>, bookings: seq<Booking>, comments: seq<Comment>,
                   itemId: int, viewerId: int, now: int): (r: Result<ItemView>)
    ensures r.Err? <==> Row(items, itemId).None?
    ensures r.Err? ==> r.error == NotFound(ItemEntity)
    ensures r.Ok? ==> r.value.item == items[itemId - 1]
    ensures r.Ok? ==> forall c :: c in r.value.comments <==> c in comments && c.itemId == items[itemId - 1].id
    ensures r.Ok? && items[itemId - 1].ownerId != viewerId ==>
              r.value.nextBooking.None? && r.value.lastBooking.None?
  {
    match Row(items, itemId)
    case None => Err(NotFound(ItemEntity))
    case Some(item) =>
      var full := FullView(bookings, comments, item, now);
      if item.ownerId == viewerId then Ok(full)
      else Ok(full.(nextBooking := None, lastBooking := None))
  }

  /** The owner is shown the approved booking of the item that starts soonest
      after now and the one that started latest before now, each exactly when
      there is one. */
  lemma OwnerSeesNearestBookings(items: seq<Item>, bookings: seq<Booking>, comments: seq<Comment>,
                                 itemId: int, now: int)
    requires ItemsNumbered(items)
    requires Row(items, itemId).Some?
    ensures var view := GetById(items, bookings, comments, itemId, items[itemId - 1].ownerId, now).value;
      && (view.nextBooking.Some? <==> exists b :: b in bookings && ApprovedFor(b, itemId) && b.start > now)
      && (view.nextBooking.Some? ==>
            exists b :: && b in bookings && ApprovedFor(b, itemId) && b.start > now
                        && view.nextBooking.value == ToShort(b)
                        && forall o :: o in bookings && ApprovedFor(o, itemId) && o.start > now ==> b.start <= o.start)
      && (view.lastBooking.Some? <==> exists b :: b in bookings && ApprovedFor(b, itemId) && b.start < now)
      && (view.lastBooking.Some? ==>
            exists b :: && b in bookings && ApprovedFor(b, itemId) && b.start < now
                        && view.lastBooking.value == ToShort(b)
                        && forall o :: o in bookings && ApprovedFor(o, itemId) && o.start < now ==> o.start <= b.start)
  {
    assert items[itemId - 1].id == itemId;
    NextBookingIsEarliest(bookings, itemId, now);
    LastBookingIsLatest(bookings, itemId, now);
    var next := FindNextBooking(bookings, itemId, now);
    var last := FindLastBooking(bookings, itemId, now);
    if next != [] {
      assert next[0] in bookings && ApprovedFor(next[0], itemId) && next[0].start > now;
    }
    if last != [] {
      assert last[0] in bookings && ApprovedFor(last[0], itemId) && last[0].start < now;
    }
  }

  /** What getById shows the owner of a stored item: the item with both
      booking summaries and its comments. */
  lemma OwnerViewIsFullView(items: seq<Item>, bookings: seq<Booking>, comments: seq<Comment>,
                            item: Item, now: int)
    requires ItemsNumbered(items)
    requires item in items
    ensures GetById(items, bookings, comments, item.id, item.ownerId, now) == Ok(FullView(bookings, comments, item, now))
  {
    var k :| 0 <= k < |items| && items[k] == item;
    assert Row(items, item.id) == Some(item);
  }

  // ------------------------------------------------------------ getByOwner

  /** findAllByOwnerIdOrderById without the page: the owner's items in
      identity order. */
  function OwnedItems(items: seq<Item>, ownerId: int): (r: seq<Item>)
    ensures forall i :: i in r <==> i in items && i.ownerId == ownerId
  {
    Filter(items, (i: Item) => i.ownerId == ownerId)
  }

  function IdOf(item: Item): int
  {
    item.id
  }

  /** The owner's items come in strictly increasing id order. */
  lemma OwnedItemsOrderedById(items: seq<Item>, ownerId: int)
    requires ItemsNumbered(items)
    ensures StrictlyIncreasing(OwnedItems(items, ownerId), IdOf)
  {
    assert StrictlyIncreasing(items, IdOf);
    FilterKeepsIncreasing(items, (i: Item) => i.ownerId == ownerId, IdOf);
  }

  /** getByOwner: one page of the owner's items, in id order, each shown with
      both booking summaries and its comments. The user is not looked up. */
  function GetByOwner(items: seq<Item>, bookings: seq<Booking>, comments: seq<Comment>,
                      ownerId: int, from: int, size: int, now: int): (r: Result<seq<ItemView>>)
    ensures r.Err? <==> size < 1
    ensures r.Err? ==> r.error == IllegalArgument
    ensures r.Ok? ==> |r.value| <= size
    ensures r.Ok? ==> forall v :: v in r.value ==> v.item in items && v.item.ownerId == ownerId
  {
    match PageOf(from, size)
    case Err(e) => Err(e)
    case Ok(page) =>
      var rows := Slice(OwnedItems(items, ownerId), page);
      SliceMembers(OwnedItems(items, ownerId), page);
      Ok(FullViews(bookings, comments, rows, now))
  }

  /** Every entry of the owner's list is exactly what getById shows the owner
      for that item. */
  lemma OwnerListMatchesGetById(items: seq<Item>, bookings: seq<Booking>, comments: seq<Comment>,
                                ownerId: int, from: int, size: int, now: int)
    requires ItemsNumbered(items)
    requires GetByOwner(items, bookings, comments, ownerId, from, size, now).Ok?
    ensures var views := GetByOwner(items, bookings, comments, ownerId, from, size, now).value;
      forall v :: v in views ==> GetById(items, bookings, comments, v.item.id, ownerId, now) == Ok(v)
  {
    var views := GetByOwner(items, bookings, comments, ownerId, from, size, now).value;
    forall v | v in views ensures GetById(items, bookings, comments, v.item.id, ownerId, now) == Ok(v) {
      OwnerViewIsFullView(items, bookings, comments, v.item, now);
    }
  }

  /** Offset 1 with page length 2 falls inside the first page, so it lists the
      same items as offset 0. */
  lemma OffsetInsideFirstPage(items: seq<Item>, bookings: seq<Booking>, comments: seq<Comment>,
                              ownerId: int, now: int)
    ensures GetByOwner(items, bookings, comments, ownerId, 1, 2, now)
         == GetByOwner(items, bookings, comments, ownerId, 0, 2, now)
  {
  }

  // ---------------------------------------------------------------- search

  /** The WHERE clause of the search query: the text occurs, ignoring case,
      in the description or the name, and the item is available. */
  predicate Matches(item: Item, text: string)
  {
    (ContainsIgnoreCase(item.description, text) || ContainsIgnoreCase(item.name, text)) && item.available
  }

  /** The search query without the page, in table order. */
  function SearchAll(items: seq<Item>, text: string): (r: seq<Item>)
    ensures forall i :: i in r <==> i in items && Matches(i, text)
  {
    Filter(items, (i: Item) => Matches(i, text))
  }

  /** search: the empty text gives the empty list before anything else is
      looked at, even the page arguments; any other text gives one page of
      the available items that contain it. */
  function Search(items: seq<Item>, text: string, from: int, size: int): (r: Result<seq<Item>>)
    ensures text == "" ==> r == Ok([])
    ensures text != "" ==> (r.Err? <==> size < 1)
    ensures r.Err? ==> r.error == IllegalArgument
    ensures r.Ok? ==> |r.value| <= size || text == ""
    ensures r.Ok? ==> forall i :: i in r.value ==> i in items && i.available && Matches(i, text)
  {
    if text == "" then Ok([])
    else match PageOf(from, size)
      case Err(e) => Err(e)
      case Ok(page) =>
        SliceMembers(SearchAll(items, text), page);
        Ok(Slice(SearchAll(items, text), page))
  }

  /** Without the early return the empty text would match every available
      item: the guard is what makes `search("")` empty. */
  lemma EmptyTextGuardMatters(items: seq<Item>, item: Item)
    requires item in items && item.available
    ensures item in SearchAll(items, "")
    ensures Search(items, "", 0, 10) == Ok([])
  {
    EmptyTextMatchesAll(item.description);
  }

  // --------------------------------------------------------- createComment

  /** The comment `createComment` saves, or the first guard that fails: the
      user must exist, then the item, and only then must the user have a
      completed approved booking of the item. */
  function CreateCommentOutcome(users: map<int, User>, items: seq<Item>, bookings: seq<Booking>,
                                itemId: int, userId: int, text: string, newId: int, now: int)
    : (r: Result<Comment>)
    ensures userId !in users ==> r == Err(NotFound(UserEntity))
    ensures userId in users && Row(items, itemId).None? ==> r == Err(NotFound(ItemEntity))
    ensures r.Ok? <==> && userId in users && Row(items, itemId).Some?
                       && exists b :: b in bookings && Completed(b, itemId, userId, now)
    ensures r.Ok? ==> r.value == Comment(newId, text, itemId, userId, now)
  {
    if userId !in users then Err(NotFound(UserEntity))
    else if Row(items, itemId).None? then Err(NotFound(ItemEntity))
    else if !CheckIfUserBookedItem(bookings, itemId, userId, now) then Err(CommentingDenied)
    else Ok(Comment(newId, text, itemId, userId, now))
  }

  /** A known user commenting on a known item without a completed booking of
      it is denied. */
  lemma CommentWithoutBookingDenied(users: map<int, User>, items: seq<Item>, bookings: seq<Booking>,
                                    itemId: int, userId: int, text: string, newId: int, now: int)
    requires userId in users && Row(items, itemId).Some?
    requires forall b :: b in bookings ==> !Completed(b, itemId, userId, now)
    ensures CreateCommentOutcome(users, items, bookings, itemId, userId, text, newId, now) == Err(CommentingDenied)
  {
  }

  /** `createComment`: stores the comment, stamped with the current time, under
      the next identity value; on any failure nothing is stored. */
  method CreateComment(db: Database, itemId: int, userId: int, text: string, now: int) returns (r: Result<Comment>)
    requires db.Valid()
    modifies db
    ensures db.Valid()
    ensures r == CreateCommentOutcome(old(db.users), old(db.items), old(db.bookings), itemId, userId, text,
                                      |old(db.comments)| + 1, now)
    ensures db.comments == if r.Ok? then old(db.comments) + [r.value] else old(db.comments)
    ensures db.users == old(db.users) && db.lastUserId == old(db.lastUserId) && db.items == old(db.items)
    ensures db.bookings == old(db.bookings) && db.requests == old(db.requests)
  {
    if userId !in db.users {
      return Err(NotFound(UserEntity));
    }
    if Row(db.items, itemId).None? {
      return Err(NotFound(ItemEntity));
    }
    if !CheckIfUserBookedItem(db.bookings, itemId, userId, now) {
      return Err(CommentingDenied);
    }
    var comment := Comment(|db.comments| + 1, text, itemId, userId, now);
    db.comments := db.comments + [comment];
    r := Ok(comment);
  }
}
