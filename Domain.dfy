/** The stored records of ShareIt. Timestamps are integers; references to
    other records are held by id. */
module Domain {
  import opened Common

  /** The booking status enumeration. CANCELED is declared by the system but no
      operation sets it. */
  datatype Status = Waiting | Approved | Rejected | Canceled

  datatype User = User(id: int, name: string, email: string)

  datatype Item = Item(
    id: int,
    name: string,
    description: string,
    available: bool,
    ownerId: int,
    requestId: Option<int>)

  /** A booking of item `itemId` by user `bookerId` for [start, end].
      `itemOwnerId` is the owner of the booked item, which the queries join on
      (`b.item.owner.id`); BookingsMatchItems keeps it equal to that owner. */
  datatype Booking = Booking(
    id: int,
    start: int,
    end: int,
    itemId: int,
    itemOwnerId: int,
    bookerId: int,
    status: Status)

  /** The projection (id, booker id, start, end) returned by the last/next
      booking queries and shown on an item. */
  datatype BookingShort = BookingShort(id: int, bookerId: int, start: int, end: int)

  datatype ItemRequest = ItemRequest(id: int, description: string, requesterId: int, created: int)

  datatype Comment = Comment(id: int, text: string, itemId: int, authorId: int, created: int)

  function ToShort(b: Booking): BookingShort
  {
    BookingShort(b.id, b.bookerId, b.start, b.end)
  }

  /** `findById` on a table whose identity column numbers its rows 1, 2, 3, ...
      in insertion order. */
  function Row<T>(rows: seq<T>, id: int): Option<T>
  {
    if 1 <= id <= |rows| then Some(rows[id - 1]) else None
  }

  ghost predicate ItemsNumbered(items: seq<Item>)
  {
    forall i :: 0 <= i < |items| ==> items[i].id == i + 1
  }

  ghost predicate BookingsNumbered(bookings: seq<Booking>)
  {
    forall i :: 0 <= i < |bookings| ==> bookings[i].id == i + 1
  }

  ghost predicate RequestsNumbered(requests: seq<ItemRequest>)
  {
    forall i :: 0 <= i < |requests| ==> requests[i].id == i + 1
  }

  ghost predicate CommentsNumbered(comments: seq<Comment>)
  {
    forall i :: 0 <= i < |comments| ==> comments[i].id == i + 1
  }

  /** Every booking refers to a stored item and carries that item's current
      owner, so reading `itemOwnerId` is the join `b.item.owner.id`. */
  ghost predicate BookingsMatchItems(bookings: seq<Booking>, items: seq<Item>)
  {
    forall i :: 0 <= i < |bookings| ==>
      1 <= bookings[i].itemId <= |items| && bookings[i].itemOwnerId == items[bookings[i].itemId - 1].ownerId
  }

  /** Every user is stored under its own id, and every id was handed out by a
      counter that stands at `lastId`. */
  ghost predicate UsersKeyed(users: map<int, User>, lastId: int)
  {
    forall k :: k in users ==> users[k].id == k && 1 <= k <= lastId
  }
}
