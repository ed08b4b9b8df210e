/** The relational store the services run against: one table per record kind.
    Users can be deleted, so they are kept by id; items, bookings, requests
    and comments are never deleted and are kept in identity order, the row
    with id k at position k - 1. */
module Store {
  import opened Common
  import opened Domain

  class Database {
    var users: map<int, User>
    var lastUserId: int
    var items: seq<Item>
    var bookings: seq<Booking>
    var requests: seq<ItemRequest>
    var comments: seq<Comment>

    ghost predicate Valid()
      reads this
    {
      && lastUserId >= 0
      && UsersKeyed(users, lastUserId)
      && ItemsNumbered(items)
      && BookingsNumbered(bookings)
      && RequestsNumbered(requests)
      && CommentsNumbered(comments)
      && BookingsMatchItems(bookings, items)
    }

    constructor ()
      ensures Valid()
      ensures users == map[] && lastUserId == 0
      ensures items == [] && bookings == [] && requests == [] && comments == []
    {
      users := map[];
      lastUserId := 0;
      items := [];
      bookings := [];
      requests := [];
      comments := [];
    }
  }
}
