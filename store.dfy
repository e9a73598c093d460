/**
 * The relational store behind the JPA repositories: one table per entity, each a
 * sequence of rows in storage order with a unique id column. Services read these
 * tables and `save` into them; nothing else holds state.
 */
module Database {
  import opened Seqs
  import opened Domain

  class Store {
    var users: seq<User>
    var items: seq<Item>
    var bookings: seq<Booking>
    var comments: seq<Comment>
    var requests: seq<ItemRequest>

    /** Every table keeps its primary key unique. */
    ghost predicate Valid()
      reads this
    {
      && UniqueKeys(users, UserId)
      && UniqueKeys(items, ItemId)
      && UniqueKeys(bookings, BookingId)
      && UniqueKeys(comments, CommentId)
      && UniqueKeys(requests, RequestId)
    }

    constructor ()
      ensures Valid()
      ensures users == [] && items == [] && bookings == [] && comments == [] && requests == []
    {
      users, items, bookings, comments, requests := [], [], [], [], [];
    }
  }
}
