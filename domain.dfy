/**
 * The entities of the item-sharing platform. Relations are carried as ids;
 * timestamps (LocalDateTime) are integers on one clock.
 */
module Domain {
  import opened Common

  /** Booking status; a new booking is WAITING. */
  datatype Status = WAITING | APPROVED | REJECTED | CANCELED

  /** A user. Both fields may be null in the source, hence Option. */
  datatype User = User(id: int, name: Option<string>, email: Option<string>)

  /** A stored item: validated fields, an owner and an optional request it answers. */
  datatype Item = Item(id: int, name: string, description: string, available: bool,
                       owner: int, requestId: Option<int>)

  /** A booking of item `itemId` by user `bookerId` over the closed interval [start, end]. */
  datatype Booking = Booking(id: int, start: int, end: int, itemId: int, bookerId: int, status: Status)

  /** A comment of user `authorId` on item `itemId`, created at `created`. */
  datatype Comment = Comment(id: int, text: string, itemId: int, authorId: int, created: int)

  /** A request for an item, with the items offered for it so far (as they were submitted). */
  datatype ItemRequest = ItemRequest(id: int, description: string, requesterId: int, created: int,
                                     items: seq<ItemDraft>)

  /** The body of an item submission or patch (ItemDto); a missing field is None. */
  datatype ItemDraft = ItemDraft(name: Option<string>, description: Option<string>, available: Option<bool>,
                                 requestId: Option<int>)

  /** The body of a user submission or patch; a missing field is None. */
  datatype UserDraft = UserDraft(id: Option<int>, name: Option<string>, email: Option<string>)

  /** The body of a booking request (BookingDtoToPut); the item id may be null. */
  datatype BookingDraft = BookingDraft(itemId: Option<int>, start: int, end: int)

  /** The users table holds a user with this id. */
  ghost predicate Known(users: seq<User>, userId: int) {
    exists u :: u in users && u.id == userId
  }

  // Projections used as table keys and sort keys.
  function UserId(u: User): int { u.id }
  function ItemId(i: Item): int { i.id }
  function BookingId(b: Booking): int { b.id }
  function CommentId(c: Comment): int { c.id }
  function RequestId(r: ItemRequest): int { r.id }
  function StartOf(b: Booking): int { b.start }
  function EndOf(b: Booking): int { b.end }
  function CreatedOf(c: Comment): int { c.created }
}
