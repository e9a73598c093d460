/**
 * The earlier booking service of the `shareIt-server` module. Its listings, its single-booking
 * read, its overlap test and its status transition are the same as in the `server` module
 * and are taken from there; its `create` and `update` differ and are modelled here beside
 * lemmas that compare them with the later ones.
 */
module EarlyBookingService {
  import opened Common
  import opened Seqs
  import opened Domain
  import opened Database
  import opened BookingService

  /** What the earlier `create` demands: no interval check, else as the later one. */
  ghost predicate EarlyBookable(users: seq<User>, items: seq<Item>, bookings: seq<Booking>,
                                draft: BookingDraft, bookerId: int) {
    && Known(users, bookerId)
    && draft.itemId.Some?
    && (exists it :: it in items && it.id == draft.itemId.value && it.available && it.owner != bookerId)
    && !exists b :: b in bookings && b.itemId == draft.itemId.value && Overlaps(draft.start, draft.end, b)
  }

  /**
   * The earlier create: an unknown booker gives NotFound first; a null item id reaches the
   * repository lookup, which throws (Internal); then an unknown item gives NotFound, an
   * unavailable one Validation, the booker's own item NotFound and an overlap InvalidRequest.
   * Start and end are not compared.
   */
  function EarlyCreateOutcome(users: seq<User>, items: seq<Item>, bookings: seq<Booking>,
                              draft: BookingDraft, bookerId: int): (r: Result<Booking>)
    ensures !Known(users, bookerId) ==> r == Err(NotFound)
    ensures Known(users, bookerId) && draft.itemId.None? ==> r == Err(Internal)
    ensures (Known(users, bookerId) && draft.itemId.Some? &&
             forall it :: it in items ==> it.id != draft.itemId.value) ==> r == Err(NotFound)
    ensures (UniqueKeys(items, ItemId) && Known(users, bookerId) && draft.itemId.Some?)
            ==> forall it :: it in items && it.id == draft.itemId.value ==>
                  && (!it.available ==> r == Err(Validation))
                  && (it.available && it.owner == bookerId ==> r == Err(NotFound))
                  && ((it.available && it.owner != bookerId &&
                       exists b :: b in bookings && b.itemId == it.id && Overlaps(draft.start, draft.end, b))
                      ==> r == Err(InvalidRequest))
    ensures r.Ok? ==> EarlyBookable(users, items, bookings, draft, bookerId)
    ensures UniqueKeys(items, ItemId) && EarlyBookable(users, items, bookings, draft, bookerId) ==> r.Ok?
    ensures r.Ok? ==> r.value == Booking(NextKey(bookings, BookingId), draft.start, draft.end,
                                         draft.itemId.value, bookerId, WAITING)
    ensures r == Err(Validation) ==>
              draft.itemId.Some? && exists it :: it in items && it.id == draft.itemId.value && !it.available
    ensures r == Err(InvalidRequest) ==>
              draft.itemId.Some? &&
              exists b :: b in bookings && b.itemId == draft.itemId.value && Overlaps(draft.start, draft.end, b)
  {
    if Find(users, UserId, bookerId).None? then Err(NotFound)
    else if draft.itemId.None? then Err(Internal)
    else
      match Find(items, ItemId, draft.itemId.value)
      case None => Err(NotFound)
      case Some(item) =>
        if !item.available then Err(Validation)
        else if item.owner == bookerId then Err(NotFound)
        else
          match TimeIntersectionsCheck(bookings, item.id, draft.start, draft.end)
          case Fail(e) => Err(e)
          case Pass => Ok(Booking(NextKey(bookings, BookingId), draft.start, draft.end, item.id, bookerId, WAITING))
  }

  /** Whatever the later create accepts, the earlier one accepts with the same booking. */
  lemma CreateAcceptsLessThanEarlyCreate(users: seq<User>, items: seq<Item>, bookings: seq<Booking>,
                                         draft: BookingDraft, bookerId: int)
    requires CreateOutcome(users, items, bookings, draft, bookerId).Ok?
    ensures EarlyCreateOutcome(users, items, bookings, draft, bookerId) == CreateOutcome(users, items, bookings, draft, bookerId)
  {
  }

  /** The earlier create stores a booking whose end precedes its start, which the later one refuses. */
  lemma EarlyCreateAcceptsReversedInterval(users: seq<User>, items: seq<Item>, bookings: seq<Booking>,
                                           draft: BookingDraft, bookerId: int)
    requires draft.end < draft.start
    requires EarlyCreateOutcome(users, items, bookings, draft, bookerId).Ok?
    ensures CreateOutcome(users, items, bookings, draft, bookerId) == Err(InvalidRequest)
    ensures !ProperIntervals(bookings + [EarlyCreateOutcome(users, items, bookings, draft, bookerId).value])
  {
    var bs := bookings + [EarlyCreateOutcome(users, items, bookings, draft, bookerId).value];
    assert bs[|bookings|].start > bs[|bookings|].end;
  }

  /** A state in which the earlier create accepts a reversed interval. */
  lemma ReversedIntervalExample()
    ensures EarlyCreateOutcome([User(1, None, None)], [Item(7, "drill", "cordless", true, 2, None)], [],
                               BookingDraft(Some(7), 10, 5), 1)
            == Ok(Booking(1, 10, 5, 7, 1, WAITING))
  {
    var items := [Item(7, "drill", "cordless", true, 2, None)];
    assert Find(items, ItemId, 7) == Some(items[0]);
  }

  /** The earlier create still keeps ids unique, bookings of one item disjoint and owners off their own items. */
  lemma EarlyCreateKeepsNoDoubleBooking(users: seq<User>, items: seq<Item>, bookings: seq<Booking>,
                                        draft: BookingDraft, bookerId: int)
    requires UniqueKeys(items, ItemId)
    requires UniqueKeys(bookings, BookingId) && NoDoubleBooking(bookings) && NoSelfBooking(items, bookings)
    requires EarlyCreateOutcome(users, items, bookings, draft, bookerId).Ok?
    ensures var bs := bookings + [EarlyCreateOutcome(users, items, bookings, draft, bookerId).value];
            UniqueKeys(bs, BookingId) && NoDoubleBooking(bs) && NoSelfBooking(items, bs)
  {
    var nb := EarlyCreateOutcome(users, items, bookings, draft, bookerId).value;
    var it' :| it' in items && it'.id == draft.itemId.value && it'.available && it'.owner != bookerId;
    AppendKeepsBookings(items, bookings, nb);
  }

  /** Insert the booking that `EarlyCreateOutcome` decides on. */
  method Create(db: Store, draft: BookingDraft, bookerId: int) returns (r: Result<Booking>)
    requires db.Valid()
    modifies db`bookings
    ensures r == EarlyCreateOutcome(old(db.users), old(db.items), old(db.bookings), draft, bookerId)
    ensures db.bookings == if r.Ok? then old(db.bookings) + [r.value] else old(db.bookings)
    ensures db.Valid()
  {
    r := EarlyCreateOutcome(db.users, db.items, db.bookings, draft, bookerId);
    if r.Ok? {
      AppendKeepsUnique(db.bookings, BookingId, r.value);
      db.bookings := db.bookings + [r.value];
    }
  }

  /**
   * isItemOwner of the earlier service: it lists the items of the owner, which fails with
   * NotFound when the owner is not a stored user; its boolean result is then discarded.
   */
  function EarlyIsItemOwner(users: seq<User>, items: seq<Item>, itemId: int): (r: Outcome)
    ensures r.Pass? ==> exists it :: it in items && it.id == itemId && Known(users, it.owner)
    ensures (UniqueKeys(items, ItemId) && exists it :: it in items && it.id == itemId && Known(users, it.owner))
            ==> r.Pass?
    ensures r.Fail? ==> r.error == NotFound
  {
    match Find(items, ItemId, itemId)
    case None => Fail(NotFound)
    case Some(it) => if Find(users, UserId, it.owner).Some? then Pass else Fail(NotFound)
  }

  /**
   * The earlier update: an unknown user gives InvalidRequest; the booking is read through
   * getBookingById, so its booker as well as its item's owner may decide (others get NotFound);
   * then the status transition applies.
   */
  function EarlyUpdateOutcome(users: seq<User>, items: seq<Item>, bookings: seq<Booking>,
                              bookingId: int, userId: int, approved: bool): (r: Result<Booking>)
    ensures !Known(users, userId) ==> r == Err(InvalidRequest)
    ensures r.Ok? ==> exists b :: b in bookings && b.id == bookingId && b.status != APPROVED &&
                                  (b.bookerId == userId || Owns(items, b.itemId, userId)) &&
                                  r.value == b.(status := Decision(approved))
    ensures r == Err(Validation) ==> exists b :: b in bookings && b.id == bookingId && b.status == APPROVED
    ensures Known(users, userId) && (forall b :: b in bookings ==> b.id != bookingId) ==> r == Err(NotFound)
    ensures (UniqueKeys(items, ItemId) && UniqueKeys(bookings, BookingId) && Known(users, userId))
            ==> forall b :: b in bookings && b.id == bookingId ==>
                  && (b.bookerId != userId && !Owns(items, b.itemId, userId) ==> r == Err(NotFound))
                  && ((b.bookerId == userId || Owns(items, b.itemId, userId)) && b.status == APPROVED &&
                      (exists it :: it in items && it.id == b.itemId && Known(users, it.owner))
                      ==> r == Err(Validation))
  {
    if Find(users, UserId, userId).None? then Err(InvalidRequest)
    else
      match GetBookingById(users, items, bookings, bookingId, userId)
      case Err(e) => Err(e)
      case Ok(booking) =>
        match EarlyIsItemOwner(users, items, booking.itemId)
        case Fail(e) => Err(e)
        case Pass => SetBookingStatus(booking, approved)
  }

  /** Whatever the later update accepts, the earlier one accepts with the same result. */
  lemma UpdateAcceptsLessThanEarlyUpdate(users: seq<User>, items: seq<Item>, bookings: seq<Booking>,
                                         bookingId: int, userId: int, approved: bool)
    requires UniqueKeys(users, UserId) && UniqueKeys(items, ItemId) && UniqueKeys(bookings, BookingId)
    requires UpdateOutcome(users, items, bookings, bookingId, userId, approved).Ok?
    ensures EarlyUpdateOutcome(users, items, bookings, bookingId, userId, approved)
            == UpdateOutcome(users, items, bookings, bookingId, userId, approved)
  {
    var b := Find(bookings, BookingId, bookingId).value;
    var it := Find(items, ItemId, b.itemId).value;
    assert it.owner == userId;
  }

  /** In the earlier service the booker decides on a booking of someone else's item; the later one refuses with NotFound. */
  lemma EarlyUpdateLetsBookerDecide(users: seq<User>, items: seq<Item>, bookings: seq<Booking>,
                                    b: Booking, it: Item, owner: User, approved: bool)
    requires UniqueKeys(users, UserId) && UniqueKeys(items, ItemId) && UniqueKeys(bookings, BookingId)
    requires b in bookings && it in items && owner in users && Known(users, b.bookerId)
    requires it.id == b.itemId && owner.id == it.owner && it.owner != b.bookerId
    requires b.status != APPROVED
    ensures EarlyUpdateOutcome(users, items, bookings, b.id, b.bookerId, approved) == Ok(b.(status := Decision(approved)))
    ensures UpdateOutcome(users, items, bookings, b.id, b.bookerId, approved) == Err(NotFound)
  {
    var i :| 0 <= i < |bookings| && bookings[i] == b;
    var k :| 0 <= k < |items| && items[k] == it;
    var m :| 0 <= m < |users| && users[m] == owner;
    assert Find(bookings, BookingId, b.id) == Some(b);
    assert Find(items, ItemId, it.id) == Some(it);
    assert Find(users, UserId, owner.id) == Some(owner);
  }

  /** Save the decision that `EarlyUpdateOutcome` makes. */
  method Update(db: Store, bookingId: int, userId: int, approved: bool) returns (r: Result<Booking>)
    requires db.Valid()
    modifies db`bookings
    ensures r == EarlyUpdateOutcome(old(db.users), old(db.items), old(db.bookings), bookingId, userId, approved)
    ensures db.bookings == if r.Ok? then Put(old(db.bookings), BookingId, r.value) else old(db.bookings)
    ensures db.Valid()
  {
    r := EarlyUpdateOutcome(db.users, db.items, db.bookings, bookingId, userId, approved);
    if r.Ok? {
      PutKeepsKeys(db.bookings, BookingId, r.value);
      db.bookings := Put(db.bookings, BookingId, r.value);
    }
  }
}
