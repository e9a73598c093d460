/**
 * The booking service of the `server` module: creating a booking through an ordered
 * chain of checks, approving or rejecting it, showing it to its participants only, and
 * listing bookings by a state name. Each operation is a function of the tables it reads
 * (the check chain and its result); `Create` and `Update` save that result into the store.
 */
module BookingService {
  import opened Common
  import opened Text
  import opened Seqs
  import opened Domain
  import opened BookingRepository
  import opened Database

  // ---- intervals ----

  /** `t` lies in the closed interval [lo, hi]. */
  predicate Within(t: int, lo: int, hi: int) {
    lo <= t <= hi
  }

  /**
   * The overlap test of timeIntersectionsCheck: the requested start is not after the
   * booking's end and the requested end is not before its start.
   */
  predicate Overlaps(start: int, end: int, b: Booking) {
    !(start > b.end) && !(end < b.start)
  }

  /** For proper intervals, overlapping means sharing an instant; touching endpoints count. */
  lemma OverlapsIffCommonInstant(start: int, end: int, b: Booking)
    requires start <= end && b.start <= b.end
    ensures Overlaps(start, end, b) <==> exists t :: Within(t, start, end) && Within(t, b.start, b.end)
  {
    if Overlaps(start, end, b) {
      var t := if start < b.start then b.start else start;
      assert Within(t, start, end) && Within(t, b.start, b.end);
    }
  }

  /** The stream's anyMatch over the overlap test. */
  function AnyOverlap(bs: seq<Booking>, start: int, end: int): (r: bool)
    ensures r <==> exists b :: b in bs && Overlaps(start, end, b)
  {
    if bs == [] then false
    else
      assert bs == [bs[0]] + bs[1..];
      Overlaps(start, end, bs[0]) || AnyOverlap(bs[1..], start, end)
  }

  /**
   * timeIntersectionsCheck: fails with InvalidRequest exactly when some booking of the
   * item, whatever its status, overlaps the requested interval.
   */
  function TimeIntersectionsCheck(bookings: seq<Booking>, itemId: int, start: int, end: int): (r: Outcome)
    ensures r.Fail? <==> exists b :: b in bookings && b.itemId == itemId && Overlaps(start, end, b)
    ensures r.Fail? ==> r.error == InvalidRequest
  {
    var ofItem := Select(bookings, (b: Booking) => b.itemId == itemId);
    if AnyOverlap(ofItem, start, end) then Fail(InvalidRequest) else Pass
  }

  // ---- ownership ----

  /** Some stored item with id `itemId` is owned by `userId`. */
  ghost predicate Owns(items: seq<Item>, itemId: int, userId: int) {
    exists it :: it in items && it.id == itemId && it.owner == userId
  }

  /** `itemRepository.findById(itemId)` followed by an owner comparison. */
  function IsOwnerOf(items: seq<Item>, itemId: int, userId: int): (b: bool)
    ensures b ==> Owns(items, itemId, userId)
    ensures UniqueKeys(items, ItemId) && Owns(items, itemId, userId) ==> b
  {
    match Find(items, ItemId, itemId)
    case None => false
    case Some(it) => it.owner == userId
  }

  /** isItemOwner: NotFound unless the item exists and belongs to `userId`. */
  function IsItemOwner(items: seq<Item>, itemId: int, userId: int): (r: Outcome)
    ensures r.Pass? ==> Owns(items, itemId, userId)
    ensures UniqueKeys(items, ItemId) && Owns(items, itemId, userId) ==> r.Pass?
    ensures r.Fail? ==> r.error == NotFound
  {
    if IsOwnerOf(items, itemId, userId) then Pass else Fail(NotFound)
  }

  // ---- create ----

  /** Everything `create` demands of a request; under unique item ids it is exactly when `create` succeeds. */
  ghost predicate Bookable(users: seq<User>, items: seq<Item>, bookings: seq<Booking>,
                           draft: BookingDraft, bookerId: int) {
    && draft.start <= draft.end
    && Known(users, bookerId)
    && draft.itemId.Some?
    && (exists it :: it in items && it.id == draft.itemId.value && it.available && it.owner != bookerId)
    && !exists b :: b in bookings && b.itemId == draft.itemId.value && Overlaps(draft.start, draft.end, b)
  }

  /**
   * create: a reversed interval (end strictly before start) gives InvalidRequest before
   * any lookup; then the booker must exist (NotFound), the item id be present (Validation),
   * the item exist (NotFound), be available (Validation) and not be the booker's own
   * (NotFound), and the interval must not overlap a booking of the item (InvalidRequest).
   * The first failing check decides the error. The new booking is WAITING.
   */
  function CreateOutcome(users: seq<User>, items: seq<Item>, bookings: seq<Booking>,
                         draft: BookingDraft, bookerId: int): (r: Result<Booking>)
    ensures draft.end < draft.start ==> r == Err(InvalidRequest)
    ensures draft.start <= draft.end && !Known(users, bookerId) ==> r == Err(NotFound)
    ensures draft.start <= draft.end && Known(users, bookerId) && draft.itemId.None? ==> r == Err(Validation)
    ensures (draft.start <= draft.end && Known(users, bookerId) && draft.itemId.Some? &&
             forall it :: it in items ==> it.id != draft.itemId.value) ==> r == Err(NotFound)
    ensures (UniqueKeys(items, ItemId) && draft.start <= draft.end && Known(users, bookerId) && draft.itemId.Some?)
            ==> forall it :: it in items && it.id == draft.itemId.value ==>
                  && (!it.available ==> r == Err(Validation))
                  && (it.available && it.owner == bookerId ==> r == Err(NotFound))
                  && ((it.available && it.owner != bookerId &&
                       exists b :: b in bookings && b.itemId == it.id && Overlaps(draft.start, draft.end, b))
                      ==> r == Err(InvalidRequest))
    ensures r.Ok? ==> Bookable(users, items, bookings, draft, bookerId)
    ensures UniqueKeys(items, ItemId) && Bookable(users, items, bookings, draft, bookerId) ==> r.Ok?
    ensures r.Ok? ==> r.value == Booking(NextKey(bookings, BookingId), draft.start, draft.end,
                                         draft.itemId.value, bookerId, WAITING)
    ensures r == Err(Validation) ==>
              draft.itemId.None? || exists it :: it in items && it.id == draft.itemId.value && !it.available
    ensures r == Err(InvalidRequest) ==>
              draft.end < draft.start ||
              (draft.itemId.Some? &&
               exists b :: b in bookings && b.itemId == draft.itemId.value && Overlaps(draft.start, draft.end, b))
  {
    if draft.end < draft.start then Err(InvalidRequest)
    else if Find(users, UserId, bookerId).None? then Err(NotFound)
    else if draft.itemId.None? then Err(Validation)
    else
      match Find(items, ItemId, draft.itemId.value)
      case None => Err(NotFound)
      case Some(item) =>
        if !item.available then Err(Validation)
        else if item.owner == bookerId then Err(NotFound)
        else
          match TimeIntersectionsCheck(bookings, item.id, draft.start, draft.end)
          case Fail(e) => Err(e)
          case Pass => Ok(Booking(NextKey(bookings, BookingId), draft.start, draft.end, item.id, bookerId, WAITING))
  }

  // ---- the state of the bookings table that the service keeps ----

  /** No two bookings of one item overlap, whatever their status. */
  ghost predicate NoDoubleBooking(bs: seq<Booking>) {
    forall i, j :: 0 <= i < j < |bs| && bs[i].itemId == bs[j].itemId ==> !Overlaps(bs[i].start, bs[i].end, bs[j])
  }

  /** No booking ends before it starts. */
  ghost predicate ProperIntervals(bs: seq<Booking>) {
    forall i :: 0 <= i < |bs| ==> bs[i].start <= bs[i].end
  }

  /** No booking is of an item its booker owns. */
  ghost predicate NoSelfBooking(items: seq<Item>, bs: seq<Booking>) {
    forall b, it :: b in bs && it in items && it.id == b.itemId ==> it.owner != b.bookerId
  }

  ghost predicate BookingsValid(items: seq<Item>, bs: seq<Booking>) {
    UniqueKeys(bs, BookingId) && NoDoubleBooking(bs) && ProperIntervals(bs) && NoSelfBooking(items, bs)
  }

  /**
   * Appending a booking with a fresh id, no overlap with the bookings of its item and a
   * booker other than the item's owner keeps ids unique, bookings of one item disjoint and
   * owners off their own items.
   */
  lemma AppendKeepsBookings(items: seq<Item>, bookings: seq<Booking>, nb: Booking)
    requires UniqueKeys(bookings, BookingId) && NoDoubleBooking(bookings) && NoSelfBooking(items, bookings)
    requires forall i :: 0 <= i < |bookings| ==> bookings[i].id != nb.id
    requires !exists b :: b in bookings && b.itemId == nb.itemId && Overlaps(nb.start, nb.end, b)
    requires forall it :: it in items && it.id == nb.itemId ==> it.owner != nb.bookerId
    ensures var bs := bookings + [nb];
            UniqueKeys(bs, BookingId) && NoDoubleBooking(bs) && NoSelfBooking(items, bs)
  {
    var bs := bookings + [nb];
    AppendKeepsUnique(bookings, BookingId, nb);
    forall i, j | 0 <= i < j < |bs| && bs[i].itemId == bs[j].itemId
      ensures !Overlaps(bs[i].start, bs[i].end, bs[j])
    {
      if j == |bookings| {
        assert bs[i] in bookings;
      }
    }
  }

  /** A successful create keeps ids unique, intervals proper and disjoint per item, and owners off their own items. */
  lemma CreateKeepsBookingsValid(users: seq<User>, items: seq<Item>, bookings: seq<Booking>,
                                 draft: BookingDraft, bookerId: int)
    requires UniqueKeys(items, ItemId) && BookingsValid(items, bookings)
    requires CreateOutcome(users, items, bookings, draft, bookerId).Ok?
    ensures BookingsValid(items, bookings + [CreateOutcome(users, items, bookings, draft, bookerId).value])
  {
    var nb := CreateOutcome(users, items, bookings, draft, bookerId).value;
    var it' :| it' in items && it'.id == draft.itemId.value && it'.available && it'.owner != bookerId;
    AppendKeepsBookings(items, bookings, nb);
  }

  /** Insert the booking that `CreateOutcome` decides on. */
  method Create(db: Store, draft: BookingDraft, bookerId: int) returns (r: Result<Booking>)
    requires db.Valid()
    modifies db`bookings
    ensures r == CreateOutcome(old(db.users), old(db.items), old(db.bookings), draft, bookerId)
    ensures db.bookings == if r.Ok? then old(db.bookings) + [r.value] else old(db.bookings)
    ensures db.Valid()
    ensures BookingsValid(db.items, old(db.bookings)) ==> BookingsValid(db.items, db.bookings)
  {
    r := CreateOutcome(db.users, db.items, db.bookings, draft, bookerId);
    if r.Ok? {
      if BookingsValid(db.items, db.bookings) {
        CreateKeepsBookingsValid(db.users, db.items, db.bookings, draft, bookerId);
      }
      AppendKeepsUnique(db.bookings, BookingId, r.value);
      db.bookings := db.bookings + [r.value];
    }
  }

  // ---- update ----

  /** The status a decision sets. */
  function Decision(approved: bool): Status {
    if approved then APPROVED else REJECTED
  }

  /**
   * setBookingStatus: an APPROVED booking is refused with Validation; any other status
   * (WAITING, REJECTED or CANCELED) is replaced by the decision and nothing else changes.
   */
  function SetBookingStatus(b: Booking, approved: bool): (r: Result<Booking>)
    ensures r.Err? <==> b.status == APPROVED
    ensures r.Err? ==> r.error == Validation
    ensures r.Ok? ==> r.value.status == Decision(approved)
    ensures r.Ok? ==> r.value.(status := b.status) == b
  {
    if b.status == APPROVED then Err(Validation) else Ok(b.(status := Decision(approved)))
  }

  /** The booking stored under `bookingId` is decided by its item's owner. */
  ghost predicate Decidable(users: seq<User>, items: seq<Item>, bookings: seq<Booking>,
                            bookingId: int, userId: int) {
    Known(users, userId) &&
    exists b :: b in bookings && b.id == bookingId && b.status != APPROVED && Owns(items, b.itemId, userId)
  }

  /**
   * update: an unknown user gives InvalidRequest, an unknown booking NotFound, a caller
   * who does not own the booked item NotFound, an APPROVED booking Validation; otherwise the
   * booking gets the decided status.
   */
  function UpdateOutcome(users: seq<User>, items: seq<Item>, bookings: seq<Booking>,
                         bookingId: int, userId: int, approved: bool): (r: Result<Booking>)
    ensures !Known(users, userId) ==> r == Err(InvalidRequest)
    ensures Known(users, userId) && (forall b :: b in bookings ==> b.id != bookingId) ==> r == Err(NotFound)
    ensures r.Ok? ==> exists b :: b in bookings && b.id == bookingId && b.status != APPROVED &&
                                  r.value == b.(status := Decision(approved))
    ensures r.Ok? ==> Known(users, userId) && Owns(items, r.value.itemId, userId)
    ensures (UniqueKeys(items, ItemId) && UniqueKeys(bookings, BookingId) &&
             Decidable(users, items, bookings, bookingId, userId)) ==> r.Ok?
    ensures r == Err(Validation) ==> exists b :: b in bookings && b.id == bookingId && b.status == APPROVED
    ensures (UniqueKeys(items, ItemId) && UniqueKeys(bookings, BookingId) && Known(users, userId))
            ==> forall b :: b in bookings && b.id == bookingId ==>
                  && (!Owns(items, b.itemId, userId) ==> r == Err(NotFound))
                  && (Owns(items, b.itemId, userId) && b.status == APPROVED ==> r == Err(Validation))
  {
    if Find(users, UserId, userId).None? then Err(InvalidRequest)
    else
      match Find(bookings, BookingId, bookingId)
      case None => Err(NotFound)
      case Some(booking) =>
        match IsItemOwner(items, booking.itemId, userId)
        case Fail(e) => Err(e)
        case Pass => SetBookingStatus(booking, approved)
  }

  /** A table that differs from a valid one only in statuses is valid too. */
  lemma SameButStatus(items: seq<Item>, bs: seq<Booking>, bs': seq<Booking>)
    requires BookingsValid(items, bs)
    requires |bs'| == |bs|
    requires forall i :: 0 <= i < |bs| ==> bs'[i] == bs[i].(status := bs'[i].status)
    ensures BookingsValid(items, bs')
  {
    forall b, it | b in bs' && it in items && it.id == b.itemId ensures it.owner != b.bookerId {
      var i :| 0 <= i < |bs'| && bs'[i] == b;
      assert bs[i] in bs;
    }
  }

  /** Saving a decision keeps the bookings table valid: only a status changes. */
  lemma UpdateKeepsBookingsValid(users: seq<User>, items: seq<Item>, bookings: seq<Booking>,
                                 bookingId: int, userId: int, approved: bool)
    requires BookingsValid(items, bookings)
    requires UpdateOutcome(users, items, bookings, bookingId, userId, approved).Ok?
    ensures BookingsValid(items, Put(bookings, BookingId, UpdateOutcome(users, items, bookings, bookingId, userId, approved).value))
  {
    var nb := UpdateOutcome(users, items, bookings, bookingId, userId, approved).value;
    var bs := Put(bookings, BookingId, nb);
    var ob :| ob in bookings && ob.id == bookingId && ob.status != APPROVED && nb == ob.(status := Decision(approved));
    var j :| 0 <= j < |bookings| && bookings[j] == ob;
    forall i | 0 <= i < |bookings| ensures bs[i] == bookings[i].(status := bs[i].status) {
      if bookings[i].id == nb.id {
        assert i == j;
      }
    }
    SameButStatus(items, bookings, bs);
  }

  /** Once approved, a booking can be neither approved again nor rejected. */
  lemma ApprovalIsFinal(users: seq<User>, items: seq<Item>, bookings: seq<Booking>,
                        bookingId: int, userId: int, approved: bool, again: bool)
    requires UniqueKeys(bookings, BookingId)
    requires approved && UpdateOutcome(users, items, bookings, bookingId, userId, approved).Ok?
    ensures UpdateOutcome(users, items, Put(bookings, BookingId, UpdateOutcome(users, items, bookings, bookingId, userId, approved).value),
                          bookingId, userId, again) == Err(Validation)
  {
    var nb := UpdateOutcome(users, items, bookings, bookingId, userId, approved).value;
    var bs := Put(bookings, BookingId, nb);
    PutKeepsKeys(bookings, BookingId, nb);
    var i :| 0 <= i < |bookings| && bookings[i].id == bookingId;
    assert bs[i] == nb;
    assert Find(bs, BookingId, bookingId) == Some(nb);
  }

  /** Save the decision that `UpdateOutcome` makes. */
  method Update(db: Store, bookingId: int, userId: int, approved: bool) returns (r: Result<Booking>)
    requires db.Valid()
    modifies db`bookings
    ensures r == UpdateOutcome(old(db.users), old(db.items), old(db.bookings), bookingId, userId, approved)
    ensures db.bookings == if r.Ok? then Put(old(db.bookings), BookingId, r.value) else old(db.bookings)
    ensures db.Valid()
    ensures BookingsValid(db.items, old(db.bookings)) ==> BookingsValid(db.items, db.bookings)
  {
    r := UpdateOutcome(db.users, db.items, db.bookings, bookingId, userId, approved);
    if r.Ok? {
      if BookingsValid(db.items, db.bookings) {
        UpdateKeepsBookingsValid(db.users, db.items, db.bookings, bookingId, userId, approved);
      }
      PutKeepsKeys(db.bookings, BookingId, r.value);
      db.bookings := Put(db.bookings, BookingId, r.value);
    }
  }

  // ---- reading one booking ----

  /** getBookingById: the booking, shown only to its booker or its item's owner; every failure is NotFound. */
  function GetBookingById(users: seq<User>, items: seq<Item>, bookings: seq<Booking>,
                          bookingId: int, userId: int): (r: Result<Booking>)
    ensures r.Err? ==> r.error == NotFound
    ensures r.Ok? ==> Known(users, userId) && r.value in bookings && r.value.id == bookingId
    ensures r.Ok? ==> r.value.bookerId == userId || Owns(items, r.value.itemId, userId)
    ensures UniqueKeys(items, ItemId) && UniqueKeys(bookings, BookingId) && Known(users, userId) &&
            (exists b :: b in bookings && b.id == bookingId && (b.bookerId == userId || Owns(items, b.itemId, userId)))
            ==> r.Ok?
  {
    if Find(users, UserId, userId).None? then Err(NotFound)
    else
      match Find(bookings, BookingId, bookingId)
      case None => Err(NotFound)
      case Some(booking) =>
        if booking.bookerId != userId && !IsOwnerOf(items, booking.itemId, userId) then Err(NotFound)
        else Ok(booking)
  }

  // ---- listings by state ----

  /** The listing states. */
  datatype BookingState = All | Current | Past | Future | Waiting | Rejected | Canceled

  /** The name a state is requested by. */
  function StateName(st: BookingState): string {
    match st
    case All => "ALL"
    case Current => "CURRENT"
    case Past => "PAST"
    case Future => "FUTURE"
    case Waiting => "WAITING"
    case Rejected => "REJECTED"
    case Canceled => "CANCELED"
  }

  /** The cases of the owner-side switch, compared exactly. */
  function Recognize(s: string): (r: Option<BookingState>)
    ensures r.Some? ==> s == StateName(r.value)
  {
    if s == "ALL" then Some(All)
    else if s == "CURRENT" then Some(Current)
    else if s == "PAST" then Some(Past)
    else if s == "FUTURE" then Some(Future)
    else if s == "WAITING" then Some(Waiting)
    else if s == "REJECTED" then Some(Rejected)
    else if s == "CANCELED" then Some(Canceled)
    else None
  }

  /** The booker-side switch: exactly the six names without CANCELED, case-sensitive; anything else is NotFound. */
  function ParseBookerState(s: string): (r: Result<BookingState>)
    ensures r.Ok? ==> s == StateName(r.value) && r.value != Canceled
    ensures r.Err? ==> r.error == NotFound
  {
    match Recognize(s)
    case Some(st) => if st == Canceled then Err(NotFound) else Ok(st)
    case None => Err(NotFound)
  }

  /** The owner-side switch: the upper-cased name of any of the seven states; anything else is NotFound. */
  function ParseOwnerState(s: string): (r: Result<BookingState>)
    ensures r.Ok? ==> ToUpper(s) == StateName(r.value)
    ensures forall st :: ToUpper(s) == StateName(st) ==> r == Ok(st)
    ensures r.Err? ==> r.error == NotFound
  {
    match Recognize(ToUpper(s))
    case Some(st) => Ok(st)
    case None => Err(NotFound)
  }

  /** Every state is parsed back from its name: on the booker side all but CANCELED, on the owner side all. */
  lemma ParseStateName(st: BookingState)
    ensures st != Canceled ==> ParseBookerState(StateName(st)) == Ok(st)
    ensures ParseOwnerState(StateName(st)) == Ok(st)
    ensures ParseBookerState(StateName(Canceled)) == Err(NotFound)
  {
    var n := StateName(st);
    assert ToUpper(n) == n;
  }

  /** The owner side ignores case, the booker side does not. */
  lemma StateCaseSensitivity()
    ensures ParseOwnerState("waiting") == Ok(Waiting)
    ensures ParseBookerState("waiting") == Err(NotFound)
  {
    assert ToUpper("waiting") == "WAITING";
  }

  /** The where-clause of the booker-side query for a state. */
  predicate BookerSelects(st: BookingState, b: Booking, now: int) {
    match st
    case All => true
    case Current => b.start < now && b.end > now
    case Past => b.end < now
    case Future => b.start > now
    case Waiting => b.status == WAITING
    case Rejected => b.status == REJECTED
    case Canceled => false
  }

  /** The order-by key of the booker-side query for a state. */
  function BookerOrder(st: BookingState): Booking -> int {
    if st == Current || st == Waiting || st == Rejected then EndOf else StartOf
  }

  /** The switch of getBookings: the booker's bookings in the state, as a permutation, in the query's order. */
  function BookerListing(bookings: seq<Booking>, st: BookingState, userId: int, now: int): (r: seq<Booking>)
    requires st != Canceled
    ensures SortedDesc(r, BookerOrder(st))
    ensures forall b :: multiset(r)[b] ==
              if b.bookerId == userId && BookerSelects(st, b, now) then multiset(bookings)[b] else 0
    ensures forall b :: b in r <==> b in bookings && b.bookerId == userId && BookerSelects(st, b, now)
  {
    if st.Waiting? || st.Rejected? then BookerStatusListing(bookings, st, userId, now)
    else BookerTimeListing(bookings, st, userId, now)
  }

  /** The cases of the booker-side switch that filter on time. */
  function BookerTimeListing(bookings: seq<Booking>, st: BookingState, userId: int, now: int): (r: seq<Booking>)
    requires st.All? || st.Current? || st.Past? || st.Future?
    ensures SortedDesc(r, BookerOrder(st))
    ensures forall b :: multiset(r)[b] ==
              if b.bookerId == userId && BookerSelects(st, b, now) then multiset(bookings)[b] else 0
    ensures forall b :: b in r <==> b in bookings && b.bookerId == userId && BookerSelects(st, b, now)
  {
    match st
    case All => GetAllByBookerId(bookings, userId)
    case Current => GetAllCurrentByUserId(bookings, userId, now)
    case Past => GetAllPastByUserId(bookings, userId, now)
    case Future => GetAllFutureByUserId(bookings, userId, now)
  }

  /** The cases of the booker-side switch that filter on status. */
  function BookerStatusListing(bookings: seq<Booking>, st: BookingState, userId: int, now: int): (r: seq<Booking>)
    requires st.Waiting? || st.Rejected?
    ensures SortedDesc(r, BookerOrder(st))
    ensures forall b :: multiset(r)[b] ==
              if b.bookerId == userId && BookerSelects(st, b, now) then multiset(bookings)[b] else 0
    ensures forall b :: b in r <==> b in bookings && b.bookerId == userId && BookerSelects(st, b, now)
  {
    var wanted := if st.Waiting? then WAITING else REJECTED;
    assert forall b :: BookerSelects(st, b, now) == (b.status == wanted);
    if st.Waiting? then GetAllWaitingByUserId(bookings, userId) else GetAllRejectedByUserId(bookings, userId)
  }

  /** getBookings: an unknown user or an unknown state name gives NotFound; otherwise the booker's bookings in that state. */
  function GetBookings(users: seq<User>, bookings: seq<Booking>, state: string, userId: int, now: int)
    : (r: Result<seq<Booking>>)
    ensures r.Err? ==> r.error == NotFound
    ensures r.Ok? <==> Known(users, userId) && ParseBookerState(state).Ok?
    ensures r.Ok? ==>
              forall b :: multiset(r.value)[b] ==
                if b.bookerId == userId && BookerSelects(ParseBookerState(state).value, b, now)
                then multiset(bookings)[b] else 0
    ensures r.Ok? ==> forall b :: b in r.value ==> b in bookings && b.bookerId == userId
    ensures r.Ok? ==> r.value == BookerListing(bookings, ParseBookerState(state).value, userId, now) &&
                      SortedDesc(r.value, BookerOrder(ParseBookerState(state).value))
  {
    if Find(users, UserId, userId).None? then Err(NotFound)
    else
      match ParseBookerState(state)
      case Err(e) => Err(e)
      case Ok(st) => Ok(BookerListing(bookings, st, userId, now))
  }

  /** getBookingsByUserIdWithState: a missing state means ALL, which lists every booking of the booker. */
  function GetBookingsByUserIdWithState(users: seq<User>, bookings: seq<Booking>, state: Option<string>,
                                        userId: int, now: int): (r: Result<seq<Booking>>)
    ensures state.Some? ==> r == GetBookings(users, bookings, state.value, userId, now)
    ensures state.None? ==> r == GetBookings(users, bookings, "ALL", userId, now)
    ensures state.None? && r.Ok? ==> forall b :: b in r.value <==> b in bookings && b.bookerId == userId
  {
    GetBookings(users, bookings, if state.None? then "ALL" else state.value, userId, now)
  }

  /** The where-clause of the item-side query for a state; the CANCELED query tests REJECTED. */
  predicate OwnerSelects(st: BookingState, b: Booking, now: int) {
    match st
    case All => true
    case Current => b.start < now && b.end > now
    case Past => b.start < now && b.end < now
    case Future => b.start > now && b.end > now
    case Waiting => b.status == WAITING
    case Rejected => b.status == REJECTED
    case Canceled => b.status == REJECTED
  }

  /** The order-by key of the item-side query for a state. */
  function OwnerOrder(st: BookingState): Booking -> int {
    if st == All then EndOf else StartOf
  }

  /** The switch of findBookingsOfItemsWithState: the items' bookings in the state, as a permutation, in the query's order. */
  function OwnerListing(bookings: seq<Booking>, itemIds: set<int>, st: BookingState, now: int): (r: seq<Booking>)
    ensures SortedDesc(r, OwnerOrder(st))
    ensures forall b :: multiset(r)[b] ==
              if b.itemId in itemIds && OwnerSelects(st, b, now) then multiset(bookings)[b] else 0
    ensures forall b :: b in r <==> b in bookings && b.itemId in itemIds && OwnerSelects(st, b, now)
  {
    if st.Waiting? || st.Rejected? || st.Canceled? then OwnerStatusListing(bookings, itemIds, st, now)
    else OwnerTimeListing(bookings, itemIds, st, now)
  }

  /** The cases of the item-side switch that filter on time. */
  function OwnerTimeListing(bookings: seq<Booking>, itemIds: set<int>, st: BookingState, now: int): (r: seq<Booking>)
    requires st.All? || st.Current? || st.Past? || st.Future?
    ensures SortedDesc(r, OwnerOrder(st))
    ensures forall b :: multiset(r)[b] ==
              if b.itemId in itemIds && OwnerSelects(st, b, now) then multiset(bookings)[b] else 0
    ensures forall b :: b in r <==> b in bookings && b.itemId in itemIds && OwnerSelects(st, b, now)
  {
    match st
    case All => GetAllBookingsForItems(bookings, itemIds)
    case Current => GetCurrentBookingsForItems(bookings, itemIds, now)
    case Past => GetPastBookingsForItems(bookings, itemIds, now)
    case Future => GetFutureBookingsForItems(bookings, itemIds, now)
  }

  /** The cases of the item-side switch that filter on status. */
  function OwnerStatusListing(bookings: seq<Booking>, itemIds: set<int>, st: BookingState, now: int): (r: seq<Booking>)
    requires st.Waiting? || st.Rejected? || st.Canceled?
    ensures SortedDesc(r, OwnerOrder(st))
    ensures forall b :: multiset(r)[b] ==
              if b.itemId in itemIds && OwnerSelects(st, b, now) then multiset(bookings)[b] else 0
    ensures forall b :: b in r <==> b in bookings && b.itemId in itemIds && OwnerSelects(st, b, now)
  {
    var wanted := if st.Waiting? then WAITING else REJECTED;
    assert forall b :: OwnerSelects(st, b, now) == (b.status == wanted);
    match st
    case Waiting => GetWaitingBookingsForItems(bookings, itemIds)
    case Rejected => GetRejectedBookingsForItems(bookings, itemIds)
    case Canceled => GetCanceledBookingsForItems(bookings, itemIds)
  }

  /** findBookingsOfItemsWithState: a missing state means ALL, the name is upper-cased, an unknown one is NotFound. */
  function FindBookingsOfItemsWithState(bookings: seq<Booking>, itemIds: set<int>, state: Option<string>, now: int)
    : (r: Result<seq<Booking>>)
    ensures r.Err? <==> state.Some? && ParseOwnerState(state.value).Err?
    ensures r.Err? ==> r.error == NotFound
    ensures state.None? ==> r == Ok(OwnerListing(bookings, itemIds, All, now))
    ensures state.Some? && ParseOwnerState(state.value).Ok? ==>
              r == Ok(OwnerListing(bookings, itemIds, ParseOwnerState(state.value).value, now))
    ensures r.Ok? ==> forall b :: b in r.value ==> b in bookings && b.itemId in itemIds
  {
    var st := ParseOwnerState(if state.None? then "ALL" else state.value);
    assert ToUpper("ALL") == "ALL";
    match st
    case Err(e) => Err(e)
    case Ok(s) => Ok(OwnerListing(bookings, itemIds, s, now))
  }

  /** `itemRepository.findByOwnerId` mapped to ids. */
  function OwnedItemIds(items: seq<Item>, ownerId: int): (ids: set<int>)
    ensures forall k :: k in ids <==> exists it :: it in items && it.owner == ownerId && it.id == k
  {
    set it | it in items && it.owner == ownerId :: it.id
  }

  /**
   * getBookingsOfOwnerItems: an unknown owner or an owner without items gives NotFound;
   * otherwise the bookings of the owner's items in the requested state.
   */
  function GetBookingsOfOwnerItems(users: seq<User>, items: seq<Item>, bookings: seq<Booking>,
                                   ownerId: int, state: Option<string>, now: int): (r: Result<seq<Booking>>)
    ensures !Known(users, ownerId) ==> r == Err(NotFound)
    ensures (forall it :: it in items ==> it.owner != ownerId) ==> r == Err(NotFound)
    ensures r.Err? ==> r.error == NotFound
    ensures r.Ok? <==> Known(users, ownerId) && (exists it :: it in items && it.owner == ownerId) &&
                       (state.None? || ParseOwnerState(state.value).Ok?)
    ensures r.Ok? ==> forall b :: b in r.value ==> b in bookings && Owns(items, b.itemId, ownerId)
    ensures r.Ok? ==> r == FindBookingsOfItemsWithState(bookings, OwnedItemIds(items, ownerId), state, now)
  {
    if Find(users, UserId, ownerId).None? then Err(NotFound)
    else
      var itemIds := OwnedItemIds(items, ownerId);
      if itemIds == {} then
        assert forall it :: it in items ==> it.id !in itemIds;
        Err(NotFound)
      else
        FindBookingsOfItemsWithState(bookings, itemIds, state, now)
  }

  // ---- next and last booking ----

  /** getLastBooking: the item's last booking, or NotFound when it has none. */
  function GetLastBooking(bookings: seq<Booking>, itemId: int, now: int): (r: Result<Booking>)
    ensures r.Err? <==> forall b :: b in bookings ==> !LastCandidate(b, itemId, now)
    ensures r.Err? ==> r.error == NotFound
    ensures r.Ok? ==> r.value in bookings && LastCandidate(r.value, itemId, now) &&
                      forall b :: b in bookings && LastCandidate(b, itemId, now) ==> b.start <= r.value.start
  {
    match GetLastBookingForItem(bookings, itemId, now)
    case None => Err(NotFound)
    case Some(b) => Ok(b)
  }

  /** getNextBooking: the item's next booking, or NotFound when it has none. */
  function GetNextBooking(bookings: seq<Booking>, itemId: int, now: int): (r: Result<Booking>)
    ensures r.Err? <==> forall b :: b in bookings ==> !NextCandidate(b, itemId, now)
    ensures r.Err? ==> r.error == NotFound
    ensures r.Ok? ==> r.value in bookings && NextCandidate(r.value, itemId, now) &&
                      forall b :: b in bookings && NextCandidate(b, itemId, now) ==> r.value.start <= b.start
  {
    match GetNextBookingForItem(bookings, itemId, now)
    case None => Err(NotFound)
    case Some(b) => Ok(b)
  }
}
