/**
 * The JPQL queries of the booking repository, as functions over the bookings table
 * and the current time `now` (the query's current_timestamp).
 * Each listing is specified as: sorted by its order-by key, descending, and a
 * permutation of the rows its where-clause selects. The result of a tie in the key
 * is one particular order; the database may return another.
 */
module BookingRepository {
  import opened Common
  import opened Seqs
  import opened Domain

  // ---- bookings of one booker ----

  /** Every booking of the booker, latest start first. */
  function GetAllByBookerId(bs: seq<Booking>, bookerId: int): (r: seq<Booking>)
    ensures SortedDesc(r, StartOf)
    ensures forall b :: multiset(r)[b] == if b.bookerId == bookerId then multiset(bs)[b] else 0
    ensures forall b :: b in r <==> b in bs && b.bookerId == bookerId
  {
    Listing(bs, (b: Booking) => b.bookerId == bookerId, StartOf)
  }

  /** The booker's bookings under way (start < now < end), latest end first. */
  function GetAllCurrentByUserId(bs: seq<Booking>, userId: int, now: int): (r: seq<Booking>)
    ensures SortedDesc(r, EndOf)
    ensures forall b :: multiset(r)[b] ==
              if b.bookerId == userId && b.start < now && b.end > now then multiset(bs)[b] else 0
    ensures forall b :: b in r <==> b in bs && b.bookerId == userId && b.start < now && b.end > now
  {
    Listing(bs, (b: Booking) => b.bookerId == userId && b.start < now && b.end > now, EndOf)
  }

  /** The booker's finished bookings (end < now), latest start first. */
  function GetAllPastByUserId(bs: seq<Booking>, userId: int, now: int): (r: seq<Booking>)
    ensures SortedDesc(r, StartOf)
    ensures forall b :: multiset(r)[b] == if b.bookerId == userId && b.end < now then multiset(bs)[b] else 0
    ensures forall b :: b in r <==> b in bs && b.bookerId == userId && b.end < now
  {
    Listing(bs, (b: Booking) => b.bookerId == userId && b.end < now, StartOf)
  }

  /** The booker's bookings still to begin (start > now), latest start first. */
  function GetAllFutureByUserId(bs: seq<Booking>, userId: int, now: int): (r: seq<Booking>)
    ensures SortedDesc(r, StartOf)
    ensures forall b :: multiset(r)[b] == if b.bookerId == userId && b.start > now then multiset(bs)[b] else 0
    ensures forall b :: b in r <==> b in bs && b.bookerId == userId && b.start > now
  {
    Listing(bs, (b: Booking) => b.bookerId == userId && b.start > now, StartOf)
  }

  /** The booker's WAITING bookings, latest end first. */
  function GetAllWaitingByUserId(bs: seq<Booking>, userId: int): (r: seq<Booking>)
    ensures SortedDesc(r, EndOf)
    ensures forall b :: multiset(r)[b] == if b.bookerId == userId && b.status == WAITING then multiset(bs)[b] else 0
    ensures forall b :: b in r <==> b in bs && b.bookerId == userId && b.status == WAITING
  {
    Listing(bs, (b: Booking) => b.bookerId == userId && b.status == WAITING, EndOf)
  }

  /** The booker's REJECTED bookings, latest end first. */
  function GetAllRejectedByUserId(bs: seq<Booking>, userId: int): (r: seq<Booking>)
    ensures SortedDesc(r, EndOf)
    ensures forall b :: multiset(r)[b] == if b.bookerId == userId && b.status == REJECTED then multiset(bs)[b] else 0
    ensures forall b :: b in r <==> b in bs && b.bookerId == userId && b.status == REJECTED
  {
    Listing(bs, (b: Booking) => b.bookerId == userId && b.status == REJECTED, EndOf)
  }

  // ---- bookings of a set of items ----

  /** Every booking of the items, latest end first. */
  function GetAllBookingsForItems(bs: seq<Booking>, itemIds: set<int>): (r: seq<Booking>)
    ensures SortedDesc(r, EndOf)
    ensures forall b :: multiset(r)[b] == if b.itemId in itemIds then multiset(bs)[b] else 0
    ensures forall b :: b in r <==> b in bs && b.itemId in itemIds
  {
    Listing(bs, (b: Booking) => b.itemId in itemIds, EndOf)
  }

  /** Bookings of the items under way (start < now < end), latest start first. */
  function GetCurrentBookingsForItems(bs: seq<Booking>, itemIds: set<int>, now: int): (r: seq<Booking>)
    ensures SortedDesc(r, StartOf)
    ensures forall b :: multiset(r)[b] ==
              if b.itemId in itemIds && b.start < now && b.end > now then multiset(bs)[b] else 0
    ensures forall b :: b in r <==> b in bs && b.itemId in itemIds && b.start < now && b.end > now
  {
    Listing(bs, (b: Booking) => b.itemId in itemIds && b.start < now && b.end > now, StartOf)
  }

  /** Bookings of the items that have started and ended (start < now and end < now), latest start first. */
  function GetPastBookingsForItems(bs: seq<Booking>, itemIds: set<int>, now: int): (r: seq<Booking>)
    ensures SortedDesc(r, StartOf)
    ensures forall b :: multiset(r)[b] ==
              if b.itemId in itemIds && b.start < now && b.end < now then multiset(bs)[b] else 0
    ensures forall b :: b in r <==> b in bs && b.itemId in itemIds && b.start < now && b.end < now
  {
    Listing(bs, (b: Booking) => b.itemId in itemIds && b.start < now && b.end < now, StartOf)
  }

  /** Bookings of the items still to begin (start > now and end > now), latest start first. */
  function GetFutureBookingsForItems(bs: seq<Booking>, itemIds: set<int>, now: int): (r: seq<Booking>)
    ensures SortedDesc(r, StartOf)
    ensures forall b :: multiset(r)[b] ==
              if b.itemId in itemIds && b.start > now && b.end > now then multiset(bs)[b] else 0
    ensures forall b :: b in r <==> b in bs && b.itemId in itemIds && b.start > now && b.end > now
  {
    Listing(bs, (b: Booking) => b.itemId in itemIds && b.start > now && b.end > now, StartOf)
  }

  /** WAITING bookings of the items, latest start first. */
  function GetWaitingBookingsForItems(bs: seq<Booking>, itemIds: set<int>): (r: seq<Booking>)
    ensures SortedDesc(r, StartOf)
    ensures forall b :: multiset(r)[b] == if b.itemId in itemIds && b.status == WAITING then multiset(bs)[b] else 0
    ensures forall b :: b in r <==> b in bs && b.itemId in itemIds && b.status == WAITING
  {
    Listing(bs, (b: Booking) => b.itemId in itemIds && b.status == WAITING, StartOf)
  }

  /** REJECTED bookings of the items, latest start first. */
  function GetRejectedBookingsForItems(bs: seq<Booking>, itemIds: set<int>): (r: seq<Booking>)
    ensures SortedDesc(r, StartOf)
    ensures forall b :: multiset(r)[b] == if b.itemId in itemIds && b.status == REJECTED then multiset(bs)[b] else 0
    ensures forall b :: b in r <==> b in bs && b.itemId in itemIds && b.status == REJECTED
  {
    Listing(bs, (b: Booking) => b.itemId in itemIds && b.status == REJECTED, StartOf)
  }

  /** The "canceled" listing. Its where-clause tests status REJECTED, not CANCELED. */
  function GetCanceledBookingsForItems(bs: seq<Booking>, itemIds: set<int>): (r: seq<Booking>)
    ensures SortedDesc(r, StartOf)
    ensures forall b :: multiset(r)[b] == if b.itemId in itemIds && b.status == REJECTED then multiset(bs)[b] else 0
    ensures forall b :: b in r <==> b in bs && b.itemId in itemIds && b.status == REJECTED
  {
    Listing(bs, (b: Booking) => b.itemId in itemIds && b.status == REJECTED, StartOf)
  }

  /** As written, the canceled listing is the rejected listing and never shows a CANCELED booking. */
  lemma CanceledListingIsRejectedListing(bs: seq<Booking>, itemIds: set<int>)
    ensures GetCanceledBookingsForItems(bs, itemIds) == GetRejectedBookingsForItems(bs, itemIds)
    ensures forall b :: b in GetCanceledBookingsForItems(bs, itemIds) ==> b.status != CANCELED
  {
    var r := GetCanceledBookingsForItems(bs, itemIds);
    forall b | b in r ensures b.status != CANCELED {
      assert multiset(r)[b] > 0;
    }
  }

  // ---- next and last booking of one item ----

  /** A booking that may be shown as the item's next one. */
  predicate NextCandidate(b: Booking, itemId: int, now: int) {
    b.itemId == itemId && b.start > now && b.status != REJECTED
  }

  /** A booking that may be shown as the item's last one. */
  predicate LastCandidate(b: Booking, itemId: int, now: int) {
    b.itemId == itemId && b.start < now && b.status != REJECTED
  }

  /** `order by start asc limit 1`: a candidate with the smallest start, or none. */
  function GetNextBookingForItem(bs: seq<Booking>, itemId: int, now: int): (r: Option<Booking>)
    ensures r.Some? ==> r.value in bs && NextCandidate(r.value, itemId, now)
    ensures r.Some? ==> forall b :: b in bs && NextCandidate(b, itemId, now) ==> r.value.start <= b.start
    ensures r.None? <==> forall b :: b in bs ==> !NextCandidate(b, itemId, now)
  {
    if bs == [] then None
    else
      var rest := GetNextBookingForItem(bs[1..], itemId, now);
      assert bs == [bs[0]] + bs[1..];
      if !NextCandidate(bs[0], itemId, now) then rest
      else if rest.Some? && rest.value.start <= bs[0].start then rest
      else Some(bs[0])
  }

  /** `order by start desc limit 1`: a candidate with the largest start, or none. */
  function GetLastBookingForItem(bs: seq<Booking>, itemId: int, now: int): (r: Option<Booking>)
    ensures r.Some? ==> r.value in bs && LastCandidate(r.value, itemId, now)
    ensures r.Some? ==> forall b :: b in bs && LastCandidate(b, itemId, now) ==> r.value.start >= b.start
    ensures r.None? <==> forall b :: b in bs ==> !LastCandidate(b, itemId, now)
  {
    if bs == [] then None
    else
      var rest := GetLastBookingForItem(bs[1..], itemId, now);
      assert bs == [bs[0]] + bs[1..];
      if !LastCandidate(bs[0], itemId, now) then rest
      else if rest.Some? && rest.value.start >= bs[0].start then rest
      else Some(bs[0])
  }
}
