/**
 * The item service: items are posted by their owners, patched and removed by them only,
 * found by a case-insensitive text search, and commented on by users whose approved
 * booking of the item has ended.
 */
module ItemService {
  import opened Common
  import opened Text
  import opened Seqs
  import opened Domain
  import opened Database
  import opened BookingRepository
  import RequestService

  // ---- reading ----

  /** getAllItemsByUserId: NotFound for an unknown user, else exactly the items the user owns. */
  function GetAllItemsByUserId(users: seq<User>, items: seq<Item>, userId: int): (r: Result<seq<Item>>)
    ensures r.Err? <==> !Known(users, userId)
    ensures r.Err? ==> r.error == NotFound
    ensures r.Ok? ==> forall it :: it in r.value <==> it in items && it.owner == userId
  {
    if Find(users, UserId, userId).None? then Err(NotFound)
    else Ok(Select(items, (it: Item) => it.owner == userId))
  }

  /** getItemById: the stored item, or NotFound. */
  function GetItemById(items: seq<Item>, itemId: int): (r: Result<Item>)
    ensures r.Err? <==> forall it :: it in items ==> it.id != itemId
    ensures r.Err? ==> r.error == NotFound
    ensures r.Ok? ==> r.value in items && r.value.id == itemId
  {
    match Find(items, ItemId, itemId)
    case None => Err(NotFound)
    case Some(it) => Ok(it)
  }

  // ---- search ----

  /** The item's name or description contains the text, ignoring case. */
  ghost predicate Mentions(it: Item, text: string) {
    (exists i :: OccursAt(ToLower(it.name), ToLower(text), i)) ||
    (exists i :: OccursAt(ToLower(it.description), ToLower(text), i))
  }

  /**
   * searchItemsByText: no text or empty text finds nothing; otherwise the available items
   * that mention the text, in storage order.
   */
  function SearchItemsByText(items: seq<Item>, text: Option<string>): (r: seq<Item>)
    ensures text.None? || text.value == [] ==> r == []
    ensures text.Some? && text.value != [] ==>
              forall it :: multiset(r)[it] == if it.available && Mentions(it, text.value) then multiset(items)[it] else 0
    ensures forall it :: it in r ==> it in items && it.available
  {
    if text.None? || text.value == [] then []
    else
      var t := ToLower(text.value);
      var hits := Select(items, (it: Item) => Contains(ToLower(it.name), t) || Contains(ToLower(it.description), t));
      Select(hits, (it: Item) => it.available)
  }

  /** Lower-casing an upper-cased text gives the lower-cased text. */
  lemma LowerOfUpper(t: string)
    ensures ToLower(ToUpper(t)) == ToLower(t)
  {
    forall i | 0 <= i < |t| ensures ToLower(ToUpper(t))[i] == ToLower(t)[i] {
      assert ToUpper(t)[i] == UpperChar(t[i]);
    }
  }

  /** The search does not distinguish texts that differ only in case. */
  lemma SearchIgnoresCase(items: seq<Item>, t: string)
    ensures SearchItemsByText(items, Some(ToUpper(t))) == SearchItemsByText(items, Some(t))
  {
    LowerOfUpper(t);
  }

  /** A blank but non-empty text is searched for like any other text. */
  lemma BlankTextIsSearched()
    ensures var drill := Item(1, "cordless drill", "with battery", true, 2, None);
            SearchItemsByText([drill], Some(" ")) == [drill]
  {
    var drill := Item(1, "cordless drill", "with battery", true, 2, None);
    assert OccursAt(ToLower(drill.name), ToLower(" "), 8);
  }

  // ---- adding ----

  /** The fields validateItemDto insists on are present and not blank. */
  predicate Complete(d: ItemDraft) {
    d.name.Some? && !IsBlank(d.name.value) && d.description.Some? && !IsBlank(d.description.value) &&
    d.available.Some?
  }

  /** validateItemDto: a missing or blank name, a missing or blank description, or a missing availability is Validation. */
  function ValidateItemDto(d: ItemDraft): (r: Outcome)
    ensures r.Pass? <==> Complete(d)
    ensures r.Fail? ==> r.error == Validation
  {
    if d.name.None? || IsBlank(d.name.value) then Fail(Validation)
    else if d.description.None? || IsBlank(d.description.value) then Fail(Validation)
    else if d.available.None? then Fail(Validation)
    else Pass
  }

  /**
   * addItem: the owner is looked up before validation (NotFound); then the draft is validated
   * (Validation); a draft naming a request is appended to that request, which must exist
   * (NotFound). The result is the stored item and the new requests table.
   */
  function AddItemOutcome(users: seq<User>, items: seq<Item>, requests: seq<ItemRequest>,
                          d: ItemDraft, userId: int): (r: Result<(Item, seq<ItemRequest>)>)
    ensures !Known(users, userId) ==> r == Err(NotFound)
    ensures Known(users, userId) && !Complete(d) ==> r == Err(Validation)
    ensures (Known(users, userId) && Complete(d) && d.requestId.Some? &&
             forall q :: q in requests ==> q.id != d.requestId.value) ==> r == Err(NotFound)
    ensures r.Ok? ==> Known(users, userId) && Complete(d)
    ensures r.Ok? ==> r.value.0 == Item(NextKey(items, ItemId), d.name.value, d.description.value,
                                        d.available.value, userId, d.requestId)
    ensures r.Ok? && d.requestId.None? ==> r.value.1 == requests
    ensures r.Ok? && d.requestId.Some? ==> RequestService.AddItemToRequest(requests, d) == Ok(r.value.1)
    ensures (Known(users, userId) && Complete(d) && d.requestId.Some? &&
             exists q :: q in requests && q.id == d.requestId.value) ==> r.Ok?
  {
    if Find(users, UserId, userId).None? then Err(NotFound)
    else
      match ValidateItemDto(d)
      case Fail(e) => Err(e)
      case Pass =>
        var item := Item(NextKey(items, ItemId), d.name.value, d.description.value, d.available.value, userId, d.requestId);
        if d.requestId.None? then Ok((item, requests))
        else
          match RequestService.AddItemToRequest(requests, d)
          case Err(e) => Err(e)
          case Ok(rs) => Ok((item, rs))
  }

  /** Store the item, and the request it answers, as `AddItemOutcome` decides. */
  method AddItem(db: Store, d: ItemDraft, userId: int) returns (r: Result<Item>)
    requires db.Valid()
    modifies db`items, db`requests
    ensures var o := AddItemOutcome(old(db.users), old(db.items), old(db.requests), d, userId);
            (o.Err? ==> r == Err(o.error) && db.items == old(db.items) && db.requests == old(db.requests)) &&
            (o.Ok? ==> r == Ok(o.value.0) && db.items == old(db.items) + [o.value.0] && db.requests == o.value.1)
    ensures db.Valid()
  {
    var o := AddItemOutcome(db.users, db.items, db.requests, d, userId);
    if o.Err? {
      r := Err(o.error);
    } else {
      AppendKeepsUnique(db.items, ItemId, o.value.0);
      if d.requestId.Some? {
        var q := Find(db.requests, RequestId, d.requestId.value).value;
        PutKeepsKeys(db.requests, RequestId, RequestService.AttachItem(q, d));
      }
      db.items := db.items + [o.value.0];
      db.requests := o.value.1;
      r := Ok(o.value.0);
    }
  }

  // ---- patching ----

  /** The item with every field the draft supplies replaced; a missing field keeps its value. */
  function Patch(it: Item, d: ItemDraft): (p: Item)
    ensures p.id == it.id && p.owner == it.owner && p.requestId == it.requestId
    ensures p.name == if d.name.Some? then d.name.value else it.name
    ensures p.description == if d.description.Some? then d.description.value else it.description
    ensures p.available == if d.available.Some? then d.available.value else it.available
  {
    it.(name := if d.name.Some? then d.name.value else it.name,
        description := if d.description.Some? then d.description.value else it.description,
        available := if d.available.Some? then d.available.value else it.available)
  }

  /** An empty patch changes nothing, and a patch applied twice is the patch applied once. */
  lemma PatchLaws(it: Item, d: ItemDraft)
    ensures Patch(it, ItemDraft(None, None, None, d.requestId)) == it
    ensures Patch(Patch(it, d), d) == Patch(it, d)
  {
  }

  /**
   * updateItem: NotFound for an unknown user; a missing item makes `Optional.get()` throw
   * (Internal); a caller who is not the owner gets NotFound; otherwise the patched item.
   * Nothing is validated, so a blank name may be stored.
   */
  function UpdateItemOutcome(users: seq<User>, items: seq<Item>, itemId: int, userId: int, d: ItemDraft)
    : (r: Result<Item>)
    ensures !Known(users, userId) ==> r == Err(NotFound)
    ensures Known(users, userId) && (forall it :: it in items ==> it.id != itemId) ==> r == Err(Internal)
    ensures r.Ok? ==> exists it :: it in items && it.id == itemId && it.owner == userId && r.value == Patch(it, d)
    ensures r.Ok? ==> r.value.id == itemId && r.value.owner == userId
    ensures (UniqueKeys(items, ItemId) && Known(users, userId) &&
             exists it :: it in items && it.id == itemId && it.owner == userId) ==> r.Ok?
    ensures (UniqueKeys(items, ItemId) && Known(users, userId) &&
             exists it :: it in items && it.id == itemId && it.owner != userId) ==> r == Err(NotFound)
    ensures r.Err? ==> r.error == NotFound || r.error == Internal
  {
    if Find(users, UserId, userId).None? then Err(NotFound)
    else
      match Find(items, ItemId, itemId)
      case None => Err(Internal)
      case Some(cur) => if cur.owner != userId then Err(NotFound) else Ok(Patch(cur, d))
  }

  /** Save the patched item. */
  method UpdateItem(db: Store, itemId: int, userId: int, d: ItemDraft) returns (r: Result<Item>)
    requires db.Valid()
    modifies db`items
    ensures r == UpdateItemOutcome(old(db.users), old(db.items), itemId, userId, d)
    ensures db.items == if r.Ok? then Put(old(db.items), ItemId, r.value) else old(db.items)
    ensures db.Valid()
  {
    r := UpdateItemOutcome(db.users, db.items, itemId, userId, d);
    if r.Ok? {
      PutKeepsKeys(db.items, ItemId, r.value);
      db.items := Put(db.items, ItemId, r.value);
    }
  }

  // ---- removing ----

  /**
   * removeItemById: NotFound for an unknown user or item; a caller who is not the owner gets
   * Validation; otherwise the table without that item.
   */
  function RemoveItemById(users: seq<User>, items: seq<Item>, itemId: int, userId: int): (r: Result<seq<Item>>)
    ensures !Known(users, userId) ==> r == Err(NotFound)
    ensures Known(users, userId) && (forall it :: it in items ==> it.id != itemId) ==> r == Err(NotFound)
    ensures r == Err(Validation) ==> exists it :: it in items && it.id == itemId && it.owner != userId
    ensures r.Ok? ==> exists it :: it in items && it.id == itemId && it.owner == userId
    ensures r.Ok? && UniqueKeys(items, ItemId) ==> forall it :: it in r.value <==> it in items && it.id != itemId
    ensures (UniqueKeys(items, ItemId) && Known(users, userId))
            ==> forall it :: it in items && it.id == itemId ==>
                  (it.owner != userId ==> r == Err(Validation)) && (it.owner == userId ==> r.Ok?)
  {
    if Find(users, UserId, userId).None? then Err(NotFound)
    else
      match Find(items, ItemId, itemId)
      case None => Err(NotFound)
      case Some(it) =>
        if it.owner != userId then Err(Validation)
        else
          var rest := Select(items, (x: Item) => !(x.id == itemId && x.owner == userId));
          assert multiset(rest)[it] == 0;
          Ok(rest)
  }

  /** Remove the item as `RemoveItemById` decides. */
  method RemoveItem(db: Store, itemId: int, userId: int) returns (r: Outcome)
    requires db.Valid()
    modifies db`items
    ensures var t := RemoveItemById(old(db.users), old(db.items), itemId, userId);
            (t.Err? ==> r == Fail(t.error) && db.items == old(db.items)) && (t.Ok? ==> r == Pass && db.items == t.value)
    ensures db.Valid()
  {
    var t := RemoveItemById(db.users, db.items, itemId, userId);
    if t.Ok? {
      SelectKeepsUnique(db.items, ItemId, (x: Item) => !(x.id == itemId && x.owner == userId));
      db.items := t.value;
      r := Pass;
    } else {
      r := Fail(t.error);
    }
  }

  /** removeAllItemsByOwnerId: NotFound for an unknown user, else the table without the user's items. */
  function RemoveAllItemsByOwnerId(users: seq<User>, items: seq<Item>, userId: int): (r: Result<seq<Item>>)
    ensures r.Err? <==> !Known(users, userId)
    ensures r.Err? ==> r.error == NotFound
    ensures r.Ok? ==> forall it :: multiset(r.value)[it] == if it.owner != userId then multiset(items)[it] else 0
    ensures r.Ok? ==> forall it :: it in r.value <==> it in items && it.owner != userId
  {
    if Find(users, UserId, userId).None? then Err(NotFound)
    else Ok(Select(items, (it: Item) => it.owner != userId))
  }

  /** Remove the owner's items as `RemoveAllItemsByOwnerId` decides. */
  method RemoveAllItems(db: Store, userId: int) returns (r: Outcome)
    requires db.Valid()
    modifies db`items
    ensures var t := RemoveAllItemsByOwnerId(old(db.users), old(db.items), userId);
            (t.Err? ==> r == Fail(t.error) && db.items == old(db.items)) && (t.Ok? ==> r == Pass && db.items == t.value)
    ensures db.Valid()
  {
    var t := RemoveAllItemsByOwnerId(db.users, db.items, userId);
    if t.Ok? {
      SelectKeepsUnique(db.items, ItemId, (it: Item) => it.owner != userId);
      db.items := t.value;
      r := Pass;
    } else {
      r := Fail(t.error);
    }
  }

  // ---- comments ----

  /** A booking of the item by the user that began before now. */
  predicate BookedBefore(bk: Booking, userId: int, itemId: int, now: int) {
    bk.bookerId == userId && bk.itemId == itemId && bk.start < now
  }

  /** The bookings of the user hold a qualifying booking exactly when the whole table does. */
  lemma BookerListHasSameHits(bookings: seq<Booking>, userId: int, itemId: int, now: int)
    ensures var list := GetAllByBookerId(bookings, userId);
            (exists bk :: bk in bookings && BookedBefore(bk, userId, itemId, now)) <==>
            (exists k :: 0 <= k < |list| && BookedBefore(list[k], userId, itemId, now))
  {
    var list := GetAllByBookerId(bookings, userId);
    if bk :| bk in bookings && BookedBefore(bk, userId, itemId, now) {
      assert bk in list;
      var k :| 0 <= k < |list| && list[k] == bk;
    }
  }

  /** The loop of isItemBooker: does some booking of the list qualify? */
  method ScanForBooker(list: seq<Booking>, userId: int, itemId: int, now: int) returns (b: bool)
    requires forall k :: 0 <= k < |list| ==> list[k].bookerId == userId
    ensures b <==> exists k :: 0 <= k < |list| && BookedBefore(list[k], userId, itemId, now)
  {
    for i := 0 to |list|
      invariant forall k :: 0 <= k < i ==> !BookedBefore(list[k], userId, itemId, now)
    {
      if list[i].itemId == itemId && list[i].start < now {
        assert BookedBefore(list[i], userId, itemId, now);
        return true;
      }
    }
    b := false;
  }

  /** isItemBooker: the user has a booking of the item that began before now. */
  method IsItemBooker(bookings: seq<Booking>, userId: int, itemId: int, now: int) returns (b: bool)
    ensures b <==> exists bk :: bk in bookings && BookedBefore(bk, userId, itemId, now)
  {
    var list := GetAllByBookerId(bookings, userId);
    BookerListHasSameHits(bookings, userId, itemId, now);
    if list == [] {
      return false;
    }
    assert forall k :: 0 <= k < |list| ==> list[k] in list;
    b := ScanForBooker(list, userId, itemId, now);
  }

  /** checkBookingEndTime: Validation while the booking has not ended (its end is after now). */
  function CheckBookingEndTime(b: Booking, now: int): (r: Outcome)
    ensures r.Fail? <==> b.end > now
    ensures r.Fail? ==> r.error == Validation
  {
    if b.end > now then Fail(Validation) else Pass
  }

  /** An APPROVED booking of the item. */
  predicate ApprovedOf(b: Booking, itemId: int) {
    b.itemId == itemId && b.status == APPROVED
  }

  /** `findFirst` of the APPROVED bookings of the item, in list order. */
  function FirstApproved(list: seq<Booking>, itemId: int): (r: Option<Booking>)
    ensures r.None? <==> forall k :: 0 <= k < |list| ==> !ApprovedOf(list[k], itemId)
    ensures r.Some? ==> exists k :: 0 <= k < |list| && list[k] == r.value && ApprovedOf(list[k], itemId) &&
                                    forall j :: 0 <= j < k ==> !ApprovedOf(list[j], itemId)
  {
    if list == [] then None
    else if ApprovedOf(list[0], itemId) then Some(list[0])
    else
      var rest := FirstApproved(list[1..], itemId);
      if rest.Some? then
        var k :| 0 <= k < |list[1..]| && list[1..][k] == rest.value && ApprovedOf(list[1..][k], itemId) &&
                 forall j :: 0 <= j < k ==> !ApprovedOf(list[1..][j], itemId);
        assert list[k + 1] == rest.value;
        assert forall j :: 0 < j < k + 1 ==> list[j] == list[1..][j - 1];
        rest
      else
        assert forall k :: 0 < k < |list| ==> list[k] == list[1..][k - 1];
        rest
  }

  /** In a list sorted by start, latest first, the first APPROVED booking of the item has the latest start among them. */
  lemma FirstApprovedIsLatest(list: seq<Booking>, itemId: int)
    requires SortedDesc(list, StartOf)
    requires FirstApproved(list, itemId).Some?
    ensures forall b :: b in list && ApprovedOf(b, itemId) ==> b.start <= FirstApproved(list, itemId).value.start
  {
    var f := FirstApproved(list, itemId).value;
    var k :| 0 <= k < |list| && list[k] == f && ApprovedOf(list[k], itemId) &&
             forall j :: 0 <= j < k ==> !ApprovedOf(list[j], itemId);
    forall b | b in list && ApprovedOf(b, itemId) ensures b.start <= f.start {
      var j :| 0 <= j < |list| && list[j] == b;
      if j > k {
        assert StartOf(list[k]) >= StartOf(list[j]);
      }
    }
  }

  /** An APPROVED booking of the item by the user, with the latest start among those. */
  ghost predicate LatestApproved(bookings: seq<Booking>, b: Booking, itemId: int, userId: int) {
    b in bookings && b.bookerId == userId && ApprovedOf(b, itemId) &&
    forall b' :: b' in bookings && b'.bookerId == userId && ApprovedOf(b', itemId) ==> b'.start <= b.start
  }

  /**
   * createComment: NotFound for an unknown user; a missing item makes `Optional.get()` throw
   * (Internal); a missing comment or a blank text gives NotFound; without an APPROVED booking
   * of the item by the user, Validation; the first such booking in the booker's list (latest
   * start first) must have ended by now, else Validation. The comment is created now.
   */
  function CreateCommentOutcome(users: seq<User>, items: seq<Item>, bookings: seq<Booking>, comments: seq<Comment>,
                                text: Option<string>, itemId: int, userId: int, now: int): (r: Result<Comment>)
    ensures !Known(users, userId) ==> r == Err(NotFound)
    ensures Known(users, userId) && (forall it :: it in items ==> it.id != itemId) ==> r == Err(Internal)
    ensures r.Ok? ==> text.Some? && !IsBlank(text.value) &&
                      r.value == Comment(NextKey(comments, CommentId), text.value, itemId, userId, now)
    ensures r.Ok? ==> exists b :: LatestApproved(bookings, b, itemId, userId) && b.end <= now
    ensures (Known(users, userId) && (exists it :: it in items && it.id == itemId) && text.Some? && !IsBlank(text.value) &&
             forall b :: b in bookings && b.bookerId == userId ==> !ApprovedOf(b, itemId)) ==> r == Err(Validation)
    ensures (Known(users, userId) && (exists it :: it in items && it.id == itemId) &&
             (text.None? || IsBlank(text.value))) ==> r == Err(NotFound)
    ensures (Known(users, userId) && (exists it :: it in items && it.id == itemId) && text.Some? && !IsBlank(text.value) &&
             (exists b :: b in bookings && b.bookerId == userId && ApprovedOf(b, itemId)) &&
             forall b :: LatestApproved(bookings, b, itemId, userId) ==> b.end > now) ==> r == Err(Validation)
    ensures (Known(users, userId) && (exists it :: it in items && it.id == itemId) && text.Some? && !IsBlank(text.value) &&
             (exists b :: b in bookings && b.bookerId == userId && ApprovedOf(b, itemId)) &&
             forall b :: LatestApproved(bookings, b, itemId, userId) ==> b.end <= now)
            ==> r == Ok(Comment(NextKey(comments, CommentId), text.value, itemId, userId, now))
  {
    if Find(users, UserId, userId).None? then Err(NotFound)
    else if Find(items, ItemId, itemId).None? then Err(Internal)
    else if text.None? || IsBlank(text.value) then Err(NotFound)
    else
      var list := GetAllByBookerId(bookings, userId);
      match FirstApproved(list, itemId)
      case None =>
        Err(Validation)
      case Some(b) =>
        FirstApprovedIsLatest(list, itemId);
        match CheckBookingEndTime(b, now)
        case Fail(e) => Err(e)
        case Pass => Ok(Comment(NextKey(comments, CommentId), text.value, itemId, userId, now))
  }

  /**
   * Only the latest approved booking counts: an approved booking that has ended does not
   * allow a comment while a later approved booking of the same item is still running.
   */
  lemma LaterApprovedBookingBlocksComment()
    ensures var bookings := [Booking(1, 0, 10, 7, 1, APPROVED), Booking(2, 20, 40, 7, 1, APPROVED)];
            CreateCommentOutcome([User(1, None, None)], [Item(7, "drill", "cordless", true, 2, None)], bookings, [],
                                 Some("fine"), 7, 1, 30) == Err(Validation)
  {
    var bookings := [Booking(1, 0, 10, 7, 1, APPROVED), Booking(2, 20, 40, 7, 1, APPROVED)];
    var items := [Item(7, "drill", "cordless", true, 2, None)];
    assert Find(items, ItemId, 7).Some?;
    assert !IsBlank("fine") by { assert !IsWhitespace("fine"[0]); }
    var list := GetAllByBookerId(bookings, 1);
    assert bookings[1] in list;
    assert FirstApproved(list, 7).Some?;
    FirstApprovedIsLatest(list, 7);
    assert FirstApproved(list, 7).value.start >= 20;
  }

  /** Store the comment that `CreateCommentOutcome` decides on. The isItemBooker check runs and its answer is unused. */
  method CreateComment(db: Store, text: Option<string>, itemId: int, userId: int, now: int) returns (r: Result<Comment>)
    requires db.Valid()
    modifies db`comments
    ensures r == CreateCommentOutcome(old(db.users), old(db.items), old(db.bookings), old(db.comments),
                                      text, itemId, userId, now)
    ensures db.comments == if r.Ok? then old(db.comments) + [r.value] else old(db.comments)
    ensures db.Valid()
  {
    var _ := IsItemBooker(db.bookings, userId, itemId, now);
    r := CreateCommentOutcome(db.users, db.items, db.bookings, db.comments, text, itemId, userId, now);
    if r.Ok? {
      AppendKeepsUnique(db.comments, CommentId, r.value);
      db.comments := db.comments + [r.value];
    }
  }

  /** getCommentsByItemId: the comments of the item, newest first. */
  function GetCommentsByItemId(comments: seq<Comment>, itemId: int): (r: seq<Comment>)
    ensures SortedDesc(r, CreatedOf)
    ensures forall c :: multiset(r)[c] == if c.itemId == itemId then multiset(comments)[c] else 0
    ensures forall c :: c in r <==> c in comments && c.itemId == itemId
  {
    Listing(comments, (c: Comment) => c.itemId == itemId, CreatedOf)
  }
}
