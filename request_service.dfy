/**
 * The item-request service: users post requests for items they need, browse the requests
 * of others page by page, and items offered for a request are appended to it.
 */
module RequestService {
  import opened Common
  import opened Text
  import opened Seqs
  import opened Domain
  import opened Database

  /** validateItemRequestDto: a missing or blank description gives Validation. */
  function ValidateItemRequestDto(description: Option<string>): (r: Outcome)
    ensures r.Pass? <==> description.Some? && !IsBlank(description.value)
    ensures r.Fail? ==> r.error == Validation
  {
    if description.None? || IsBlank(description.value) then Fail(Validation) else Pass
  }

  /**
   * addItemRequest: the description is validated before the requester is looked up, so an
   * invalid request is refused with Validation even from an unknown user; an unknown
   * requester then gives NotFound. The stored request belongs to the caller and is created now.
   */
  function AddItemRequestOutcome(users: seq<User>, requests: seq<ItemRequest>, description: Option<string>,
                                 userId: int, now: int): (r: Result<ItemRequest>)
    ensures (description.None? || IsBlank(description.value)) ==> r == Err(Validation)
    ensures ValidateItemRequestDto(description).Pass? && !Known(users, userId) ==> r == Err(NotFound)
    ensures r.Ok? <==> ValidateItemRequestDto(description).Pass? && Known(users, userId)
    ensures r.Ok? ==> r.value == ItemRequest(NextKey(requests, RequestId), description.value, userId, now, [])
  {
    match ValidateItemRequestDto(description)
    case Fail(e) => Err(e)
    case Pass =>
      if Find(users, UserId, userId).None? then Err(NotFound)
      else Ok(ItemRequest(NextKey(requests, RequestId), description.value, userId, now, []))
  }

  /** Store the request that `AddItemRequestOutcome` decides on. */
  method AddItemRequest(db: Store, description: Option<string>, userId: int, now: int) returns (r: Result<ItemRequest>)
    requires db.Valid()
    modifies db`requests
    ensures r == AddItemRequestOutcome(old(db.users), old(db.requests), description, userId, now)
    ensures db.requests == if r.Ok? then old(db.requests) + [r.value] else old(db.requests)
    ensures db.Valid()
  {
    r := AddItemRequestOutcome(db.users, db.requests, description, userId, now);
    if r.Ok? {
      AppendKeepsUnique(db.requests, RequestId, r.value);
      db.requests := db.requests + [r.value];
    }
  }

  /** getAllItemRequestsByUserId: NotFound for an unknown user, else exactly the user's own requests. */
  function GetAllItemRequestsByUserId(users: seq<User>, requests: seq<ItemRequest>, userId: int)
    : (r: Result<seq<ItemRequest>>)
    ensures r.Err? <==> !Known(users, userId)
    ensures r.Err? ==> r.error == NotFound
    ensures r.Ok? ==> forall q :: multiset(r.value)[q] == if q.requesterId == userId then multiset(requests)[q] else 0
    ensures r.Ok? ==> forall q :: q in r.value <==> q in requests && q.requesterId == userId
  {
    if Find(users, UserId, userId).None? then Err(NotFound)
    else Ok(Select(requests, (q: ItemRequest) => q.requesterId == userId))
  }

  /** getItemRequestById: NotFound for an unknown user or an unknown request. */
  function GetItemRequestById(users: seq<User>, requests: seq<ItemRequest>, requestId: int, userId: int)
    : (r: Result<ItemRequest>)
    ensures r.Err? ==> r.error == NotFound
    ensures r.Ok? <==> Known(users, userId) && exists q :: q in requests && q.id == requestId
    ensures r.Ok? ==> r.value in requests && r.value.id == requestId
  {
    if Find(users, UserId, userId).None? then Err(NotFound)
    else
      match Find(requests, RequestId, requestId)
      case None => Err(NotFound)
      case Some(q) => Ok(q)
  }

  /** validatePagesRequest: a negative page number or a page size that is not positive gives Validation. */
  function ValidatePagesRequest(pageNum: int, pageSize: int): (r: Outcome)
    ensures r.Pass? <==> pageNum >= 0 && pageSize > 0
    ensures r.Fail? ==> r.error == Validation
  {
    if pageNum < 0 || pageSize <= 0 then Fail(Validation) else Pass
  }

  /** The filter of getAllRequests: requests posted by someone other than the caller. */
  function OthersRequests(rows: seq<ItemRequest>, userId: int): (r: seq<ItemRequest>)
    ensures forall q :: multiset(r)[q] == if q.requesterId != userId then multiset(rows)[q] else 0
    ensures forall q :: q in r <==> q in rows && q.requesterId != userId
  {
    Select(rows, (q: ItemRequest) => q.requesterId != userId)
  }

  /**
   * getAllRequests: NotFound for an unknown user. Without both page parameters, every
   * request of other users; with them, the parameters are validated, the page is cut from
   * all requests and only then the caller's own requests are dropped from it.
   */
  function GetAllRequests(users: seq<User>, requests: seq<ItemRequest>, userId: int,
                          pageNum: Option<int>, pageSize: Option<int>): (r: Result<seq<ItemRequest>>)
    ensures !Known(users, userId) ==> r == Err(NotFound)
    ensures r.Ok? ==> forall q :: q in r.value ==> q in requests && q.requesterId != userId
    ensures Known(users, userId) && (pageNum.None? || pageSize.None?) ==>
              r.Ok? && forall q :: q in r.value <==> q in requests && q.requesterId != userId
    ensures Known(users, userId) && (pageNum.None? || pageSize.None?) ==> r == Ok(OthersRequests(requests, userId))
    ensures r == Err(Validation) <==>
              Known(users, userId) && pageNum.Some? && pageSize.Some? &&
              ValidatePagesRequest(pageNum.value, pageSize.value).Fail?
    ensures r.Ok? && pageNum.Some? && pageSize.Some? ==>
              r.value == OthersRequests(Page(requests, pageNum.value, pageSize.value), userId) &&
              |r.value| <= pageSize.value
  {
    if Find(users, UserId, userId).None? then Err(NotFound)
    else if pageNum.None? || pageSize.None? then Ok(OthersRequests(requests, userId))
    else
      match ValidatePagesRequest(pageNum.value, pageSize.value)
      case Fail(e) => Err(e)
      case Pass =>
        var page := Page(requests, pageNum.value, pageSize.value);
        assert forall q :: q in page ==> q in requests;
        Ok(OthersRequests(page, userId))
  }

  /** A page holding only the caller's own request comes back empty although other users' requests exist. */
  lemma PageIsCutBeforeFiltering()
    ensures var users := [User(1, None, None)];
            var requests := [ItemRequest(1, "drill", 1, 0, []), ItemRequest(2, "ladder", 2, 0, [])];
            GetAllRequests(users, requests, 1, Some(0), Some(1)) == Ok([]) &&
            GetAllRequests(users, requests, 1, None, None) == Ok([requests[1]])
  {
    var users := [User(1, None, None)];
    var requests := [ItemRequest(1, "drill", 1, 0, []), ItemRequest(2, "ladder", 2, 0, [])];
    assert Find(users, UserId, 1).Some?;
    assert Page(requests, 0, 1) == [requests[0]];
    assert OthersRequests([requests[0]], 1) == [];
    assert OthersRequests(requests, 1) == [requests[1]] by {
      assert requests[1..] == [requests[1]];
      assert OthersRequests([requests[1]], 1) == [requests[1]];
    }
  }

  /** The request with an item appended to its list. */
  function AttachItem(q: ItemRequest, d: ItemDraft): (q': ItemRequest)
    ensures |q'.items| == |q.items| + 1 && q'.items[..|q.items|] == q.items && q'.items[|q.items|] == d
    ensures q'.(items := q.items) == q
  {
    q.(items := q.items + [d])
  }

  /**
   * addItemToRequest: NotFound for an unknown request; otherwise that request's item list
   * grows by the submitted item at its end and nothing else changes. A missing request id
   * reaches the lookup, which throws (Internal).
   */
  function AddItemToRequest(requests: seq<ItemRequest>, d: ItemDraft): (r: Result<seq<ItemRequest>>)
    ensures d.requestId.None? ==> r == Err(Internal)
    ensures d.requestId.Some? && (forall q :: q in requests ==> q.id != d.requestId.value) ==> r == Err(NotFound)
    ensures r.Err? ==> r.error == NotFound || r.error == Internal
    ensures r.Ok? ==> d.requestId.Some? && |r.value| == |requests|
    ensures r.Ok? && UniqueKeys(requests, RequestId) ==>
              forall i :: 0 <= i < |requests| ==>
                r.value[i] == if requests[i].id == d.requestId.value then AttachItem(requests[i], d) else requests[i]
    ensures r.Ok? ==> Keys(r.value, RequestId) == Keys(requests, RequestId)
  {
    if d.requestId.None? then Err(Internal)
    else
      match Find(requests, RequestId, d.requestId.value)
      case None => Err(NotFound)
      case Some(q) =>
        PutKeepsKeys(requests, RequestId, AttachItem(q, d));
        Ok(Put(requests, RequestId, AttachItem(q, d)))
  }

  /** Append the item as `AddItemToRequest` decides. */
  method SaveItemToRequest(db: Store, d: ItemDraft) returns (r: Outcome)
    requires db.Valid()
    modifies db`requests
    ensures var t := AddItemToRequest(old(db.requests), d);
            (r.Pass? <==> t.Ok?) && (t.Err? ==> r == Fail(t.error)) &&
            db.requests == if t.Ok? then t.value else old(db.requests)
    ensures db.Valid()
  {
    var t := AddItemToRequest(db.requests, d);
    if t.Ok? {
      PutKeepsKeys(db.requests, RequestId, AttachItem(Find(db.requests, RequestId, d.requestId.value).value, d));
      db.requests := t.value;
      r := Pass;
    } else {
      r := Fail(t.error);
    }
  }
}
