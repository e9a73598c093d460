# ShareIt domain model in Dafny

ShareIt is an item-sharing platform. Users post items, other users book them for a time
interval, and owners approve or reject the bookings. Users who have finished a booking may
comment on the item. Users without a suitable item post item requests, and items are offered
against those requests.

This project models the domain layer of that backend:

- the booking service of the `server` module;
- the earlier booking service of the `shareIt-server` module, as a second `create` and `update` compared with the later ones;
- the JPQL queries of the booking repository;
- the item service, the item-request service and the user service of the first version;
- the first version's two in-memory stores.

It proves what those operations guarantee: the order of the check chains, what each listing
returns and in which order, the invariants the stored tables keep, and where the two booking
services differ.

Layout:

- `common.dfy`: the error kinds, `Option`, `Result` and `Outcome` (pass or fail), and the text helpers (blankness, case mapping, substring search).
- `seqs.dfy`: filtering, sorting by a key (descending), listings, paging, and tables of rows keyed by id.
- `domain.dfy`: the entities (user, item, booking, comment, item request) and the submitted drafts.
- `store.dfy`: the relational store behind the JPA repositories. It is a class with one `seq` table per entity, and a save replaces the table.
- `booking_repository.dfy`: the booking queries. Each listing is specified as sorted by its key, starting with the largest, and a permutation of the rows its where-clause selects.
- `booking_service.dfy` and `early_booking_service.dfy`: the two booking services.
- `item_service.dfy`, `request_service.dfy` and `user_service.dfy`: the other services. Each operation is a pure function of the tables it reads, which returns a `Result`. A method beside it saves that result into the `Store`.
- `in_memory_user_storage.dfy` and `in_memory_item_storage.dfy`: the in-memory stores, as classes with a `map` field that their methods update in place.

Time is an integer, and the current time is a parameter `now`. An exception is an `Err` of the
matching kind:

| exception | error kind |
|---|---|
| NotFoundException | `NotFound` |
| ValidationException | `Validation` |
| InvalidRequestException | `InvalidRequest` |
| ConflictException | `Conflict` |
| a runtime failure such as `Optional.get()` on an empty value or a null dereference | `Internal` |

## Model

| member | source | states |
|---|---|---|
| BookingService.OverlapsIffCommonInstant | server/src/main/java/ru/practicum/shareit/server/booking/service/BookingServiceImpl.java:330-332 | for proper intervals, the overlap test holds exactly when the two closed intervals share an instant, so touching endpoints overlap |
| BookingService.AnyOverlap | server/src/main/java/ru/practicum/shareit/server/booking/service/BookingServiceImpl.java:330-332 | the stream's anyMatch is true exactly when some booking of the list overlaps |
| BookingService.TimeIntersectionsCheck | server/src/main/java/ru/practicum/shareit/server/booking/service/BookingServiceImpl.java:328-336 | fails, with InvalidRequest, exactly when some booking of the item overlaps the interval, whatever its status |
| BookingService.IsOwnerOf | server/src/main/java/ru/practicum/shareit/server/booking/service/BookingServiceImpl.java:254-256 | true only when a stored item with the id belongs to the user, and always then when item ids are unique |
| BookingService.IsItemOwner | server/src/main/java/ru/practicum/shareit/server/booking/service/BookingServiceImpl.java:253-259 | passes only for the item's owner; otherwise NotFound |
| BookingService.CreateOutcome | server/src/main/java/ru/practicum/shareit/server/booking/service/BookingServiceImpl.java:51-87 | the checks run in the source's order and the first failure decides: a reversed interval is InvalidRequest before any lookup (end == start passes); then an unknown booker NotFound, a null item id Validation, an unknown item NotFound, an unavailable item Validation, the booker's own item NotFound, an overlap InvalidRequest (under unique item ids); success happens exactly when the request is bookable, with a WAITING booking under a fresh id |
| BookingService.AppendKeepsBookings | server/src/main/java/ru/practicum/shareit/server/booking/service/BookingServiceImpl.java:75-85 | appending a fresh, non-overlapping booking by someone other than the owner keeps ids unique, bookings of one item pairwise disjoint and owners off their own items |
| BookingService.CreateKeepsBookingsValid | server/src/main/java/ru/practicum/shareit/server/booking/service/BookingServiceImpl.java:53-85 | a successful create keeps the whole bookings invariant: unique ids, proper intervals, no double booking, no self-booking |
| BookingService.Create | server/src/main/java/ru/practicum/shareit/server/booking/service/BookingServiceImpl.java:51-87 | the table grows by exactly the decided booking, or stays the same on an error; the store and the bookings invariant are kept |
| BookingService.SetBookingStatus | server/src/main/java/ru/practicum/shareit/server/booking/service/BookingServiceImpl.java:317-326 | an APPROVED booking is refused with Validation; any other status becomes APPROVED or REJECTED as decided, and nothing else changes |
| BookingService.UpdateOutcome | server/src/main/java/ru/practicum/shareit/server/booking/service/BookingServiceImpl.java:98-111 | an unknown user is InvalidRequest and an unknown booking NotFound; under unique ids a caller who does not own the booked item gets NotFound, and the owner of an APPROVED booking gets Validation; success means the caller owns the item and the stored, not yet approved booking gets the decided status; success is guaranteed when the booking is decidable |
| BookingService.SameButStatus | server/src/main/java/ru/practicum/shareit/server/booking/service/BookingServiceImpl.java:107-108 | a table that differs from a valid one only in statuses is valid |
| BookingService.UpdateKeepsBookingsValid | server/src/main/java/ru/practicum/shareit/server/booking/service/BookingServiceImpl.java:98-111 | saving a decision keeps the bookings invariant |
| BookingService.ApprovalIsFinal | server/src/main/java/ru/practicum/shareit/server/booking/service/BookingServiceImpl.java:317-320 | after an approval is saved, every further decision on that booking is refused with Validation |
| BookingService.Update | server/src/main/java/ru/practicum/shareit/server/booking/service/BookingServiceImpl.java:98-111 | only the decided booking is replaced, and the store and the bookings invariant are kept |
| BookingService.GetBookingById | server/src/main/java/ru/practicum/shareit/server/booking/service/BookingServiceImpl.java:122-136 | the booking is returned only to a known user who is its booker or its item's owner, and always then under unique ids; every failure is NotFound |
| BookingService.Recognize | server/src/main/java/ru/practicum/shareit/server/booking/service/BookingServiceImpl.java:299-307 | a recognised name is exactly the name of the recognised state |
| BookingService.ParseBookerState | server/src/main/java/ru/practicum/shareit/server/booking/service/BookingServiceImpl.java:175-183 | the booker side accepts only the exact names of the six states other than CANCELED; otherwise NotFound |
| BookingService.ParseOwnerState | server/src/main/java/ru/practicum/shareit/server/booking/service/BookingServiceImpl.java:299-307 | the owner side accepts exactly the names whose upper-cased form is one of the seven state names, in any case, and returns that state; otherwise NotFound |
| BookingService.ParseStateName | server/src/main/java/ru/practicum/shareit/server/booking/service/BookingServiceImpl.java:175-183 | every state name parses back to its state (the booker side refuses CANCELED) |
| BookingService.StateCaseSensitivity | server/src/main/java/ru/practicum/shareit/server/booking/service/BookingServiceImpl.java:175-183 | "waiting" is accepted by the owner side and refused by the booker side |
| BookingService.BookerListing | server/src/main/java/ru/practicum/shareit/server/booking/service/BookingServiceImpl.java:175-183 | the booker's bookings in the state, each as often as stored, sorted by the state's query key |
| BookingService.BookerTimeListing | server/src/main/java/ru/practicum/shareit/server/booking/service/BookingServiceImpl.java:176-179 | as BookerListing, for ALL, CURRENT, PAST and FUTURE |
| BookingService.BookerStatusListing | server/src/main/java/ru/practicum/shareit/server/booking/service/BookingServiceImpl.java:180-181 | as BookerListing, for WAITING and REJECTED |
| BookingService.GetBookings | server/src/main/java/ru/practicum/shareit/server/booking/service/BookingServiceImpl.java:172-187 | succeeds exactly for a known booker and a booker-side state name, with the booker's bookings in that state as a permutation, in the order of that state's query (sorted by its key, largest first); otherwise NotFound |
| BookingService.GetBookingsByUserIdWithState | server/src/main/java/ru/practicum/shareit/server/booking/service/BookingServiceImpl.java:150-157 | a missing state means ALL, which returns exactly the booker's bookings; a given state is passed on unchanged |
| BookingService.OwnerListing | server/src/main/java/ru/practicum/shareit/server/booking/service/BookingServiceImpl.java:299-308 | the bookings of the given items in the state (CANCELED meaning REJECTED), as a permutation, sorted by the state's query key |
| BookingService.OwnerTimeListing | server/src/main/java/ru/practicum/shareit/server/booking/service/BookingServiceImpl.java:300-303 | as OwnerListing, for ALL, CURRENT, PAST and FUTURE |
| BookingService.OwnerStatusListing | server/src/main/java/ru/practicum/shareit/server/booking/service/BookingServiceImpl.java:304-306 | as OwnerListing, for WAITING, REJECTED and CANCELED |
| BookingService.FindBookingsOfItemsWithState | server/src/main/java/ru/practicum/shareit/server/booking/service/BookingServiceImpl.java:295-309 | fails, with NotFound, exactly for a given name that is unknown in any case; otherwise the result is the listing of the state the name spells, a missing state meaning ALL |
| BookingService.OwnedItemIds | server/src/main/java/ru/practicum/shareit/server/booking/service/BookingServiceImpl.java:234-236 | exactly the ids of the owner's items |
| BookingService.GetBookingsOfOwnerItems | server/src/main/java/ru/practicum/shareit/server/booking/service/BookingServiceImpl.java:232-244 | an unknown owner, an owner without items and a bad state name give NotFound, and nothing else fails; success is the state listing of exactly the owner's item ids, so every booking returned is of an item the owner owns |
| BookingService.GetLastBooking | server/src/main/java/ru/practicum/shareit/server/booking/service/BookingServiceImpl.java:197-203 | a started, not rejected booking of the item with the latest start, or NotFound exactly when there is none |
| BookingService.GetNextBooking | server/src/main/java/ru/practicum/shareit/server/booking/service/BookingServiceImpl.java:212-218 | a future, not rejected booking of the item with the earliest start, or NotFound exactly when there is none |
| BookingRepository.GetAllByBookerId | shareIt-server/src/main/java/ru/practicum/shareit/server/booking/storage/BookingRepository.java:11-14 | every booking of the booker, and only those, as a permutation, latest start first |
| BookingRepository.GetAllCurrentByUserId | shareIt-server/src/main/java/ru/practicum/shareit/server/booking/storage/BookingRepository.java:16-20 | the booker's bookings with start < now < end, latest end first |
| BookingRepository.GetAllPastByUserId | shareIt-server/src/main/java/ru/practicum/shareit/server/booking/storage/BookingRepository.java:22-26 | the booker's bookings with end < now, latest start first |
| BookingRepository.GetAllFutureByUserId | shareIt-server/src/main/java/ru/practicum/shareit/server/booking/storage/BookingRepository.java:28-32 | the booker's bookings with start > now, latest start first |
| BookingRepository.GetAllWaitingByUserId | shareIt-server/src/main/java/ru/practicum/shareit/server/booking/storage/BookingRepository.java:34-38 | the booker's WAITING bookings, latest end first |
| BookingRepository.GetAllRejectedByUserId | shareIt-server/src/main/java/ru/practicum/shareit/server/booking/storage/BookingRepository.java:40-44 | the booker's REJECTED bookings, latest end first |
| BookingRepository.GetAllBookingsForItems | shareIt-server/src/main/java/ru/practicum/shareit/server/booking/storage/BookingRepository.java:46-49 | every booking of the items, latest end first |
| BookingRepository.GetCurrentBookingsForItems | shareIt-server/src/main/java/ru/practicum/shareit/server/booking/storage/BookingRepository.java:51-54 | the items' bookings with start < now < end, latest start first |
| BookingRepository.GetPastBookingsForItems | shareIt-server/src/main/java/ru/practicum/shareit/server/booking/storage/BookingRepository.java:56-59 | the items' bookings with start < now and end < now, latest start first |
| BookingRepository.GetFutureBookingsForItems | shareIt-server/src/main/java/ru/practicum/shareit/server/booking/storage/BookingRepository.java:61-64 | the items' bookings with start > now and end > now, latest start first |
| BookingRepository.GetWaitingBookingsForItems | shareIt-server/src/main/java/ru/practicum/shareit/server/booking/storage/BookingRepository.java:66-69 | the items' WAITING bookings, latest start first |
| BookingRepository.GetRejectedBookingsForItems | shareIt-server/src/main/java/ru/practicum/shareit/server/booking/storage/BookingRepository.java:71-74 | the items' REJECTED bookings, latest start first |
| BookingRepository.GetCanceledBookingsForItems | shareIt-server/src/main/java/ru/practicum/shareit/server/booking/storage/BookingRepository.java:76-79 | the query named "canceled" selects the items' REJECTED bookings, latest start first |
| BookingRepository.CanceledListingIsRejectedListing | shareIt-server/src/main/java/ru/practicum/shareit/server/booking/storage/BookingRepository.java:71-79 | the canceled listing equals the rejected one and never holds a CANCELED booking |
| BookingRepository.GetNextBookingForItem | shareIt-server/src/main/java/ru/practicum/shareit/server/booking/storage/BookingRepository.java:81-86 | a booking of the item with start > now that is not REJECTED and has the smallest start, or none exactly when there is no such booking |
| BookingRepository.GetLastBookingForItem | shareIt-server/src/main/java/ru/practicum/shareit/server/booking/storage/BookingRepository.java:88-93 | a booking of the item with start < now that is not REJECTED and has the largest start, or none exactly when there is no such booking |
| EarlyBookingService.EarlyCreateOutcome | shareIt-server/src/main/java/ru/practicum/shareit/server/booking/service/BookingServiceImpl.java:57-74 | an unknown booker is NotFound first; then a null item id Internal, an unknown item NotFound, an unavailable item Validation, the booker's own item NotFound, an overlap InvalidRequest (under unique item ids); there is no interval check; success happens exactly when the request is bookable without it, under a fresh id and as WAITING |
| EarlyBookingService.CreateAcceptsLessThanEarlyCreate | shareIt-server/src/main/java/ru/practicum/shareit/server/booking/service/BookingServiceImpl.java:57-74 | whatever the later create accepts, the earlier one accepts with the same booking |
| EarlyBookingService.EarlyCreateAcceptsReversedInterval | shareIt-server/src/main/java/ru/practicum/shareit/server/booking/service/BookingServiceImpl.java:57-74 | a reversed interval that the earlier create accepts is refused by the later one, and storing it breaks proper intervals |
| EarlyBookingService.ReversedIntervalExample | shareIt-server/src/main/java/ru/practicum/shareit/server/booking/service/BookingServiceImpl.java:57-74 | a concrete request with end before start is stored by the earlier create |
| EarlyBookingService.EarlyCreateKeepsNoDoubleBooking | shareIt-server/src/main/java/ru/practicum/shareit/server/booking/service/BookingServiceImpl.java:57-74 | the earlier create still keeps ids unique, bookings of one item disjoint and owners off their own items |
| EarlyBookingService.Create | shareIt-server/src/main/java/ru/practicum/shareit/server/booking/service/BookingServiceImpl.java:57-74 | the table grows by exactly the decided booking, or stays the same on an error |
| EarlyBookingService.EarlyIsItemOwner | shareIt-server/src/main/java/ru/practicum/shareit/server/booking/service/BookingServiceImpl.java:228-231 | passes exactly when the item exists and its owner is a stored user (under unique ids); otherwise NotFound; it does not look at the caller |
| EarlyBookingService.EarlyUpdateOutcome | shareIt-server/src/main/java/ru/practicum/shareit/server/booking/service/BookingServiceImpl.java:84-96 | an unknown user is InvalidRequest and an unknown booking NotFound; under unique ids a caller who is neither the booker nor the item's owner gets NotFound, and a participant gets Validation for an APPROVED booking of an item with a stored owner; success means the caller is a participant and the not yet approved booking gets the decided status |
| EarlyBookingService.UpdateAcceptsLessThanEarlyUpdate | shareIt-server/src/main/java/ru/practicum/shareit/server/booking/service/BookingServiceImpl.java:84-96 | whatever the later update accepts, the earlier one accepts with the same result |
| EarlyBookingService.EarlyUpdateLetsBookerDecide | shareIt-server/src/main/java/ru/practicum/shareit/server/booking/service/BookingServiceImpl.java:89-91 | the booker of someone else's item decides on the booking in the earlier update, and gets NotFound from the later one |
| EarlyBookingService.Update | shareIt-server/src/main/java/ru/practicum/shareit/server/booking/service/BookingServiceImpl.java:84-96 | only the decided booking is replaced |
| ItemService.GetAllItemsByUserId | src/main/java/ru/practicum/shareit/item/service/ItemServiceImpl.java:81-88 | NotFound exactly for an unknown user; otherwise exactly the user's items |
| ItemService.GetItemById | src/main/java/ru/practicum/shareit/item/service/ItemServiceImpl.java:97-103 | the stored item with the id, or NotFound exactly when there is none |
| ItemService.SearchItemsByText | src/main/java/ru/practicum/shareit/item/service/ItemServiceImpl.java:114-132 | no text or empty text finds nothing; otherwise exactly the available items whose lower-cased name or description contains the lower-cased text, each as often as stored |
| ItemService.LowerOfUpper | src/main/java/ru/practicum/shareit/item/service/ItemServiceImpl.java:121-122 | lower-casing an upper-cased text gives the lower-cased text |
| ItemService.SearchIgnoresCase | src/main/java/ru/practicum/shareit/item/service/ItemServiceImpl.java:121-122 | searching for the upper-cased text gives the same result |
| ItemService.BlankTextIsSearched | src/main/java/ru/practicum/shareit/item/service/ItemServiceImpl.java:115-117 | a text of one space is not short-cut and finds an item whose name has a space |
| ItemService.ValidateItemDto | src/main/java/ru/practicum/shareit/item/service/ItemServiceImpl.java:286-297 | passes exactly when name and description are present and not blank and availability is present; otherwise Validation |
| ItemService.AddItemOutcome | src/main/java/ru/practicum/shareit/item/service/ItemServiceImpl.java:141-158 | an unknown owner is NotFound before validation, then an incomplete draft is Validation, then an unknown request is NotFound; the item gets a fresh id, the owner and the request id; a request id attaches the draft to that request, and success is guaranteed when the request exists |
| ItemService.AddItem | src/main/java/ru/practicum/shareit/item/service/ItemServiceImpl.java:141-158 | the item table grows by exactly the new item and the requests table becomes the decided one; on an error neither changes |
| ItemService.PatchLaws | src/main/java/ru/practicum/shareit/item/service/ItemServiceImpl.java:177-185 | an empty patch changes nothing, and applying a patch twice is applying it once |
| ItemService.UpdateItemOutcome | src/main/java/ru/practicum/shareit/item/service/ItemServiceImpl.java:169-193 | an unknown user is NotFound and then a missing item Internal; under unique ids a non-owner gets NotFound and the owner always succeeds; the result is the stored item patched, with id and owner kept |
| ItemService.UpdateItem | src/main/java/ru/practicum/shareit/item/service/ItemServiceImpl.java:169-193 | only the patched item is replaced |
| ItemService.RemoveItemById | src/main/java/ru/practicum/shareit/item/service/ItemServiceImpl.java:215-226 | an unknown user or item is NotFound; under unique ids a non-owner gets Validation and the owner succeeds, and then exactly the other items remain |
| ItemService.RemoveItem | src/main/java/ru/practicum/shareit/item/service/ItemServiceImpl.java:215-226 | the table becomes the decided one, and it is unchanged on an error |
| ItemService.RemoveAllItemsByOwnerId | src/main/java/ru/practicum/shareit/item/service/ItemServiceImpl.java:201-206 | NotFound exactly for an unknown user; otherwise exactly the items of other owners remain, each as often as stored |
| ItemService.RemoveAllItems | src/main/java/ru/practicum/shareit/item/service/ItemServiceImpl.java:201-206 | the table becomes the decided one, and it is unchanged on an error |
| ItemService.BookerListHasSameHits | src/main/java/ru/practicum/shareit/item/service/ItemServiceImpl.java:307-315 | the booker's list holds a booking of the item that began before now exactly when the whole table does |
| ItemService.ScanForBooker | src/main/java/ru/practicum/shareit/item/service/ItemServiceImpl.java:311-316 | the loop finds a booking of the item that began before now exactly when the list holds one |
| ItemService.IsItemBooker | src/main/java/ru/practicum/shareit/item/service/ItemServiceImpl.java:306-317 | true exactly when the user has a booking of the item that began before now |
| ItemService.CheckBookingEndTime | src/main/java/ru/practicum/shareit/item/service/ItemServiceImpl.java:324-328 | fails, with Validation, exactly when the booking ends after now |
| ItemService.FirstApproved | src/main/java/ru/practicum/shareit/item/service/ItemServiceImpl.java:251-256 | the first APPROVED booking of the item in list order, or none exactly when the list has none |
| ItemService.FirstApprovedIsLatest | src/main/java/ru/practicum/shareit/item/service/ItemServiceImpl.java:251-256 | in the booker's start-descending list, that first booking has the latest start of the user's approved bookings of the item |
| ItemService.CreateCommentOutcome | src/main/java/ru/practicum/shareit/item/service/ItemServiceImpl.java:237-265 | an unknown user is NotFound, then a missing item Internal, then a missing or blank text NotFound, then no APPROVED booking of the item by the user Validation; then the latest approved booking decides: not ended by now gives Validation, ended gives the comment with the text, item, author and created = now; no comment is made otherwise |
| ItemService.LaterApprovedBookingBlocksComment | src/main/java/ru/practicum/shareit/item/service/ItemServiceImpl.java:251-258 | an ended approved booking does not allow a comment while a later approved booking of the item is still running |
| ItemService.CreateComment | src/main/java/ru/practicum/shareit/item/service/ItemServiceImpl.java:237-265 | the comments table grows by exactly the decided comment |
| ItemService.GetCommentsByItemId | src/main/java/ru/practicum/shareit/item/service/ItemServiceImpl.java:274-279 | exactly the item's comments, each as often as stored, newest first |
| RequestService.ValidateItemRequestDto | src/main/java/ru/practicum/shareit/request/service/ItemRequestServiceImpl.java:157-162 | passes exactly for a present, non-blank description; otherwise Validation |
| RequestService.AddItemRequestOutcome | src/main/java/ru/practicum/shareit/request/service/ItemRequestServiceImpl.java:90-103 | an invalid description is Validation even for an unknown user, then an unknown user is NotFound; the request belongs to the caller, is created now, and has a fresh id and no items |
| RequestService.AddItemRequest | src/main/java/ru/practicum/shareit/request/service/ItemRequestServiceImpl.java:90-103 | the table grows by exactly the decided request |
| RequestService.GetAllItemRequestsByUserId | src/main/java/ru/practicum/shareit/request/service/ItemRequestServiceImpl.java:73-80 | NotFound exactly for an unknown user; otherwise exactly the user's own requests |
| RequestService.GetItemRequestById | src/main/java/ru/practicum/shareit/request/service/ItemRequestServiceImpl.java:106-113 | succeeds exactly for a known user and a stored request id, with that request; otherwise NotFound |
| RequestService.ValidatePagesRequest | src/main/java/ru/practicum/shareit/request/service/ItemRequestServiceImpl.java:144-150 | passes exactly for pageNum >= 0 and pageSize > 0; otherwise Validation |
| RequestService.OthersRequests | src/main/java/ru/practicum/shareit/request/service/ItemRequestServiceImpl.java:129 | exactly the requests of other users, each as often as given |
| RequestService.GetAllRequests | src/main/java/ru/practicum/shareit/request/service/ItemRequestServiceImpl.java:116-132 | never returns the caller's own requests; without both page parameters it returns exactly the other users' requests, in stored order and each as often as stored; Validation exactly for bad page parameters; with valid ones it returns the page cut first and filtered after, at most pageSize long |
| RequestService.PageIsCutBeforeFiltering | src/main/java/ru/practicum/shareit/request/service/ItemRequestServiceImpl.java:126-131 | a page that holds only the caller's request comes back empty although another user's request exists |
| RequestService.AttachItem | src/main/java/ru/practicum/shareit/request/service/ItemRequestServiceImpl.java:139-140 | the item list grows by the item at its end; earlier items and every other field are kept |
| RequestService.AddItemToRequest | src/main/java/ru/practicum/shareit/request/service/ItemRequestServiceImpl.java:135-142 | an unknown request is NotFound and a missing request id Internal; otherwise only that request changes, by AttachItem, and the ids are kept |
| RequestService.SaveItemToRequest | src/main/java/ru/practicum/shareit/request/service/ItemRequestServiceImpl.java:135-142 | the table becomes the decided one, and it is unchanged on an error |
| UserService.EmailValidation | src/main/java/ru/practicum/shareit/user/service/UserServiceImpl.java:125-130 | Internal exactly when a stored user lacks an email; otherwise Conflict exactly when a stored user has the given email; a missing email conflicts with nobody |
| UserService.EmailValidationIsTotal | src/main/java/ru/practicum/shareit/user/service/UserServiceImpl.java:125-130 | while every stored user has an email, the check never fails with Internal |
| UserService.GetAllUsers | src/main/java/ru/practicum/shareit/user/service/UserServiceImpl.java:39-44 | every stored user |
| UserService.GetUserById | src/main/java/ru/practicum/shareit/user/service/UserServiceImpl.java:54-58 | the stored user, or NotFound exactly for an unknown id |
| UserService.AddUserOutcome | src/main/java/ru/practicum/shareit/user/service/UserServiceImpl.java:67-73 | a missing email is Validation, and a taken email Conflict; success means the email is free, and a free email always succeeds (while emails are distinct); the user gets a fresh id |
| UserService.AddKeepsDistinctEmails | src/main/java/ru/practicum/shareit/user/service/UserServiceImpl.java:67-73 | adding keeps ids unique and emails present and pairwise distinct |
| UserService.UpdateUserOutcome | src/main/java/ru/practicum/shareit/user/service/UserServiceImpl.java:82-101 | an unknown user is NotFound; a taken email is Conflict, the updated user's own included; a missing field keeps its value, the id never changes, and success is guaranteed otherwise |
| UserService.OwnEmailConflicts | src/main/java/ru/practicum/shareit/user/service/UserServiceImpl.java:88 | resubmitting one's own email is a Conflict |
| UserService.UpdateKeepsDistinctEmails | src/main/java/ru/practicum/shareit/user/service/UserServiceImpl.java:82-101 | updating keeps ids unique and emails present and pairwise distinct |
| UserService.RemoveUserById | src/main/java/ru/practicum/shareit/user/service/UserServiceImpl.java:115-118 | NotFound exactly for an unknown user; otherwise exactly the other users remain |
| UserService.AddUser | src/main/java/ru/practicum/shareit/user/service/UserServiceImpl.java:67-73 | the table grows by exactly the decided user, and distinct emails are kept |
| UserService.UpdateUser | src/main/java/ru/practicum/shareit/user/service/UserServiceImpl.java:82-101 | only the updated user is replaced, and distinct emails are kept |
| UserService.RemoveUser | src/main/java/ru/practicum/shareit/user/service/UserServiceImpl.java:115-118 | the table becomes the decided one, and it is unchanged on an error |
| UserService.RemoveAllUsers | src/main/java/ru/practicum/shareit/user/service/UserServiceImpl.java:107-109 | the table becomes empty |
| UserStorage.NextId | src/main/java/ru/practicum/shareit/user/storage/InMemoryUserStorage.java:116-123 | the largest key plus one, or 1 for no keys |
| UserStorage.Present | src/main/java/ru/practicum/shareit/user/storage/InMemoryUserStorage.java:31-41 | at most one user per id |
| UserStorage.PresentDistributes | src/main/java/ru/practicum/shareit/user/storage/InMemoryUserStorage.java:31-41 | the answer for two id lists one after the other is the two answers one after the other, so the order of the ids is kept |
| UserStorage.PresentMembers | src/main/java/ru/practicum/shareit/user/storage/InMemoryUserStorage.java:31-41 | a user is in the answer exactly when one of the ids is its key |
| UserStorage.InMemoryUserStorage.FindAllByIds | src/main/java/ru/practicum/shareit/user/storage/InMemoryUserStorage.java:31-41 | the loop returns the stored users for the ids, in their order, with unknown ids skipped |
| UserStorage.InMemoryUserStorage.Create | src/main/java/ru/practicum/shareit/user/storage/InMemoryUserStorage.java:50-56 | the user is stored under a fresh id, the largest key plus one (1 when empty), and the map grows by exactly that entry |
| UserStorage.InMemoryUserStorage.Update | src/main/java/ru/practicum/shareit/user/storage/InMemoryUserStorage.java:65-77 | an existing id gets both fields of the argument, even missing ones; an unknown id is NotFound and nothing changes |
| UserStorage.InMemoryUserStorage.FindUserById | src/main/java/ru/practicum/shareit/user/storage/InMemoryUserStorage.java:86-91 | the user stored under the id, or NotFound exactly when no stored user has that id |
| UserStorage.InMemoryUserStorage.RemoveUserById | src/main/java/ru/practicum/shareit/user/storage/InMemoryUserStorage.java:97-100 | only that key is removed |
| UserStorage.InMemoryUserStorage.RemoveAllUsers | src/main/java/ru/practicum/shareit/user/storage/InMemoryUserStorage.java:106-109 | the map becomes empty |
| ItemStorage.InMemoryItemStorage.FindItemByOwnerId | src/main/java/ru/practicum/shareit/item/storage/InMemoryItemStorage.java:44-48 | exactly the owner's stored items, each once |
| ItemStorage.InMemoryItemStorage.FindItemById | src/main/java/ru/practicum/shareit/item/storage/InMemoryItemStorage.java:57-63 | the item stored under the id, or NotFound exactly when no stored item has that id |
| ItemStorage.InMemoryItemStorage.Create | src/main/java/ru/practicum/shareit/item/storage/InMemoryItemStorage.java:72-78 | the item is stored under a fresh id, the largest key plus one (1 when empty), and the map grows by exactly that entry |
| ItemStorage.InMemoryItemStorage.Update | src/main/java/ru/practicum/shareit/item/storage/InMemoryItemStorage.java:86-101 | an unknown user is NotFound, then an unknown item Internal, then a non-owner NotFound; otherwise the item is patched, with missing fields kept, and every other key is unchanged |
| ItemStorage.InMemoryItemStorage.RemoveItemById | src/main/java/ru/practicum/shareit/item/storage/InMemoryItemStorage.java:107-110 | only that key is removed |
| ItemStorage.InMemoryItemStorage.RemoveItemByOwnerId | src/main/java/ru/practicum/shareit/item/storage/InMemoryItemStorage.java:116-119 | no item of the owner remains, and every other item stays as it was |
| ItemStorage.InMemoryItemStorage.RemoveAllItems | src/main/java/ru/practicum/shareit/item/storage/InMemoryItemStorage.java:125-128 | the map becomes empty |

## Left out

- The following are not part of this model: controllers and gateways, with their HTTP binding and the gateway's own date check; REST clients; mappers and DTO copies; the mapping of exceptions to HTTP statuses; logging; transactions.
- The clock: `LocalDateTime.now()` is the parameter `now`, and timestamps are integers on one clock.
- Text: case mapping and whitespace are ASCII. The whitespace set is the one `String.isBlank` uses among the ASCII characters. Unicode case folding is not modelled.
- Ids of new database rows are the largest stored id plus one. The database's identity sequence is not modelled, and neither is an id that a client supplies in an item or user body.
- Entities are modelled as values. A save replaces the stored row, so object identity and the aliasing of a mutated entity are not modelled.
- RequestService.AddItemToRequest: the source appends the item to the loaded request's `items` collection in place and never calls `save`; the model writes that append into the requests table as if it were stored. Whether the persistence context flushes the change is not modelled.
- Listing order: each query is specified as sorted by its key plus a permutation. Among rows with equal keys the model picks one order, and the database may return another.
- The earlier booking copy: its listings, its getBookingById, its overlap test and its status transition are the same as the `server` module's. They are modelled once, in `BookingService`.
- The earlier getLastBooking and getNextBooking lack the null handling of the later ones. They are not modelled, because their tests expect the later behaviour.
- The earlier copy's `checkBookingDates` is never called, so it is not modelled.
- A null comment text inside a present comment is not modelled: the comment body is one `Option<string>`.
- getItemById and updateItem decorate their result with the item's comments. That decoration is not modelled.
- The requests table stores the submitted item drafts as the items of a request. A new request starts with no items.
- A null item id in the earlier create, and a null request id in addItemToRequest, reach a repository lookup that throws. Both are modelled as `Internal`.
- UserService.UpdateUserOutcome: the path id that updateUser writes into a patch without an id is not modelled, because the saved user is the stored one and that id never reaches it.
- ItemStorage.InMemoryItemStorage.Create: the owner id parameter of `create` is not used by the source and is not a parameter of the model.
- The code and its description disagree in places, and the model follows the code:
  - the later create accepts end == start;
  - a blank but non-empty search text is searched for;
  - a comment is allowed when the booking ends exactly at `now`.
