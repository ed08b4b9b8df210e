# ShareIt: a verified model of the booking, item, user and request rules

ShareIt is an item-sharing service: users list items, other users book them
for a period, the owner approves or rejects each booking, and a user who has
completed a booking may comment on the item. Users can also post requests for
items they are looking for. This project models the rules of that service in
Dafny and proves what they promise:

- **Booking lifecycle** (`BookingService`):
  - `create` runs its guards in order: user, item, availability, own item. A booking that passes them is stored as WAITING.
  - `approve` is for the owner only. It moves a booking out of WAITING exactly once.
  - `getById` shows a booking to its booker and to the item's owner.
  - The booker and owner listings dispatch a state token to a query and return one page of the result.
- **Booking queries** (`BookingRepository`): each JPQL query is a filter followed by a sort over the booking table. `CURRENT_TIMESTAMP` becomes the parameter `now`.
- **Date validation** (`BookingDateValidator`): the ordered chain of checks on a booking request's start and end. It yields exactly one violation, or accepts.
- **Item service**:
  - two revisions: the paged server application (`ItemService`) and the earlier single application (`ItemServiceLegacy`);
  - partial update by the owner;
  - reading an item, where the booking summaries are shown to the owner only;
  - the owner's list, and text search, where empty text gives an empty list;
  - commenting after a completed booking.
- **User service** (`UserService`): create, which merges a body carrying a stored user's id into that user's row and otherwise inserts under the next identity value, partial update of name and email, lookup, and delete, which does no lookup of its own and fails when the repository finds no row.
- **Item-request service** (`ItemRequestService`): create; the paged list of other users' requests, newest first; the user's own requests; one request by id, where the user is checked before the request.
- **In-memory repositories** of the first revision (`InMemoryItemRepository`, `InMemoryUserRepository`): a hash map and an id counter that only grows.
- **Pagination** (`Paging`): the arithmetic every paged listing shares. The page index is `from > 0 ? from / size : 0`.

Modelling choices:

- **Time** is an integer timestamp passed in as `now`.
- **Exceptions** become the `Error` values of a `Result` (module `Common`).
- **Persistence** of the server-side services is the class `Store.Database`:
  - users are kept in a map, because they can be deleted;
  - items, bookings, requests and comments are kept in sequences in identity order, the row with id `k` at position `k - 1`;
  - a booking keeps the id of its item's owner, which the queries reach by the join `b.item.owner.id`. The invariant `Database.Valid` requires that copy to equal the owner of the stored item, and every operation keeps it so.

  The service operations that save something are methods on a `Database`. Each is specified by a pure outcome function, and the rules are proved about those functions.
- **The in-memory repositories** are classes with the map and the counter as fields.
- **Revisions:** where two revisions of a file are the same code (`UserServiceImpl`, `ItemRequestServiceImpl`, `BookingDateValidator`, and `update`/`getById` of `ItemServiceImpl`), one Dafny member models both. The rows below cite each revision from some of that module's members.

## Model

| member | source | states |
|---|---|---|
| BookingService.CreateOutcome | src/main/java/ru/practicum/shareit/booking/service/BookingServiceImpl.java:37-50 | create succeeds iff the user exists, the item exists and is available, and the user is not its owner; the booking is WAITING, booked by the user, for the requested item and period |
| BookingService.CreateChecksUserFirst | src/main/java/ru/practicum/shareit/booking/service/BookingServiceImpl.java:38-40 | an unknown user is reported as NotFound(user) before an unknown item is reported as NotFound(item) |
| BookingService.UnavailableReportedBeforeOwnItem | src/main/java/ru/practicum/shareit/booking/service/BookingServiceImpl.java:41-45 | an unavailable item gives ItemNotAvailable even to its owner; an available item booked by its owner gives BookYourOwnItem |
| BookingService.Create | src/main/java/ru/practicum/shareit/booking/service/BookingServiceImpl.java:46-49 | the stored booking is the outcome, appended under the next identity value; on any failure no table changes |
| BookingService.ApproveOutcome | src/main/java/ru/practicum/shareit/booking/service/BookingServiceImpl.java:54-60 | approve succeeds iff the booking exists, the user owns its item and it is neither APPROVED nor REJECTED; the new status is APPROVED iff approved, else REJECTED, and nothing else changes |
| BookingService.ApproveChecksOwnerFirst | src/main/java/ru/practicum/shareit/booking/service/BookingServiceImpl.java:167-173 | a non-owner gets IncorrectOwner whatever the status; the owner of a decided booking gets ChangeBookingStatus |
| BookingService.SecondApproveFails | src/test/java/ru/practicum/shareit/booking/service/BookingServiceImplTest.java:118-135 | after a successful approve, every further approve of that booking fails: ChangeBookingStatus for the owner, IncorrectOwner for anyone else |
| BookingService.ApproveDecides | src/main/java/ru/practicum/shareit/booking/service/BookingServiceImpl.java:57-60 | a successful approve starts from WAITING (or CANCELED) and always ends in APPROVED or REJECTED |
| BookingService.CreateKeepsOwnersMatched | src/main/java/ru/practicum/shareit/booking/service/BookingServiceImpl.java:46 | a created booking carries the owner of the item it is built from, so the stored bookings keep matching their items' owners |
| BookingService.OwnerCopyIsItemOwner | src/main/java/ru/practicum/shareit/booking/repository/BookingRepository.java:49-50 | where bookings match items, the owner a booking carries is its stored item's owner: isOwner and the owner listings agree with the join b.item.owner.id |
| BookingService.Approve | src/main/java/ru/practicum/shareit/booking/service/BookingServiceImpl.java:60-62 | the stored booking is replaced by the outcome; on failure the booking keeps its status and no table changes |
| BookingService.GetById | src/main/java/ru/practicum/shareit/booking/service/BookingServiceImpl.java:156-165 | the booking is returned iff it exists and the user is its booker or its item's owner; otherwise NotFound or IncorrectOwner |
| BookingService.ParseState | src/main/java/ru/practicum/shareit/booking/service/BookingServiceImpl.java:79-106 | exactly the six tokens ALL, FUTURE, PAST, CURRENT, WAITING, REJECTED are accepted |
| BookingService.Listing | src/main/java/ru/practicum/shareit/booking/service/BookingServiceImpl.java:75-109 | checks in order: unknown user, then page length below one, then unknown token (UnsupportedStatus); success iff all pass; at most `size` rows, each a stored booking of the user in the state, latest start first |
| BookingService.GetByBookerId | src/main/java/ru/practicum/shareit/booking/service/BookingServiceImpl.java:80-83 | every listed booking was made by the user |
| BookingService.GetByOwnerId | src/main/java/ru/practicum/shareit/booking/service/BookingServiceImpl.java:112-147 | every listed booking is on an item the user owns |
| BookingService.UnknownStateRefused | src/main/java/ru/practicum/shareit/booking/service/BookingServiceImpl.java:141-142 | a token outside the six states is refused with UnsupportedStatus by both listings |
| BookingService.ListingIsPageOfQuery | src/main/java/ru/practicum/shareit/booking/service/BookingServiceImpl.java:77 | the listing is the query's rows from index (from > 0 ? from / size : 0) * size on: a full page when the query has that many, the rest of the query when the page is the partial last one |
| BookingRepository.FindBookings | src/main/java/ru/practicum/shareit/booking/repository/BookingRepository.java:81-84 | exactly the stored bookings that involve the user (as booker or as item owner) and are in the state, each as often as stored, sorted by start descending |
| BookingRepository.FutureBookingsExact | src/main/java/ru/practicum/shareit/booking/repository/BookingRepository.java:17-22 | FUTURE keeps a booking iff it is the user's and now < start |
| BookingRepository.PastBookingsExact | src/main/java/ru/practicum/shareit/booking/repository/BookingRepository.java:56-60 | PAST keeps a booking iff it is the user's and end < now |
| BookingRepository.CurrentBookingsExact | src/main/java/ru/practicum/shareit/booking/repository/BookingRepository.java:30-35 | CURRENT keeps a booking iff start < now < end; a booking starting or ending exactly now is not current |
| BookingRepository.WaitingBookingsExact | src/main/java/ru/practicum/shareit/booking/repository/BookingRepository.java:37-41 | WAITING keeps a booking iff its status is WAITING, whatever the time |
| BookingRepository.RejectedBookingsExact | src/main/java/ru/practicum/shareit/booking/repository/BookingRepository.java:75-79 | REJECTED keeps a booking iff its status is REJECTED, whatever the time |
| BookingRepository.FindLastBooking | src/main/java/ru/practicum/shareit/booking/repository/BookingRepository.java:86-91 | exactly the APPROVED bookings of the item with start < now, latest start first |
| BookingRepository.FindNextBooking | src/main/java/ru/practicum/shareit/booking/repository/BookingRepository.java:93-98 | exactly the APPROVED bookings of the item with start > now, earliest start first |
| BookingRepository.LastBookingIsLatest | src/main/java/ru/practicum/shareit/booking/repository/BookingRepository.java:88-90 | the head of findLastBooking is an approved booking of the item that started before now, with the latest such start; the list is empty iff there is none |
| BookingRepository.NextBookingIsEarliest | src/main/java/ru/practicum/shareit/booking/repository/BookingRepository.java:95-97 | the head of findNextBooking is an approved booking of the item that starts after now, with the earliest such start; the list is empty iff there is none |
| BookingRepository.CountCompleted | src/main/java/ru/practicum/shareit/booking/repository/BookingRepository.java:100-104 | the count is positive iff some booking of the item by the user is APPROVED and ended before now |
| BookingRepository.CheckIfUserBookedItem | src/main/java/ru/practicum/shareit/booking/repository/BookingRepository.java:100-105 | true iff some booking of the item by the user is APPROVED and has end < now |
| BookingDateValidator.IsValid | gateway/src/main/java/isthatkirill/shareit/booking/annotation/BookingDateValidator.java:16-56 | valid iff both dates are present and now <= start < end |
| BookingDateValidator.NullStartReported | gateway/src/main/java/isthatkirill/shareit/booking/annotation/BookingDateValidator.java:17-22 | a missing start gives "Start of booking cannot be null", whatever the end |
| BookingDateValidator.NullEndReported | src/main/java/ru/practicum/shareit/booking/annotation/BookingDateValidator.java:23-28 | a present start with a missing end gives "End of booking cannot be null", even when the start is in the past |
| BookingDateValidator.StartInPastReportedFirst | gateway/src/main/java/isthatkirill/shareit/booking/annotation/BookingDateValidator.java:29-34 | a start before now gives the start-in-past violation, before anything about the end |
| BookingDateValidator.EndInPastReported | src/main/java/ru/practicum/shareit/booking/annotation/BookingDateValidator.java:35-40 | with an acceptable start, an end before now gives "End of booking cannot be in past", even when it is also before the start |
| BookingDateValidator.OrderViolationsReported | gateway/src/main/java/isthatkirill/shareit/booking/annotation/BookingDateValidator.java:41-52 | with neither date in the past, start > end gives the earlier-than-start violation and start == end the equals-start one |
| BookingDateValidator.ReportsFirstApplicableRule | src/main/java/ru/practicum/shareit/booking/annotation/BookingDateValidator.java:16-56 | the result equals the violation of the first of the six rules (each stated independently) that applies, or valid when none does: one message per rejection |
| BookingDateValidator.MessagesDistinct | src/main/java/ru/practicum/shareit/booking/annotation/BookingDateValidator.java:41-52 | the six violation messages are pairwise distinct |
| ItemService.ApplyPatch | server/src/main/java/ru/practicum/shareit/item/service/ItemServiceImpl.java:59-61 | each non-null field (available, name, description) overwrites the stored one, each null field keeps it; id, owner and request are kept |
| ItemService.EmptyPatchKeepsItem | server/src/main/java/ru/practicum/shareit/item/service/ItemServiceImpl.java:58-63 | an update with every field null leaves the item unchanged |
| ItemService.PatchIdempotent | src/main/java/ru/practicum/shareit/item/service/ItemServiceImpl.java:60-62 | applying the same update twice equals applying it once |
| ItemService.PatchesCompose | src/main/java/ru/practicum/shareit/item/service/ItemServiceImpl.java:59-64 | two updates in a row equal one update carrying, per field, the later non-null value |
| ItemService.UpdateOutcome | server/src/main/java/ru/practicum/shareit/item/service/ItemServiceImpl.java:55-64 | checks in order: NotFound(user), NotFound(item), IncorrectOwner when the stored owner is not the user; on success the patched stored item |
| ItemService.UpdateKeepsIdAndOwner | server/src/main/java/ru/practicum/shareit/item/service/ItemServiceImpl.java:141-145 | a successful update keeps the item's id, owner and request |
| ItemService.UpdateKeepsOwnersMatched | server/src/main/java/ru/practicum/shareit/item/service/ItemServiceImpl.java:58-63 | an update keeps the item's owner, so the bookings stored against it still carry that owner |
| ItemService.Update | src/main/java/ru/practicum/shareit/item/service/ItemServiceImpl.java:56-65 | the stored item is replaced by the outcome; on failure no table changes |
| ItemService.FirstShort | server/src/main/java/ru/practicum/shareit/item/service/ItemServiceImpl.java:73-75 | null exactly for an empty query result, else the summary of its first row |
| ItemService.CommentsOf | server/src/main/java/ru/practicum/shareit/item/service/ItemServiceImpl.java:80-81 | exactly the comments of the item |
| ItemService.GetById | server/src/main/java/ru/practicum/shareit/item/service/ItemServiceImpl.java:68-84 | NotFound(item) iff the item is absent; the stored item with its comments; next and last are null for a viewer who is not the owner |
| ItemService.OwnerSeesNearestBookings | src/main/java/ru/practicum/shareit/item/service/ItemServiceImpl.java:73-80 | the owner sees as next the approved booking with the earliest start after now and as last the one with the latest start before now, each present iff such a booking exists |
| ItemService.OwnerViewIsFullView | server/src/main/java/ru/practicum/shareit/item/service/ItemServiceImpl.java:72-79 | for the owner, getById fills in both booking summaries and the comments |
| ItemService.OwnedItems | server/src/main/java/ru/practicum/shareit/item/repository/ItemRepository.java:21 | exactly the items of the owner |
| ItemService.OwnedItemsOrderedById | server/src/main/java/ru/practicum/shareit/item/service/ItemServiceImpl.java:89 | the owner's items come in strictly increasing id order |
| ItemService.GetByOwner | server/src/main/java/ru/practicum/shareit/item/service/ItemServiceImpl.java:88-109 | IllegalArgument iff size < 1; at most `size` views, each of a stored item of the owner |
| ItemService.OwnerListMatchesGetById | server/src/main/java/ru/practicum/shareit/item/service/ItemServiceImpl.java:92-108 | every entry of the owner's list equals what getById shows the owner for that item |
| ItemService.OffsetInsideFirstPage | server/src/test/java/ru/practicum/shareit/item/service/ItemServiceImplTest.java:210-216 | offset 1 with page length 2 lists the same items as offset 0 |
| ItemService.SearchAll | server/src/main/java/ru/practicum/shareit/item/repository/ItemRepository.java:15-19 | exactly the stored items that are available and whose name or description contains the text, ignoring case |
| ItemService.Search | server/src/main/java/ru/practicum/shareit/item/service/ItemServiceImpl.java:113-118 | empty text gives an empty list before the page is built; otherwise IllegalArgument iff size < 1, else at most `size` matching available stored items |
| ItemService.EmptyTextGuardMatters | server/src/main/java/ru/practicum/shareit/item/service/ItemServiceImpl.java:114 | the unguarded query would match every available item on empty text, yet search("") is empty |
| ItemService.CreateCommentOutcome | server/src/main/java/ru/practicum/shareit/item/service/ItemServiceImpl.java:122-132 | checks in order: NotFound(user), NotFound(item), CommentingDenied; success iff the user has a completed approved booking of the item; the comment is stamped now |
| ItemService.CommentWithoutBookingDenied | server/src/main/java/ru/practicum/shareit/item/service/ItemServiceImpl.java:125-127 | a known user on a known item without a completed booking is denied |
| ItemService.CreateComment | server/src/main/java/ru/practicum/shareit/item/service/ItemServiceImpl.java:128-130 | the comment is appended under the next identity value; on any failure nothing is stored |
| ItemServiceLegacy.GetByOwner | src/main/java/ru/practicum/shareit/item/service/ItemServiceImpl.java:89-96 | one view per owned item, in id order, each equal to getById(item id, owner) |
| ItemServiceLegacy.PagedListIsPageOfFullList | src/main/java/ru/practicum/shareit/item/service/ItemServiceImpl.java:90-93 | the server revision's paged list is one page of this revision's full list |
| ItemServiceLegacy.Search | src/main/java/ru/practicum/shareit/item/service/ItemServiceImpl.java:100-105 | empty text gives an empty list; otherwise exactly the matching available items |
| ItemServiceLegacy.PagedSearchIsPageOfFullSearch | src/main/java/ru/practicum/shareit/item/repository/ItemRepository.java:15-19 | the server revision's paged search is one page of this revision's search |
| ItemServiceLegacy.CreateCommentOutcome | src/main/java/ru/practicum/shareit/item/service/ItemServiceImpl.java:109-119 | without a completed booking the result is CommentingDenied whatever the user and item; then NotFound(user), then NotFound(item); success iff the user and item exist and a completed booking does |
| ItemServiceLegacy.RevisionsDifferOnlyInErrors | src/main/java/ru/practicum/shareit/item/service/ItemServiceImpl.java:110-114 | both revisions accept the same requests and store the same comment; an unknown user without bookings gets CommentingDenied here and NotFound in the server revision |
| ItemServiceLegacy.CreateComment | src/main/java/ru/practicum/shareit/item/service/ItemServiceImpl.java:115-117 | the comment is appended under the next identity value; on any failure nothing is stored |
| ItemServiceLegacy.CheckItemAvailabilityAndGet | src/main/java/ru/practicum/shareit/item/service/ItemServiceImpl.java:129-132 | the stored item iff it exists and is available; otherwise ItemNotAvailable |
| UserService.ApplyPatch | server/src/main/java/isthatkirill/shareit/user/service/UserServiceImpl.java:35-36 | a non-null name or email overwrites the stored one, a null one keeps it; the id is kept |
| UserService.PatchIdempotent | src/main/java/ru/practicum/shareit/user/service/UserServiceImpl.java:35-36 | applying the same update twice equals applying it once |
| UserService.GetById | server/src/main/java/isthatkirill/shareit/user/service/UserServiceImpl.java:62-66 | the stored user iff the id is present, else NotFound(user) |
| UserService.UpdateOutcome | src/main/java/ru/practicum/shareit/user/service/UserServiceImpl.java:33-40 | NotFound(user) iff the id is absent; otherwise the patched stored user |
| UserService.UpdateThenGet | server/src/main/java/isthatkirill/shareit/user/service/UserServiceImpl.java:43-46 | after a successful update the user keeps its id and reading it back gives the updated record |
| UserService.CreateOutcome | server/src/main/java/isthatkirill/shareit/user/service/UserServiceImpl.java:25-29 | the saved user has the body's name and email; a body id with a row keeps that id (merge), otherwise the id is the next identity value, which no stored user has; the table stays keyed by id |
| UserService.CreateWithStoredIdIsUpdate | src/main/java/ru/practicum/shareit/user/service/UserServiceImpl.java:25-29 | a create whose body carries a stored user's id gives the same user as an update setting both name and email |
| UserService.CreateAgainIsMerge | src/test/java/ru/practicum/shareit/user/service/UserServiceImplTest.java:24-35 | sending the user a create returned back to create gives the same user and leaves the table as it was |
| UserService.Create | server/src/main/java/isthatkirill/shareit/user/service/UserServiceImpl.java:25-29 | the stored user is CreateOutcome's: merged into the row of a stored body id with the counter unchanged, or inserted under the next identity value; no other table changes |
| UserService.Update | server/src/main/java/isthatkirill/shareit/user/service/UserServiceImpl.java:33-39 | the stored user is replaced by the outcome; an unknown id changes nothing |
| UserService.DeleteOutcome | server/src/main/java/isthatkirill/shareit/user/service/UserServiceImpl.java:56-60 | the service does no lookup of its own; deleteById fails with EmptyResult iff the id has no row, otherwise exactly that row is removed and every other user is kept |
| UserService.Delete | src/main/java/ru/practicum/shareit/user/service/UserServiceImpl.java:57-60 | an id with no row gives EmptyResult and changes nothing; otherwise only that user is removed and no other table changes |
| UserService.DeleteThenGet | src/main/java/ru/practicum/shareit/user/service/UserServiceImpl.java:57-60 | after delete the user is NotFound, every other user reads as before, and the next identity value is still unused |
| ItemRequestService.View | server/src/main/java/isthatkirill/shareit/request/model/ItemRequest.java:37-38 | a request is shown with exactly the items whose request id is its id |
| ItemRequestService.CreateOutcome | server/src/main/java/isthatkirill/shareit/request/service/ItemRequestServiceImpl.java:29-34 | NotFound(user) iff the user is absent; otherwise the request by the user, stamped now |
| ItemRequestService.Create | src/main/java/ru/practicum/shareit/request/service/ItemRequestServiceImpl.java:29-34 | the request is appended under the next identity value; for an unknown user nothing is stored |
| ItemRequestService.OthersRequests | server/src/main/java/isthatkirill/shareit/request/service/ItemRequestServiceImpl.java:41-42 | exactly the requests by other users, each as often as stored, newest first |
| ItemRequestService.OwnRequests | src/main/java/ru/practicum/shareit/request/service/ItemRequestServiceImpl.java:51-52 | exactly the user's own requests, each as often as stored, newest first |
| ItemRequestService.OwnAndOthersPartition | src/main/java/ru/practicum/shareit/request/service/ItemRequestServiceImpl.java:41-52 | every stored request is in exactly one of the own and the others' lists |
| ItemRequestService.GetAll | server/src/main/java/isthatkirill/shareit/request/service/ItemRequestServiceImpl.java:38-44 | NotFound(user) first, then IllegalArgument iff size < 1; at most `size` views of other users' requests, newest first, each shown with exactly the items offered for it; for a known user and size >= 1, exactly the views of the slice that PageOf picks from the others' list |
| ItemRequestService.GetAllIsViewsOfPage | server/src/main/java/isthatkirill/shareit/request/service/ItemRequestServiceImpl.java:40-43 | for a known user and size >= 1, getAll shows the page with index (from > 0 ? from / size : 0) and length size of the others' newest-first list |
| ItemRequestService.GetAllIsPageOfOthers | src/main/java/ru/practicum/shareit/request/service/ItemRequestServiceImpl.java:38-44 | for a known user and size >= 1, getAll is the rows of the others' newest-first list from index (from > 0 ? from / size : 0) * size on: a full page when there are that many, the rest of the list on the partial last page, each with its items |
| ItemRequestService.SecondPageOfOne | server/src/test/java/isthatkirill/shareit/request/service/ItemRequestServiceImplTest.java:73-81 | offset 1 with page length 1 gives exactly the second newest request of the other users, or nothing |
| ItemRequestService.GetOwn | server/src/main/java/isthatkirill/shareit/request/service/ItemRequestServiceImpl.java:48-53 | NotFound(user) iff the user is absent; otherwise exactly one view per own request, newest first, each with the items offered for it |
| ItemRequestService.GetById | server/src/main/java/isthatkirill/shareit/request/service/ItemRequestServiceImpl.java:57-65 | NotFound(user) before NotFound(request); otherwise the view of the stored request |
| ItemRequestService.AnyUserReadsAnyRequest | src/main/java/ru/practicum/shareit/request/service/ItemRequestServiceImpl.java:57-65 | any known user reads any stored request, including another user's |
| Paging.PageIndex | src/main/java/ru/practicum/shareit/booking/service/BookingServiceImpl.java:114 | for size >= 1, index 0 for a non-positive offset, otherwise the index of the page whose rows [index * size, index * size + size) hold the offset |
| Paging.PageOf | src/main/java/ru/practicum/shareit/booking/service/BookingServiceImpl.java:114 | IllegalArgument iff size < 1; page 0 for a non-positive offset, otherwise the page that holds the offset |
| Paging.Slice | server/src/main/java/isthatkirill/shareit/request/service/ItemRequestServiceImpl.java:43 | the slice [page * size, page * size + size) cut to the list's length: a full page when the list is long enough, the rest of the list on a partial last page, nothing past the end, and row k of the page is row page * size + k of the list |
| Paging.AlignedOffsetIsExact | server/src/main/java/ru/practicum/shareit/item/service/ItemServiceImpl.java:90 | an offset that is a multiple of the page length starts the page exactly there |
| Paging.UnalignedOffsetRepeatsRows | server/src/main/java/ru/practicum/shareit/item/service/ItemServiceImpl.java:117 | any other positive offset is rounded down to its page start, so rows before the offset are returned |
| Text.Lower | src/main/java/ru/practicum/shareit/item/repository/ItemRepositoryImpl.java:46 | upper-case ASCII letters are mapped to lower case, everything else is kept |
| Text.LowerString | src/main/java/ru/practicum/shareit/item/repository/ItemRepositoryImpl.java:47 | the same length, each character folded |
| Text.Contains | src/main/java/ru/practicum/shareit/item/repository/ItemRepositoryImpl.java:45-49 | true iff the text occurs at some position of the string |
| Text.EmptyTextMatchesAll | src/main/java/ru/practicum/shareit/item/service/ItemServiceImpl.java:101 | the empty text occurs in every string |
| Text.CaseIrrelevant | server/src/main/java/ru/practicum/shareit/item/repository/ItemRepository.java:16-17 | lower-casing the text or the searched string first changes no match |
| Text.ExactOccurrenceMatches | src/main/java/ru/practicum/shareit/item/repository/ItemRepository.java:16-17 | an exact occurrence is also a case-insensitive match |
| InMemoryTable.CollectValues | src/main/java/ru/practicum/shareit/item/repository/ItemRepositoryImpl.java:37-40 | every collected value comes from a distinct key of the map and satisfies the filter, and every key whose value satisfies it is collected |
| InMemoryItemRepository.ItemRepository.constructor | src/main/java/ru/practicum/shareit/item/repository/ItemRepositoryImpl.java:14-15 | an empty map and a counter at zero |
| InMemoryItemRepository.ItemRepository.GenerateId | src/main/java/ru/practicum/shareit/item/repository/ItemRepositoryImpl.java:52-54 | the counter grows by one and its new value is returned |
| InMemoryItemRepository.ItemRepository.Create | src/main/java/ru/practicum/shareit/item/repository/ItemRepositoryImpl.java:18-22 | the item gets id old counter + 1 and is stored under it; while every key was handed out by the counter, that id is above every stored key, so nothing is overwritten |
| InMemoryItemRepository.ItemRepository.GetById | src/main/java/ru/practicum/shareit/item/repository/ItemRepositoryImpl.java:25-27 | present iff some stored item has the id, and then it is that item |
| InMemoryItemRepository.ItemRepository.Update | src/main/java/ru/practicum/shareit/item/repository/ItemRepositoryImpl.java:30-33 | only the entry at the item's id is replaced; the counter is unchanged |
| InMemoryItemRepository.ItemRepository.GetByOwner | src/main/java/ru/practicum/shareit/item/repository/ItemRepositoryImpl.java:36-41 | exactly the stored items of the owner, each once |
| InMemoryItemRepository.ItemRepository.Search | src/main/java/ru/practicum/shareit/item/repository/ItemRepositoryImpl.java:44-50 | exactly the stored available items whose lower-cased name or description contains the lower-cased text, each once; the map is not changed |
| InMemoryItemRepository.CreateThenGet | src/main/java/ru/practicum/shareit/item/repository/ItemRepositoryImpl.java:15 | after create, getById on the new id (old counter + 1) returns the created item |
| InMemoryUserRepository.UserRepository.constructor | src/main/java/ru/practicum/shareit/user/repository/UserRepositoryImpl.java:14-15 | an empty map and a counter at zero |
| InMemoryUserRepository.UserRepository.GenerateId | src/main/java/ru/practicum/shareit/user/repository/UserRepositoryImpl.java:45-47 | the counter grows by one and its new value is returned |
| InMemoryUserRepository.UserRepository.Create | src/main/java/ru/practicum/shareit/user/repository/UserRepositoryImpl.java:18-22 | the user gets id old counter + 1 and is stored under it; while every key was handed out by the counter, that id is above every stored key |
| InMemoryUserRepository.UserRepository.Update | src/main/java/ru/practicum/shareit/user/repository/UserRepositoryImpl.java:25-28 | only the entry at the user's id is replaced; the counter is unchanged |
| InMemoryUserRepository.UserRepository.GetAll | src/main/java/ru/practicum/shareit/user/repository/UserRepositoryImpl.java:31-33 | every stored user, each once, as many as the map holds |
| InMemoryUserRepository.UserRepository.GetById | src/main/java/ru/practicum/shareit/user/repository/UserRepositoryImpl.java:36-38 | present iff some stored user has the id, and then it is that user |
| InMemoryUserRepository.UserRepository.Delete | src/main/java/ru/practicum/shareit/user/repository/UserRepositoryImpl.java:41-43 | only that key is removed, an absent id changes nothing, and the counter does not go back |
| InMemoryUserRepository.DeleteThenGet | src/main/java/ru/practicum/shareit/user/repository/UserRepositoryImpl.java:42 | after delete the id is not found and every other id reads as before |

## Left out

- Item creation, user listing in the user service, and the request/response mappers: they only copy fields. The one copy with an effect, the user body's `id` reaching the entity in `create`, is modelled by `UserService.Create`.
- Controllers, gateway HTTP clients, the exception-to-status handlers, logging and transactions: they have no rules of their own. Each service call is treated as atomic.
- `LocalDateTime.now()` and `CURRENT_TIMESTAMP` are the parameter `now`. The validator reads the clock twice; the model uses one instant for both reads.
- `ItemRequest.created` defaults to the time of construction. The model stamps a request with `now` at create.
- Case folding is ASCII only; Unicode case mapping is not modelled. The search query's `UPPER(..) LIKE UPPER(..)` and the in-memory `toLowerCase().contains(..)` agree on ASCII text, and both are modelled by lower-casing.
- `%` and `_` inside the search text are SQL wildcards in the server query; the model treats them as literal characters.
- Rows are ordered as follows:
  - The native search query has no ORDER BY, and comments are read by item id without one. The model returns both in table order.
  - Ties on the sort key (equal starts, equal creation times) are left unspecified by the queries. The model keeps table order.
  - The in-memory repositories stream a hash map. Their results come in an arbitrary order, so the contracts say nothing about order there.
- Ids are unbounded integers: `Long` overflow of the id counters is not modelled.
- Deleting an absent user gives the error `EmptyResult` (Spring Data JPA 2's `EmptyResultDataAccessException` from `deleteById`). The catch-all exception handler answers it with status 500; that mapping to HTTP statuses is not modelled.
- The unique e-mail constraint of the user table is not modelled.
- Foreign keys between tables are not modelled: the schema is not part of the sources. `UserService.Delete` removes a user who may still own items or be named on bookings, requests or comments, and the model keeps those rows. With foreign keys in place the database would refuse the delete (`DataIntegrityViolationException`, answered with status 409).
- An item's owner is compared by id. In the server revision `getItemIfHaveCorrectOwner` compares owner entities, which amounts to the same comparison for persisted users.
- The first revision's booking repository declares its list queries without a `Pageable`, while its booking service passes one. The model applies the page as the service does.
- The first revision's item repository declares `findAllByOwnerId`, while its service calls `findAllByOwnerIdOrderById`. The model lists an owner's items in id order.
- The server revision's `getByOwner` computes next/last and comments for every item directly rather than through `getById`. The model proves the two are the same for the owner.
- InMemoryItemRepository.ItemRepository.Update: with an id the counter has not reached yet, the map is updated but the "every key was handed out" invariant is not preserved; the contract says so rather than excluding that input.
- InMemoryUserRepository.UserRepository.Update: same as the item repository's update.
- InMemoryItemRepository.ItemRepository.Create and InMemoryUserRepository.UserRepository.Create: in Java, `create` sets the id on the caller's object and stores that same reference, so the caller's object and the map entry stay aliased. The model stores a value and returns it with the id set, so later changes to the caller's object are not seen in the map. The stored state after each create is the same.
- Paging.PageOf: a zero page length with a positive offset fails in Java with a division error before `PageRequest.of` is reached; the model reports `IllegalArgument` for every page length below one.
