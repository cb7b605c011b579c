# ShareIt booking lifecycle, in Dafny

ShareIt is a service where users share items with each other. An owner offers
an item. Another user books it for a time window. The owner approves or
rejects the booking. Users can also post requests for items nobody offers yet,
and other users can answer those requests with items.

This project models the core of that service as pure functions over immutable
stores. Each table is a `map<int, T>` together with the id counter that
hands out new ids. Every operation returns either a value or a typed error
(`NotFound`, `ItemUnavailable`, `InvalidBookingTime`, `BookingStatus`,
`Authorization`). On every error path the stores are unchanged.

Modules:

- `Outcomes` and `Entities`: the result types and the entities `User`, `Item`,
  `Booking` and `ItemRequest`. Java's nullable `Boolean available` becomes
  `Option<bool>`, so it has three values. Datetimes become integers; they are
  only ever compared.
- `Stores`: the map-plus-counter store. It covers `getNextId` (`++currentID`),
  `put`, `remove`, and `findAll` over the map's values.
- `UserRepository` and `ItemRepository`: the in-memory repositories.
- `Seqs`: order-preserving filtering, sorting by a descending key, and the
  page slice that `PageRequest.of(from / size, size, sort)` selects.
- `Text`: `String.trim`, `String.isBlank` and `StringUtils.containsIgnoreCase`.
- `Validators`: the gateway's `CheckDateValidator` and
  `CheckNotBlankIfNotNullValidator`, and the three time checks the layers apply.
- `BookingRepository`: the derived queries. The predicate of each query is
  fixed by its method name.
- `BookingService`: creation in both versions (the final server one and the
  earlier one), the approval state machine, lookup restricted to the booker
  and the owner, and the state-filtered, paginated listings.
- `UserService`, `ItemService` and `ItemRequestService`: the other services.

Design choices a reader should know:

- **CURRENT is strict on both ends.** It is `start < now && end > now`,
  because the repository query is `StartIsBefore...EndIsAfter`. A booking
  whose start or end equals `now` lies in no time window.
- **Three different time checks.**
  - The gateway's class-level validator requires both instants and a
    strictly increasing window. Its field constraints (start not in the past,
    end in the future) are not modelled.
  - The earlier service rejects only a start after the end, so an empty
    window passes.
  - The final server service does no time check at all.

  All three are modelled, and their relation is proved.
- **`findAll` order.** `findAll` on a `HashMap` has no specified order. The
  model fixes one order it may take: ascending key. The properties of a single
  listing do not depend on that choice (membership, multiplicity, sortedness
  by the query's key). Ties under a sort key come out in an unspecified order
  in the source, and the model breaks them one fixed way, the same for every
  page. The disjointness of two pages relies on that shared tie order; see
  "## Left out".
- **The booking and request repositories are JPA repositories.** Their saves
  are modelled like the in-memory ones: the next counter value becomes the id.
  In the final server service, `setApprove` writes the status change through
  the managed entity at transaction commit rather than through an explicit
  `save`. The model writes it back explicitly.
- **`UserServiceImpl` patches through `save`.** `save` of an entity that
  already has an id is an update. The mapper copies the DTO's non-null id,
  which is the id the user was looked up by.

## Model

| member | source | states |
|---|---|---|
| BookingService.CreateGuard | server/src/main/java/ru/practicum/shareit/booking/service/BookingServiceImpl.java:47-58 | The guards run in order and the first failure decides the error: item missing gives NotFound, requester is the owner gives NotFound, `available == FALSE` gives ItemUnavailable, user missing gives NotFound. A `null` availability passes. No error exactly when all four hold. |
| BookingService.Create | server/src/main/java/ru/practicum/shareit/booking/service/BookingServiceImpl.java:46-65 | On a failed guard, that error is returned and nothing is stored. Otherwise exactly one new booking is stored under a fresh id. It has the looked-up item and user, the requested window and status WAITING. No start/end comparison is made. |
| BookingService.CreateBooking | src/main/java/ru/practicum/shareit/booking/service/BookingServiceImpl.java:50-72 | The same guard chain, then InvalidBookingTime exactly when start is after end; an empty window passes. It succeeds exactly when the guards pass and start <= end, and then stores the same booking as the final version. |
| BookingService.CreateVersionsAgree | src/main/java/ru/practicum/shareit/booking/service/BookingServiceImpl.java:63-65 | The two versions give identical results whenever start <= end. On an inverted window that passes the guards, the final version stores the booking and the earlier one refuses it. |
| BookingService.GatewayExcludesTimeError | gateway/src/main/java/ru/practicum/shareit/validation/CheckDateValidator.java:15-22 | A request the gateway's date check accepts never gets InvalidBookingTime from the earlier service. |
| BookingService.OwnerCannotBook | server/src/main/java/ru/practicum/shareit/booking/service/BookingServiceImpl.java:50-52 | The owner of an existing item always gets NotFound when booking it, in both versions, and nothing is stored. |
| BookingService.Decide | server/src/main/java/ru/practicum/shareit/booking/service/BookingServiceImpl.java:76-83 | Only WAITING can be decided, and otherwise the error is BookingStatus. The new status is never WAITING. It is APPROVED exactly when approval was asked for. |
| BookingService.SetApprove | server/src/main/java/ru/practicum/shareit/booking/service/BookingServiceImpl.java:69-86 | A missing booking or a non-owner gives NotFound. An already decided booking gives BookingStatus. Errors leave everything unchanged. On success only that booking's status changes, to APPROVED or REJECTED; users, items, the counter and every other booking are untouched. |
| BookingService.CreatedBookingIsApprovable | server/src/main/java/ru/practicum/shareit/booking/service/BookingServiceImpl.java:76-83 | A booking just created can immediately be decided by its item's owner, either way. |
| BookingService.DecisionIsFinal | server/src/main/java/ru/practicum/shareit/booking/service/BookingServiceImpl.java:76-78 | After a successful decision, every further approval call on that booking fails and changes nothing. For the owner the failure is BookingStatus. |
| BookingService.DecidedBookingsAreFrozen | server/src/main/java/ru/practicum/shareit/booking/service/BookingServiceImpl.java:46-86 | In a store whose keys came from its counter, a decided booking is left exactly as it was by any approval call and by either version of creation. |
| BookingService.GetById | server/src/main/java/ru/practicum/shareit/booking/service/BookingServiceImpl.java:89-98 | The stored booking is returned exactly when it exists and the caller is its booker or its item's owner. Every other case is NotFound. |
| BookingService.CreatedBookingVisibility | server/src/main/java/ru/practicum/shareit/booking/service/BookingServiceImpl.java:93-97 | After creation, the booker and the owner both read the new booking back, and any third user gets NotFound. |
| BookingService.ListForUser | server/src/main/java/ru/practicum/shareit/booking/service/BookingServiceImpl.java:101-131 | An unknown user gives NotFound. Otherwise page `from / size` of the user's bookings in the requested state: exactly as many as that page holds (`size` for a full page, the remainder for the last, none beyond it), each stored, booked by the user and in the state, sorted by start, latest first. |
| BookingService.ListForOwner | server/src/main/java/ru/practicum/shareit/booking/service/BookingServiceImpl.java:134-164 | Like ListForUser, over the bookings of the items the user owns. |
| BookingService.ListForUserPagesInOrder | server/src/main/java/ru/practicum/shareit/booking/service/BookingServiceImpl.java:105-106 | Asking for a later page (a larger `from / size`) never shows a booking an earlier page showed, beyond its multiplicity, and every booking on it starts no later than every booking on the earlier page. |
| BookingService.ListForOwnerPagesInOrder | server/src/main/java/ru/practicum/shareit/booking/service/BookingServiceImpl.java:138-139 | The same for the listing of the bookings of the user's items. |
| BookingService.FirstPageListsAll | server/src/main/java/ru/practicum/shareit/booking/service/BookingServiceImpl.java:105-106 | When `from < size` and at most `size` bookings match, the listing holds every matching booking, each as often as it is stored. |
| BookingRepository.BookerMatches | src/main/java/ru/practicum/shareit/booking/repository/BookingRepository.java:16-33 | A booking qualifies for a booker query exactly when it is stored, has that booker, and satisfies the state's predicate. |
| BookingRepository.OwnerMatches | src/main/java/ru/practicum/shareit/booking/repository/BookingRepository.java:35-52 | A booking qualifies for an owner query exactly when it is stored, its item has that owner, and it satisfies the state's predicate. |
| BookingRepository.FindByBooker | src/main/java/ru/practicum/shareit/booking/repository/BookingRepository.java:16-33 | Page `page` holds exactly as many bookings as that page of the booker's matches holds, each a stored booking of the booker in the state, sorted by start descending. |
| BookingRepository.FindByOwner | src/main/java/ru/practicum/shareit/booking/repository/BookingRepository.java:35-52 | Page `page` holds exactly as many bookings as that page of the owner's matches holds, each a stored booking of the owner's items in the state, sorted by start descending. |
| BookingRepository.LaterBookerPages | src/main/java/ru/practicum/shareit/booking/repository/BookingRepository.java:16-33 | For pages `p < q` of a booker listing, the two pages together hold each match at most as often as it is stored, and every start on page `p` is at least every start on page `q`. |
| BookingRepository.LaterOwnerPages | src/main/java/ru/practicum/shareit/booking/repository/BookingRepository.java:35-52 | The same for an owner listing. |
| BookingRepository.ListingsArePagesOfMatches | src/main/java/ru/practicum/shareit/booking/repository/BookingRepository.java:16-52 | Any page is a sub-multiset of the matches. When one page can hold them all, page 0 is exactly the matches, reordered. |
| BookingRepository.StatePredicates | src/main/java/ru/practicum/shareit/booking/repository/BookingRepository.java:16-35 | ALL keeps every booking in scope. CURRENT is `start < now && end > now`, FUTURE `start > now && end > now`, PAST `start < now && end < now`. WAITING and REJECTED keep exactly the bookings with that status. |
| BookingRepository.WindowsDisjoint | server/src/main/java/ru/practicum/shareit/booking/service/BookingServiceImpl.java:112-122 | No booking is in two of CURRENT, FUTURE and PAST at the same instant. |
| BookingRepository.BoundaryInNoWindow | server/src/main/java/ru/practicum/shareit/booking/service/BookingServiceImpl.java:112-122 | A booking that starts or ends exactly now is in none of the three windows. |
| BookingRepository.WindowsCoverProperBookings | server/src/main/java/ru/practicum/shareit/booking/service/BookingServiceImpl.java:112-122 | A booking with start < end whose bounds differ from now is in at least one of the three windows, and so, with WindowsDisjoint, in exactly one. |
| BookingRepository.First | src/main/java/ru/practicum/shareit/booking/repository/BookingRepository.java:54-56 | Under the sort direction, the first element is a member of the list that no other element precedes. It is absent exactly for the empty list. |
| BookingRepository.FindFirstEndedBefore | src/main/java/ru/practicum/shareit/booking/repository/BookingRepository.java:54 | Absent exactly when no stored booking of the item ended before the instant. Otherwise it returns such a booking that comes first under the sort. |
| BookingRepository.FindFirstStartingAfter | src/main/java/ru/practicum/shareit/booking/repository/BookingRepository.java:56 | Absent exactly when no stored booking of the item starts after the instant. Otherwise it returns such a booking that comes first under the sort. |
| BookingRepository.AnyCompleted | src/main/java/ru/practicum/shareit/booking/repository/BookingRepository.java:58-61 | True exactly when some element of the list has the item, booker and status and ended before the instant. |
| BookingRepository.ExistsCompleted | src/main/java/ru/practicum/shareit/booking/repository/BookingRepository.java:58-61 | True exactly when some stored booking matches all four conditions. |
| Validators.CheckDate | gateway/src/main/java/ru/practicum/shareit/validation/CheckDateValidator.java:15-22 | Valid exactly when both instants are present and start is strictly before end. |
| Validators.CheckDateIgnoresItem | gateway/src/main/java/ru/practicum/shareit/validation/CheckDateValidator.java:16-17 | The verdict depends only on the two instants. |
| Validators.CheckDateRejectsEmptyOrInverted | gateway/src/main/java/ru/practicum/shareit/validation/CheckDateValidator.java:21 | A window with start >= end is rejected. |
| Validators.ServiceTimeOk | src/main/java/ru/practicum/shareit/booking/service/BookingServiceImpl.java:63 | The earlier service's time check: the window is refused only when the start is after the end. |
| Validators.GatewayStricterThanService | src/main/java/ru/practicum/shareit/booking/service/BookingServiceImpl.java:63-65 | Every window the gateway accepts, the earlier service accepts too. The empty window is accepted by the service but refused by the gateway. |
| Validators.NotBlankIfNotNull | gateway/src/main/java/ru/practicum/shareit/validation/CheckNotBlankIfNotNullValidator.java:14-20 | `null` is valid and the empty string is invalid. Any other string is valid exactly when some character survives `trim`, meaning some character is above U+0020. |
| Validators.NotBlankIfNotNullByContent | gateway/src/main/java/ru/practicum/shareit/validation/CheckNotBlankIfNotNullValidator.java:18 | A string of characters up to U+0020 only is invalid, and a string holding any character above U+0020 is valid. |
| Text.Trim | gateway/src/main/java/ru/practicum/shareit/validation/CheckNotBlankIfNotNullValidator.java:18 | `trim` returns a contiguous infix. Everything before and after it is at most U+0020, and the infix neither starts nor ends with such a character. |
| Text.TrimNonEmptyIff | gateway/src/main/java/ru/practicum/shareit/validation/CheckNotBlankIfNotNullValidator.java:18 | The trimmed length is positive exactly when some character is above U+0020. |
| Text.JavaWhitespace | src/main/java/ru/practicum/shareit/item/service/ItemServiceImpl.java:78 | The characters `isBlank` treats as whitespace: the Unicode space, line and paragraph separators except the no-break spaces, and the controls U+0009 to U+000D and U+001C to U+001F. |
| Text.Blank | src/main/java/ru/practicum/shareit/item/service/ItemServiceImpl.java:78 | `isBlank`: the string is empty or consists of whitespace only. |
| Text.BlankVersusTrim | src/main/java/ru/practicum/shareit/item/service/ItemServiceImpl.java:78 | On ASCII strings a blank string trims to nothing. In general the two checks differ: U+0000 is trimmed away but is not whitespace, and U+3000 is whitespace that `trim` keeps. |
| Text.ContainsIgnoreCase | src/main/java/ru/practicum/shareit/item/service/ItemServiceImpl.java:85-86 | `containsIgnoreCase`: the text occurs at some position of the string, each character equal or equal after case folding. |
| Text.ContainsIgnoreCaseFacts | src/main/java/ru/practicum/shareit/item/service/ItemServiceImpl.java:85-86 | The empty text occurs in every string, a text never occurs in a shorter string, and an exact occurrence is always found. |
| UserService.CheckUserExist | server/src/main/java/ru/practicum/shareit/booking/service/BookingServiceImpl.java:104 | NotFound exactly when no user has the id. |
| UserService.CreateUser | src/main/java/ru/practicum/shareit/user/service/UserServiceImpl.java:26-31 | The saved user keeps name and email and is stored under the fresh id `counter + 1`, whatever id the body carries. No other user changes. |
| UserService.CreateUserIgnoresBodyId | src/main/java/ru/practicum/shareit/user/repository/UserInMemoryRepositoryImpl.java:37-41 | An id in the create body has no effect: the result is the same as without it, and every stored user is left as it was. |
| UserService.ApplyPatch | src/main/java/ru/practicum/shareit/user/service/UserServiceImpl.java:39 | The null-ignoring copy of the patch onto the stored user; its meaning is stated by PatchSemantics. |
| UserService.PatchSemantics | src/main/java/ru/practicum/shareit/user/service/UserServiceImpl.java:39 | A patch copies exactly its non-null fields. Applying it twice equals applying it once. An empty patch with the same id changes nothing. |
| UserService.PatchUser | src/main/java/ru/practicum/shareit/user/service/UserServiceImpl.java:35-43 | NotFound exactly for an unknown id, with nothing changed. Otherwise the patched user replaces the stored one under that id and no other user changes. |
| UserService.GetUserById | src/main/java/ru/practicum/shareit/user/service/UserServiceImpl.java:46-51 | Returns the stored user when the id exists; otherwise NotFound. |
| UserService.GetAllUsers | src/main/java/ru/practicum/shareit/user/service/UserServiceImpl.java:54-57 | Every stored user, one element per stored id. |
| UserService.DeleteUserById | src/main/java/ru/practicum/shareit/user/service/UserServiceImpl.java:61-67 | NotFound and no change for an unknown id. Otherwise exactly that user is gone and every other user is unchanged. |
| UserService.CreateThenGetThenDelete | src/main/java/ru/practicum/shareit/user/service/UserServiceImpl.java:26-67 | A created user reads back. It can then be deleted, after which reading it gives NotFound. |
| UserRepository.FindById | src/main/java/ru/practicum/shareit/user/repository/UserInMemoryRepositoryImpl.java:24-26 | Present exactly when the map holds the id, and then the user stored under it. |
| UserRepository.Save | src/main/java/ru/practicum/shareit/user/repository/UserInMemoryRepositoryImpl.java:37-41 | The incoming id is discarded and `counter + 1` is stamped, which becomes the new counter. The user reads back under that id, and no other key changes. Keys keep matching ids, and the new id was free. |
| UserRepository.Update | src/main/java/ru/practicum/shareit/user/repository/UserInMemoryRepositoryImpl.java:44-47 | Writes under the user's own id and leaves all other keys and the counter unchanged. |
| UserRepository.Delete | src/main/java/ru/practicum/shareit/user/repository/UserInMemoryRepositoryImpl.java:50-52 | Removes exactly that key. |
| UserRepository.FirstWithEmail | src/main/java/ru/practicum/shareit/user/repository/UserInMemoryRepositoryImpl.java:30-33 | Absent exactly when no element has the email. Otherwise it returns an element with that email. |
| UserRepository.FindByEmail | src/main/java/ru/practicum/shareit/user/repository/UserInMemoryRepositoryImpl.java:29-34 | Empty exactly when no stored user has an equal email. Otherwise it returns a stored user with that email. |
| UserRepository.FindAllStoredUsers | src/main/java/ru/practicum/shareit/user/repository/UserInMemoryRepositoryImpl.java:19-21 | `findAll` has one element per stored id and holds exactly the stored users. |
| UserRepository.FindAllListsStoredUsers | src/main/java/ru/practicum/shareit/user/repository/UserInMemoryRepositoryImpl.java:19-21 | `findAll` has one entry per stored id, and a user is listed exactly when some id holds it. |
| UserRepository.SavesIncrease | src/main/java/ru/practicum/shareit/user/repository/UserInMemoryRepositoryImpl.java:14-16 | Ids from successive saves strictly increase. |
| ItemRepository.FindById | src/main/java/ru/practicum/shareit/item/repository/ItemInMemoryRepository.java:24-26 | Present exactly when the map holds the id, and then the item stored under it. |
| ItemRepository.Save | src/main/java/ru/practicum/shareit/item/repository/ItemInMemoryRepository.java:29-33 | Stamps `counter + 1` on the item, which is otherwise unchanged, and stores it under that id. No other key changes. |
| ItemRepository.Update | src/main/java/ru/practicum/shareit/item/repository/ItemInMemoryRepository.java:36-39 | Overwrites only the entry at the item's id and leaves the counter unchanged. |
| ItemRepository.FindAllStoredItems | src/main/java/ru/practicum/shareit/item/repository/ItemInMemoryRepository.java:19-21 | `findAll` has one element per stored id and holds exactly the stored items. |
| ItemRepository.SavesIncrease | src/main/java/ru/practicum/shareit/item/repository/ItemInMemoryRepository.java:14-16 | Ids from successive saves strictly increase. |
| Stores.FindAllExact | src/main/java/ru/practicum/shareit/user/repository/UserInMemoryRepositoryImpl.java:19-21 | A value is in the listing of the map's values exactly when some key holds it. |
| Stores.NextId | src/main/java/ru/practicum/shareit/user/repository/UserInMemoryRepositoryImpl.java:14-16 | `++currentID` is above the counter, and so it is free whenever all keys came from the counter. |
| Seqs.Filter | src/main/java/ru/practicum/shareit/item/service/ItemServiceImpl.java:69-72 | A stream filter keeps exactly the elements satisfying the predicate and never grows. |
| Seqs.FilterKeepsOrder | src/main/java/ru/practicum/shareit/item/service/ItemServiceImpl.java:69-72 | A stream filter keeps the relative order of the elements it keeps: the result is a subsequence of the input. |
| Seqs.FilterAppend | src/main/java/ru/practicum/shareit/item/service/ItemServiceImpl.java:83-90 | Filtering distributes over concatenation, so a loop over the items can filter one element at a time. |
| Seqs.FilterStep | src/main/java/ru/practicum/shareit/item/service/ItemServiceImpl.java:83-90 | One loop step: the filtered prefix grows by the next element exactly when the predicate accepts it. |
| Seqs.FilterCounts | src/main/java/ru/practicum/shareit/item/service/ItemServiceImpl.java:69-72 | A filter keeps every accepted element as often as it occurs and drops every other element entirely. |
| Seqs.FilterPartition | src/main/java/ru/practicum/shareit/request/service/ItemRequestServiceImpl.java:72-82 | A predicate and its complement split a list into two parts that share nothing and together hold every element as often as the list does. |
| Seqs.FilterNone | src/main/java/ru/practicum/shareit/request/service/ItemRequestServiceImpl.java:94-99 | When no element is accepted, the filter gives the empty list. |
| Seqs.FilterNarrow | src/main/java/ru/practicum/shareit/request/service/ItemRequestServiceImpl.java:90-94 | Narrowing a filtered list by a stronger predicate is filtering by that predicate alone. |
| Seqs.SortDesc | src/main/java/ru/practicum/shareit/request/service/ItemRequestServiceImpl.java:72 | The output is sorted by the key, largest first, and is a permutation of the input. |
| Seqs.PageIndex | server/src/main/java/ru/practicum/shareit/booking/service/BookingServiceImpl.java:105-106 | The page `from / size` is the page whose range of offsets contains `from`. |
| Seqs.SortedPage | server/src/main/java/ru/practicum/shareit/booking/service/BookingServiceImpl.java:105-106 | Page `p` holds exactly as many elements as that page has (`size` for a full page, the remainder for the last, none beyond), and it is a sorted sub-multiset of the input. |
| Seqs.OffsetIsProduct | server/src/main/java/ru/practicum/shareit/booking/service/BookingServiceImpl.java:105-106 | Page `p` of `PageRequest.of(p, size)` starts at offset `p * size`: the recursive start position `Offset` used by the paging contracts is that product. |
| Seqs.LaterPageStartsAfter | server/src/main/java/ru/practicum/shareit/booking/service/BookingServiceImpl.java:105-106 | A later page starts no earlier than the end of an earlier one. |
| Seqs.SortedPageAt | server/src/main/java/ru/practicum/shareit/booking/service/BookingServiceImpl.java:105-106 | Page `p` holds the elements at positions `Offset(p, size)` (which `Seqs.OffsetIsProduct` shows is `p * size`) onwards of the descending order: element `i` of page `p` is element `Offset(p, size) + i` of the input in descending order. |
| Seqs.SlicesDisjoint | server/src/main/java/ru/practicum/shareit/booking/service/BookingServiceImpl.java:105-106 | Two distinct pages of any list share no position, so together they hold no element more often than the list does. |
| Seqs.PagesDisjoint | server/src/main/java/ru/practicum/shareit/booking/service/BookingServiceImpl.java:105-106 | Two different pages together hold no element more often than the input does. |
| Seqs.PagesInOrder | server/src/main/java/ru/practicum/shareit/booking/service/BookingServiceImpl.java:105-106 | For pages `p < q`, every key on page `p` is at least every key on page `q`. |
| Seqs.FirstPageHoldsAll | server/src/main/java/ru/practicum/shareit/booking/service/BookingServiceImpl.java:105-106 | When everything fits on one page, page 0 is a permutation of the input. |
| Seqs.ConsecutivePages | server/src/main/java/ru/practicum/shareit/booking/service/BookingServiceImpl.java:105-106 | Two consecutive pages tile the slice they cover, with no gap and no overlap. |
| Seqs.PageOffsetRoundsDown | server/src/main/java/ru/practicum/shareit/booking/service/BookingServiceImpl.java:105-106 | An offset that is not a multiple of `size` is rounded down to the start of its page. |
| ItemService.CreateItem | src/main/java/ru/practicum/shareit/item/service/ItemServiceImpl.java:29-38 | NotFound and nothing saved for an unknown user. Otherwise the item is saved under a fresh id, owned by that user and linked to no request. No other item changes. |
| ItemService.ApplyPatch | src/main/java/ru/practicum/shareit/item/service/ItemServiceImpl.java:48-53 | The null-ignoring copy of name, description and availability onto the stored item; its meaning is stated by PatchSemantics. |
| ItemService.PatchSemantics | src/main/java/ru/practicum/shareit/item/service/ItemServiceImpl.java:48-53 | Each of name, description and availability is overwritten only when the patch field is non-null. Id, owner and request link never change. A patch is idempotent, and the empty patch is the identity. |
| ItemService.PatchItem | src/main/java/ru/practicum/shareit/item/service/ItemServiceImpl.java:41-57 | A missing item gives NotFound. An existing item not owned by the caller gives Authorization. Both leave the store unchanged. Otherwise the patched item is written back under its own id and nothing else changes. |
| ItemService.GetItemById | src/main/java/ru/practicum/shareit/item/service/ItemServiceImpl.java:60-65 | Returns the stored item when the id exists; otherwise NotFound. |
| ItemService.GetItemsByUserId | src/main/java/ru/practicum/shareit/item/service/ItemServiceImpl.java:68-74 | Exactly the stored items of that owner, each as often as stored, in `findAll` order. |
| ItemService.OwnerListingsPartition | src/main/java/ru/practicum/shareit/item/service/ItemServiceImpl.java:68-72 | An item is listed for a user exactly when it is stored with that owner. Two different users' listings share no item. |
| ItemService.SearchResult | src/main/java/ru/practicum/shareit/item/service/ItemServiceImpl.java:77-92 | Blank text finds nothing. Otherwise an item is found exactly when it is stored, explicitly available, and its description or name contains the text ignoring case. The hits come in `findAll` order. |
| ItemService.CollectMatches | src/main/java/ru/practicum/shareit/item/service/ItemServiceImpl.java:83-90 | The loop keeps exactly the items the test accepts, in input order. |
| ItemService.SearchItems | src/main/java/ru/practicum/shareit/item/service/ItemServiceImpl.java:77-92 | The loop-based search returns exactly the reference answer SearchResult. |
| ItemService.SearchFindsOnlyAvailable | src/main/java/ru/practicum/shareit/item/service/ItemServiceImpl.java:84-87 | Every hit has `available == TRUE` and contains the text in its description or name, so the text was not blank. An item whose flag is `FALSE` or `null` is never found. |
| ItemRequestService.Create | src/main/java/ru/practicum/shareit/request/service/ItemRequestServiceImpl.java:46-55 | NotFound and nothing saved for an unknown user. Otherwise the request, with that user as requester and stamped with the creation instant, is stored under a fresh id. |
| ItemRequestService.ItemsFor | src/main/java/ru/practicum/shareit/request/service/ItemRequestServiceImpl.java:64 | Exactly the stored items linked to the request, each as often as `findAll` lists it, in `findAll` order. |
| ItemRequestService.GetById | src/main/java/ru/practicum/shareit/request/service/ItemRequestServiceImpl.java:58-67 | An unknown user (checked first) or a missing request gives NotFound. Otherwise the stored request comes back with exactly the items linked to its id, each as often as `findAll` lists it. |
| ItemRequestService.Group | src/main/java/ru/practicum/shareit/request/service/ItemRequestServiceImpl.java:90-92 | `groupingBy` on the request id: each id maps to its items in encounter order. Its meaning is stated by GroupIsFilter. |
| ItemRequestService.Lookup | src/main/java/ru/practicum/shareit/request/service/ItemRequestServiceImpl.java:94-99 | A request id missing from the grouping reads as the empty list, as the `null` branch sets. |
| ItemRequestService.GroupIsFilter | src/main/java/ru/practicum/shareit/request/service/ItemRequestServiceImpl.java:90-92 | Grouping keeps, under each request id, exactly the items linked to it, in order. A missing key reads as the empty list. |
| ItemRequestService.GroupOfLinkedIsItemsFor | src/main/java/ru/practicum/shareit/request/service/ItemRequestServiceImpl.java:90-99 | Grouping the items of all the listed requests gives each request what a direct query for that request returns. |
| ItemRequestService.Linked | src/main/java/ru/practicum/shareit/request/service/ItemRequestServiceImpl.java:90 | Every item fetched for a list of requests is linked to one of them. |
| ItemRequestService.SetItemsToRequestDto | src/main/java/ru/practicum/shareit/request/service/ItemRequestServiceImpl.java:89-101 | There is one view per request, in order. Each holds exactly the stored items linked to its request. |
| ItemRequestService.UnansweredRequestHasNoItems | src/main/java/ru/practicum/shareit/request/service/ItemRequestServiceImpl.java:94-99 | A request that no stored item answers gets the empty list, never a missing one. |
| ItemRequestService.OwnRequests | src/main/java/ru/practicum/shareit/request/service/ItemRequestServiceImpl.java:72 | Exactly the stored requests of the user. |
| ItemRequestService.OthersRequests | src/main/java/ru/practicum/shareit/request/service/ItemRequestServiceImpl.java:82 | Exactly the stored requests of everybody else. |
| ItemRequestService.OwnAndOthersPartition | src/main/java/ru/practicum/shareit/request/service/ItemRequestServiceImpl.java:72-82 | A user's own requests and everybody else's together make up all stored requests, with no overlap. |
| ItemRequestService.GetOwn | src/main/java/ru/practicum/shareit/request/service/ItemRequestServiceImpl.java:70-76 | An unknown user gives NotFound. Otherwise all of the user's requests as a permutation, newest first, each with its linked items. |
| ItemRequestService.GetAll | src/main/java/ru/practicum/shareit/request/service/ItemRequestServiceImpl.java:79-87 | An unknown user gives NotFound. Otherwise page `from / size` of the other users' requests: exactly as many as that page holds, each stored and not the user's own, newest first, each with its linked items. |
| ItemRequestService.GetAllPagesInOrder | src/main/java/ru/practicum/shareit/request/service/ItemRequestServiceImpl.java:81-82 | A later page never shows a request an earlier page showed, beyond its multiplicity, and holds only requests created no later than every request on the earlier page. |
| ItemRequestService.GetAllFirstPageComplete | src/main/java/ru/practicum/shareit/request/service/ItemRequestServiceImpl.java:81-82 | When `from < size` and everyone else's requests fit on one page, that page holds all of them. |

## Left out

- Controllers, REST clients, exception handlers and HTTP status mapping are not modelled. Errors are the typed `Error` values instead.
- The gateway's parsing of an unknown state string is not modelled. `BookingState.from` is not part of this model.
- MapStruct mappers are not modelled. They are treated as field copies, and the null-ignoring patch is modelled in `ApplyPatch`.
- DTO classes and service interfaces are not modelled; they are plain data and signatures.
- `ItemRepository.search`, the JPQL `LIKE`/`upper` query, is not modelled. Search is modelled once, through `searchItems`.
- `findByItemInAndEndIsBefore` and `findByItemInAndStartIsAfter` are not modelled. They are list variants of the `findFirst...` queries, and no modelled operation calls them.
- `checkUserExist`'s body is not modelled. It is taken to be NotFound unless a user has this id.
- Transactions, concurrent approvals and logging are not modelled; the model is sequential.
- The clock is not read. `LocalDateTime.now()` becomes a `now` parameter, taken once per listing, and the creation instant of a request becomes a parameter too.
- Time values are integers. Calendar arithmetic never occurs in the modelled code.
- Ids are unbounded. Overflow of the `long` counter after 2^63 saves is not modelled.
- `from / size` with `size == 0` throws `ArithmeticException`. The listings require `size >= 1`, which the gateway enforces.
- Both snapshots of the listings are modelled by one pair of functions. The earlier snapshot's strategy map and the final snapshot's `switch` select the same repository query for each state.
- `Text.ContainsIgnoreCase`: Java's Unicode case mapping is not modelled. Case folding is an abstract `fold: char -> char` parameter.
- UserRepository.FindByEmail: `findAny` may return any matching user. The model returns the one in the first position of `findAll`, and its contract promises only some stored user with that email.
- UserRepository.FindAllStoredUsers: states the length and the membership of `findAll`, not the multiplicity of a user stored under two keys.
- UserRepository.FindAllListsStoredUsers: the same, for every user at once.
- ItemRepository.FindAllStoredItems: states the length and the membership of `findAll`, not the multiplicity of an item stored under two keys.
- BookingService.ListForUser: requires `from >= 0`, which the gateway's `@Min(0)` enforces. Java's truncating `from / size` would give page 0 for `-size < from < 0`, and a negative page below that; neither is modelled.
- BookingService.ListForOwner: requires `from >= 0`, for the same reason as ListForUser.
- ItemRequestService.GetAll: requires `from >= 0`, for the same reason as ListForUser.
- A `Booking` holds value copies of its item and booker, where JPA holds references. A later patch of the user or the item is therefore not visible through bookings stored before it.
- BookingService.Create: the instants of `NewBooking` are always present. The server's `create` does no null check itself; in the gateway a null instant is rejected by the class-level `CheckDateValidator` (gateway/src/main/java/ru/practicum/shareit/validation/CheckDateValidator.java:18-20), modelled by `Validators.CheckDate`. A null instant reaching the server is not modelled.
- Validators.CheckDate: the gateway's field constraints on `CreateBookingDto`, `@FutureOrPresent` on `start` and `@Future` on `end`, are not modelled, because they compare with the clock; only the class-level start-before-end check is.
- UserService.CreateUser: follows the in-memory `save`, which stamps a fresh id over any id in the body, so a create never touches a stored user. Under a JPA repository `save` of an entity carrying an existing id would update that user; that case is not modelled.
- BookingService.ListForUserPagesInOrder, BookingService.ListForOwnerPagesInOrder, BookingRepository.LaterBookerPages, BookingRepository.LaterOwnerPages, ItemRequestService.GetAllPagesInOrder: the disjointness half holds because every page is cut from one sorted list with one tie order. The source runs one query per page, and `ORDER BY ... LIMIT/OFFSET` does not fix the order of equal keys across queries, so with equal keys two pages may repeat or skip an element. The key-order half does not depend on ties.
- BookingRepository.First: the `Sort` argument of the `findFirst...` queries is restricted to ordering on `start`, in either direction. Other sort properties are not modelled.
- ItemService.CreateItem: the mapper ignores the request link when building the entity, so the created item is linked to no request.
