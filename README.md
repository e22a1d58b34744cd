# ShareIt: a verified model of the booking, store and request rules

ShareIt is a web service where users lend items to each other. Owners list
items. Other users book them for a time interval, and the owner approves or
rejects each booking. Users can also post requests for items nobody offers
yet, and others answer by listing matching items. The repository holds two
snapshots of the application:

- `server/` is the current one, over JPA tables;
- `src/` is an older one, partly over in-memory hash maps.

The two snapshots disagree in places, so this model keeps them in separate
modules.

This Dafny project models the rules of that service:

- **Booking engine** (both snapshots):
  - the guards of `createBooking`, in their fixed order, and their error kinds;
  - the one-time decision `updateBooking` makes;
  - who may read a booking;
  - how a `state` string selects and orders the bookings a user or an owner sees.
- **Booking repositories**: each derived query of both snapshots is a filter of
  the booking table, a sort by one column, or a pick of the greatest or least
  row. Each is proved exact: the rows it returns, with their multiplicities,
  in the promised order.
- **User services and stores**:
  - the partial updates of both user services, where a field applies only
    when it is non-null and non-blank;
  - email uniqueness, checked against every stored user, the updated one
    included;
  - the older in-memory user store with its id counter and its loop over all
    users;
  - a duplicate email changes nothing, except in the older service, where an
    update has already stored the new name when the email check fails.
- **Older item service and store**: owner-only updates that overwrite every
  editable field, with ids from a counter.
- **Item requests** (server): answers are grouped by request id, and each group
  is attached to its request. The requests stay in created-descending order.

Model conventions:

- Times are integers on one clock. The current time is a parameter `now`.
- A nullable id is an `Option<nat>`.
- Each exception class is an `Error` tag in a `Result`.
- A JPA table whose ids come from an identity column is a sequence whose row
  `i` has id `i + 1`.
- A Java `HashMap` store is a `map` field of a class, next to its counter field.

Modules, one per source file (plus three shared ones):

| module | file | models |
|---|---|---|
| `Common` | common.dfy | Option, Result, error kinds, `String.isBlank`, `String.toUpperCase` |
| `Sorting` | sorting.dfy | filtering a table, stable ordering by one key, "top" queries |
| `Entities` | entities.dfy | Status, User, Item, Booking and the booking DTOs |
| `BookingMapper` | booking_mapper.dfy | src/main/java/ru/practicum/shareit/booking/BookingMapper.java |
| `BookingRules` | booking_rules.dfy | the guards both BookingServiceImpl snapshots share word for word |
| `ServerBookingRepository` | server_booking_repository.dfy | server/src/main/java/ru/practicum/shareit/booking/BookingRepository.java |
| `ServerBookingService` | server_booking_service.dfy | server/src/main/java/ru/practicum/shareit/booking/BookingServiceImpl.java |
| `LegacyBookingRepository` | legacy_booking_repository.dfy | src/main/java/ru/practicum/shareit/booking/BookingRepository.java |
| `LegacyBookingService` | legacy_booking_service.dfy | src/main/java/ru/practicum/shareit/booking/BookingServiceImpl.java |
| `ServerUserService` | server_user_service.dfy | server/src/main/java/ru/practicum/shareit/user/UserServiceImpl.java |
| `LegacyUserRepository` | legacy_user_repository.dfy | src/main/java/ru/practicum/shareit/user/UserRepository.java |
| `LegacyUserService` | legacy_user_service.dfy | src/main/java/ru/practicum/shareit/user/UserServiceImpl.java |
| `LegacyItemRepository` | legacy_item_repository.dfy | src/main/java/ru/practicum/shareit/item/ItemRepository.java |
| `LegacyItemService` | legacy_item_service.dfy | src/main/java/ru/practicum/shareit/item/ItemServiceImpl.java |
| `ServerItemRequestService` | server_item_request_service.dfy | server/src/main/java/ru/practicum/shareit/request/ItemRequestServiceImpl.java |

Where the code and the repository's other files disagree, the model follows the code.

- **Owner booking their own item.** The server's test
  (server/src/test/java/ru/practicum/shareit/booking/BookingServiceImplTest.java:122-134)
  expects NotFound when an owner books their own available item with a
  proper interval, and the model gives NotFound there. The code's guard
  order decides the other cases. The availability and interval checks run
  first, so an owner booking an unavailable item, or with a bad interval,
  gets Validation (`BookingRules.OwnerCannotBook`).
- **BookingDto fields.** `src/.../booking/dto/BookingDto.java` declares
  `itemId` and `bookerId`. `BookingMapper.toBookingDto` builds it with the
  item and the booker instead. The model follows the mapper.
- **Item owner.** `src/.../item/Item.java` has a `User owner`. The older
  `ItemServiceImpl` and `ItemRepository` use an `ownerId`. The model follows
  the service and the store.
- **Statuses CURRENT, PAST and FUTURE.** The older `checkBooking(String)`
  returns these, but the `BookingStatus` enum of that snapshot does not
  declare them. The model gives them their own filter values. No stored
  booking matches them.

## Model

| member | source | states |
|---|---|---|
| `Common.UpperCaseIgnoresCase` | server/src/main/java/ru/practicum/shareit/booking/BookingServiceImpl.java:75 | strings equal up to ASCII case upper-case to the same string, so the state switch ignores case |
| `Sorting.FilterCounts` | server/src/main/java/ru/practicum/shareit/booking/BookingRepository.java:42 | a query's condition keeps each qualifying row as often as the table holds it and no other row |
| `Sorting.SortDesc` | server/src/main/java/ru/practicum/shareit/booking/BookingServiceImpl.java:71 | `Sort.by(DESC, key)`: the result is ordered greatest key first and is a permutation of the input |
| `Sorting.SelectExact` | server/src/main/java/ru/practicum/shareit/booking/BookingRepository.java:15-33 | a derived query returns exactly the rows meeting its condition, each as often as stored, ordered by the sort key |
| `Sorting.TopOfSelect` | server/src/main/java/ru/practicum/shareit/booking/BookingRepository.java:35-40 | a `findTop` query is empty iff no row qualifies, and otherwise returns a qualifying row with the greatest key |
| `Sorting.FilterOfFilter` | server/src/main/java/ru/practicum/shareit/request/ItemRequestServiceImpl.java:45-54 | narrowing a selection by a stricter condition gives the rows the stricter condition alone selects, in the same order |
| `BookingMapper.ToBookingDto` | src/main/java/ru/practicum/shareit/booking/BookingMapper.java:13-22 | the DTO has the booking's id, start, end, item, booker and status |
| `BookingMapper.ToBooking` | src/main/java/ru/practicum/shareit/booking/BookingMapper.java:24-31 | a new booking is WAITING, has no id yet, copies start and end, and carries the given item and booker |
| `BookingMapper.ToBookingDtoInjective` | src/main/java/ru/practicum/shareit/booking/BookingMapper.java:13-22 | distinct bookings give distinct DTOs, so counting DTOs counts bookings |
| `BookingMapper.NewBookingDto` | src/main/java/ru/practicum/shareit/booking/BookingMapper.java:24-31 | `toBookingDto(toBooking(d, i, u))` has d's start and end, status WAITING and no id |
| `BookingMapper.ToDtos` | server/src/main/java/ru/practicum/shareit/booking/BookingServiceImpl.java:87-89 | mapping a list keeps its length and position by position converts each booking; each DTO occurs as often as its booking |
| `BookingMapper.ToDtosKeepsOrder` | server/src/main/java/ru/practicum/shareit/booking/BookingServiceImpl.java:87-89 | a list ordered by start, latest first, stays so ordered after mapping |
| `BookingRules.CheckId` | server/src/main/java/ru/practicum/shareit/booking/BookingServiceImpl.java:149-154 | fails with Validation exactly when the id is null |
| `BookingRules.FindUser` | server/src/main/java/ru/practicum/shareit/booking/BookingServiceImpl.java:116-121 | null id: Validation, before any lookup; unknown user: EntityNotFound; otherwise the stored user |
| `BookingRules.FindItem` | server/src/main/java/ru/practicum/shareit/booking/BookingServiceImpl.java:123-128 | null id: Validation; unknown item: NotFound; otherwise the stored item |
| `BookingRules.FindRow` | server/src/main/java/ru/practicum/shareit/booking/BookingServiceImpl.java:145-146 | `findById`: nothing iff no row has the id; otherwise a stored row with that id |
| `BookingRules.FindBooking` | server/src/main/java/ru/practicum/shareit/booking/BookingServiceImpl.java:142-147 | null id: Validation; succeeds iff a stored booking has the id, else NotFound |
| `BookingRules.CheckBooking` | server/src/main/java/ru/practicum/shareit/booking/BookingServiceImpl.java:130-140 | in order: unavailable item, Validation; start not strictly before end, Validation; caller owns the item, NotFound; passes iff none applies |
| `BookingRules.CheckCreation` | server/src/main/java/ru/practicum/shareit/booking/BookingServiceImpl.java:31-34 | createBooking's guards in order: caller (Validation, EntityNotFound), then item (Validation, NotFound), then checkBooking |
| `BookingRules.OwnerCannotBook` | server/src/main/java/ru/practicum/shareit/booking/BookingServiceImpl.java:130-140 | an owner's booking of their own item always fails: NotFound iff the item is available and the interval proper, Validation otherwise |
| `BookingRules.BadRequestsRejected` | server/src/main/java/ru/practicum/shareit/booking/BookingServiceImpl.java:131-136 | an unavailable item or an interval with start >= end (equal times included) fails with Validation |
| `BookingRules.Decide` | server/src/main/java/ru/practicum/shareit/booking/BookingServiceImpl.java:45-52 | a non-WAITING booking: Validation (checked first); a caller other than the owner, the booker included: Validation; success iff waiting and owner, setting APPROVED or REJECTED and changing nothing else |
| `BookingRules.DecidedOnce` | server/src/main/java/ru/practicum/shareit/booking/BookingServiceImpl.java:45-47 | a decided booking can never be decided again, by anyone, either way |
| `BookingRules.CheckDecision` | server/src/main/java/ru/practicum/shareit/booking/BookingServiceImpl.java:41-50 | updateBooking's guards: caller, booking, then the decision; a success decides a stored booking with the requested id |
| `BookingRules.CheckView` | server/src/main/java/ru/practicum/shareit/booking/BookingServiceImpl.java:57-65 | getBookingById's guards: caller, booking, then booker-or-owner, else Validation |
| `BookingRules.ViewExactlyBookerOrOwner` | server/src/main/java/ru/practicum/shareit/booking/BookingServiceImpl.java:61-65 | an existing caller reads a stored booking iff they are its booker or its item's owner; anyone else gets Validation |
| `ServerBookingRepository.FindAllByBookerId` | server/src/main/java/ru/practicum/shareit/booking/BookingRepository.java:15 | exactly the booker's bookings, latest start first; the older snapshot's src/main/java/ru/practicum/shareit/booking/BookingRepository.java:10 (findByBookerIdOrderByStartDesc) is the same query |
| `ServerBookingRepository.FindAllByBookerIdAndEndAfter` | server/src/main/java/ru/practicum/shareit/booking/BookingRepository.java:17 | exactly the booker's bookings with end strictly after now, latest start first |
| `ServerBookingRepository.FindAllByBookerIdAndEndBefore` | server/src/main/java/ru/practicum/shareit/booking/BookingRepository.java:19 | exactly the booker's bookings with end strictly before now, latest start first |
| `ServerBookingRepository.FindAllByBookerIdAndStartAfter` | server/src/main/java/ru/practicum/shareit/booking/BookingRepository.java:21 | exactly the booker's bookings with start strictly after now, latest start first |
| `ServerBookingRepository.FindAllByBookerIdAndStatus` | server/src/main/java/ru/practicum/shareit/booking/BookingRepository.java:23 | exactly the booker's bookings in the status, latest start first |
| `ServerBookingRepository.FindAllByItemOwnerId` | server/src/main/java/ru/practicum/shareit/booking/BookingRepository.java:25 | exactly the bookings of the owner's items, latest start first; the older snapshot's src/main/java/ru/practicum/shareit/booking/BookingRepository.java:14 (findByItemOwnerIdOrderByStartDesc) is the same query |
| `ServerBookingRepository.FindAllByItemOwnerIdAndEndAfter` | server/src/main/java/ru/practicum/shareit/booking/BookingRepository.java:27 | exactly the owner's bookings with end strictly after now, latest start first |
| `ServerBookingRepository.FindAllByItemOwnerIdAndEndBefore` | server/src/main/java/ru/practicum/shareit/booking/BookingRepository.java:29 | exactly the owner's bookings with end strictly before now, latest start first |
| `ServerBookingRepository.FindAllByItemOwnerIdAndStartAfter` | server/src/main/java/ru/practicum/shareit/booking/BookingRepository.java:31 | exactly the owner's bookings with start strictly after now, latest start first |
| `ServerBookingRepository.FindAllByItemOwnerIdAndStatus` | server/src/main/java/ru/practicum/shareit/booking/BookingRepository.java:33 | exactly the owner's bookings in the status, latest start first |
| `ServerBookingRepository.FindTopByItemIdAndItemOwnerIdAndEndBeforeAndStatusOrderByEndDesc` | server/src/main/java/ru/practicum/shareit/booking/BookingRepository.java:35-37 | empty iff no booking of the item and owner has the status and ended before now; otherwise such a booking with the greatest end |
| `ServerBookingRepository.FindTopByItemIdAndItemOwnerIdAndStartAfterOrderByStartAsc` | server/src/main/java/ru/practicum/shareit/booking/BookingRepository.java:39-40 | empty iff no booking of the item and owner starts after now; otherwise such a booking with the least start, whatever its status |
| `ServerBookingRepository.FindAllByItemIdAndBookerIdAndEndBefore` | server/src/main/java/ru/practicum/shareit/booking/BookingRepository.java:42 | exactly the booker's bookings of the item that ended before now, of any status; the older snapshot's src/main/java/ru/practicum/shareit/booking/BookingRepository.java:23 is the same query |
| `ServerBookingRepository.FindAllByItemInAndStatusOrderByStartAsc` | server/src/main/java/ru/practicum/shareit/booking/BookingRepository.java:44 | exactly the bookings of the listed items in the status, earliest start first |
| `ServerBookingRepository.EndingNowNeitherCurrentNorPast` | server/src/main/java/ru/practicum/shareit/booking/BookingRepository.java:17-29 | a booking ending exactly at now is in none of the EndAfter and EndBefore results |
| `ServerBookingService.ParseState` | server/src/main/java/ru/practicum/shareit/booking/BookingServiceImpl.java:75-85 | accepts exactly the strings whose upper case names ALL, CURRENT, PAST, FUTURE, WAITING or REJECTED; anything else is IllegalArgument |
| `ServerBookingService.ParseStateRoundTrip` | server/src/main/java/ru/practicum/shareit/booking/BookingServiceImpl.java:75-83 | each selectable state parses back from its own name |
| `ServerBookingService.ParseStateIgnoresCase` | server/src/main/java/ru/practicum/shareit/booking/BookingServiceImpl.java:75 | strings equal up to case parse alike |
| `ServerBookingService.LowerCaseStateAccepted` | server/src/main/java/ru/practicum/shareit/booking/BookingServiceImpl.java:75-77 | "current" selects CURRENT |
| `ServerBookingService.ApprovedIsNoState` | server/src/main/java/ru/practicum/shareit/booking/BookingServiceImpl.java:75-84 | a state string whose upper case is APPROVED, "approved" included, is rejected with IllegalArgument: approved bookings cannot be listed on their own |
| `ServerBookingService.BookerQuery` | server/src/main/java/ru/practicum/shareit/booking/BookingServiceImpl.java:75-85 | each state runs the query that lists exactly the booker's bookings in that state, latest start first |
| `ServerBookingService.OwnerQuery` | server/src/main/java/ru/practicum/shareit/booking/BookingServiceImpl.java:99-109 | each state runs the query that lists exactly the owner's bookings in that state, latest start first |
| `ServerBookingService.BookingService.CreateBooking` | server/src/main/java/ru/practicum/shareit/booking/BookingServiceImpl.java:30-37 | on a failed guard nothing is stored; otherwise one WAITING booking is appended with the next id, the caller as booker and the input's start and end |
| `ServerBookingService.BookingService.UpdateBooking` | server/src/main/java/ru/practicum/shareit/booking/BookingServiceImpl.java:39-54 | on a failed guard nothing changes; otherwise only the booking with the id is replaced by its decision; rows no longer WAITING never change |
| `BookingRules.ViewBooking` | server/src/main/java/ru/practicum/shareit/booking/BookingServiceImpl.java:56-66 | getBookingById: error kinds in guard order; a result is the DTO of a stored booking with the id that the caller may view; the older snapshot's getBookingById, src/main/java/ru/practicum/shareit/booking/BookingServiceImpl.java:54-64, is word for word the same |
| `ServerBookingService.BookingService.OnlyBookerOrOwnerReads` | server/src/main/java/ru/practicum/shareit/booking/BookingServiceImpl.java:61-65 | for a stored booking and an existing caller: success iff booker or owner, and then its DTO; otherwise Validation |
| `ServerBookingService.BookingService.GetBookingsByUser` | server/src/main/java/ru/practicum/shareit/booking/BookingServiceImpl.java:68-90 | succeeds iff the caller exists and the state parses; then exactly the DTOs of the caller's bookings in that state, latest start first |
| `ServerBookingService.BookingService.GetBookingsByOwner` | server/src/main/java/ru/practicum/shareit/booking/BookingServiceImpl.java:92-114 | the same for the bookings of the caller's items |
| `ServerBookingService.BookingService.FutureIsListedAsCurrent` | server/src/main/java/ru/practicum/shareit/booking/BookingServiceImpl.java:77-79 | as stored intervals are proper, every booking FUTURE lists is listed by CURRENT too |
| `LegacyBookingRepository.FindByBookerIdAndStatusOrderByStartDesc` | src/main/java/ru/practicum/shareit/booking/BookingRepository.java:12 | exactly the booker's bookings with the status, latest start first |
| `LegacyBookingRepository.FindByItemOwnerIdAndStatusOrderByStartDesc` | src/main/java/ru/practicum/shareit/booking/BookingRepository.java:16 | exactly the owner's bookings with the status, latest start first |
| `LegacyBookingRepository.FindTopByItemIdAndEndBeforeAndStatusOrderByEndDesc` | src/main/java/ru/practicum/shareit/booking/BookingRepository.java:18-19 | last booking: empty iff none of the item has the status and ended before now; otherwise such a booking with the greatest end |
| `LegacyBookingRepository.FindTopByItemIdAndStartAfterOrderByStartAsc` | src/main/java/ru/practicum/shareit/booking/BookingRepository.java:21 | next booking: empty iff none of the item starts after now; otherwise such a booking with the least start, any status |
| `LegacyBookingRepository.UnstoredStatusFindsNothing` | src/main/java/ru/practicum/shareit/booking/BookingRepository.java:12-16 | asked for CURRENT, PAST or FUTURE, the status queries return nothing |
| `LegacyBookingService.CheckState` | src/main/java/ru/practicum/shareit/booking/BookingServiceImpl.java:140-149 | a filter iff the upper-cased string names CURRENT, PAST, FUTURE, WAITING or REJECTED; otherwise null, never an error |
| `LegacyBookingService.CheckStateRoundTrip` | src/main/java/ru/practicum/shareit/booking/BookingServiceImpl.java:141-146 | each listable filter is found from its own name |
| `LegacyBookingService.CheckStateIgnoresCase` | src/main/java/ru/practicum/shareit/booking/BookingServiceImpl.java:141 | strings equal up to case map alike |
| `LegacyBookingService.AllMeansNoFilter` | src/main/java/ru/practicum/shareit/booking/BookingServiceImpl.java:141-148 | "ALL" and "all" map to null, as garbage does |
| `LegacyBookingService.BookerQuery` | src/main/java/ru/practicum/shareit/booking/BookingServiceImpl.java:72-76 | null filter: all the booker's bookings; otherwise those with the status; latest start first |
| `LegacyBookingService.OwnerQuery` | src/main/java/ru/practicum/shareit/booking/BookingServiceImpl.java:89-93 | the same over the bookings of the owner's items |
| `LegacyBookingService.BookingService.CreateBooking` | src/main/java/ru/practicum/shareit/booking/BookingServiceImpl.java:27-35 | as in the server snapshot: nothing stored on a failed guard, else one WAITING booking under the next id |
| `LegacyBookingService.BookingService.UpdateBooking` | src/main/java/ru/practicum/shareit/booking/BookingServiceImpl.java:37-52 | as in the server snapshot: only the booking with the id changes, and only while WAITING |
| `LegacyBookingService.BookingService.GetBookingsByUser` | src/main/java/ru/practicum/shareit/booking/BookingServiceImpl.java:66-81 | succeeds iff the caller exists, whatever the state; exactly the caller's bookings matching the filter, latest start first |
| `LegacyBookingService.BookingService.GetBookingsByOwner` | src/main/java/ru/practicum/shareit/booking/BookingServiceImpl.java:83-98 | the same for the bookings of the caller's items |
| `LegacyBookingService.BookingService.TimeStatesListNothing` | src/main/java/ru/practicum/shareit/booking/BookingServiceImpl.java:142-144 | asked for CURRENT, PAST or FUTURE, an existing caller always gets an empty list |
| `ServerUserService.GetUser` | server/src/main/java/ru/practicum/shareit/user/UserServiceImpl.java:52-58 | null id: Validation; unknown id: NotFound; otherwise the stored user |
| `ServerUserService.Patch` | server/src/main/java/ru/practicum/shareit/user/UserServiceImpl.java:42-48 | name and email change only when the DTO's value is non-null and non-blank; the id never changes |
| `ServerUserService.Update` | server/src/main/java/ru/practicum/shareit/user/UserServiceImpl.java:37-50 | succeeds iff the user exists and no present email is stored yet, the user's own included; the result is the patched user |
| `ServerUserService.OwnEmailRejected` | server/src/main/java/ru/practicum/shareit/user/UserServiceImpl.java:45-48 | updating a user's email to the one they already have fails with DuplicatedData |
| `ServerUserService.UpdateKeepsEmailsUnique` | server/src/main/java/ru/practicum/shareit/user/UserServiceImpl.java:45-49 | saving a successful update keeps all emails distinct and keeps the user under their id |
| `ServerUserService.UserService.CreateUser` | server/src/main/java/ru/practicum/shareit/user/UserServiceImpl.java:28-35 | a stored email: DuplicatedData and no change; otherwise exactly one new user under a fresh id; emails stay unique |
| `ServerUserService.UserService.UpdateUser` | server/src/main/java/ru/practicum/shareit/user/UserServiceImpl.java:37-50 | saves Update's result under the user's id and nothing else; saves nothing on failure |
| `ServerUserService.UserService.GetUserById` | server/src/main/java/ru/practicum/shareit/user/UserServiceImpl.java:52-58 | Validation on null, NotFound on an absent id, otherwise the stored user |
| `ServerUserService.UserService.DeleteUser` | server/src/main/java/ru/practicum/shareit/user/UserServiceImpl.java:60-66 | an absent id fails and changes nothing; otherwise exactly that user is removed and getUserById then gives NotFound |
| `LegacyUserRepository.CheckEmail` | src/main/java/ru/practicum/shareit/user/UserRepository.java:62-69 | the loop fails, with DuplicatedData, iff some stored user has exactly that email |
| `LegacyUserRepository.UserRepository.constructor` | src/main/java/ru/practicum/shareit/user/UserRepository.java:16-17 | an empty map and a counter at 1 |
| `LegacyUserRepository.UserRepository.CreateUser` | src/main/java/ru/practicum/shareit/user/UserRepository.java:23-29 | a stored email: DuplicatedData with map and counter unchanged; otherwise the user under the counter's id, which was fresh, and the counter advances by one |
| `LegacyUserRepository.UserRepository.UpdateUser` | src/main/java/ru/practicum/shareit/user/UserRepository.java:31-38 | checks the email only when the DTO carries one; then overwrites the entry at the record's id and no other |
| `LegacyUserRepository.UserRepository.GetUserById` | src/main/java/ru/practicum/shareit/user/UserRepository.java:40-43 | the stored user iff the key is present, else NotFound |
| `LegacyUserRepository.UserRepository.DeleteUser` | src/main/java/ru/practicum/shareit/user/UserRepository.java:45-49 | an absent id: NotFound, no change; otherwise exactly that key is removed and the counter is untouched |
| `LegacyUserService.Renamed` | src/main/java/ru/practicum/shareit/user/UserServiceImpl.java:39-41 | the name changes only when the DTO's name is non-null and non-blank; id and email stay |
| `LegacyUserService.Patched` | src/main/java/ru/practicum/shareit/user/UserServiceImpl.java:39-45 | the email changes only when the DTO's email is non-null and non-blank, after the name step |
| `LegacyUserService.UserService.CreateUser` | src/main/java/ru/practicum/shareit/user/UserServiceImpl.java:26-32 | a stored email: DuplicatedData with the store unchanged; otherwise stored under a fresh id |
| `LegacyUserService.UserService.UpdateUser` | src/main/java/ru/practicum/shareit/user/UserServiceImpl.java:34-47 | null id: Validation before any read; unknown: NotFound; a stored email (the user's own included) fails with DuplicatedData after the new name is already stored; otherwise the patched user replaces the stored one |
| `LegacyUserService.UserService.GetUserById` | src/main/java/ru/practicum/shareit/user/UserServiceImpl.java:49-54 | Validation on a null id, otherwise the store's lookup |
| `LegacyUserService.UserService.DeleteUser` | src/main/java/ru/practicum/shareit/user/UserServiceImpl.java:56-61 | Validation on a null id; otherwise the store's delete, after which the id is unknown |
| `LegacyItemRepository.ItemRepository.constructor` | src/main/java/ru/practicum/shareit/item/ItemRepository.java:14-15 | an empty map and a counter at 1 |
| `LegacyItemRepository.ItemRepository.CreateItem` | src/main/java/ru/practicum/shareit/item/ItemRepository.java:17-22 | the item under the counter's id, which was fresh; the counter advances; getItemById then returns the item |
| `LegacyItemRepository.ItemRepository.UpdateItem` | src/main/java/ru/practicum/shareit/item/ItemRepository.java:24-28 | overwrites or inserts the entry at the item's id with no check; no other entry changes |
| `LegacyItemRepository.ItemRepository.GetItemById` | src/main/java/ru/practicum/shareit/item/ItemRepository.java:30-33 | the stored item iff the key is present, else NotFound |
| `LegacyItemRepository.ItemRepository.GetAllItemsByOwner` | src/main/java/ru/practicum/shareit/item/ItemRepository.java:35-39 | exactly the stored items whose owner equals the argument |
| `LegacyItemService.ToItem` | src/main/java/ru/practicum/shareit/item/ItemServiceImpl.java:24-25 | the DTO's fields, owned by the caller |
| `LegacyItemService.Overwritten` | src/main/java/ru/practicum/shareit/item/ItemServiceImpl.java:38-40 | name, description and availability become the DTO's, null or not; id and owner stay |
| `LegacyItemService.ItemService.CreateItem` | src/main/java/ru/practicum/shareit/item/ItemServiceImpl.java:20-27 | an unknown or null caller: NotFound and nothing stored; otherwise the item, owned by the caller, under a fresh id |
| `LegacyItemService.ItemService.UpdateItem` | src/main/java/ru/practicum/shareit/item/ItemServiceImpl.java:29-42 | null id: Validation; unknown: NotFound; not the owner: NotFound with nothing stored; otherwise only that entry is overwritten |
| `LegacyItemService.ItemService.GetItemById` | src/main/java/ru/practicum/shareit/item/ItemServiceImpl.java:44-48 | Validation on a null id, NotFound on an absent one, otherwise the stored item |
| `LegacyItemService.ItemService.GetAllItemsByOwner` | src/main/java/ru/practicum/shareit/item/ItemServiceImpl.java:50-55 | exactly the stored items owned by the caller; none for a null caller |
| `ServerItemRequestService.ToItemRequestDto` | server/src/main/java/ru/practicum/shareit/request/ItemRequestMapper.java:13-21 | the DTO carries the request's fields and the given answers |
| `ServerItemRequestService.GroupBy` | server/src/main/java/ru/practicum/shareit/request/ItemRequestServiceImpl.java:49-50 | for every request id, its group (empty if absent) is exactly the answers carrying that id, in order; no group is empty |
| `ServerItemRequestService.GroupedAnswers` | server/src/main/java/ru/practicum/shareit/request/ItemRequestServiceImpl.java:45-54 | grouping the answers of all listed requests gives each request exactly its own answers from the item table |
| `ServerItemRequestService.Attach` | server/src/main/java/ru/practicum/shareit/request/ItemRequestServiceImpl.java:52-54 | one DTO per request, in the requests' order, each with its group or an empty list |
| `ServerItemRequestService.FindAllByRequestorIdOrderByCreatedDesc` | server/src/main/java/ru/practicum/shareit/request/ItemRequestServiceImpl.java:44 | exactly the requestor's requests, latest created first; a null id matches none |
| `ServerItemRequestService.FindRequest` | server/src/main/java/ru/practicum/shareit/request/ItemRequestServiceImpl.java:67-68 | `findById`: nothing iff no request has the id; otherwise a stored request with that id |
| `ServerItemRequestService.ItemRequestService.CreateItemRequest` | server/src/main/java/ru/practicum/shareit/request/ItemRequestServiceImpl.java:34-40 | null caller: Validation; unknown: NotFound; otherwise one request by the caller, stamped with now, appended under the next id |
| `ServerItemRequestService.ItemRequestService.GetAllItemRequestsByRequestor` | server/src/main/java/ru/practicum/shareit/request/ItemRequestServiceImpl.java:42-55 | exactly the caller's requests, latest created first, each with exactly the items answering it in table order |
| `ServerItemRequestService.ItemRequestService.GetAllItemRequests` | server/src/main/java/ru/practicum/shareit/request/ItemRequestServiceImpl.java:57-63 | every request, latest created first |
| `ServerItemRequestService.ItemRequestService.GetItemRequestById` | server/src/main/java/ru/practicum/shareit/request/ItemRequestServiceImpl.java:65-72 | NotFound iff no request has the id; otherwise that request with exactly the items answering it |
| `ServerItemRequestService.ItemRequestService.CreatedRequestIsFound` | server/src/main/java/ru/practicum/shareit/request/ItemRequestServiceImpl.java:65-72 | a created request is found by its id, with no answers while no item names it |

## Left out

- Web and framework:
  - HTTP controllers, the gateway and its REST client;
  - bean validation annotations and the mapping of exceptions to HTTP statuses;
  - logging;
  - JSON formatting of dates.
- The clock. `LocalDateTime.now()` is the parameter `now`, and date-times are integers.
- Concurrency and transactions. Two `updateBooking` calls that both read
  WAITING before either saves are not modelled. Every operation runs alone.
- Sort order among equal keys. The model keeps table order among rows with
  equal sort keys. The database may return any order there. The booking
  queries' contracts promise only the order and the multiset.
- `String.toUpperCase` for characters whose upper case is not plain ASCII.
  Such characters are kept as they are. This never changes whether a state
  string matches one of the ASCII names, provided the default locale is not
  Turkish or Azeri. The default locale is assumed to be neither. Under those
  locales "i" upper-cases to a dotted capital I, which the model does not
  capture.
- Id width. Ids are unbounded naturals. Overflow of the `long` counters is not modelled.
- Exceptions not thrown by the code itself:
  - a null `available` on an item, or a null `approved` flag, would throw
    NullPointerException; both are plain booleans here;
  - the older stores compare emails with `equals` on the stored email, so a
    stored null email would throw; emails are plain strings here.
- `Validation` covers two exception classes: the project's own
  ValidationException and `jakarta.validation.ValidationException`. The two
  may map to different HTTP statuses.
- `getAllUsers` of both user services and `getAllUsers` of the older store
  are not modelled. Each is an unfiltered listing of the stored users.
- Comments, item search and the item view with last and next bookings are
  not part of this model. They sit in the server's item service, which is
  outside the modelled core. The repository queries they rely on are modelled.
- Aliasing in the older stores. Java objects in the older stores are
  modelled as values. Where the older services mutate a stored object
  through a reference, the model writes the changed value into the store at
  that point. This captures the effect on the store, but not the identity of
  the objects.
- `LegacyUserService.UserService.UpdateUser`: the call
  `userRepository.updateUser(user)` has one argument. The store declares only
  a two-argument `updateUser`. The model treats the call as putting the
  record back under its own id, with no further email check.
- `ServerUserService.UserService.CreateUser`: the DTO's id is not modelled.
  `UserMapper.toUser` copies a client-supplied id, which JPA's `save` would
  turn into an update. The model always issues a fresh id.
- `LegacyItemRepository.ItemRepository.GetAllItemsByOwner`: the model leaves
  out a stored item with a null owner. Java's filter would throw
  NullPointerException on it. Under the item service's invariant every item
  has an owner, so the case does not arise there.
- `ServerItemRequestService.ItemRequestService.CreateItemRequest`: returns
  the saved request without answers.
- `ServerItemRequestService.ItemRequestService.GetAllItemRequests`: returns
  the requests without answers.
- For both of the two operations above, the one-argument
  `ItemRequestMapper.toItemRequestDto` they call does not exist; the mapper
  takes the request and its answers.
- `ServerItemRequestService.ItemRequestService.GetAllItemRequestsByRequestor`:
  the answers come from `findAllByItemRequestIdIn`, which names no order. The
  model fetches them in table order, so each request's items are promised in
  table order. The database may return them in another order.
- `ServerItemRequestService.ItemRequestService.GetItemRequestById`: the same
  unordered fetch of the answers is modelled as table order.
- `ServerItemRequestService.ItemRequestService.GetItemRequestById`: takes a
  non-null id. For a null id, Spring Data's `findById` throws an
  IllegalArgumentException, which is not modelled.
