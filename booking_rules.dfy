/** The guards and the status transition of the booking engine. Both
    snapshots of BookingServiceImpl contain these private methods and the
    bodies of createBooking, updateBooking and getBookingById word for word
    (server/.../BookingServiceImpl.java:116-154 and src/.../
    BookingServiceImpl.java:100-138); both service models use them. */
module BookingRules {

  import opened Common
  import opened Entities
  import opened BookingMapper

  /** checkId: a null id is a Validation failure. */
  function CheckId(id: Option<nat>): (r: Result<nat>)
    ensures r.Err? <==> id.None?
    ensures r.Err? ==> r.error == Validation
    ensures r.Ok? ==> r.value == id.value
  {
    match id
    case None => Err(Validation)
    case Some(v) => Ok(v)
  }

  /** getUserById: a null id fails with Validation before the user table is
      consulted; an id without a user fails with EntityNotFound. */
  function FindUser(users: map<nat, User>, id: Option<nat>): (r: Result<User>)
    ensures id.None? ==> r == Err(Validation)
    ensures id.Some? ==> (r.Ok? <==> id.value in users)
    ensures id.Some? && id.value !in users ==> r == Err(EntityNotFound)
    ensures r.Ok? ==> id.Some? && id.value in users && r.value == users[id.value]
  {
    match CheckId(id)
    case Err(e) => Err(e)
    case Ok(k) => if k in users then Ok(users[k]) else Err(EntityNotFound)
  }

  /** getItemById: null id -> Validation; no such item -> NotFound. */
  function FindItem(items: map<nat, Item>, id: Option<nat>): (r: Result<Item>)
    ensures id.None? ==> r == Err(Validation)
    ensures id.Some? ==> (r.Ok? <==> id.value in items)
    ensures id.Some? && id.value !in items ==> r == Err(NotFound)
    ensures r.Ok? ==> id.Some? && id.value in items && r.value == items[id.value]
  {
    match CheckId(id)
    case Err(e) => Err(e)
    case Ok(k) => if k in items then Ok(items[k]) else Err(NotFound)
  }

  /** bookingRepository.findById: the row whose id is `id`, if any. */
  function FindRow(rows: seq<Booking>, id: nat): (r: Option<Booking>)
    ensures r.Some? ==> r.value in rows && r.value.id == Some(id)
    ensures r.None? <==> forall b | b in rows :: b.id != Some(id)
  {
    if rows == [] then None
    else if rows[0].id == Some(id) then Some(rows[0])
    else
      assert forall b | b in rows :: b == rows[0] || b in rows[1..];
      FindRow(rows[1..], id)
  }

  /** In a table whose row i has id i + 1, a stored booking sits in the row
      its id names. */
  lemma RowOfStoredBooking(rows: seq<Booking>, c: Booking)
    requires forall i | 0 <= i < |rows| :: rows[i].id == Some(i + 1)
    requires c in rows
    ensures c.id.Some? && 1 <= c.id.value <= |rows| && rows[c.id.value - 1] == c
  {
    var i :| 0 <= i < |rows| && rows[i] == c;
  }

  /** getBooking: null id -> Validation; no such booking -> NotFound. */
  function FindBooking(rows: seq<Booking>, id: Option<nat>): (r: Result<Booking>)
    ensures id.None? ==> r == Err(Validation)
    ensures id.Some? ==> (r.Ok? <==> exists b | b in rows :: b.id == id)
    ensures id.Some? && r.Err? ==> r.error == NotFound
    ensures r.Ok? ==> r.value in rows && r.value.id == id
  {
    match CheckId(id)
    case Err(e) => Err(e)
    case Ok(k) =>
      match FindRow(rows, k)
      case None => Err(NotFound)
      case Some(b) => Ok(b)
  }

  /** checkBooking(dto, userId, item), whose three checks fire in this order:
      an unavailable item, then an interval whose start is not strictly
      before its end (equal times included), both Validation; only then the
      owner booking their own item, which is reported as NotFound. */
  function CheckBooking(dto: BookingInput, userId: nat, item: Item): (r: Outcome)
    ensures !item.available ==> r == Fail(Validation)
    ensures item.available && dto.start >= dto.end ==> r == Fail(Validation)
    ensures item.available && dto.start < dto.end && userId == item.ownerId ==> r == Fail(NotFound)
    ensures r == Pass <==> item.available && dto.start < dto.end && userId != item.ownerId
  {
    if !item.available then Fail(Validation)
    else if dto.start >= dto.end then Fail(Validation)
    else if userId == item.ownerId then Fail(NotFound)
    else Pass
  }

  /** Everything createBooking checks before it saves: the caller, then the
      item, then checkBooking. On success, the caller and the item. */
  function CheckCreation(users: map<nat, User>, items: map<nat, Item>, userId: Option<nat>, dto: BookingInput)
    : (r: Result<(User, Item)>)
    ensures userId.None? ==> r == Err(Validation)
    ensures userId.Some? && userId.value !in users ==> r == Err(EntityNotFound)
    ensures userId.Some? && userId.value in users && dto.itemId.None? ==> r == Err(Validation)
    ensures userId.Some? && userId.value in users && dto.itemId.Some? && dto.itemId.value !in items
            ==> r == Err(NotFound)
    ensures userId.Some? && userId.value in users && dto.itemId.Some? && dto.itemId.value in items
            ==> r == match CheckBooking(dto, userId.value, items[dto.itemId.value])
                     case Pass => Ok((users[userId.value], items[dto.itemId.value]))
                     case Fail(e) => Err(e)
  {
    match FindUser(users, userId)
    case Err(e) => Err(e)
    case Ok(user) =>
      match FindItem(items, dto.itemId)
      case Err(e) => Err(e)
      case Ok(item) =>
        match CheckBooking(dto, userId.value, item)
        case Fail(e) => Err(e)
        case Pass => Ok((user, item))
  }

  /** The owner of an item can never book it. The failure is NotFound when
      the item is available and the interval well-formed, and Validation
      otherwise, because those two checks come first. */
  lemma OwnerCannotBook(users: map<nat, User>, items: map<nat, Item>, owner: nat, dto: BookingInput)
    requires owner in users && dto.itemId.Some? && dto.itemId.value in items
    requires items[dto.itemId.value].ownerId == owner
    ensures var r := CheckCreation(users, items, Some(owner), dto);
      && r.Err?
      && (r.error == NotFound <==> items[dto.itemId.value].available && dto.start < dto.end)
      && (r.error != NotFound ==> r.error == Validation)
  {
  }

  /** An interval that does not start strictly before it ends, equal times
      included, is never booked; once caller and item exist the failure is
      Validation. The same holds for an unavailable item. */
  lemma BadRequestsRejected(users: map<nat, User>, items: map<nat, Item>, userId: nat, dto: BookingInput)
    requires userId in users && dto.itemId.Some? && dto.itemId.value in items
    requires dto.start >= dto.end || !items[dto.itemId.value].available
    ensures CheckCreation(users, items, Some(userId), dto) == Err(Validation)
  {
  }

  /** The decision step of updateBooking (lines 45-52 of the server
      snapshot): only a waiting booking can be decided, and only by the
      owner of its item, the booker included among those refused; both
      refusals are Validation, the status check first. The decision sets
      APPROVED or REJECTED and changes nothing else. */
  function Decide(b: Booking, userId: nat, approved: bool): (r: Result<Booking>)
    ensures b.status != Waiting ==> r == Err(Validation)
    ensures b.status == Waiting && userId != b.item.ownerId ==> r == Err(Validation)
    ensures r.Ok? <==> b.status == Waiting && userId == b.item.ownerId
    ensures r.Ok? ==> r.value.status == (if approved then Approved else Rejected)
    ensures r.Ok? ==> r.value.id == b.id && r.value.start == b.start && r.value.end == b.end
                      && r.value.item == b.item && r.value.booker == b.booker
  {
    if b.status != Waiting then Err(Validation)
    else if userId != b.item.ownerId then Err(Validation)
    else Ok(b.(status := if approved then Approved else Rejected))
  }

  /** APPROVED and REJECTED are terminal: a booking is decided at most once,
      whoever asks the second time and whatever they ask for. */
  lemma DecidedOnce(b: Booking, userId: nat, approved: bool, userId2: nat, approved2: bool)
    requires Decide(b, userId, approved).Ok?
    ensures Decide(Decide(b, userId, approved).value, userId2, approved2) == Err(Validation)
  {
  }

  /** Everything updateBooking checks before it saves: the caller exists,
      the booking exists, then the decision step. */
  function CheckDecision(users: map<nat, User>, rows: seq<Booking>, userId: Option<nat>, bookingId: Option<nat>,
                         approved: bool): (r: Result<Booking>)
    ensures userId.None? ==> r == Err(Validation)
    ensures userId.Some? && userId.value !in users ==> r == Err(EntityNotFound)
    ensures userId.Some? && userId.value in users ==>
              r == match FindBooking(rows, bookingId)
                   case Err(e) => Err(e)
                   case Ok(b) => Decide(b, userId.value, approved)
    ensures r.Ok? ==> exists b | b in rows :: b.id == bookingId && Decide(b, userId.value, approved) == r
  {
    match FindUser(users, userId)
    case Err(e) => Err(e)
    case Ok(_) =>
      match FindBooking(rows, bookingId)
      case Err(e) => Err(e)
      case Ok(b) => Decide(b, userId.value, approved)
  }

  /** Who may read a booking: the owner of its item or its booker. */
  predicate MayView(b: Booking, userId: nat) {
    b.item.ownerId == userId || b.booker.id == userId
  }

  /** Everything getBookingById checks: the caller exists, the booking
      exists, and the caller is its booker or its item's owner; anybody else
      gets Validation. */
  function CheckView(users: map<nat, User>, rows: seq<Booking>, bookingId: Option<nat>, userId: Option<nat>)
    : (r: Result<Booking>)
    ensures userId.None? ==> r == Err(Validation)
    ensures userId.Some? && userId.value !in users ==> r == Err(EntityNotFound)
    ensures userId.Some? && userId.value in users ==>
              r == match FindBooking(rows, bookingId)
                   case Err(e) => Err(e)
                   case Ok(b) => if MayView(b, userId.value) then Ok(b) else Err(Validation)
  {
    match FindUser(users, userId)
    case Err(e) => Err(e)
    case Ok(_) =>
      match FindBooking(rows, bookingId)
      case Err(e) => Err(e)
      case Ok(b) => if MayView(b, userId.value) then Ok(b) else Err(Validation)
  }

  /** getBookingById: the booking, as a DTO, for its booker or the owner of
      its item; the error kinds of the guards in their order otherwise. */
  function ViewBooking(users: map<nat, User>, rows: seq<Booking>, bookingId: Option<nat>, userId: Option<nat>)
    : (r: Result<BookingDto>)
    ensures userId.None? ==> r == Err(Validation)
    ensures userId.Some? && userId.value !in users ==> r == Err(EntityNotFound)
    ensures userId.Some? && userId.value in users && bookingId.None? ==> r == Err(Validation)
    ensures (userId.Some? && userId.value in users && bookingId.Some? &&
             forall b | b in rows :: b.id != bookingId) ==> r == Err(NotFound)
    ensures r.Ok? ==> exists b | b in rows :: b.id == bookingId && MayView(b, userId.value)
                                              && r.value == ToBookingDto(b)
  {
    match CheckView(users, rows, bookingId, userId)
    case Err(e) => Err(e)
    case Ok(b) => Ok(ToBookingDto(b))
  }

  /** Among existing users, exactly the booker and the item's owner can read
      a stored booking; everybody else is refused with Validation. */
  lemma ViewExactlyBookerOrOwner(users: map<nat, User>, rows: seq<Booking>, b: Booking, userId: nat)
    requires userId in users && b.id.Some?
    requires forall c | c in rows :: c.id == b.id ==> c == b
    requires b in rows
    ensures CheckView(users, rows, b.id, Some(userId)).Ok? <==> (userId == b.booker.id || userId == b.item.ownerId)
    ensures CheckView(users, rows, b.id, Some(userId)).Err? ==> CheckView(users, rows, b.id, Some(userId)).error == Validation
    ensures CheckView(users, rows, b.id, Some(userId)).Ok? ==> CheckView(users, rows, b.id, Some(userId)).value == b
  {
  }
}
