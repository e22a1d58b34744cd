/** The booking service of the server application
    (server/src/main/java/ru/practicum/shareit/booking/BookingServiceImpl.java).
    Creating and deciding a booking change the booking table; reading one
    booking and listing bookings are functions of the tables. The clock
    (`LocalDateTime.now()`) is the parameter `now`. */
module ServerBookingService {

  import opened Common
  import opened Sorting
  import opened Entities
  import opened BookingMapper
  import opened BookingRules
  import opened ServerBookingRepository

  /** The `state` a list of bookings is asked for. WAITING and REJECTED
      select a status; `StatusIs` also has room for the statuses no state
      string names. */
  datatype State = All | Current | Past | Future | StatusIs(status: Status)

  /** The states a caller can ask for: every state but the status filters
      for APPROVED and CANCELED. */
  predicate Selectable(s: State) {
    !s.StatusIs? || s.status == Waiting || s.status == Rejected
  }

  /** The name of a state, as the `switch` spells it. */
  function StateName(s: State): string {
    match s
    case All => "ALL"
    case Current => "CURRENT"
    case Past => "PAST"
    case Future => "FUTURE"
    case StatusIs(Waiting) => "WAITING"
    case StatusIs(Approved) => "APPROVED"
    case StatusIs(Rejected) => "REJECTED"
    case StatusIs(Canceled) => "CANCELED"
  }

  /** The `switch (state.toUpperCase())` of both list operations: the
      upper-cased string must be the name of a selectable state; anything
      else is an IllegalArgumentException. */
  function ParseState(state: string): (r: Result<State>)
    ensures r.Ok? ==> Selectable(r.value) && UpperCase(state) == StateName(r.value)
    ensures r.Err? ==> r.error == IllegalArgument
    ensures r.Err? ==> forall s | Selectable(s) :: UpperCase(state) != StateName(s)
  {
    var u := UpperCase(state);
    if u == "ALL" then Ok(All)
    else if u == "CURRENT" then Ok(Current)
    else if u == "PAST" then Ok(Past)
    else if u == "FUTURE" then Ok(Future)
    else if u == "WAITING" then Ok(StatusIs(Waiting))
    else if u == "REJECTED" then Ok(StatusIs(Rejected))
    else Err(IllegalArgument)
  }

  /** Every selectable state is recognised by its own name. */
  lemma ParseStateRoundTrip(s: State)
    requires Selectable(s)
    ensures ParseState(StateName(s)) == Ok(s)
  {
    UpperCaseOfCapitals(StateName(s));
  }

  /** The state is matched case-insensitively. */
  lemma ParseStateIgnoresCase(state: string, other: string)
    requires SameUpToCase(state, other)
    ensures ParseState(state) == ParseState(other)
  {
    UpperCaseIgnoresCase(state, other);
  }

  /** Lower case is accepted. */
  lemma LowerCaseStateAccepted()
    ensures ParseState("current") == Ok(Current)
  {
    assert UpperCase("current") == "CURRENT";
    ParseStateRoundTrip(Current);
  }

  /** APPROVED names a status but not a state: approved bookings cannot be
      listed on their own, in whatever case the name is written. */
  lemma ApprovedIsNoState(state: string)
    requires UpperCase(state) == "APPROVED"
    ensures ParseState(state) == Err(IllegalArgument)
  {
    var u := UpperCase(state);
    assert u != "ALL" && u != "PAST" && u != "CURRENT" && u != "FUTURE" && u != "WAITING" by {
      assert |u| == 8;
    }
    assert u != "REJECTED" by {
      assert u[0] != "REJECTED"[0];
    }
  }

  /** What each state means: CURRENT is every booking that has not ended by
      `now` (a booking yet to start included), PAST every booking that ended
      before `now`, FUTURE every booking that starts after `now`. */
  predicate InState(b: Booking, s: State, now: int) {
    match s
    case All => true
    case Current => b.end > now
    case Past => b.end < now
    case Future => b.start > now
    case StatusIs(status) => b.status == status
  }

  /** The repository query each state of getBookingsByUser runs. */
  function BookerQuery(rows: seq<Booking>, bookerId: nat, s: State, now: int): (r: seq<Booking>)
    ensures SortedDesc(r, StartOf)
    ensures forall b :: multiset(r)[b] == if b.booker.id == bookerId && InState(b, s, now) then multiset(rows)[b] else 0
  {
    match s
    case All => FindAllByBookerId(rows, bookerId)
    case Current => FindAllByBookerIdAndEndAfter(rows, bookerId, now)
    case Past => FindAllByBookerIdAndEndBefore(rows, bookerId, now)
    case Future => FindAllByBookerIdAndStartAfter(rows, bookerId, now)
    case StatusIs(status) => FindAllByBookerIdAndStatus(rows, bookerId, status)
  }

  /** The repository query each state of getBookingsByOwner runs. */
  function OwnerQuery(rows: seq<Booking>, ownerId: nat, s: State, now: int): (r: seq<Booking>)
    ensures SortedDesc(r, StartOf)
    ensures forall b :: multiset(r)[b] == if b.item.ownerId == ownerId && InState(b, s, now) then multiset(rows)[b] else 0
  {
    match s
    case All => FindAllByItemOwnerId(rows, ownerId)
    case Current => FindAllByItemOwnerIdAndEndAfter(rows, ownerId, now)
    case Past => FindAllByItemOwnerIdAndEndBefore(rows, ownerId, now)
    case Future => FindAllByItemOwnerIdAndStartAfter(rows, ownerId, now)
    case StatusIs(status) => FindAllByItemOwnerIdAndStatus(rows, ownerId, status)
  }

  /** BookingServiceImpl over its three repositories: the users and the items
      it reads, and the booking table it writes, whose row i has id i + 1. */
  class BookingService {
    var users: map<nat, User>
    var items: map<nat, Item>
    var bookings: seq<Booking>

    /** Tables keyed by id; and every stored booking was accepted by
        createBooking and changed only by updateBooking: a proper interval,
        a booker other than the owner, and never CANCELED. */
    ghost predicate Valid()
      reads this
    {
      && (forall k | k in users :: users[k].id == k)
      && (forall k | k in items :: items[k].id == k)
      && (forall i | 0 <= i < |bookings| :: bookings[i].id == Some(i + 1))
      && (forall b | b in bookings :: b.start < b.end && b.booker.id != b.item.ownerId && b.status != Canceled)
    }

    constructor(users: map<nat, User>, items: map<nat, Item>)
      requires forall k | k in users :: users[k].id == k
      requires forall k | k in items :: items[k].id == k
      ensures Valid()
      ensures this.users == users && this.items == items && bookings == []
    {
      this.users := users;
      this.items := items;
      bookings := [];
    }

    /** createBooking: after the checks of CheckCreation, saves a new
        booking, waiting, of the item by the caller, under the next id. */
    method CreateBooking(userId: Option<nat>, dto: BookingInput) returns (r: Result<BookingDto>)
      requires Valid()
      modifies this
      ensures Valid()
      ensures users == old(users) && items == old(items)
      ensures CheckCreation(old(users), old(items), userId, dto).Err? ==>
                r == Err(CheckCreation(old(users), old(items), userId, dto).error) && bookings == old(bookings)
      ensures CheckCreation(old(users), old(items), userId, dto).Ok? ==>
                var (user, item) := CheckCreation(old(users), old(items), userId, dto).value;
                var b := Booking(Some(|old(bookings)| + 1), dto.start, dto.end, item, user, Waiting);
                bookings == old(bookings) + [b] && r == Ok(ToBookingDto(b))
    {
      match CheckCreation(users, items, userId, dto)
      case Err(e) =>
        r := Err(e);
      case Ok((user, item)) =>
        var b := ToBooking(dto, item, user).(id := Some(|bookings| + 1));
        bookings := bookings + [b];
        r := Ok(ToBookingDto(b));
    }

    /** updateBooking: after the checks of CheckDecision, saves the decided
        booking in place of the stored one; no other row changes, and a
        booking that is no longer waiting never changes again. */
    method UpdateBooking(userId: Option<nat>, bookingId: Option<nat>, approved: bool) returns (r: Result<BookingDto>)
      requires Valid()
      modifies this
      ensures Valid()
      ensures users == old(users) && items == old(items)
      ensures CheckDecision(old(users), old(bookings), userId, bookingId, approved).Err? ==>
                r == Err(CheckDecision(old(users), old(bookings), userId, bookingId, approved).error)
                && bookings == old(bookings)
      ensures CheckDecision(old(users), old(bookings), userId, bookingId, approved).Ok? ==>
                var d := CheckDecision(old(users), old(bookings), userId, bookingId, approved).value;
                && r == Ok(ToBookingDto(d))
                && |bookings| == |old(bookings)|
                && forall i | 0 <= i < |bookings| ::
                     bookings[i] == if old(bookings)[i].id == bookingId then d else old(bookings)[i]
      ensures |bookings| == |old(bookings)|
      ensures forall i | 0 <= i < |bookings| && old(bookings)[i].status != Waiting :: bookings[i] == old(bookings)[i]
    {
      match FindUser(users, userId)
      case Err(e) =>
        r := Err(e);
      case Ok(_) =>
        match FindBooking(bookings, bookingId)
        case Err(e) =>
          r := Err(e);
        case Ok(c) =>
          match Decide(c, userId.value, approved)
          case Err(e) =>
            r := Err(e);
          case Ok(d) =>
            RowOfStoredBooking(bookings, c);
            var j := c.id.value - 1;
            ghost var before := bookings;
            bookings := bookings[j := d];
            r := Ok(ToBookingDto(d));
            assert forall i | 0 <= i < |before| :: before[i].id == bookingId <==> i == j;
            assert forall b | b in bookings :: b == d || b in before;
    }

    /** getBookingById over this service's tables (see
        BookingRules.ViewBooking). */
    function GetBookingById(bookingId: Option<nat>, userId: Option<nat>): Result<BookingDto>
      reads this
    {
      ViewBooking(users, bookings, bookingId, userId)
    }

    /** Of the existing users, exactly the booker and the owner may read a
        stored booking; anybody else gets Validation. */
    lemma OnlyBookerOrOwnerReads(i: nat, userId: nat)
      requires Valid()
      requires i < |bookings| && userId in users
      ensures GetBookingById(Some(i + 1), Some(userId)).Ok? <==> MayView(bookings[i], userId)
      ensures GetBookingById(Some(i + 1), Some(userId)).Ok? ==>
                GetBookingById(Some(i + 1), Some(userId)).value == ToBookingDto(bookings[i])
      ensures GetBookingById(Some(i + 1), Some(userId)).Err? ==>
                GetBookingById(Some(i + 1), Some(userId)).error == Validation
    {
      var b := bookings[i];
      forall c | c in bookings && c.id == b.id ensures c == b {
        var j :| 0 <= j < |bookings| && bookings[j] == c;
      }
      ViewExactlyBookerOrOwner(users, bookings, b, userId);
    }

    /** getBookingsByUser: the caller's bookings in the requested state, as
        DTOs, latest start first. */
    function GetBookingsByUser(userId: Option<nat>, state: string, now: int): (r: Result<seq<BookingDto>>)
      reads this
      ensures userId.None? ==> r == Err(Validation)
      ensures userId.Some? && userId.value !in users ==> r == Err(EntityNotFound)
      ensures userId.Some? && userId.value in users && ParseState(state).Err? ==> r == Err(IllegalArgument)
      ensures r.Ok? <==> userId.Some? && userId.value in users && ParseState(state).Ok?
      ensures r.Ok? ==> forall i, j | 0 <= i < j < |r.value| :: r.value[i].start >= r.value[j].start
      ensures r.Ok? ==> forall b :: multiset(r.value)[ToBookingDto(b)] ==
                            (if b.booker.id == userId.value && InState(b, ParseState(state).value, now)
                             then multiset(bookings)[b] else 0)
    {
      match FindUser(users, userId)
      case Err(e) => Err(e)
      case Ok(_) =>
        match ParseState(state)
        case Err(e) => Err(e)
        case Ok(s) =>
          var q := BookerQuery(bookings, userId.value, s, now);
          ToDtosKeepsOrder(q);
          Ok(ToDtos(q))
    }

    /** getBookingsByOwner: the bookings of the caller's items in the
        requested state, as DTOs, latest start first. */
    function GetBookingsByOwner(userId: Option<nat>, state: string, now: int): (r: Result<seq<BookingDto>>)
      reads this
      ensures userId.None? ==> r == Err(Validation)
      ensures userId.Some? && userId.value !in users ==> r == Err(EntityNotFound)
      ensures userId.Some? && userId.value in users && ParseState(state).Err? ==> r == Err(IllegalArgument)
      ensures r.Ok? <==> userId.Some? && userId.value in users && ParseState(state).Ok?
      ensures r.Ok? ==> forall i, j | 0 <= i < j < |r.value| :: r.value[i].start >= r.value[j].start
      ensures r.Ok? ==> forall b :: multiset(r.value)[ToBookingDto(b)] ==
                            (if b.item.ownerId == userId.value && InState(b, ParseState(state).value, now)
                             then multiset(bookings)[b] else 0)
    {
      match FindUser(users, userId)
      case Err(e) => Err(e)
      case Ok(_) =>
        match ParseState(state)
        case Err(e) => Err(e)
        case Ok(s) =>
          var q := OwnerQuery(bookings, userId.value, s, now);
          ToDtosKeepsOrder(q);
          Ok(ToDtos(q))
    }

    /** CURRENT means "not yet ended": since stored intervals are proper,
        whatever FUTURE lists for a booker or an owner, CURRENT lists too. */
    lemma FutureIsListedAsCurrent(userId: nat, now: int)
      requires Valid()
      ensures multiset(BookerQuery(bookings, userId, Future, now)) <= multiset(BookerQuery(bookings, userId, Current, now))
      ensures multiset(OwnerQuery(bookings, userId, Future, now)) <= multiset(OwnerQuery(bookings, userId, Current, now))
    {
      forall b | b in bookings ensures b.start > now ==> b.end > now {
      }
      SelectionIncluded(bookings, BookerQuery(bookings, userId, Future, now),
                        (b: Booking) => b.booker.id == userId && b.start > now,
                        BookerQuery(bookings, userId, Current, now),
                        (b: Booking) => b.booker.id == userId && b.end > now);
      SelectionIncluded(bookings, OwnerQuery(bookings, userId, Future, now),
                        (b: Booking) => b.item.ownerId == userId && b.start > now,
                        OwnerQuery(bookings, userId, Current, now),
                        (b: Booking) => b.item.ownerId == userId && b.end > now);
    }
  }
}
