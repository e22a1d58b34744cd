/** The booking service of the older application
    (src/main/java/ru/practicum/shareit/booking/BookingServiceImpl.java).
    Creating, deciding and reading one booking apply the same checks as the
    server application (BookingRules); listing differs: the state string is
    turned into a status by checkBooking(String), and an unrecognised string
    lists everything instead of failing. */
module LegacyBookingService {

  import opened Common
  import opened Sorting
  import opened Entities
  import opened BookingMapper
  import opened BookingRules
  import ServerBookingRepository
  import opened LegacyBookingRepository

  /** The filters a state string can select: the three time-based ones and
      WAITING and REJECTED. */
  predicate Listable(f: StatusFilter) {
    !f.Stored? || f.status == Waiting || f.status == Rejected
  }

  /** The name of a filter, as checkBooking(String) spells it. */
  function FilterName(f: StatusFilter): string {
    match f
    case Current => "CURRENT"
    case Past => "PAST"
    case Future => "FUTURE"
    case Stored(Waiting) => "WAITING"
    case Stored(Approved) => "APPROVED"
    case Stored(Rejected) => "REJECTED"
    case Stored(Canceled) => "CANCELED"
  }

  /** checkBooking(String): the upper-cased state names a listable filter,
      or the result is null; no string is an error. */
  function CheckState(state: string): (r: Option<StatusFilter>)
    ensures r.Some? ==> Listable(r.value) && UpperCase(state) == FilterName(r.value)
    ensures r.None? ==> forall f | Listable(f) :: UpperCase(state) != FilterName(f)
  {
    var u := UpperCase(state);
    if u == "CURRENT" then Some(Current)
    else if u == "PAST" then Some(Past)
    else if u == "FUTURE" then Some(Future)
    else if u == "WAITING" then Some(Stored(Waiting))
    else if u == "REJECTED" then Some(Stored(Rejected))
    else None
  }

  /** Every listable filter is recognised by its own name. */
  lemma CheckStateRoundTrip(f: StatusFilter)
    requires Listable(f)
    ensures CheckState(FilterName(f)) == Some(f)
  {
    UpperCaseOfCapitals(FilterName(f));
  }

  /** The state is matched case-insensitively. */
  lemma CheckStateIgnoresCase(state: string, other: string)
    requires SameUpToCase(state, other)
    ensures CheckState(state) == CheckState(other)
  {
    UpperCaseIgnoresCase(state, other);
  }

  /** ALL is no filter name: it maps to null, as an unknown string does. */
  lemma AllMeansNoFilter()
    ensures CheckState("ALL") == None
    ensures CheckState("all") == None
  {
    UpperCaseOfCapitals("ALL");
    assert UpperCase("all") == "ALL";
  }

  /** Whether a booking is listed under the filter checkBooking(String)
      returned: all of them when it is null. */
  predicate Matches(b: Booking, filter: Option<StatusFilter>) {
    filter.None? || HasStatus(b, filter.value)
  }

  /** The query getBookingsByUser runs for a filter. */
  function BookerQuery(rows: seq<Booking>, bookerId: nat, filter: Option<StatusFilter>): (r: seq<Booking>)
    ensures SortedDesc(r, StartOf)
    ensures forall b :: multiset(r)[b] == if b.booker.id == bookerId && Matches(b, filter) then multiset(rows)[b] else 0
  {
    match filter
    case None => ServerBookingRepository.FindAllByBookerId(rows, bookerId)
    case Some(f) => FindByBookerIdAndStatusOrderByStartDesc(rows, bookerId, f)
  }

  /** The query getBookingsByOwner runs for a filter. */
  function OwnerQuery(rows: seq<Booking>, ownerId: nat, filter: Option<StatusFilter>): (r: seq<Booking>)
    ensures SortedDesc(r, StartOf)
    ensures forall b :: multiset(r)[b] == if b.item.ownerId == ownerId && Matches(b, filter) then multiset(rows)[b] else 0
  {
    match filter
    case None => ServerBookingRepository.FindAllByItemOwnerId(rows, ownerId)
    case Some(f) => FindByItemOwnerIdAndStatusOrderByStartDesc(rows, ownerId, f)
  }

  /** The older BookingServiceImpl over its three repositories. */
  class BookingService {
    var users: map<nat, User>
    var items: map<nat, Item>
    var bookings: seq<Booking>

    /** As in the server application: tables keyed by id, and every stored
        booking has a proper interval, a booker other than the owner, and a
        status other than CANCELED. */
    ghost predicate Valid()
      reads this
    {
      && (forall k | k in users :: users[k].id == k)
      && (forall k | k in items :: items[k].id == k)
      && (forall i | 0 <= i < |bookings| :: bookings[i].id == Some(i + 1))
      && (forall b | b in bookings :: b.start < b.end && b.booker.id != b.item.ownerId && b.status != Canceled)
    }

    constructor(users: map<nat, User>, items: map<nat, Item>)
      requires forall k | k in users :: users[k].id == k
      requires forall k | k in items :: items[k].id == k
      ensures Valid()
      ensures this.users == users && this.items == items && bookings == []
    {
      this.users := users;
      this.items := items;
      bookings := [];
    }

    /** createBooking: after the checks of CheckCreation, saves a new
        booking, waiting, of the item by the caller, under the next id. */
    method CreateBooking(userId: Option<nat>, dto: BookingInput) returns (r: Result<BookingDto>)
      requires Valid()
      modifies this
      ensures Valid()
      ensures users == old(users) && items == old(items)
      ensures CheckCreation(old(users), old(items), userId, dto).Err? ==>
                r == Err(CheckCreation(old(users), old(items), userId, dto).error) && bookings == old(bookings)
      ensures CheckCreation(old(users), old(items), userId, dto).Ok? ==>
                var (user, item) := CheckCreation(old(users), old(items), userId, dto).value;
                var b := Booking(Some(|old(bookings)| + 1), dto.start, dto.end, item, user, Waiting);
                bookings == old(bookings) + [b] && r == Ok(ToBookingDto(b))
    {
      match CheckCreation(users, items, userId, dto)
      case Err(e) =>
        r := Err(e);
      case Ok((user, item)) =>
        var b := ToBooking(dto, item, user).(id := Some(|bookings| + 1));
        bookings := bookings + [b];
        r := Ok(ToBookingDto(b));
    }

    /** updateBooking: after the checks of CheckDecision, saves the decided
        booking in place of the stored one; no other row changes, and a
        booking that is no longer waiting never changes again. */
    method UpdateBooking(userId: Option<nat>, bookingId: Option<nat>, approved: bool) returns (r: Result<BookingDto>)
      requires Valid()
      modifies this
      ensures Valid()
      ensures users == old(users) && items == old(items)
      ensures CheckDecision(old(users), old(bookings), userId, bookingId, approved).Err? ==>
                r == Err(CheckDecision(old(users), old(bookings), userId, bookingId, approved).error)
                && bookings == old(bookings)
      ensures CheckDecision(old(users), old(bookings), userId, bookingId, approved).Ok? ==>
                var d := CheckDecision(old(users), old(bookings), userId, bookingId, approved).value;
                && r == Ok(ToBookingDto(d))
                && |bookings| == |old(bookings)|
                && forall i | 0 <= i < |bookings| ::
                     bookings[i] == if old(bookings)[i].id == bookingId then d else old(bookings)[i]
      ensures |bookings| == |old(bookings)|
      ensures forall i | 0 <= i < |bookings| && old(bookings)[i].status != Waiting :: bookings[i] == old(bookings)[i]
    {
      match FindUser(users, userId)
      case Err(e) =>
        r := Err(e);
      case Ok(_) =>
        match FindBooking(bookings, bookingId)
        case Err(e) =>
          r := Err(e);
        case Ok(c) =>
          match Decide(c, userId.value, approved)
          case Err(e) =>
            r := Err(e);
          case Ok(d) =>
            RowOfStoredBooking(bookings, c);
            var j := c.id.value - 1;
            ghost var before := bookings;
            bookings := bookings[j := d];
            r := Ok(ToBookingDto(d));
            assert forall i | 0 <= i < |before| :: before[i].id == bookingId <==> i == j;
            assert forall b | b in bookings :: b == d || b in before;
    }

    /** getBookingById over this service's tables (see
        BookingRules.ViewBooking). */
    function GetBookingById(bookingId: Option<nat>, userId: Option<nat>): Result<BookingDto>
      reads this
    {
      ViewBooking(users, bookings, bookingId, userId)
    }

    /** getBookingsByUser: the caller's bookings under the filter the state
        names (all of them when it names none), as DTOs, latest start
        first. Only an unknown caller is an error. */
    function GetBookingsByUser(userId: Option<nat>, state: string): (r: Result<seq<BookingDto>>)
      reads this
      ensures userId.None? ==> r == Err(Validation)
      ensures userId.Some? && userId.value !in users ==> r == Err(EntityNotFound)
      ensures r.Ok? <==> userId.Some? && userId.value in users
      ensures r.Ok? ==> forall i, j | 0 <= i < j < |r.value| :: r.value[i].start >= r.value[j].start
      ensures r.Ok? ==> forall b :: multiset(r.value)[ToBookingDto(b)] ==
                            (if b.booker.id == userId.value && Matches(b, CheckState(state))
                             then multiset(bookings)[b] else 0)
    {
      match FindUser(users, userId)
      case Err(e) => Err(e)
      case Ok(_) =>
        var filter := CheckState(state);
        var q := BookerQuery(bookings, userId.value, filter);
        ToDtosKeepsOrder(q);
        Ok(ToDtos(q))
    }

    /** getBookingsByOwner: the same for the bookings of the caller's items. */
    function GetBookingsByOwner(userId: Option<nat>, state: string): (r: Result<seq<BookingDto>>)
      reads this
      ensures userId.None? ==> r == Err(Validation)
      ensures userId.Some? && userId.value !in users ==> r == Err(EntityNotFound)
      ensures r.Ok? <==> userId.Some? && userId.value in users
      ensures r.Ok? ==> forall i, j | 0 <= i < j < |r.value| :: r.value[i].start >= r.value[j].start
      ensures r.Ok? ==> forall b :: multiset(r.value)[ToBookingDto(b)] ==
                            (if b.item.ownerId == userId.value && Matches(b, CheckState(state))
                             then multiset(bookings)[b] else 0)
    {
      match FindUser(users, userId)
      case Err(e) => Err(e)
      case Ok(_) =>
        var filter := CheckState(state);
        var q := OwnerQuery(bookings, userId.value, filter);
        ToDtosKeepsOrder(q);
        Ok(ToDtos(q))
    }

    /** Asked for CURRENT, PAST or FUTURE, an existing caller gets an empty
        list, whatever is stored. */
    lemma TimeStatesListNothing(userId: nat, state: string)
      requires userId in users
      requires CheckState(state).Some? && !CheckState(state).value.Stored?
      ensures GetBookingsByUser(Some(userId), state) == Ok([])
      ensures GetBookingsByOwner(Some(userId), state) == Ok([])
    {
      UnstoredStatusFindsNothing(bookings, userId, CheckState(state).value);
    }
  }
}
