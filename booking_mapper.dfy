/** BookingMapper: conversions between the booking entity and its DTOs. */
module BookingMapper {

  import opened Common
  import opened Sorting
  import opened Entities

  /** toBookingDto: the DTO shows the booking's id, interval, item, booker
      and status. */
  function ToBookingDto(b: Booking): (d: BookingDto)
    ensures d.id == b.id && d.start == b.start && d.end == b.end && d.status == b.status
    ensures d.item == b.item && d.booker == b.booker
  {
    BookingDto(b.id, b.start, b.end, b.item, b.booker, b.status)
  }

  /** toBooking: a new, not yet stored booking of `item` by `booker` over the
      requested interval. It always starts out waiting for the owner's
      decision and has no id until it is saved. */
  function ToBooking(dto: BookingInput, item: Item, booker: User): (b: Booking)
    ensures b.status == Waiting
    ensures b.id == None
    ensures b.start == dto.start && b.end == dto.end
    ensures b.item == item && b.booker == booker
  {
    Booking(None, dto.start, dto.end, item, booker, Waiting)
  }

  /** toBookingDto is one-to-one: the DTO determines the booking. */
  lemma ToBookingDtoInjective(b1: Booking, b2: Booking)
    requires ToBookingDto(b1) == ToBookingDto(b2)
    ensures b1 == b2
  {
  }

  /** A freshly mapped booking, shown as a DTO, carries the requested
      interval and the waiting status. */
  lemma NewBookingDto(dto: BookingInput, item: Item, booker: User)
    ensures ToBookingDto(ToBooking(dto, item, booker)) == BookingDto(None, dto.start, dto.end, item, booker, Waiting)
  {
  }

  /** `bookings.stream().map(BookingMapper::toBookingDto).toList()`: one DTO
      per booking, in the same order; since toBookingDto is one-to-one, each
      DTO occurs exactly as often as the booking it shows. */
  function ToDtos(bookings: seq<Booking>): (r: seq<BookingDto>)
    ensures |r| == |bookings|
    ensures forall i | 0 <= i < |r| :: r[i] == ToBookingDto(bookings[i])
    ensures forall b :: multiset(r)[ToBookingDto(b)] == multiset(bookings)[b]
  {
    if bookings == [] then []
    else
      assert bookings == [bookings[0]] + bookings[1..];
      [ToBookingDto(bookings[0])] + ToDtos(bookings[1..])
  }

  /** Mapping keeps the order: a list ordered by start, latest first, gives
      DTOs in that order. */
  lemma ToDtosKeepsOrder(bookings: seq<Booking>)
    requires SortedDesc(bookings, StartOf)
    ensures forall i, j | 0 <= i < j < |ToDtos(bookings)| :: ToDtos(bookings)[i].start >= ToDtos(bookings)[j].start
  {
    assert forall i, j | 0 <= i < j < |bookings| :: StartOf(bookings[i]) >= StartOf(bookings[j]);
  }
}
