/** The records the booking engine works on. Both snapshots of the booking
    service use the same persisted entities: a booking refers to the item and
    to the user who booked it, and an item to the user who owns it. Times
    (LocalDateTime) are integers on one clock. */
module Entities {

  import opened Common

  /** BookingStatus. `Canceled` is declared but no operation sets it. */
  datatype Status = Waiting | Approved | Rejected | Canceled

  datatype User = User(id: nat, name: string, email: string)

  /** An item as the booking engine sees it; `ownerId` is the id of the
      owning user (`item.getOwner().getId()`). */
  datatype Item = Item(id: nat, name: string, description: string, available: bool, ownerId: nat)

  /** The Booking entity. Its id is null until the table assigns one. */
  datatype Booking = Booking(id: Option<nat>, start: int, end: int, item: Item, booker: User, status: Status)

  /** BookingDtoInput: what a caller sends to create a booking. */
  datatype BookingInput = BookingInput(itemId: Option<nat>, start: int, end: int)

  /** BookingDto: what the booking operations return. */
  datatype BookingDto = BookingDto(id: Option<nat>, start: int, end: int, item: Item, booker: User, status: Status)

  /** The sort keys the booking queries order by. */
  function StartOf(b: Booking): int { b.start }
  function EndOf(b: Booking): int { b.end }
  /** Ordering greatest first by `-start` is ordering by `start`, earliest first. */
  function NegatedStartOf(b: Booking): int { -b.start }
}
