/** The derived queries of the booking repository of the older application
    (src/main/java/ru/practicum/shareit/booking/BookingRepository.java).
    Two of its queries (findByBookerIdOrderByStartDesc and
    findByItemOwnerIdOrderByStartDesc) select and order exactly as
    findAllByBookerId and findAllByItemOwnerId with a descending start sort,
    and findAllByItemIdAndBookerIdAndEndBefore is the same query in both
    applications; those three are ServerBookingRepository's functions. */
module LegacyBookingRepository {

  import opened Common
  import opened Sorting
  import opened Entities

  /** The status argument as the older service passes it: one of the stored
      statuses, or one of CURRENT, PAST and FUTURE, which that service
      names but the BookingStatus enum of the same application does not
      declare, so that no stored booking can have them. */
  datatype StatusFilter = Stored(status: Status) | Current | Past | Future

  /** The `...AndStatus` condition: the booking's status equals the
      argument. */
  predicate HasStatus(b: Booking, f: StatusFilter) {
    f.Stored? && b.status == f.status
  }

  /** findByBookerIdAndStatusOrderByStartDesc. */
  function FindByBookerIdAndStatusOrderByStartDesc(rows: seq<Booking>, bookerId: nat, status: StatusFilter)
    : (r: seq<Booking>)
    ensures SortedDesc(r, StartOf)
    ensures forall b :: multiset(r)[b] == if b.booker.id == bookerId && HasStatus(b, status) then multiset(rows)[b] else 0
  {
    var p := (b: Booking) => b.booker.id == bookerId && HasStatus(b, status);
    SelectExact(rows, p, StartOf);
    Select(rows, p, StartOf)
  }

  /** findByItemOwnerIdAndStatusOrderByStartDesc. */
  function FindByItemOwnerIdAndStatusOrderByStartDesc(rows: seq<Booking>, ownerId: nat, status: StatusFilter)
    : (r: seq<Booking>)
    ensures SortedDesc(r, StartOf)
    ensures forall b :: multiset(r)[b] == if b.item.ownerId == ownerId && HasStatus(b, status) then multiset(rows)[b] else 0
  {
    var p := (b: Booking) => b.item.ownerId == ownerId && HasStatus(b, status);
    SelectExact(rows, p, StartOf);
    Select(rows, p, StartOf)
  }

  /** findTopByItemIdAndEndBeforeAndStatusOrderByEndDesc: the last booking
      of an item, whoever owns it. */
  function FindTopByItemIdAndEndBeforeAndStatusOrderByEndDesc(rows: seq<Booking>, itemId: nat, now: int, status: Status)
    : (r: Option<Booking>)
    ensures r.None? <==> forall b | b in rows :: !(b.item.id == itemId && b.end < now && b.status == status)
    ensures r.Some? ==>
      && r.value in rows
      && r.value.item.id == itemId && r.value.end < now && r.value.status == status
      && forall b | b in rows && b.item.id == itemId && b.end < now && b.status == status :: b.end <= r.value.end
  {
    var p := (b: Booking) => b.item.id == itemId && b.end < now && b.status == status;
    TopOfSelect(rows, p, EndOf);
    First(Select(rows, p, EndOf))
  }

  /** findTopByItemIdAndStartAfterOrderByStartAsc: the next booking of an
      item, whatever its status. */
  function FindTopByItemIdAndStartAfterOrderByStartAsc(rows: seq<Booking>, itemId: nat, now: int)
    : (r: Option<Booking>)
    ensures r.None? <==> forall b | b in rows :: !(b.item.id == itemId && b.start > now)
    ensures r.Some? ==>
      && r.value in rows
      && r.value.item.id == itemId && r.value.start > now
      && forall b | b in rows && b.item.id == itemId && b.start > now :: r.value.start <= b.start
  {
    var p := (b: Booking) => b.item.id == itemId && b.start > now;
    TopOfSelect(rows, p, NegatedStartOf);
    First(Select(rows, p, NegatedStartOf))
  }

  /** Asked for CURRENT, PAST or FUTURE, the status queries find nothing. */
  lemma UnstoredStatusFindsNothing(rows: seq<Booking>, userId: nat, status: StatusFilter)
    requires !status.Stored?
    ensures FindByBookerIdAndStatusOrderByStartDesc(rows, userId, status) == []
    ensures FindByItemOwnerIdAndStatusOrderByStartDesc(rows, userId, status) == []
  {
    var byBooker := FindByBookerIdAndStatusOrderByStartDesc(rows, userId, status);
    var byOwner := FindByItemOwnerIdAndStatusOrderByStartDesc(rows, userId, status);
    assert multiset(byBooker) == multiset{};
    assert multiset(byOwner) == multiset{};
  }
}
