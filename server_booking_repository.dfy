/** The derived queries of the booking repository of the server application
    (server/src/main/java/ru/practicum/shareit/booking/BookingRepository.java).
    Each query is a function of the booking table, given as the sequence of
    its rows. `After` and `Before` are strict comparisons with `now`; a
    `Sort.by(DESC, "start")` argument orders by start, latest first. */
module ServerBookingRepository {

  import opened Common
  import opened Sorting
  import opened Entities

  /** findAllByBookerId: the bookings made by `bookerId`. */
  function FindAllByBookerId(rows: seq<Booking>, bookerId: nat): (r: seq<Booking>)
    ensures SortedDesc(r, StartOf)
    ensures forall b :: multiset(r)[b] == if b.booker.id == bookerId then multiset(rows)[b] else 0
  {
    var p := (b: Booking) => b.booker.id == bookerId;
    SelectExact(rows, p, StartOf);
    Select(rows, p, StartOf)
  }

  /** findAllByBookerIdAndEndAfter: the bookings of `bookerId` that end
      strictly after `now`. */
  function FindAllByBookerIdAndEndAfter(rows: seq<Booking>, bookerId: nat, now: int): (r: seq<Booking>)
    ensures SortedDesc(r, StartOf)
    ensures forall b :: multiset(r)[b] == if b.booker.id == bookerId && b.end > now then multiset(rows)[b] else 0
  {
    var p := (b: Booking) => b.booker.id == bookerId && b.end > now;
    SelectExact(rows, p, StartOf);
    Select(rows, p, StartOf)
  }

  /** findAllByBookerIdAndEndBefore: the bookings of `bookerId` that end
      strictly before `now`. */
  function FindAllByBookerIdAndEndBefore(rows: seq<Booking>, bookerId: nat, now: int): (r: seq<Booking>)
    ensures SortedDesc(r, StartOf)
    ensures forall b :: multiset(r)[b] == if b.booker.id == bookerId && b.end < now then multiset(rows)[b] else 0
  {
    var p := (b: Booking) => b.booker.id == bookerId && b.end < now;
    SelectExact(rows, p, StartOf);
    Select(rows, p, StartOf)
  }

  /** findAllByBookerIdAndStartAfter: the bookings of `bookerId` that start
      strictly after `now`. */
  function FindAllByBookerIdAndStartAfter(rows: seq<Booking>, bookerId: nat, now: int): (r: seq<Booking>)
    ensures SortedDesc(r, StartOf)
    ensures forall b :: multiset(r)[b] == if b.booker.id == bookerId && b.start > now then multiset(rows)[b] else 0
  {
    var p := (b: Booking) => b.booker.id == bookerId && b.start > now;
    SelectExact(rows, p, StartOf);
    Select(rows, p, StartOf)
  }

  /** findAllByBookerIdAndStatus: the bookings of `bookerId` in `status`. */
  function FindAllByBookerIdAndStatus(rows: seq<Booking>, bookerId: nat, status: Status): (r: seq<Booking>)
    ensures SortedDesc(r, StartOf)
    ensures forall b :: multiset(r)[b] == if b.booker.id == bookerId && b.status == status then multiset(rows)[b] else 0
  {
    var p := (b: Booking) => b.booker.id == bookerId && b.status == status;
    SelectExact(rows, p, StartOf);
    Select(rows, p, StartOf)
  }

  /** findAllByItemOwnerId: the bookings of items owned by `ownerId`. */
  function FindAllByItemOwnerId(rows: seq<Booking>, ownerId: nat): (r: seq<Booking>)
    ensures SortedDesc(r, StartOf)
    ensures forall b :: multiset(r)[b] == if b.item.ownerId == ownerId then multiset(rows)[b] else 0
  {
    var p := (b: Booking) => b.item.ownerId == ownerId;
    SelectExact(rows, p, StartOf);
    Select(rows, p, StartOf)
  }

  /** findAllByItemOwnerIdAndEndAfter. */
  function FindAllByItemOwnerIdAndEndAfter(rows: seq<Booking>, ownerId: nat, now: int): (r: seq<Booking>)
    ensures SortedDesc(r, StartOf)
    ensures forall b :: multiset(r)[b] == if b.item.ownerId == ownerId && b.end > now then multiset(rows)[b] else 0
  {
    var p := (b: Booking) => b.item.ownerId == ownerId && b.end > now;
    SelectExact(rows, p, StartOf);
    Select(rows, p, StartOf)
  }

  /** findAllByItemOwnerIdAndEndBefore. */
  function FindAllByItemOwnerIdAndEndBefore(rows: seq<Booking>, ownerId: nat, now: int): (r: seq<Booking>)
    ensures SortedDesc(r, StartOf)
    ensures forall b :: multiset(r)[b] == if b.item.ownerId == ownerId && b.end < now then multiset(rows)[b] else 0
  {
    var p := (b: Booking) => b.item.ownerId == ownerId && b.end < now;
    SelectExact(rows, p, StartOf);
    Select(rows, p, StartOf)
  }

  /** findAllByItemOwnerIdAndStartAfter. */
  function FindAllByItemOwnerIdAndStartAfter(rows: seq<Booking>, ownerId: nat, now: int): (r: seq<Booking>)
    ensures SortedDesc(r, StartOf)
    ensures forall b :: multiset(r)[b] == if b.item.ownerId == ownerId && b.start > now then multiset(rows)[b] else 0
  {
    var p := (b: Booking) => b.item.ownerId == ownerId && b.start > now;
    SelectExact(rows, p, StartOf);
    Select(rows, p, StartOf)
  }

  /** findAllByItemOwnerIdAndStatus. */
  function FindAllByItemOwnerIdAndStatus(rows: seq<Booking>, ownerId: nat, status: Status): (r: seq<Booking>)
    ensures SortedDesc(r, StartOf)
    ensures forall b :: multiset(r)[b] == if b.item.ownerId == ownerId && b.status == status then multiset(rows)[b] else 0
  {
    var p := (b: Booking) => b.item.ownerId == ownerId && b.status == status;
    SelectExact(rows, p, StartOf);
    Select(rows, p, StartOf)
  }

  /** findTopByItemIdAndItemOwnerIdAndEndBeforeAndStatusOrderByEndDesc: the
      last booking of an item, as its owner sees it. */
  function FindTopByItemIdAndItemOwnerIdAndEndBeforeAndStatusOrderByEndDesc(
    rows: seq<Booking>, itemId: nat, ownerId: nat, now: int, status: Status): (r: Option<Booking>)
    ensures r.None? <==> forall b | b in rows ::
      !(b.item.id == itemId && b.item.ownerId == ownerId && b.end < now && b.status == status)
    ensures r.Some? ==>
      && r.value in rows
      && r.value.item.id == itemId && r.value.item.ownerId == ownerId && r.value.end < now && r.value.status == status
      && forall b | b in rows && b.item.id == itemId && b.item.ownerId == ownerId && b.end < now && b.status == status ::
           b.end <= r.value.end
  {
    var p := (b: Booking) => b.item.id == itemId && b.item.ownerId == ownerId && b.end < now && b.status == status;
    TopOfSelect(rows, p, EndOf);
    First(Select(rows, p, EndOf))
  }

  /** findTopByItemIdAndItemOwnerIdAndStartAfterOrderByStartAsc: the next
      booking of an item, whatever its status. */
  function FindTopByItemIdAndItemOwnerIdAndStartAfterOrderByStartAsc(
    rows: seq<Booking>, itemId: nat, ownerId: nat, now: int): (r: Option<Booking>)
    ensures r.None? <==> forall b | b in rows :: !(b.item.id == itemId && b.item.ownerId == ownerId && b.start > now)
    ensures r.Some? ==>
      && r.value in rows
      && r.value.item.id == itemId && r.value.item.ownerId == ownerId && r.value.start > now
      && forall b | b in rows && b.item.id == itemId && b.item.ownerId == ownerId && b.start > now ::
           r.value.start <= b.start
  {
    var p := (b: Booking) => b.item.id == itemId && b.item.ownerId == ownerId && b.start > now;
    TopOfSelect(rows, p, NegatedStartOf);
    First(Select(rows, p, NegatedStartOf))
  }

  /** findAllByItemIdAndBookerIdAndEndBefore: the bookings of `bookerId` on
      `itemId` that ended before `now`, of any status (the past renters that
      may comment). No order is requested; table order is kept. */
  function FindAllByItemIdAndBookerIdAndEndBefore(rows: seq<Booking>, itemId: nat, bookerId: nat, now: int)
    : (r: seq<Booking>)
    ensures forall b :: multiset(r)[b] == (if b.item.id == itemId && b.booker.id == bookerId && b.end < now
                                           then multiset(rows)[b] else 0)
  {
    var p := (b: Booking) => b.item.id == itemId && b.booker.id == bookerId && b.end < now;
    FilterCounts(rows, p);
    Filter(rows, p)
  }

  /** findAllByItemInAndStatusOrderByStartAsc: the bookings in `status` of
      the listed items (compared by id, as the entity's equality does),
      earliest start first. */
  function FindAllByItemInAndStatusOrderByStartAsc(rows: seq<Booking>, itemIds: set<nat>, status: Status)
    : (r: seq<Booking>)
    ensures forall i, j | 0 <= i < j < |r| :: r[i].start <= r[j].start
    ensures forall b :: multiset(r)[b] == if b.item.id in itemIds && b.status == status then multiset(rows)[b] else 0
  {
    var p := (b: Booking) => b.item.id in itemIds && b.status == status;
    SelectExact(rows, p, NegatedStartOf);
    var r := Select(rows, p, NegatedStartOf);
    forall i, j | 0 <= i < j < |r| ensures r[i].start <= r[j].start {
      assert NegatedStartOf(r[i]) >= NegatedStartOf(r[j]);
    }
    r
  }

  /** A booking ending exactly at `now` is neither current nor past: both
      comparisons are strict. */
  lemma EndingNowNeitherCurrentNorPast(rows: seq<Booking>, bookerId: nat, ownerId: nat, now: int, b: Booking)
    requires b.end == now
    ensures b !in FindAllByBookerIdAndEndAfter(rows, bookerId, now)
    ensures b !in FindAllByBookerIdAndEndBefore(rows, bookerId, now)
    ensures b !in FindAllByItemOwnerIdAndEndAfter(rows, ownerId, now)
    ensures b !in FindAllByItemOwnerIdAndEndBefore(rows, ownerId, now)
  {
    assert multiset(FindAllByBookerIdAndEndAfter(rows, bookerId, now))[b] == 0;
    assert multiset(FindAllByBookerIdAndEndBefore(rows, bookerId, now))[b] == 0;
    assert multiset(FindAllByItemOwnerIdAndEndAfter(rows, ownerId, now))[b] == 0;
    assert multiset(FindAllByItemOwnerIdAndEndBefore(rows, ownerId, now))[b] == 0;
  }
}
