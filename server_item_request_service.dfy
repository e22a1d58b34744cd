/** The item-request service of the server application
    (server/src/main/java/ru/practicum/shareit/request/ItemRequestServiceImpl.java).
    A user asks for an item that nobody offers yet; other users answer by
    creating items that carry the request's id. Listing a requestor's
    requests fetches the answers of all of them at once, groups them by
    request id, and attaches each group to its request. */
module ServerItemRequestService {

  import opened Common
  import opened Sorting
  import opened Entities

  /** A stored request; the requestor is kept by id. */
  datatype ItemRequest = ItemRequest(id: nat, description: string, requestorId: nat, created: int)

  /** An item of the item table as the answers list shows it
      (ItemDtoRequest); `requestId` is the request it answers, if any. */
  datatype Answer = Answer(
    id: nat,
    name: string,
    description: string,
    available: bool,
    ownerId: nat,
    requestId: Option<nat>)

  /** ItemRequestDto: a request's fields with its answers. */
  datatype ItemRequestDto = ItemRequestDto(
    id: nat,
    description: string,
    requestorId: nat,
    created: int,
    items: seq<Answer>)

  /** The sort key of `Sort.by(DESC, "created")`. */
  function CreatedOf(q: ItemRequest): int { q.created }

  /** ItemRequestMapper.toItemRequestDto(request, items). */
  function ToItemRequestDto(q: ItemRequest, answers: seq<Answer>): (d: ItemRequestDto)
    ensures RequestOf(d) == q && d.items == answers
  {
    ItemRequestDto(q.id, q.description, q.requestorId, q.created, answers)
  }

  /** The request fields of a DTO. */
  function RequestOf(d: ItemRequestDto): ItemRequest {
    ItemRequest(d.id, d.description, d.requestorId, d.created)
  }

  /** The request fields of each DTO of a list. */
  function RequestsOf(ds: seq<ItemRequestDto>): (qs: seq<ItemRequest>)
    ensures |qs| == |ds|
    ensures forall i | 0 <= i < |ds| :: qs[i] == RequestOf(ds[i])
  {
    if ds == [] then [] else [RequestOf(ds[0])] + RequestsOf(ds[1..])
  }

  /** The ids of a list of requests, in order. */
  function Ids(qs: seq<ItemRequest>): (ids: seq<nat>)
    ensures |ids| == |qs|
    ensures forall i | 0 <= i < |qs| :: ids[i] == qs[i].id
  {
    if qs == [] then [] else [qs[0].id] + Ids(qs[1..])
  }

  /** The condition "answers request `requestId`". */
  function Answering(requestId: nat): Answer -> bool {
    (a: Answer) => a.requestId == Some(requestId)
  }

  /** The condition of findAllByItemRequestIdIn(ids). */
  function AnsweringAny(ids: seq<nat>): Answer -> bool {
    (a: Answer) => a.requestId.Some? && a.requestId.value in ids
  }

  /** The group of `requestId` in a grouping, or the empty list
      (Map.getOrDefault with Collections.emptyList()). */
  function GroupOf(g: map<nat, seq<Answer>>, requestId: nat): seq<Answer> {
    if requestId in g then g[requestId] else []
  }

  /** Grouping one more answer, seen from the group of one request id. */
  lemma GroupOfStep(g: map<nat, seq<Answer>>, init: seq<Answer>, a: Answer, k: nat)
    requires a.requestId.Some?
    requires GroupOf(g, k) == Filter(init, Answering(k))
    ensures GroupOf(g[a.requestId.value := GroupOf(g, a.requestId.value) + [a]], k) == Filter(init + [a], Answering(k))
  {
    FilterSnoc(init, a, Answering(k));
    if k == a.requestId.value {
      assert Answering(k)(a);
    } else {
      assert !Answering(k)(a);
    }
  }

  /** Grouping one more answer: appending it to the group of its request
      id keeps every group equal to that request's answers. */
  lemma GroupByStep(g: map<nat, seq<Answer>>, init: seq<Answer>, a: Answer)
    requires a.requestId.Some?
    requires forall k: nat :: GroupOf(g, k) == Filter(init, Answering(k))
    requires forall k | k in g :: g[k] != []
    ensures var next := g[a.requestId.value := GroupOf(g, a.requestId.value) + [a]];
            && (forall k: nat :: GroupOf(next, k) == Filter(init + [a], Answering(k)))
            && (forall k | k in next :: next[k] != [])
  {
    forall k: nat
      ensures GroupOf(g[a.requestId.value := GroupOf(g, a.requestId.value) + [a]], k) == Filter(init + [a], Answering(k))
    {
      GroupOfStep(g, init, a, k);
    }
  }

  /** Collectors.groupingBy(ItemDtoRequest::getRequestId): a map from each
      request id that occurs to the answers carrying it, in their order.
      A null request id would make groupingBy throw; the answers grouped
      here all come from findAllByItemRequestIdIn and carry one. */
  function GroupBy(answers: seq<Answer>): (g: map<nat, seq<Answer>>)
    requires forall a | a in answers :: a.requestId.Some?
    ensures forall k: nat :: GroupOf(g, k) == Filter(answers, Answering(k))
    ensures forall k | k in g :: g[k] != []
  {
    if answers == [] then map[]
    else
      var init := answers[..|answers| - 1];
      var a := answers[|answers| - 1];
      assert answers == init + [a];
      var g := GroupBy(init);
      GroupByStep(g, init, a);
      g[a.requestId.value := GroupOf(g, a.requestId.value) + [a]]
  }

  /** The answers of each listed request, picked out of the answers of all
      of them, are exactly that request's answers in the item table. */
  lemma GroupedAnswers(items: seq<Answer>, qs: seq<ItemRequest>)
    ensures var answers := Filter(items, AnsweringAny(Ids(qs)));
            (forall a | a in answers :: a.requestId.Some?)
            && forall i | 0 <= i < |qs| :: GroupOf(GroupBy(answers), qs[i].id) == Filter(items, Answering(qs[i].id))
  {
    var ids := Ids(qs);
    var answers := Filter(items, AnsweringAny(ids));
    FilterCounts(items, AnsweringAny(ids));
    forall i | 0 <= i < |qs|
      ensures GroupOf(GroupBy(answers), qs[i].id) == Filter(items, Answering(qs[i].id))
    {
      assert ids[i] == qs[i].id;
      FilterOfFilter(items, AnsweringAny(ids), Answering(qs[i].id));
    }
  }

  /** Each request with its group of answers, in the order of the requests. */
  function Attach(qs: seq<ItemRequest>, g: map<nat, seq<Answer>>): (ds: seq<ItemRequestDto>)
    ensures RequestsOf(ds) == qs
    ensures forall i | 0 <= i < |ds| :: ds[i].items == GroupOf(g, qs[i].id)
  {
    if qs == [] then []
    else
      var ds := [ToItemRequestDto(qs[0], GroupOf(g, qs[0].id))] + Attach(qs[1..], g);
      assert RequestsOf(ds) == qs by {
        assert forall i | 0 <= i < |ds| :: RequestsOf(ds)[i] == qs[i];
      }
      ds
  }

  /** findAllByRequestorIdOrderByCreatedDesc: the requests of `requestorId`,
      latest first; a null id matches none. */
  function FindAllByRequestorIdOrderByCreatedDesc(rows: seq<ItemRequest>, requestorId: Option<nat>)
    : (r: seq<ItemRequest>)
    ensures SortedDesc(r, CreatedOf)
    ensures forall q :: multiset(r)[q] == if Some(q.requestorId) == requestorId then multiset(rows)[q] else 0
  {
    var p := (q: ItemRequest) => Some(q.requestorId) == requestorId;
    SelectExact(rows, p, CreatedOf);
    Select(rows, p, CreatedOf)
  }

  /** findById over the request table. */
  function FindRequest(rows: seq<ItemRequest>, id: nat): (r: Option<ItemRequest>)
    ensures r.None? <==> forall q | q in rows :: q.id != id
    ensures r.Some? ==> r.value in rows && r.value.id == id
  {
    if rows == [] then None
    else if rows[0].id == id then Some(rows[0])
    else FindRequest(rows[1..], id)
  }

  /** ItemRequestServiceImpl over the user, item and request tables. */
  class ItemRequestService {
    var users: map<nat, User>
    /** The item table, each row as its answer view. */
    var items: seq<Answer>
    /** The request table; row i has id i + 1. */
    var requests: seq<ItemRequest>

    ghost predicate Valid()
      reads this
    {
      && (forall k | k in users :: users[k].id == k)
      && (forall i | 0 <= i < |requests| :: requests[i].id == i + 1)
    }

    constructor(users: map<nat, User>, items: seq<Answer>)
      requires forall k | k in users :: users[k].id == k
      ensures Valid()
      ensures this.users == users && this.items == items && requests == []
    {
      this.users := users;
      this.items := items;
      requests := [];
    }

    /** createItemRequest: Validation for a null caller, NotFound for an
        unknown one; otherwise the request, by the caller and stamped with
        the current time, is saved under the next id. */
    method CreateItemRequest(userId: Option<nat>, description: string, now: int) returns (r: Result<ItemRequest>)
      requires Valid()
      modifies this
      ensures Valid()
      ensures users == old(users) && items == old(items)
      ensures userId.None? ==> r == Err(Validation) && requests == old(requests)
      ensures userId.Some? && userId.value !in users ==> r == Err(NotFound) && requests == old(requests)
      ensures userId.Some? && userId.value in users ==>
                && r == Ok(ItemRequest(|old(requests)| + 1, description, userId.value, now))
                && requests == old(requests) + [r.value]
    {
      if userId.None? {
        return Err(Validation);
      }
      if userId.value !in users {
        return Err(NotFound);
      }
      var q := ItemRequest(|requests| + 1, description, userId.value, now);
      requests := requests + [q];
      r := Ok(q);
    }

    /** getAllItemRequestsByRequestor: one entry per request of the caller,
        latest first, each with exactly the items that answer it, in table
        order, and an empty list when none does. */
    function GetAllItemRequestsByRequestor(userId: Option<nat>): (r: seq<ItemRequestDto>)
      reads this
      ensures SortedDesc(RequestsOf(r), CreatedOf)
      ensures forall q :: multiset(RequestsOf(r))[q] ==
                          if Some(q.requestorId) == userId then multiset(requests)[q] else 0
      ensures forall i | 0 <= i < |r| :: r[i].items == Filter(items, Answering(r[i].id))
    {
      var qs := FindAllByRequestorIdOrderByCreatedDesc(requests, userId);
      var answers := Filter(items, AnsweringAny(Ids(qs)));
      GroupedAnswers(items, qs);
      Attach(qs, GroupBy(answers))
    }

    /** getAllItemRequests: every request, latest first. */
    function GetAllItemRequests(): (r: seq<ItemRequest>)
      reads this
      ensures SortedDesc(r, CreatedOf)
      ensures multiset(r) == multiset(requests)
    {
      SortDesc(requests, CreatedOf)
    }

    /** getItemRequestById: NotFound for an unknown id; otherwise the request
        with exactly the items that answer it. */
    function GetItemRequestById(requestId: nat): (r: Result<ItemRequestDto>)
      reads this
      ensures r.Err? <==> forall q | q in requests :: q.id != requestId
      ensures r.Err? ==> r.error == NotFound
      ensures r.Ok? ==> RequestOf(r.value) in requests && r.value.id == requestId
      ensures r.Ok? ==> r.value.items == Filter(items, Answering(requestId))
    {
      match FindRequest(requests, requestId)
      case None => Err(NotFound)
      case Some(q) =>
        FilterEquivalent(items, AnsweringAny([requestId]), Answering(requestId));
        Ok(ToItemRequestDto(q, Filter(items, AnsweringAny([requestId]))))
    }

    /** Once created, a request is found by its id, without answers while
        no item names it. */
    lemma CreatedRequestIsFound(i: nat)
      requires Valid()
      requires i < |requests|
      ensures GetItemRequestById(i + 1).Ok?
      ensures RequestOf(GetItemRequestById(i + 1).value) == requests[i]
      ensures (forall a | a in items :: a.requestId != Some(i + 1)) ==> GetItemRequestById(i + 1).value.items == []
    {
      assert requests[i] in requests && requests[i].id == i + 1;
      var found := RequestOf(GetItemRequestById(i + 1).value);
      var j :| 0 <= j < |requests| && requests[j] == found;
      assert j == i;
      FilterCounts(items, Answering(i + 1));
      var answers := Filter(items, Answering(i + 1));
      if answers != [] {
        assert answers[0] in answers;
      }
    }
  }
}
