/** The in-memory item store of the older application
    (src/main/java/ru/practicum/shareit/item/ItemRepository.java): a hash map
    from id to item plus a counter that issues ids 1, 2, 3, ... Keys are
    optional ids, as a Java map accepts a null key. */
module LegacyItemRepository {

  import opened Common

  /** A stored item. Every field the DTO fills may be null; the owner is the
      id of the user who created it. */
  datatype Item = Item(
    id: Option<nat>,
    name: Option<string>,
    description: Option<string>,
    available: Option<bool>,
    ownerId: Option<nat>)

  /** ItemRepository: the map `items` and the counter `id`. */
  class ItemRepository {
    var id: nat
    var items: map<Option<nat>, Item>

    /** Every item is stored under its own id and the counter starts at 1. */
    ghost predicate Valid()
      reads this
    {
      && 1 <= id
      && forall k | k in items :: items[k].id == k
    }

    /** Every key is an id the counter has already issued, so the next one
        is fresh. updateItem can break this by storing under an id that was
        never issued; the service never does. */
    ghost predicate Issued()
      reads this
    {
      forall k | k in items :: k.Some? && k.value < id
    }

    constructor()
      ensures Valid() && Issued()
      ensures id == 1 && items == map[]
    {
      id := 1;
      items := map[];
    }

    /** createItem: the item is stored under the next id, which is then
        found by getItemById; nothing else changes. */
    method CreateItem(item: Item) returns (r: Item)
      requires Valid()
      modifies this
      ensures Valid()
      ensures old(Issued()) ==> Issued() && Some(old(id)) !in old(items)
      ensures r == item.(id := Some(old(id)))
      ensures items == old(items)[Some(old(id)) := r]
      ensures id == old(id) + 1
      ensures GetItemById(r.id) == Ok(r)
    {
      r := item.(id := Some(id));
      items := items[r.id := r];
      id := id + 1;
    }

    /** updateItem: puts the item under its id, stored or not, with no
        check; no other entry changes. */
    method UpdateItem(newItem: Item) returns (r: Item)
      requires Valid()
      modifies this
      ensures Valid()
      ensures id == old(id)
      ensures old(Issued()) && newItem.id.Some? && newItem.id.value < id ==> Issued()
      ensures r == newItem
      ensures items == old(items)[newItem.id := newItem]
    {
      items := items[newItem.id := newItem];
      r := newItem;
    }

    /** getItemById: the stored item, or NotFound. */
    function GetItemById(id: Option<nat>): (r: Result<Item>)
      reads this
      ensures r.Ok? <==> id in items
      ensures r.Ok? ==> r.value == items[id]
      ensures r.Err? ==> r.error == NotFound
    {
      if id in items then Ok(items[id]) else Err(NotFound)
    }

    /** getAllItemsByOwner: the stored items whose owner equals the argument
        (as a collection of the map's values, in no particular order). */
    function GetAllItemsByOwner(userId: Option<nat>): (r: set<Item>)
      reads this
      ensures forall it :: it in r <==> it in items.Values && it.ownerId.Some? && it.ownerId == userId
    {
      set k | k in items && items[k].ownerId.Some? && items[k].ownerId == userId :: items[k]
    }
  }
}
