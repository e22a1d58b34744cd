/** The item service of the older application
    (src/main/java/ru/practicum/shareit/item/ItemServiceImpl.java) over the
    item store and the user store. Items are updated owner-only, and an
    update overwrites every editable field. */
module LegacyItemService {

  import opened Common
  import opened LegacyItemRepository
  import LegacyUserRepository

  /** The fields of an ItemDto the service reads. */
  datatype ItemDto = ItemDto(
    id: Option<nat>,
    name: Option<string>,
    description: Option<string>,
    available: Option<bool>)

  /** ItemMapper.toItem followed by setOwnerId: the DTO's fields, owned by
      `ownerId`. */
  function ToItem(dto: ItemDto, ownerId: Option<nat>): (it: Item)
    ensures it.id == dto.id && it.ownerId == ownerId
    ensures it.name == dto.name && it.description == dto.description && it.available == dto.available
  {
    Item(dto.id, dto.name, dto.description, dto.available, ownerId)
  }

  /** The three setters of updateItem: name, description and availability
      are replaced by the DTO's, null or not; id and owner stay. */
  function Overwritten(it: Item, dto: ItemDto): (v: Item)
    ensures v.id == it.id && v.ownerId == it.ownerId
    ensures v.name == dto.name && v.description == dto.description && v.available == dto.available
  {
    it.(name := dto.name, description := dto.description, available := dto.available)
  }

  /** ItemServiceImpl over an ItemRepository and a UserRepository. */
  class ItemService {
    const items: ItemRepository
    const users: LegacyUserRepository.UserRepository

    /** Both stores are consistent and hold only issued ids, and every
        item has an owner. */
    ghost predicate Valid()
      reads this, items, users
    {
      && items.Valid() && items.Issued()
      && users.Valid() && users.Issued()
      && forall k | k in items.items :: items.items[k].ownerId.Some?
    }

    constructor(items: ItemRepository, users: LegacyUserRepository.UserRepository)
      requires items.Valid() && items.Issued() && users.Valid() && users.Issued()
      requires forall k | k in items.items :: items.items[k].ownerId.Some?
      ensures Valid()
      ensures this.items == items && this.users == users
    {
      this.items := items;
      this.users := users;
    }

    /** createItem: NotFound unless the caller is a stored user (a null
        caller never is); otherwise the DTO's item, owned by the caller, is
        stored under the next id. */
    method CreateItem(userId: Option<nat>, dto: ItemDto) returns (r: Result<Item>)
      requires Valid()
      modifies items
      ensures Valid()
      ensures userId !in users.users ==> r == Err(NotFound) && items.items == old(items.items) && items.id == old(items.id)
      ensures userId.None? ==> r == Err(NotFound)
      ensures userId in users.users ==>
                && r == Ok(ToItem(dto, userId).(id := Some(old(items.id))))
                && Some(old(items.id)) !in old(items.items)
                && items.items == old(items.items)[Some(old(items.id)) := r.value]
                && items.id == old(items.id) + 1
    {
      var owner := users.GetUserById(userId);
      if owner.Err? {
        return Err(owner.error);
      }
      var item := ToItem(dto, userId);
      var stored := items.CreateItem(item);
      r := Ok(stored);
    }

    /** updateItem: Validation for a null item id, NotFound for an unknown
        item, NotFound (with nothing stored) when the caller is not the
        owner; otherwise the overwritten item replaces the stored one and
        no other entry changes. */
    method UpdateItem(itemId: Option<nat>, dto: ItemDto, userId: Option<nat>) returns (r: Result<Item>)
      requires Valid()
      modifies items
      ensures Valid()
      ensures items.id == old(items.id)
      ensures itemId.None? ==> r == Err(Validation) && items.items == old(items.items)
      ensures itemId.Some? && itemId !in old(items.items) ==> r == Err(NotFound) && items.items == old(items.items)
      ensures itemId.Some? && itemId in old(items.items) && old(items.items)[itemId].ownerId != userId ==>
                r == Err(NotFound) && items.items == old(items.items)
      ensures itemId.Some? && itemId in old(items.items) && old(items.items)[itemId].ownerId == userId ==>
                && r == Ok(Overwritten(old(items.items)[itemId], dto))
                && items.items == old(items.items)[itemId := r.value]
    {
      if itemId.None? {
        return Err(Validation);
      }
      var found := items.GetItemById(itemId);
      if found.Err? {
        return Err(found.error);
      }
      var item := found.value;
      if item.ownerId != userId {
        return Err(NotFound);
      }
      var updated := items.UpdateItem(Overwritten(item, dto));
      r := Ok(updated);
    }

    /** getItemById: Validation for a null id, then the store's lookup. */
    function GetItemById(itemId: Option<nat>): (r: Result<Item>)
      reads this, items
      ensures itemId.None? ==> r == Err(Validation)
      ensures itemId.Some? && itemId !in items.items ==> r == Err(NotFound)
      ensures r.Ok? ==> itemId.Some? && itemId in items.items && r.value == items.items[itemId]
    {
      if itemId.None? then Err(Validation) else items.GetItemById(itemId)
    }

    /** getAllItemsByOwner: the items whose owner is the caller; none for a
        null caller, since every item has an owner. */
    function GetAllItemsByOwner(userId: Option<nat>): (r: set<Item>)
      reads this, items, users
      requires Valid()
      ensures forall it :: it in r <==> it in items.items.Values && it.ownerId == userId
      ensures userId.None? ==> r == {}
    {
      var r := items.GetAllItemsByOwner(userId);
      assert forall it | it in items.items.Values :: it.ownerId.Some?;
      r
    }
  }
}
