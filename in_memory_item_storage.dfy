/**
 * The in-memory item store of the first version: a hash map from id to item, changed in
 * place, which consults the in-memory user store for ownership checks.
 */
module ItemStorage {
  import opened Common
  import opened Domain
  import opened UserStorage
  import ItemService

  class InMemoryItemStorage {
    var items: map<int, Item>
    const userStorage: InMemoryUserStorage

    /** Every item is stored under its own id. */
    ghost predicate Valid()
      reads this
    {
      forall id :: id in items ==> items[id].id == id
    }

    constructor (users: InMemoryUserStorage)
      ensures Valid() && items == map[] && userStorage == users
    {
      items := map[];
      userStorage := users;
    }

    /** findItemByOwnerId: every stored item of the owner, each once. */
    method FindItemByOwnerId(ownerId: int) returns (r: seq<Item>)
      requires Valid()
      ensures forall it :: it in r <==> exists k :: k in items && items[k] == it && it.owner == ownerId
      ensures forall i, j :: 0 <= i < j < |r| ==> r[i].id != r[j].id
    {
      var rest := items.Keys;
      r := [];
      while rest != {}
        invariant rest <= items.Keys
        invariant forall it :: it in r <==> exists k :: k in items && k !in rest && items[k] == it && it.owner == ownerId
        invariant forall i :: 0 <= i < |r| ==> r[i].id in items && r[i].id !in rest
        invariant forall i, j :: 0 <= i < j < |r| ==> r[i].id != r[j].id
        decreases rest
      {
        ghost var some := ElementOf(rest);
        var k :| k in rest;
        if items[k].owner == ownerId {
          r := r + [items[k]];
        }
        rest := rest - {k};
      }
    }

    /** findItemById: the item stored under the id, or NotFound. */
    function FindItemById(itemId: int): (r: Result<Item>)
      reads this
      ensures r.Ok? <==> itemId in items
      ensures r.Ok? ==> r.value == items[itemId]
      ensures r.Err? ==> r.error == NotFound
      ensures Valid() ==> (r.Ok? <==> exists k :: k in items && items[k].id == itemId)
    {
      if itemId in items then Ok(items[itemId]) else Err(NotFound)
    }

    /** create: the item is stored under a fresh id, one more than the largest. The caller's id is not used. */
    method Create(it: Item) returns (r: Item)
      requires Valid()
      modifies this
      ensures r == it.(id := r.id)
      ensures r.id !in old(items) && forall k :: k in old(items) ==> k < r.id
      ensures old(items) == map[] ==> r.id == 1
      ensures old(items) != map[] ==> r.id - 1 in old(items)
      ensures items == old(items)[r.id := r]
      ensures |items| == |old(items)| + 1
      ensures Valid()
    {
      var id := NextId(items.Keys);
      r := it.(id := id);
      items := items[id := r];
    }

    /**
     * update: isOwnerCheck looks the user up first (NotFound), then reads the item, which is
     * null for an unknown id (Internal), then demands the owner (NotFound); the patch keeps
     * the old value of every field it leaves out.
     */
    method Update(userId: int, itemId: int, patch: ItemDraft) returns (r: Result<Item>)
      requires Valid()
      modifies this
      ensures userStorage.FindUserById(userId).Err? ==> r == Err(NotFound)
      ensures userStorage.FindUserById(userId).Ok? && itemId !in old(items) ==> r == Err(Internal)
      ensures (userStorage.FindUserById(userId).Ok? && itemId in old(items) && old(items)[itemId].owner != userId)
              ==> r == Err(NotFound)
      ensures (userStorage.FindUserById(userId).Ok? && itemId in old(items) && old(items)[itemId].owner == userId)
              ==> r == Ok(ItemService.Patch(old(items)[itemId], patch))
      ensures r.Ok? ==> items == old(items)[itemId := r.value]
      ensures r.Err? ==> items == old(items)
      ensures Valid()
    {
      if userStorage.FindUserById(userId).Err? {
        return Err(NotFound);
      }
      if itemId !in items {
        return Err(Internal);
      }
      var item := items[itemId];
      if userId != item.owner {
        return Err(NotFound);
      }
      item := ItemService.Patch(item, patch);
      items := items[itemId := item];
      r := Ok(item);
    }

    /** removeItemById: only that key goes. */
    method RemoveItemById(itemId: int)
      requires Valid()
      modifies this
      ensures items == old(items) - {itemId}
      ensures Valid()
    {
      items := items - {itemId};
    }

    /** removeItemByOwnerId: the owner's items go, every other item stays as it was. */
    method RemoveItemByOwnerId(ownerId: int)
      requires Valid()
      modifies this
      ensures forall k :: k in items <==> k in old(items) && old(items)[k].owner != ownerId
      ensures forall k :: k in items ==> items[k] == old(items)[k]
      ensures Valid()
    {
      var list := FindItemByOwnerId(ownerId);
      for i := 0 to |list|
        invariant Valid()
        invariant forall k :: k in items <==> k in old(items) && forall j :: 0 <= j < i ==> list[j].id != k
        invariant forall k :: k in items ==> items[k] == old(items)[k]
      {
        if list[i].owner == ownerId {
          RemoveItemById(list[i].id);
        }
      }
      forall j | 0 <= j < |list| ensures list[j].id in old(items) && old(items)[list[j].id].owner == ownerId {
        assert list[j] in list;
      }
      forall k | k in old(items) && old(items)[k].owner == ownerId ensures exists j :: 0 <= j < |list| && list[j].id == k {
        assert old(items)[k] in list;
      }
    }

    /** removeAllItems: the map becomes empty. */
    method RemoveAllItems()
      modifies this
      ensures items == map[]
      ensures Valid()
    {
      items := map[];
    }
  }
}
