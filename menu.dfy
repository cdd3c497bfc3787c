/** The menu service: five handlers over the menu-item table. A soft-deleted
    item is invisible to every query and no index refers to it, so the model
    drops it from the table. */
module Menu {
  import opened Rpc
  import Store

  /** A price is only ever copied and compared, never computed with. */
  type Price = real

  datatype MenuItem = MenuItem(id: nat, name: string, description: string, price: Price)

  const MenuItemNotFound := Status(NotFound, "menu item not found")
  const CreateFailed := Status(Internal, "failed to create menu item")
  const ListFailed := Status(Internal, "failed to get menu items")
  const UpdateFailed := Status(Internal, "failed to update menu item")
  const DeleteFailed := Status(Internal, "failed to delete menu item")

  /** A row's own id, the key a listing is ordered by. */
  function MenuItemId(row: MenuItem): nat {
    row.id
  }

  class MenuServer {
    /** The visible menu items, by id. */
    var items: map<nat, MenuItem>
    /** The id the next inserted row receives; ids of deleted rows are not reused. */
    var nextId: nat

    ghost predicate Valid()
      reads this
    {
      && 0 < nextId
      && (forall k :: k in items ==> 0 < k < nextId && items[k].id == k)
    }

    /** An empty, freshly migrated table. */
    constructor ()
      ensures Valid()
      ensures items == map[] && nextId == 1
    {
      items := map[];
      nextId := 1;
    }

    /** `CreateMenuItem`: inserts one row with a fresh id, or fails with Internal. */
    method CreateMenuItem(name: string, description: string, price: Price, storeFails: bool)
      returns (r: Result<MenuItem>)
      requires Valid()
      modifies this
      ensures Valid()
      ensures r.Err? <==> storeFails
      ensures r.Err? ==> r.status == CreateFailed && items == old(items) && nextId == old(nextId)
      ensures r.Ok? ==> r.value == MenuItem(old(nextId), name, description, price)
      ensures r.Ok? ==> r.value.id != 0 && r.value.id !in old(items)
      ensures r.Ok? ==> items == old(items)[r.value.id := r.value] && |items| == |old(items)| + 1
      ensures r.Ok? ==> nextId == old(nextId) + 1
    {
      if storeFails {
        return Err(CreateFailed);
      }
      var m := MenuItem(nextId, name, description, price);
      items := items[nextId := m];
      nextId := nextId + 1;
      r := Ok(m);
    }

    /** `GetMenuItem`: any failure of the lookup, a missing row included, is NotFound. */
    method GetMenuItem(id: nat, lookupFails: bool) returns (r: Result<MenuItem>)
      requires Valid()
      ensures r.Err? <==> lookupFails || id !in items
      ensures r.Err? ==> r.status == MenuItemNotFound
      ensures r.Ok? ==> r.value.id == id && r.value == items[id]
    {
      if lookupFails || id !in items {
        return Err(MenuItemNotFound);
      }
      r := Ok(items[id]);
    }

    /** `GetMenuItems`: every visible item once, in increasing id order. */
    method GetMenuItems(storeFails: bool) returns (r: Result<seq<MenuItem>>)
      requires Valid()
      ensures r.Err? <==> storeFails
      ensures r.Err? ==> r.status == ListFailed
      ensures r.Ok? ==> Store.ListsTable(r.value, MenuItemId, items)
    {
      if storeFails {
        return Err(ListFailed);
      }
      var listed: seq<MenuItem> := [];
      var id := 1;
      Store.ListsBelowFirst(MenuItemId, items, nextId);
      while id < nextId
        invariant 1 <= id <= nextId
        invariant Store.ListsBelow(listed, MenuItemId, items, id)
        invariant |listed| == |Store.KeysBelow(items, id)|
      {
        Store.ListsBelowStep(listed, MenuItemId, items, id);
        if id in items {
          listed := listed + [items[id]];
        }
        id := id + 1;
      }
      Store.ListsBelowAll(listed, MenuItemId, items, nextId);
      r := Ok(listed);
    }

    /** `UpdateMenuItem`: overwrites name, description and price of an existing item. */
    method UpdateMenuItem(id: nat, name: string, description: string, price: Price, lookupFails: bool, saveFails: bool)
      returns (r: Result<MenuItem>)
      requires Valid()
      modifies this
      ensures Valid()
      ensures nextId == old(nextId)
      ensures (lookupFails || id !in old(items)) ==> r == Err(MenuItemNotFound) && items == old(items)
      ensures !lookupFails && id in old(items) && saveFails ==> r == Err(UpdateFailed) && items == old(items)
      ensures r.Ok? <==> !lookupFails && id in old(items) && !saveFails
      ensures r.Ok? ==> r.value == MenuItem(id, name, description, price) && items == old(items)[id := r.value]
    {
      if lookupFails || id !in items {
        return Err(MenuItemNotFound);
      }
      if saveFails {
        return Err(UpdateFailed);
      }
      var m := MenuItem(id, name, description, price);
      items := items[id := m];
      r := Ok(m);
    }

    /** `DeleteMenuItem`: a soft delete. A store error is Internal; a delete that
        matches no visible row is NotFound. */
    method DeleteMenuItem(id: nat, storeFails: bool) returns (r: Result<bool>)
      requires Valid()
      modifies this
      ensures Valid()
      ensures nextId == old(nextId)
      ensures storeFails ==> r == Err(DeleteFailed)
      ensures !storeFails && id !in old(items) ==> r == Err(MenuItemNotFound)
      ensures r.Err? ==> items == old(items)
      ensures r.Ok? <==> !storeFails && id in old(items)
      ensures r.Ok? ==> r.value && items == old(items) - {id}
    {
      if storeFails {
        return Err(DeleteFailed);
      }
      if id !in items {
        return Err(MenuItemNotFound);
      }
      items := items - {id};
      r := Ok(true);
    }
  }
}
