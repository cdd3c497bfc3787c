/** The order service. `CreateOrder` checks the user with the user service
    once, looks each requested line up with the menu service in request
    order, snapshots each menu item's name and price into a new order item,
    and writes the order with all its items in one `Create` call, which
    GORM runs in one transaction over the orders and order-items tables.
    The two peers are seen only through their lookups, given here as maps:
    an id that is absent is a lookup that failed, for whatever reason. */
module Orders {
  import opened Rpc
  import Store
  import Users
  import Menu

  /** One requested line: which menu item, and how many. */
  datatype ItemRequest = ItemRequest(menuItemId: nat, quantity: nat)

  /** A stored order item. `menuItemName` and `price` are copies taken when
      the order was created, not a link to the live menu item. */
  datatype OrderItem = OrderItem(
    id: nat, orderId: nat, menuItemId: nat, menuItemName: string, quantity: nat, price: Menu.Price)

  /** An order together with its items, written and read as one aggregate. */
  datatype Order = Order(id: nat, userId: nat, status: string, items: seq<OrderItem>)

  /** The status every new order starts in. */
  const Pending := "pending"

  const UserInvalid := Status(InvalidArgument, "user not found")
  const CreateFailed := Status(Internal, "failed to create order")
  const OrderNotFound := Status(NotFound, "order not found")
  const ListFailed := Status(Internal, "failed to get orders")
  const UpdateFailed := Status(Internal, "failed to update order status")

  /** The status for a line whose menu item could not be looked up:
      "menu item %d not found" with the requested id. */
  function MenuItemInvalid(menuItemId: nat): (s: Status)
    ensures s.code == InvalidArgument
    ensures 20 < |s.message| && s.message[..10] == "menu item " && s.message[|s.message| - 10..] == " not found"
  {
    Status(InvalidArgument, "menu item " + Decimal(menuItemId) + " not found")
  }

  /** The menu-item status names the failing id: it can be read back out of the message. */
  lemma MenuItemInvalidNamesId(menuItemId: nat)
    ensures var m := MenuItemInvalid(menuItemId).message;
      20 < |m| && IsDigits(m[10..|m| - 10]) && ParseDecimal(m[10..|m| - 10]) == menuItemId
  {
    var m := MenuItemInvalid(menuItemId).message;
    assert m[10..|m| - 10] == Decimal(menuItemId);
    ParseDecimalOfDecimal(menuItemId);
  }

  /** Different failing ids give different statuses. */
  lemma MenuItemInvalidInjective(a: nat, b: nat)
    ensures MenuItemInvalid(a) == MenuItemInvalid(b) ==> a == b
  {
    MenuItemInvalidNamesId(a);
    MenuItemInvalidNamesId(b);
  }

  /** The message for id 999 reads "menu item 999 not found". */
  lemma MenuItem999Message()
    ensures MenuItemInvalid(999).message == "menu item 999 not found"
  {
  }

  function OrderId(o: Order): nat {
    o.id
  }

  /** The order item built for one line before it is stored: the request's
      menu item id and quantity, the menu item's name and price, and the
      zero ids that the insert replaces. */
  function Snapshot(line: ItemRequest, m: Menu.MenuItem): (r: OrderItem)
    ensures r.menuItemId == line.menuItemId && r.quantity == line.quantity
    ensures r.menuItemName == m.name && r.price == m.price
    ensures r.id == 0 && r.orderId == 0
  {
    OrderItem(0, 0, line.menuItemId, m.name, line.quantity, m.price)
  }

  /** The position of the first line whose menu item is not found, or the
      number of lines when every lookup succeeds. */
  function FirstUnlisted(lines: seq<ItemRequest>, menu: map<nat, Menu.MenuItem>): (k: nat)
    ensures k <= |lines|
    ensures forall j :: 0 <= j < k ==> lines[j].menuItemId in menu
    ensures k < |lines| ==> lines[k].menuItemId !in menu
    decreases |lines|
  {
    if lines == [] || lines[0].menuItemId !in menu then 0 else 1 + FirstUnlisted(lines[1..], menu)
  }

  /** How many menu lookups `CreateOrder` makes for a known user: up to and
      including the first one that fails. */
  function LookupCount(lines: seq<ItemRequest>, menu: map<nat, Menu.MenuItem>): (n: nat)
    ensures n <= |lines|
    ensures lines != [] ==> 0 < n
    ensures forall j :: 0 <= j < n - 1 ==> lines[j].menuItemId in menu
    ensures n < |lines| ==> 0 < n && lines[n - 1].menuItemId !in menu
  {
    var k := FirstUnlisted(lines, menu);
    if k < |lines| then k + 1 else k
  }

  /** The loop of `CreateOrder`: every line resolved against the menu, or the
      status of the first line that is not. */
  function ResolveItems(lines: seq<ItemRequest>, menu: map<nat, Menu.MenuItem>): (r: Result<seq<OrderItem>>)
    ensures r.Ok? <==> forall j :: 0 <= j < |lines| ==> lines[j].menuItemId in menu
    ensures r.Ok? ==> |r.value| == |lines|
    ensures r.Ok? ==> forall j :: 0 <= j < |lines| ==>
      lines[j].menuItemId in menu && r.value[j] == Snapshot(lines[j], menu[lines[j].menuItemId])
    ensures r.Err? ==> (FirstUnlisted(lines, menu) < |lines| &&
                        r.status == MenuItemInvalid(lines[FirstUnlisted(lines, menu)].menuItemId))
    decreases |lines|
  {
    if lines == [] then Ok([])
    else if lines[0].menuItemId !in menu then Err(MenuItemInvalid(lines[0].menuItemId))
    else match ResolveItems(lines[1..], menu)
      case Err(s) => Err(s)
      case Ok(rest) => Ok([Snapshot(lines[0], menu[lines[0].menuItemId])] + rest)
  }

  /** Lines after the first failing one are never looked at: once a prefix
      fails, any continuation fails with the same status. */
  lemma {:induction false} ResolveStopsAtFirstFailure(p: seq<ItemRequest>, q: seq<ItemRequest>, menu: map<nat, Menu.MenuItem>)
    requires ResolveItems(p, menu).Err?
    ensures ResolveItems(p + q, menu) == ResolveItems(p, menu)
    decreases |p|
  {
    assert p != [];
    assert (p + q)[0] == p[0];
    if p[0].menuItemId in menu {
      assert (p + q)[1..] == p[1..] + q;
      ResolveStopsAtFirstFailure(p[1..], q, menu);
    }
  }

  /** The items of an order depend on the menu only through the entries the
      lines name: two menus that agree there give the same items. */
  lemma {:induction false} ResolveReadsOnlyNamedItems(lines: seq<ItemRequest>, menu: map<nat, Menu.MenuItem>, other: map<nat, Menu.MenuItem>)
    requires forall j :: 0 <= j < |lines| ==>
      (lines[j].menuItemId in menu <==> lines[j].menuItemId in other) &&
      (lines[j].menuItemId in menu ==> menu[lines[j].menuItemId] == other[lines[j].menuItemId])
    ensures ResolveItems(lines, menu) == ResolveItems(lines, other)
    decreases |lines|
  {
    if lines != [] {
      assert lines[0].menuItemId in menu <==> lines[0].menuItemId in other;
      ResolveReadsOnlyNamedItems(lines[1..], menu, other);
    }
  }

  /** The insert fills in ids: the items of order `orderId` get consecutive
      fresh ids from `firstItemId`; every other field is kept. */
  function Stamp(drafts: seq<OrderItem>, orderId: nat, firstItemId: nat): (r: seq<OrderItem>)
    ensures |r| == |drafts|
    ensures forall j :: 0 <= j < |r| ==>
      r[j].id == firstItemId + j && r[j].orderId == orderId &&
      r[j].menuItemId == drafts[j].menuItemId && r[j].menuItemName == drafts[j].menuItemName &&
      r[j].quantity == drafts[j].quantity && r[j].price == drafts[j].price
  {
    seq(|drafts|, j requires 0 <= j < |drafts| => drafts[j].(id := firstItemId + j, orderId := orderId))
  }

  /** Every item of an order points back to it and has an id the counter has handed out. */
  ghost predicate ItemsBelong(items: seq<OrderItem>, orderId: nat, nextItemId: nat) {
    forall j :: 0 <= j < |items| ==> items[j].orderId == orderId && 0 < items[j].id < nextItemId
  }

  class OrderServer {
    /** The stored orders with their items, by id. */
    var orders: map<nat, Order>
    /** The id the next order receives. */
    var nextOrderId: nat
    /** The id the next order item receives. */
    var nextItemId: nat

    ghost predicate Valid()
      reads this
    {
      && 0 < nextOrderId && 0 < nextItemId
      && (forall k :: k in orders ==> 0 < k < nextOrderId && orders[k].id == k)
      && (forall k :: k in orders ==> ItemsBelong(orders[k].items, k, nextItemId))
    }

    /** An empty, freshly migrated pair of tables. */
    constructor ()
      ensures Valid()
      ensures orders == map[] && nextOrderId == 1 && nextItemId == 1
    {
      orders := map[];
      nextOrderId := 1;
      nextItemId := 1;
    }

    /** `CreateOrder`. `users` and `menu` are what the two peers' lookups
        return; `writeFails` is the outcome of the aggregate `Create`.
        `consulted` lists the menu ids looked up, in the order asked. */
    method CreateOrder(userId: nat, lines: seq<ItemRequest>, users: map<nat, Users.User>,
                       menu: map<nat, Menu.MenuItem>, writeFails: bool)
      returns (r: Result<Order>, consulted: seq<nat>)
      requires Valid()
      modifies this
      ensures Valid()
      // an unknown user stops everything before any menu lookup
      ensures userId !in users ==> r == Err(UserInvalid) && consulted == []
      // otherwise the lines are looked up in order, up to the first failure
      ensures userId in users ==> |consulted| == LookupCount(lines, menu)
      ensures userId in users ==> forall j :: 0 <= j < |consulted| ==> consulted[j] == lines[j].menuItemId
      ensures userId in users && ResolveItems(lines, menu).Err? ==> r == Err(ResolveItems(lines, menu).status)
      ensures userId in users && ResolveItems(lines, menu).Ok? && writeFails ==> r == Err(CreateFailed)
      ensures r.Ok? <==> userId in users && ResolveItems(lines, menu).Ok? && !writeFails
      // all or nothing
      ensures r.Err? ==> orders == old(orders) && nextOrderId == old(nextOrderId) && nextItemId == old(nextItemId)
      ensures r.Ok? ==> r.value.id == old(nextOrderId) && r.value.id != 0 && r.value.id !in old(orders)
      ensures r.Ok? ==> r.value.userId == userId && r.value.status == Pending
      ensures r.Ok? ==> r.value.items == Stamp(ResolveItems(lines, menu).value, r.value.id, old(nextItemId))
      ensures r.Ok? ==> |r.value.items| == |lines| && forall j :: 0 <= j < |lines| ==>
        var item := r.value.items[j];
        && lines[j].menuItemId in menu
        && item.menuItemId == lines[j].menuItemId && item.quantity == lines[j].quantity
        && item.menuItemName == menu[lines[j].menuItemId].name && item.price == menu[lines[j].menuItemId].price
      ensures r.Ok? ==> orders == old(orders)[r.value.id := r.value]
      ensures r.Ok? ==> nextOrderId == old(nextOrderId) + 1 && nextItemId == old(nextItemId) + |lines|
    {
      consulted := [];
      if userId !in users {
        return Err(UserInvalid), consulted;
      }
      var drafts: seq<OrderItem> := [];
      var i := 0;
      while i < |lines|
        invariant 0 <= i <= |lines|
        invariant i <= FirstUnlisted(lines, menu)
        invariant |drafts| == i && |consulted| == i
        invariant forall j :: 0 <= j < i ==>
          lines[j].menuItemId in menu && drafts[j] == Snapshot(lines[j], menu[lines[j].menuItemId])
        invariant forall j :: 0 <= j < i ==> consulted[j] == lines[j].menuItemId
      {
        var id := lines[i].menuItemId;
        consulted := consulted + [id];
        if id !in menu {
          return Err(MenuItemInvalid(id)), consulted;
        }
        drafts := drafts + [Snapshot(lines[i], menu[id])];
        i := i + 1;
      }
      assert drafts == ResolveItems(lines, menu).value;
      if writeFails {
        return Err(CreateFailed), consulted;
      }
      var o := Order(nextOrderId, userId, Pending, Stamp(drafts, nextOrderId, nextItemId));
      orders := orders[o.id := o];
      nextOrderId := nextOrderId + 1;
      nextItemId := nextItemId + |drafts|;
      r := Ok(o);
    }

    /** `GetOrder`: any failure of the lookup, a missing order included, is NotFound. */
    method GetOrder(id: nat, lookupFails: bool) returns (r: Result<Order>)
      requires Valid()
      ensures r.Err? <==> lookupFails || id !in orders
      ensures r.Err? ==> r.status == OrderNotFound
      ensures r.Ok? ==> r.value.id == id && r.value == orders[id]
    {
      if lookupFails || id !in orders {
        return Err(OrderNotFound);
      }
      r := Ok(orders[id]);
    }

    /** `GetOrders`: every order once, with its items, in increasing id order. */
    method GetOrders(storeFails: bool) returns (r: Result<seq<Order>>)
      requires Valid()
      ensures r.Err? <==> storeFails
      ensures r.Err? ==> r.status == ListFailed
      ensures r.Ok? ==> Store.ListsTable(r.value, OrderId, orders)
    {
      if storeFails {
        return Err(ListFailed);
      }
      var listed: seq<Order> := [];
      var id := 1;
      Store.ListsBelowFirst(OrderId, orders, nextOrderId);
      while id < nextOrderId
        invariant 1 <= id <= nextOrderId
        invariant Store.ListsBelow(listed, OrderId, orders, id)
        invariant |listed| == |Store.KeysBelow(orders, id)|
      {
        Store.ListsBelowStep(listed, OrderId, orders, id);
        if id in orders {
          listed := listed + [orders[id]];
        }
        id := id + 1;
      }
      Store.ListsBelowAll(listed, OrderId, orders, nextOrderId);
      r := Ok(listed);
    }

    /** `UpdateOrderStatus`: overwrites the status with any string at all; no
        transition is checked. User and items stay as they are. */
    method UpdateOrderStatus(id: nat, status: string, lookupFails: bool, saveFails: bool)
      returns (r: Result<Order>)
      requires Valid()
      modifies this
      ensures Valid()
      ensures nextOrderId == old(nextOrderId) && nextItemId == old(nextItemId)
      ensures (lookupFails || id !in old(orders)) ==> r == Err(OrderNotFound) && orders == old(orders)
      ensures !lookupFails && id in old(orders) && saveFails ==> r == Err(UpdateFailed) && orders == old(orders)
      ensures r.Ok? <==> !lookupFails && id in old(orders) && !saveFails
      ensures r.Ok? ==> r.value.id == id && r.value.status == status
      ensures r.Ok? ==> r.value.userId == old(orders[id].userId) && r.value.items == old(orders[id].items)
      ensures r.Ok? ==> orders == old(orders)[id := r.value]
    {
      if lookupFails || id !in orders {
        return Err(OrderNotFound);
      }
      var o := orders[id].(status := status);
      if saveFails {
        return Err(UpdateFailed);
      }
      orders := orders[id := o];
      r := Ok(o);
    }
  }
}
