/** Clients of the three servers, one per behaviour the services' own tests
    exercise, proved from the servers' contracts alone. */
module Scenarios {
  import opened Rpc
  import Users
  import Menu
  import Orders

  /** An order for user 1 of two of menu item 1, which costs 2.50: one item,
      quantity 2, price 2.50, status "pending", a nonzero id. */
  method CreateOrderForCoffee() returns (r: Result<Orders.Order>)
    ensures r.Ok? && r.value.id != 0 && r.value.userId == 1 && r.value.status == "pending"
    ensures |r.value.items| == 1
    ensures r.value.items[0].menuItemId == 1 && r.value.items[0].menuItemName == "Coffee"
    ensures r.value.items[0].quantity == 2 && r.value.items[0].price == 2.50
  {
    var server := new Orders.OrderServer();
    var users := map[1 := Users.User(1, "Test User", "", false)];
    var menu := map[1 := Menu.MenuItem(1, "Coffee", "", 2.50)];
    var consulted;
    r, consulted := server.CreateOrder(1, [Orders.ItemRequest(1, 2)], users, menu, false);
  }

  /** An unknown user is an InvalidArgument "user not found"; the menu is
      never asked and no order is written. */
  method CreateOrderForUnknownUser() returns (r: Result<Orders.Order>, consulted: seq<nat>, stored: nat)
    ensures r == Err(Status(InvalidArgument, "user not found"))
    ensures consulted == [] && stored == 0
  {
    var server := new Orders.OrderServer();
    var users := map[1 := Users.User(1, "Test User", "", false)];
    var menu := map[1 := Menu.MenuItem(1, "Coffee", "", 2.50)];
    r, consulted := server.CreateOrder(999, [Orders.ItemRequest(1, 1)], users, menu, false);
    stored := |server.orders|;
  }

  /** An unknown menu item is an InvalidArgument naming it, and no order is
      written even though an earlier line resolved. */
  method CreateOrderWithUnknownItem() returns (r: Result<Orders.Order>, consulted: seq<nat>, stored: nat)
    ensures r == Err(Status(InvalidArgument, "menu item 999 not found"))
    ensures consulted == [1, 999] && stored == 0
  {
    var server := new Orders.OrderServer();
    var users := map[1 := Users.User(1, "Test User", "", false)];
    var menu := map[1 := Menu.MenuItem(1, "Coffee", "", 2.50)];
    var lines := [Orders.ItemRequest(1, 1), Orders.ItemRequest(999, 1), Orders.ItemRequest(1, 3)];
    assert Orders.FirstUnlisted(lines, menu) == 1;
    Orders.MenuItem999Message();
    r, consulted := server.CreateOrder(1, lines, users, menu, false);
    stored := |server.orders|;
  }

  /** An order with no lines is accepted and stored with no items. */
  method CreateEmptyOrder() returns (r: Result<Orders.Order>, stored: nat)
    ensures r.Ok? && r.value.items == [] && stored == 1
  {
    var server := new Orders.OrderServer();
    var users := map[1 := Users.User(1, "Test User", "", false)];
    var consulted;
    r, consulted := server.CreateOrder(1, [], users, map[], false);
    stored := |server.orders|;
  }

  /** The price and name an order stored are the ones the menu had when the
      order was created, whatever the menu says afterwards. */
  method MenuEditLeavesOrderAlone(orders: Orders.OrderServer, menu: Menu.MenuServer,
                                  users: map<nat, Users.User>, userId: nat, menuItemId: nat,
                                  quantity: nat, newName: string, newPrice: Menu.Price)
    returns (fetched: Result<Orders.Order>)
    requires orders.Valid() && menu.Valid()
    requires userId in users && menuItemId in menu.items
    modifies orders, menu
    ensures fetched.Ok? && |fetched.value.items| == 1
    ensures fetched.value.items[0].price == old(menu.items[menuItemId].price)
    ensures fetched.value.items[0].menuItemName == old(menu.items[menuItemId].name)
    ensures menuItemId in menu.items && menu.items[menuItemId].price == newPrice && menu.items[menuItemId].name == newName
  {
    var created, consulted := orders.CreateOrder(userId, [Orders.ItemRequest(menuItemId, quantity)], users, menu.items, false);
    var edited := menu.UpdateMenuItem(menuItemId, newName, "", newPrice, false, false);
    fetched := orders.GetOrder(created.value.id, false);
  }

  /** A create with an email not yet in the index succeeds and adds one row. */
  method AddUser(server: Users.UserServer, name: string, email: string)
    requires server.Valid() && email !in server.index
    modifies server
    ensures server.Valid() && |server.users| == old(|server.users|) + 1
    ensures server.index.Keys == old(server.index.Keys) + {email}
  {
    var r := server.CreateUser(name, email, false, false);
  }

  /** Two creates with distinct emails on an empty user table both succeed. */
  method CreateTwoUsers(e1: string, e2: string) returns (server: Users.UserServer)
    requires e1 != e2
    ensures fresh(server) && server.Valid() && |server.users| == 2
    ensures server.index.Keys == {e1, e2}
  {
    server := new Users.UserServer();
    AddUser(server, "User 1", e1);
    AddUser(server, "User 2", e2);
  }

  /** Three creates with distinct emails on an empty user table all succeed. */
  method CreateThreeUsers(e1: string, e2: string, e3: string) returns (server: Users.UserServer)
    requires e1 != e2 && e1 != e3 && e2 != e3
    ensures fresh(server) && server.Valid() && |server.users| == 3
  {
    server := CreateTwoUsers(e1, e2);
    AddUser(server, "User 3", e3);
  }

  /** Three creates on an empty user table list three users. */
  method ListThreeUsers() returns (r: Result<seq<Users.User>>)
    ensures r.Ok? && |r.value| == 3
  {
    var e1, e2, e3 := "user1@example.com", "user2@example.com", "user3@example.com";
    assert e1[4] == '1' && e2[4] == '2' && e3[4] == '3';
    var server := CreateThreeUsers(e1, e2, e3);
    r := server.GetUsers(false);
  }

  /** Two creates on an empty menu list two items. */
  method ListTwoMenuItems() returns (r: Result<seq<Menu.MenuItem>>)
    ensures r.Ok? && |r.value| == 2
  {
    var server := new Menu.MenuServer();
    var a := server.CreateMenuItem("Coffee", "Hot coffee", 2.50, false);
    var b := server.CreateMenuItem("Sandwich", "Ham sandwich", 5.00, false);
    r := server.GetMenuItems(false);
  }

  /** A created user is found under its id; id 9999 is NotFound. */
  method FindCreatedUser() returns (created: Result<Users.User>, found: Result<Users.User>, missing: Result<Users.User>)
    ensures created.Ok? && found.Ok? && found.value.id == created.value.id
    ensures missing.Err? && missing.status.code == NotFound
  {
    var server := new Users.UserServer();
    created := server.CreateUser("Test User", "test@example.com", false, false);
    found := server.GetUser(created.value.id, false);
    missing := server.GetUser(9999, false);
  }

  /** Deleting an existing user succeeds, and the user is then NotFound. */
  method DeleteThenGetUser(server: Users.UserServer, id: nat) returns (deleted: Result<bool>, after: Result<Users.User>)
    requires server.Valid() && id in server.users
    modifies server
    ensures deleted == Ok(true)
    ensures after == Err(Status(NotFound, "user not found"))
  {
    deleted := server.DeleteUser(id, false);
    after := server.GetUser(id, false);
  }

  /** A soft-deleted user still holds its email: creating a user with it fails. */
  method DeletedEmailStaysTaken() returns (again: Result<Users.User>)
    ensures again == Err(Status(Internal, "failed to create user"))
  {
    var server := new Users.UserServer();
    var first := server.CreateUser("Test User", "test@example.com", false, false);
    var gone := server.DeleteUser(first.value.id, false);
    again := server.CreateUser("Test User", "test@example.com", false, false);
  }

  /** Deleting a menu item twice: the first succeeds, the second is NotFound. */
  method DeleteMenuItemTwice(server: Menu.MenuServer, id: nat) returns (first: Result<bool>, second: Result<bool>)
    requires server.Valid() && id in server.items
    modifies server
    ensures first == Ok(true)
    ensures second == Err(Status(NotFound, "menu item not found"))
  {
    first := server.DeleteMenuItem(id, false);
    second := server.DeleteMenuItem(id, false);
  }

  /** What a successful create stores is what a later get returns. */
  method CreateThenGetUser(server: Users.UserServer, name: string, email: string, isCafeOwner: bool)
    returns (created: Result<Users.User>, found: Result<Users.User>)
    requires server.Valid()
    modifies server
    ensures created.Ok? ==> found == created
  {
    created := server.CreateUser(name, email, isCafeOwner, false);
    found := server.GetUser(if created.Ok? then created.value.id else 0, false);
  }

  /** A successful update is what a later get returns; the id stays. */
  method UpdateThenGetUser(server: Users.UserServer, id: nat, name: string, email: string, isCafeOwner: bool)
    returns (updated: Result<Users.User>, found: Result<Users.User>)
    requires server.Valid()
    modifies server
    ensures updated.Ok? ==> found == Ok(Users.User(id, name, email, isCafeOwner))
  {
    updated := server.UpdateUser(id, name, email, isCafeOwner, false, false);
    found := server.GetUser(id, false);
  }

  /** What a successful create stores is what a later get returns. */
  method CreateThenGetMenuItem(server: Menu.MenuServer, name: string, description: string, price: Menu.Price)
    returns (created: Result<Menu.MenuItem>, found: Result<Menu.MenuItem>)
    requires server.Valid()
    modifies server
    ensures created.Ok? && found == created
  {
    created := server.CreateMenuItem(name, description, price, false);
    found := server.GetMenuItem(created.value.id, false);
  }

  /** A successful update is what a later get returns. */
  method UpdateThenGetMenuItem(server: Menu.MenuServer, id: nat, name: string, description: string, price: Menu.Price)
    returns (updated: Result<Menu.MenuItem>, found: Result<Menu.MenuItem>)
    requires server.Valid()
    modifies server
    ensures updated.Ok? <==> id in old(server.items)
    ensures updated.Ok? ==> found == Ok(Menu.MenuItem(id, name, description, price))
  {
    updated := server.UpdateMenuItem(id, name, description, price, false, false);
    found := server.GetMenuItem(id, false);
  }

  /** A created order reads back unchanged, items included, and a status
      update changes nothing but the status. */
  method CreateUpdateGetOrder(server: Orders.OrderServer, userId: nat, lines: seq<Orders.ItemRequest>,
                              users: map<nat, Users.User>, menu: map<nat, Menu.MenuItem>, status: string)
    returns (created: Result<Orders.Order>, found: Result<Orders.Order>, updated: Result<Orders.Order>, after: Result<Orders.Order>)
    requires server.Valid()
    modifies server
    ensures created.Ok? ==> found == created
    ensures created.Ok? ==> updated == Ok(created.value.(status := status)) && after == updated
  {
    var consulted;
    created, consulted := server.CreateOrder(userId, lines, users, menu, false);
    var id := if created.Ok? then created.value.id else 0;
    found := server.GetOrder(id, false);
    updated := server.UpdateOrderStatus(id, status, false, false);
    after := server.GetOrder(id, false);
  }
}
