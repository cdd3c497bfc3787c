# Cafe record services, modelled in Dafny

Three gRPC services make up the cafe back end. Each one is a thin handler layer over its own GORM tables: the user service keeps users, the menu service keeps menu items, and the order service keeps orders and order items.

- The **user service** keeps users: a name, an email under a unique index, and a cafe-owner flag.
- The **menu service** keeps menu items: a name, a description and a price.
- The **order service** keeps orders. An order belongs to a user and has a status, which starts at `"pending"`, and a list of order items.

`CreateOrder` asks the user service whether the user exists. It then asks the menu service about each requested line, in request order, and stops at the first lookup that fails. Each line becomes an order item holding a copy of the menu item's name and price. The order and all its items are written by one `Create` call, which GORM runs in one transaction, so a failure anywhere leaves nothing behind.

The model has six modules:

- `Rpc` holds the three status codes that the handlers return, `Result`, and the `%d` rendering of an id with its read-back.
- `Store` holds the id-ordered scan that every list handler is proved against.
- `Users`, `Menu` and `Orders` hold one class per server. Each class has the table as a `map` field, the id counter as a field, and one method per handler.
- `Scenarios` holds client methods that replay what the services' own tests exercise, plus general round trips such as create-then-get, proved from the handlers' contracts alone.

The database is an in-memory table. Each failure the store can report is a boolean parameter of the handler (`storeFails`, `lookupFails`, `saveFails`, `writeFails`). The two peers of the order service are parameters too: the maps `users` and `menu`, in which an absent id stands for a lookup that failed.

GORM's soft delete hides a row from every query. For menu items the model simply drops the row. For users it moves the row to a `deleted` map, because the unique email index still covers a soft-deleted row: its email stays taken. The index itself is the field `index`, a map from each stored email to the row that holds it.

Three points of behaviour follow the code closely:

- **Empty fields are accepted.** A Go `string` cannot be nil, and `not null` (user-service/models/user.go:7-8) does not reject `""`, so `CreateUser` and `CreateMenuItem` never fail because a name or email is empty.
- **Quantities are not checked.** `CreateOrder` copies `item.Quantity` (order-service/grpc/server.go:53) without testing it, and the model accepts any `nat`.
- **Order item ids come from the insert.** `DB.Create(&order)` (order-service/grpc/server.go:59) fills in `OrderID` and the item ids. The model hands out consecutive item ids from its own counter.

## Model

| member | source | states |
|---|---|---|
| Rpc.Decimal | practical6-testing/order-service/grpc/server.go:47 | the `%d` rendering of an id is a non-empty string of digits with no leading zero |
| Rpc.ParseDecimalOfDecimal | practical6-testing/order-service/grpc/server.go:47 | the rendered id reads back as the same id |
| Rpc.DecimalInjective | practical6-testing/order-service/grpc/server.go:47 | two different ids never render to the same text |
| Store.ListsBelowFirst | practical6-testing/user-service/grpc/server.go:62-80 | before the scan starts nothing is listed, and no stored id lies below 1 |
| Store.ListsBelowStep | practical6-testing/user-service/grpc/server.go:69-78 | one scan step appends exactly the row stored under the current id, if any, and keeps the listing sorted and exact |
| Store.ListsBelowAll | practical6-testing/user-service/grpc/server.go:62-80 | a scan past every handed-out id lists each stored row exactly once, in increasing id order |
| Users.Indexes | practical6-testing/user-service/models/user.go:8 | the unique email index maps each stored email to the one row holding it, so a table with the index never holds two rows with the same email |
| Users.IndexFindsOther | practical6-testing/user-service/grpc/server.go:93 | the index says a new email clashes exactly when some other stored row (deleted or not) holds it |
| Users.IndexAfterWrite | practical6-testing/user-service/grpc/server.go:89-93 | inserting or overwriting a row whose email no other row holds keeps the index exact |
| Users.UserServer.CreateUser | practical6-testing/user-service/grpc/server.go:21-42 | fails with Internal "failed to create user" exactly when the store fails or the email is already indexed, and then nothing changes; otherwise it adds one row under a fresh nonzero id, returns the request's name, email and flag, and indexes the email |
| Users.UserServer.GetUser | practical6-testing/user-service/grpc/server.go:44-60 | NotFound "user not found" exactly when the lookup fails or the id is not a visible row; otherwise the stored row with that id |
| Users.UserServer.GetUsers | practical6-testing/user-service/grpc/server.go:62-81 | Internal "failed to get users" exactly when the store fails; otherwise every visible user exactly once, in increasing id order, so its length is the table's size |
| Users.UserServer.UpdateUser | practical6-testing/user-service/grpc/server.go:83-107 | NotFound for a missing id; Internal "failed to update user" when the save fails or another row holds the new email; otherwise it overwrites name, email and flag under the same id, re-indexes the email, and leaves every other row alone |
| Users.UserServer.DeleteUser | practical6-testing/user-service/grpc/server.go:109-120 | Internal when the store fails; NotFound when no visible row has the id; otherwise `true`, and the row leaves the visible table while it and its email stay in the store |
| Menu.MenuServer.CreateMenuItem | practical6-testing/menu-service/grpc/server.go:21-42 | fails with Internal "failed to create menu item" exactly when the store fails, and then nothing changes; otherwise it adds one item under a fresh nonzero id carrying the request's name, description and price |
| Menu.MenuServer.GetMenuItem | practical6-testing/menu-service/grpc/server.go:44-60 | NotFound "menu item not found" exactly when the lookup fails or the id is missing; otherwise the stored item with that id |
| Menu.MenuServer.GetMenuItems | practical6-testing/menu-service/grpc/server.go:62-81 | Internal "failed to get menu items" exactly when the store fails; otherwise every stored item exactly once, in increasing id order |
| Menu.MenuServer.UpdateMenuItem | practical6-testing/menu-service/grpc/server.go:83-107 | NotFound for a missing id; Internal when the save fails; otherwise it overwrites name, description and price under the same id and leaves other items alone |
| Menu.MenuServer.DeleteMenuItem | practical6-testing/menu-service/grpc/server.go:109-120 | Internal when the store fails; NotFound when no item has the id; otherwise `true`, and exactly that item leaves the table |
| Orders.MenuItemInvalid | practical6-testing/order-service/grpc/server.go:47 | a failed menu lookup gives code InvalidArgument and the message "menu item <id> not found" |
| Orders.MenuItemInvalidNamesId | practical6-testing/order-service/grpc/server.go:47 | the "menu item %d not found" message contains the failing id, which reads back out of it |
| Orders.MenuItemInvalidInjective | practical6-testing/order-service/grpc/server.go:47 | different failing ids give different statuses |
| Orders.MenuItem999Message | practical6-testing/order-service/grpc/server_test.go:237 | the message for id 999 is "menu item 999 not found" |
| Orders.Snapshot | practical6-testing/order-service/grpc/server.go:50-55 | the order item for one line carries the line's menu item id and quantity and the menu item's name and price, with its own id and order id still zero |
| Orders.FirstUnlisted | practical6-testing/order-service/grpc/server.go:43-48 | the position of the first line whose menu item is not found: every earlier line is found, and that one is not |
| Orders.LookupCount | practical6-testing/order-service/grpc/server.go:43-48 | the number of menu lookups made: every line up to and including the first failing one, and at least one when there are lines |
| Orders.ResolveItems | practical6-testing/order-service/grpc/server.go:43-57 | succeeds exactly when every line's menu item is found, giving one snapshot per line in request order; otherwise the InvalidArgument status naming the first line that is not found |
| Orders.ResolveStopsAtFirstFailure | practical6-testing/order-service/grpc/server.go:43-48 | lines after the first failing one are never looked at: appending lines to a failing request gives the same error |
| Orders.ResolveReadsOnlyNamedItems | practical6-testing/order-service/grpc/server.go:50-55 | the items depend on the menu only through the entries that the lines name |
| Orders.Stamp | practical6-testing/order-service/grpc/server.go:59 | the insert gives the items of the order consecutive fresh ids and the order's id, and keeps every copied field |
| Orders.OrderServer.CreateOrder | practical6-testing/order-service/grpc/server.go:29-85 | an unknown user gives InvalidArgument "user not found" before any menu lookup; the menu is asked about the lines in order up to the first failure, which gives its InvalidArgument; a failed insert gives Internal "failed to create order"; every failure leaves the store as it was; success stores one order under a fresh nonzero id with the user's id, status "pending", and one item per line carrying the line's menu item id and quantity and the menu's name and price |
| Orders.OrderServer.GetOrder | practical6-testing/order-service/grpc/server.go:87-114 | NotFound "order not found" exactly when the lookup fails or the id is missing; otherwise the stored order with its items |
| Orders.OrderServer.GetOrders | practical6-testing/order-service/grpc/server.go:116-146 | Internal "failed to get orders" exactly when the store fails; otherwise every order exactly once, in increasing id order |
| Orders.OrderServer.UpdateOrderStatus | practical6-testing/order-service/grpc/server.go:148-180 | NotFound for a missing id and Internal for a failed save, both leaving the store alone; otherwise the status becomes the given string, whatever it is, and the user, the items and the other orders stay |
| Scenarios.CreateOrderForCoffee | practical6-testing/order-service/grpc/server_test.go:128-167 | an order for two coffees at 2.50 is created: nonzero id, user 1, status "pending", one item with quantity 2 and price 2.50 |
| Scenarios.CreateOrderForUnknownUser | practical6-testing/order-service/grpc/server_test.go:169-201 | an unknown user gives InvalidArgument "user not found", no menu lookup and no stored order |
| Scenarios.CreateOrderWithUnknownItem | practical6-testing/order-service/grpc/server_test.go:203-241 | an unknown menu item gives InvalidArgument "menu item 999 not found"; the lookups stop there and no order is stored, even though an earlier line resolved |
| Scenarios.CreateEmptyOrder | practical6-testing/order-service/grpc/server.go:43-59 | an order with no lines is stored with no items |
| Scenarios.MenuEditLeavesOrderAlone | practical6-testing/order-service/grpc/server.go:50-55 | editing a menu item after an order was created leaves the order's copied name and price as they were |
| Scenarios.CreateThreeUsers | practical6-testing/user-service/grpc/server_test.go:145-161 | three creates with distinct emails on an empty table all succeed |
| Scenarios.ListThreeUsers | practical6-testing/tests/integration/integration_test.go:221-261 | after three creates, the listing has three users |
| Scenarios.ListTwoMenuItems | practical6-testing/tests/integration/integration_test.go:190-218 | after two creates, the menu listing has two items |
| Scenarios.FindCreatedUser | practical6-testing/user-service/grpc/server_test.go:85-135 | a created user is found under its own id, and id 9999 is NotFound |
| Scenarios.DeleteThenGetUser | practical6-testing/user-service/grpc/server.go:109-120 | deleting an existing user succeeds, and a later get is NotFound |
| Scenarios.DeletedEmailStaysTaken | practical6-testing/user-service/models/user.go:8 | after a soft delete the email stays in the index, so creating a user with it fails with Internal |
| Scenarios.DeleteMenuItemTwice | practical6-testing/menu-service/grpc/server.go:109-120 | the first delete of an item succeeds and the second is NotFound |
| Scenarios.CreateThenGetUser | practical6-testing/user-service/grpc/server.go:21-60 | what a successful create stores is what a get then returns |
| Scenarios.UpdateThenGetUser | practical6-testing/user-service/grpc/server.go:83-107 | what a successful update writes is what a get then returns |
| Scenarios.CreateThenGetMenuItem | practical6-testing/menu-service/grpc/server.go:21-60 | a create that the store accepts is what a get then returns |
| Scenarios.UpdateThenGetMenuItem | practical6-testing/menu-service/grpc/server.go:83-107 | an update succeeds exactly when the item exists, and a get then returns what it wrote |
| Scenarios.CreateUpdateGetOrder | practical6-testing/order-service/grpc/server.go:29-180 | a created order reads back unchanged, and a status update changes only its status |

## Left out

- Process and network plumbing are not modelled: the `main.go` files, environment configuration, the DSN, listening, dialing and registration.
- The database connection and migration are not modelled. `order-service/database/database.go` is replaced by the in-memory tables.
- gRPC transport, `context.Context` deadlines and cancellation are not modelled, and neither are the remote calls themselves. A peer is the answer its lookup gives.
- The handlers' response builders are not modelled. They are loops that copy fields into proto messages. The model returns the stored records, and so does not capture the narrowing of `uint` ids to `uint32`.
- `CreatedAt` and `UpdatedAt` are not modelled. They depend on the clock.
- The model does not capture floating-point behaviour. `Menu.Price` is `real`, and the code only copies prices.
- Messages are the fixed text given to `status.Errorf`. The wrapped `: %v` cause that some of them append is not modelled.
- Users.UserServer.GetUsers, Menu.MenuServer.GetMenuItems, Orders.OrderServer.GetOrders: `Find` has no `ORDER BY`, so the database may return rows in any order. The model always lists them in increasing id order.
- Orders.OrderServer.CreateOrder: a peer is a fixed map for the whole call. A transient failure that hits one lookup of an id and misses a later lookup of the same id is not modelled.
- Users.UserServer.CreateUser, Menu.MenuServer.CreateMenuItem, Orders.OrderServer.CreateOrder: a Postgres sequence may consume an id on a failed insert. In the model the counter advances only on success, so ids stay fresh but need not be identical to the database's.
- Users.UserServer.UpdateUser: a save may fail in ways other than an email clash. These are folded into `saveFails`, and no other column constraint is modelled.
- Concurrent requests are not modelled. Each handler runs alone.
- The menu service's model file is not part of this model. A menu item's fields are taken from `menu-service/grpc/server.go:22-26`.
- GORM's `Preload` cascade is not modelled. An order is stored as one value together with its items.
- Orders.OrderServer.GetOrder, Orders.OrderServer.GetOrders, Orders.OrderServer.UpdateOrderStatus: `Preload("OrderItems")` (order-service/grpc/server.go:89, 118, 150) has no `ORDER BY`, so the database may return an order's items in any order. The model returns them in the stored sequence, which is request order.
