# Order placement and lifecycle of a small e-commerce backend, in Dafny

This project models the core of a NestJS backend for a small shop. The model covers four parts:

- how an order is placed: the products are looked up, the stock is checked, the total is added up, the order and its items are created, and the stock is taken;
- the order lifecycle: PENDING, then PAID or CANCELLED;
- the product rules of the products service and its repository;
- the in-memory store the repository runs against. That store is the backend's own test double of the Prisma client.

Every operation is proved against specification functions on plain values, and the properties the backend promises are proved about those functions. The main properties are these:

- the total is the sum of quantity times price at the time of placement;
- each product loses exactly its ordered quantity and stock never goes negative;
- a request whose ids all name products but repeat one is refused as NotFound naming nothing; otherwise every unknown id is named, once per occurrence;
- PAID and CANCELLED are final;
- cancelling right after placing restores the product table exactly.

Modules, in dependency order:

- `Domain` (`domain.dfy`): the records (user, product, order, order item, order line), the two enums, `Option`, `Result` and the error kinds.
- `Text` (`text.dfy`): substring containment, with and without ASCII case folding.
- `FakePrisma` (`fake_prisma.dfy`): class `Store`. It holds the four tables of the in-memory store as `map` fields and has one method per table operation.
- `Ledger` (`ledger.dfy`): the specification on values. It covers which requests are refused and why, totals, the priced items, the stock after taking and after putting back, and the lemmas relating them.
- `OrderRepo` (`order_repository.dfy`): the order repository. Its transaction callbacks are module-level methods on the store they receive.
- `Orders` (`orders_service.dfy`): the orders service and the lifecycle.
- `ProductRepo` (`product_repository.dfy`) and `Products` (`products_service.dfy`): the product repository and the products service.
- `Scenarios` (`scenarios.dfy`): the unit-test and end-to-end flows on concrete values.

Modelling choices:

- A string id such as `prod_3` is modelled by its number, with one numbering per table.
- A thrown exception is modelled as an `Err` result: `NotFound`, `BadRequest`, or `StoreError` for a failure inside the store.
- The enum value `USER` of the role enum is called `Customer`, because `User` already names the user record.

## Model

| member | source | states |
|---|---|---|
| FakePrisma.Store.constructor | test/utils/fake-prisma.service.ts:6-10 | a new store has four empty tables; it is well formed and has no negative price or stock |
| FakePrisma.Store.UserFindUnique | test/utils/fake-prisma.service.ts:21-26 | given an id: the user stored under it, or nothing; otherwise, given a non-empty email: the user with that email that was created first, or nothing; otherwise nothing |
| FakePrisma.Store.UserCreate | test/utils/fake-prisma.service.ts:28-33 | the new user gets number size+1, which was unused; it is stored under that number and every other table entry is kept |
| FakePrisma.Store.ProductCreate | test/utils/fake-prisma.service.ts:48-62 | the new product gets the next unused number and the given fields; an absent active flag means active; it is stored under that number, every other product is kept, and the store stays well formed; it is non-negative afterwards exactly when it was before and the new price and stock are non-negative |
| FakePrisma.Store.ProductFindMany | test/utils/fake-prisma.service.ts:64-82 | returns the stored products in creation order; a product is in the result exactly when it is stored and passes every filter given (id among the list, name containing the text, flag equal); the filters combine conjunctively |
| FakePrisma.Store.ProductFindUnique | test/utils/fake-prisma.service.ts:84-86 | the product stored under the id, or nothing when there is none |
| FakePrisma.Store.ProductUpdate | test/utils/fake-prisma.service.ts:88-100 | an unknown id is a store failure and changes nothing; otherwise the supplied fields are written over that product only, and every other field and product is kept |
| FakePrisma.Merge | test/utils/fake-prisma.service.ts:97 | each field of the result is the supplied value when one is given and the old value otherwise; the id never changes |
| FakePrisma.Store.ProductDecrementStock | src/orders/repository/prisma-order.repository.ts:77-80 | an unknown id is a store failure that changes nothing; otherwise that product's stock drops by n and nothing else changes |
| FakePrisma.Store.ProductDelete | src/products/repository/prisma-product.repository.ts:32-34 | an unknown id is a store failure; otherwise the product is removed from the table and nothing else changes |
| FakePrisma.Store.OrderCreate | test/utils/fake-prisma.service.ts:118-136 | the new order gets number size+1, the given user and total, status PENDING unless another is given, and no items; every other order is kept |
| FakePrisma.Store.OrderFindMany | test/utils/fake-prisma.service.ts:138-153 | returns the stored orders in creation order, items included; an order is in the result exactly when it is stored and matches the user and the status wherever those are given |
| FakePrisma.Store.OrderFindUnique | test/utils/fake-prisma.service.ts:155-165 | the order stored under the id, items included, or nothing |
| FakePrisma.Store.OrderUpdateStatus | test/utils/fake-prisma.service.ts:182-193 | the order keeps every field except its status, which is set to the given one; other orders are kept |
| FakePrisma.Store.OrderItemCreate | test/utils/fake-prisma.service.ts:197-205 | the item gets number size+1 and is stored under it; it is appended to the end of its order's items; other orders and products are kept |
| Text.ContainsIffOccurs | src/products/repository/prisma-product.repository.ts:19 | "contains" holds exactly when the query occurs as a segment of the name at some position |
| Text.EmptyQueryAlwaysContained | src/products/repository/prisma-product.repository.ts:19 | the empty query is contained in every name, with or without case folding |
| Text.ContainsImpliesIgnoringCase | src/products/repository/prisma-product.repository.ts:19 | a name that contains the query exactly also contains it ignoring case |
| Text.LowerIdempotent | src/products/repository/prisma-product.repository.ts:19 | lowering a name twice is the same as lowering it once |
| Text.CaseDoesNotMatter | src/products/repository/prisma-product.repository.ts:19 | matching ignoring case gives the same answer when the name or the query is lowered first |
| Text.SameUpToCase | src/products/repository/prisma-product.repository.ts:19 | two names, and two queries, that differ only in the case of ASCII letters match alike |
| Ledger.Missing | src/orders/repository/prisma-order.repository.ts:24 | exactly the requested ids that name no product; never longer than the request |
| Ledger.MissingDependsOnRequestedIdsOnly | src/orders/repository/prisma-order.repository.ts:24 | the missing list depends only on which requested ids the product table has, so the looked-up products and the whole table give the same list |
| Ledger.SetOfCardinality | src/orders/repository/prisma-order.repository.ts:23 | a list of ids has at most as many distinct ids as entries, and exactly as many iff no id repeats |
| Ledger.SubsetCardinality | src/orders/repository/prisma-order.repository.ts:23 | a subset is no larger than its superset, and equal in size only when equal |
| Ledger.FoundAsManyAsRequested | src/orders/repository/prisma-order.repository.ts:19-26 | the lookup finds as many products as there are requested ids exactly when every id names a product and no id repeats; so a repeated id is refused as NotFound |
| Ledger.FirstShort | src/orders/repository/prisma-order.repository.ts:35-48 | the first line whose quantity exceeds its product's stock; every earlier line fits |
| Ledger.SnapshotAgreement | src/orders/repository/prisma-order.repository.ts:29-51 | the stock check and the total on the looked-up products equal those on the whole product table |
| Ledger.LinesTotalNonnegative | src/orders/repository/prisma-order.repository.ts:33-51 | with non-negative quantities and prices the total is non-negative |
| Ledger.PlacementAccepted | src/orders/repository/prisma-order.repository.ts:18-51 | a request is accepted exactly when its ids are distinct and all known and every quantity is within its product's stock |
| Ledger.PricedItemsShape | src/orders/repository/prisma-order.repository.ts:60-68 | one item per line, in line order, with the line's product and quantity, the product's price as unit price, the order's id, and consecutive fresh item ids |
| Ledger.PricedItemsNext | src/orders/repository/prisma-order.repository.ts:61-68 | pricing one more line appends exactly that line's item |
| Ledger.PricedItemsTotal | src/orders/repository/prisma-order.repository.ts:50 | the sum of the items' quantity times unit price equals the total of the request |
| Ledger.PricedItemsAgreement | src/orders/repository/prisma-order.repository.ts:62-66 | the items priced from the looked-up products equal those priced from the whole product table |
| Ledger.FiledAt | test/utils/fake-prisma.service.ts:197-200 | filing new items keeps every earlier item and makes each new item reachable by its id |
| Ledger.RestockedNext | src/orders/repository/prisma-order.repository.ts:126-134 | putting back one more item adds exactly its quantity to its product |
| Ledger.DecrementedStep | src/orders/repository/prisma-order.repository.ts:75-81 | taking one more line's quantity from its product extends the fold by that line |
| Ledger.DecrementedAt | src/orders/repository/prisma-order.repository.ts:75-81 | after taking the stock, the table has the same products and each one has lost the total quantity ordered of it, with nothing else changed |
| Ledger.RestockedAt | src/orders/repository/prisma-order.repository.ts:126-134 | after putting the stock back, the table has the same products and each one has gained the total quantity of its items, with nothing else changed |
| Ledger.MirroredQuantities | src/orders/repository/prisma-order.repository.ts:61-68 | items that mirror the lines carry the same quantity of each product as the lines |
| Ledger.CancelUndoesPlacement | src/orders/repository/prisma-order.repository.ts:124-134 | putting back the items of a placed order restores the product table exactly as it was before the order |
| Ledger.OrderedQuantityOfDistinct | src/orders/repository/prisma-order.repository.ts:75-81 | with distinct ids, an unreferenced product has no quantity ordered and a referenced one has exactly its line's quantity |
| Ledger.PlacementEffects | src/orders/repository/prisma-order.repository.ts:44-81 | after an accepted placement, each referenced product has lost exactly its line's quantity, unreferenced products are unchanged, and no stock is negative |
| Ledger.FirstMissing | src/orders/repository/prisma-order.repository.ts:126-131 | the first item whose product is gone; every earlier item's product is there |
| Ledger.RestockKeepsNonnegative | src/orders/repository/prisma-order.repository.ts:130-133 | putting back positive quantities keeps every stock non-negative |
| Ledger.ItemQuantityNonnegative | src/orders/repository/prisma-order.repository.ts:132 | items with positive quantities put back a non-negative amount of each product |
| OrderRepo.PlacedOrderShape | src/orders/repository/prisma-order.repository.ts:55-72 | a placed order mirrors its request line by line, with fresh consecutive item ids, the order's id on each item, the unit price at placement, and a total equal to the sum over its items |
| OrderRepo.PlacedOrderConsistent | src/orders/repository/prisma-order.repository.ts:55-72 | a placed order with positive quantities is consistent: its total is the sum of its items and each item points back to it |
| OrderRepo.LoadSnapshot | src/orders/repository/prisma-order.repository.ts:18-29 | a request naming an unknown product or repeating one is NotFound, carrying exactly the unknown ids; otherwise every line's product is in the snapshot, exactly as it is stored |
| OrderRepo.CheckStockAndTotal | src/orders/repository/prisma-order.repository.ts:33-51 | BadRequest naming the first line whose quantity exceeds its stock; otherwise the sum of quantity times price |
| OrderRepo.ValidatePlacement | src/orders/repository/prisma-order.repository.ts:18-51 | the error of the specification, exactly when there is one; otherwise a snapshot that agrees with the table and the request's total |
| OrderRepo.CreateOrderWithItems | src/orders/repository/prisma-order.repository.ts:54-72 | a new PENDING order for the user with the given total and exactly the priced items, which are also filed in the item table; products and users untouched |
| OrderRepo.TakeStock | src/orders/repository/prisma-order.repository.ts:75-81 | the product table becomes the old table with each line's quantity taken from its product |
| OrderRepo.RestockItem | src/orders/repository/prisma-order.repository.ts:126-133 | finds the product exactly when it is stored, and then adds the item's quantity to its current stock |
| OrderRepo.PutBackStock | src/orders/repository/prisma-order.repository.ts:124-134 | puts back the items in order up to the first whose product is gone, succeeding exactly when there is none, and keeps stock non-negative |
| OrderRepo.PlaceInTransaction | src/orders/repository/prisma-order.repository.ts:54-84 | for an accepted request: the placed order, filed with its items, and the product table with the ordered quantities taken; the store stays well formed and non-negative |
| OrderRepo.PrismaOrderRepository.Create | src/orders/repository/prisma-order.repository.ts:16-87 | a refused request returns its error and changes nothing; an accepted one returns the new PENDING order with the next id, the snapshot prices and the total, files its items, and takes exactly the ordered quantities |
| OrderRepo.PrismaOrderRepository.GetAll | src/orders/repository/prisma-order.repository.ts:89-101 | an order is returned exactly when it is stored, belongs to the caller unless the caller is an admin, and has the requested status when one is given; in creation order |
| OrderRepo.PrismaOrderRepository.GetById | src/orders/repository/prisma-order.repository.ts:103-108 | the stored order with its items, or nothing |
| OrderRepo.PrismaOrderRepository.ChangeStatus | src/orders/repository/prisma-order.repository.ts:110-144 | PAID sets only the status and leaves the stock alone; CANCELLED adds each item's quantity to its product's current stock and then sets the status, returning the re-read order (a vanished product stops it midway with a store failure); PENDING is BadRequest and changes nothing |
| Orders.Transition | src/orders/orders.service.ts:35-37 | a move is allowed exactly from PENDING to PAID or CANCELLED; otherwise "not pending" when the order has left PENDING, and "invalid status" when PENDING is requested |
| Orders.FinalStates | src/orders/orders.service.ts:35-36 | no request moves an order out of PAID or CANCELLED |
| Orders.CancelRightAfterPlacing | src/orders/orders.service.ts:32-38 | cancelling an order right after placing it finds every product and restores the product table exactly |
| Orders.FirstMissingOfKnown | src/orders/repository/prisma-order.repository.ts:126-131 | when every item's product is stored, the cancellation reaches the end of the items |
| Orders.OrdersService.Create | src/orders/orders.service.ts:15-20 | a missing or empty item list is BadRequest and changes nothing; otherwise the repository's outcome; users and the product counter are untouched and every order stays consistent |
| Orders.OrdersService.GetAll | src/orders/orders.service.ts:22-24 | the repository's role- and status-scoped listing |
| Orders.OrdersService.GetById | src/orders/orders.service.ts:26-30 | the stored order, or NotFound exactly when there is none |
| Orders.OrdersService.ChangeStatus | src/orders/orders.service.ts:32-38 | an unknown order is NotFound and a non-pending order is BadRequest, both changing nothing; otherwise the repository's PAID or CANCELLED effect on the loaded order; users, items and the product counter are untouched and every order stays consistent |
| Orders.OrderAddedKeepsConsistent | src/orders/repository/prisma-order.repository.ts:55-72 | adding a consistent order keeps all orders consistent |
| Orders.StatusChangeKeepsConsistent | src/orders/repository/prisma-order.repository.ts:116-138 | changing one order's status keeps all orders consistent |
| ProductRepo.ListingFilterMeaning | src/products/repository/prisma-product.repository.ts:17-21 | the filter built from an optional query and flag accepts a product exactly when the name contains the query ignoring case (if a query is given) and the flag matches (if one is given) |
| ProductRepo.MergeIdempotent | src/products/repository/prisma-product.repository.ts:28-30 | applying the same update twice gives the same product as applying it once |
| ProductRepo.PrismaProductRepository.Create | src/products/repository/prisma-product.repository.ts:13-15 | the store's new product, stored under a fresh number, with the flag active unless it is given as false |
| ProductRepo.PrismaProductRepository.GetAll | src/products/repository/prisma-product.repository.ts:17-22 | a product is listed exactly when it is stored, its name contains q ignoring case (when q is given) and its flag equals isActive (when given); with neither, every product is listed |
| ProductRepo.PrismaProductRepository.GetById | src/products/repository/prisma-product.repository.ts:24-26 | the stored product, or nothing for an unknown id |
| ProductRepo.PrismaProductRepository.UpdateById | src/products/repository/prisma-product.repository.ts:28-30 | only the supplied fields of that product change; an unknown id is a store failure |
| ProductRepo.PrismaProductRepository.DeleteById | src/products/repository/prisma-product.repository.ts:32-34 | the product is removed from the store; an unknown id is a store failure |
| Products.ProductsService.Create | src/products/products.service.ts:9-11 | the repository's new product |
| Products.ProductsService.GetAll | src/products/products.service.ts:13-15 | the repository's filtered listing |
| Products.ProductsService.GetById | src/products/products.service.ts:17-21 | the stored product, or NotFound exactly when there is none |
| Products.ProductsService.UpdateById | src/products/products.service.ts:23-27 | NotFound for an unknown id, changing nothing; otherwise only the supplied fields change |
| Products.ProductsService.DeleteById | src/products/products.service.ts:29-35 | NotFound for an unknown id and "already inactive" for an inactive product, both changing nothing; otherwise the product is removed and nothing is returned |
| Scenarios.OrderTwoThenTen | src/orders/orders.service.spec.ts:99-112 | 2 of a product with stock 5 at 100 are accepted, cost 200, are recorded at 100 each and leave 3; 10 more are then refused for lack of stock |
| Scenarios.OrderTwoOfOne | src/orders/orders.service.spec.ts:115-122 | 2 of a product with only 1 in stock are refused for lack of stock of that product |
| Scenarios.CancelGivesStockBack | src/orders/repository/prisma-order.repository.ts:124-134 | cancelling an order of 3 out of 5 brings the stock back to 5 |
| Scenarios.PaidThenCancel | test/e2e/app.e2e-spec.ts:114-125 | a paid order cannot be cancelled, and cancelling twice is refused the second time |
| Scenarios.UnknownAndRepeatedProducts | src/orders/repository/prisma-order.repository.ts:18-26 | an unknown id is NotFound and names that id; a repeated known id is NotFound and names nothing |
| Scenarios.DeleteRules | src/products/products.service.ts:29-35 | on a fresh store with an active and an inactive product: deleting the active one succeeds, deleting it again is NotFound, and deleting the inactive one is refused as already inactive |

## Left out

- HTTP controllers, routing, the exception filter, Swagger, JWT, bcrypt, guards and configuration are not part of this model. The controllers' ownership and admin checks are not modelled at all.
- DTO validation is stated as preconditions: quantity at least 1, and price and stock at least 0 on create and update.
- Timestamps (`createdAt`, `updatedAt`) are dropped.
- Concurrency is not modelled. `$transaction` runs its callback on the same store, as the in-memory store does, and a failure midway rolls nothing back.
- Number width is not modelled: totals and stock (prisma-order.repository.ts:50, 79, 132) are JavaScript numbers, exact only up to 2^53, whereas the model computes with exact unbounded integers.
- Message texts are not modelled. Errors carry their kind and their data: the missing ids, or the product id that lacks stock.
- Case folding in the name filter is ASCII-only. Prisma's insensitive mode is modelled, whereas the in-memory store ignores the mode and matches case-sensitively.
- The in-memory store lacks Prisma's `decrement` update and the nested `items.create`. The model gives them Prisma's meaning: stock minus n, and one item per request line at the snapshot price, added in line order.
- The in-memory store has no product delete. The model gives the repository's hard delete Prisma's meaning: the row is removed.
- FakePrisma.Store.ProductCreate: the in-memory store numbers a new product by table size + 1. Because products can be deleted, the model numbers it from a creation counter instead, which equals the size on any store built without deletions. An absent `isActive` becomes true, as the Prisma schema's default does; the in-memory store would keep it undefined.
- FakePrisma.Store.OrderItemCreate: requires the order to exist. Its only caller passes the order it has just created; on an unknown order the in-memory store would file the item and then fail dereferencing the missing order.
- FakePrisma.Store.OrderUpdateStatus: requires the order to exist. The repository only calls it for a loaded order, and the in-memory store's update on an unknown id would store a half-empty record.
- The branch of the repository's create that refuses a line whose product is absent from the snapshot (prisma-order.repository.ts:38-42) cannot be reached after the count check, and is omitted.
- The second not-found check in the orders service's changeStatus (orders.service.ts:34) cannot be reached, because getById already failed. Likewise in the products service (products.service.ts:25, 31).
- The status argument of changeStatus is one of the three enum values. A string outside the enum is not modelled.
- Orders are always returned with their items. The `include` flag is not modelled, and neither is Prisma returning an order without items from a plain update.
- Product deletion removes the row (src/products/repository/prisma-product.repository.ts:33); it is not a soft delete.
