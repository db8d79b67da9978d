# Orders and inventory: order creation and stock decrement

This project models two parts of an order/inventory backend.

The first is order creation, `CreateProductService.execute`. It runs four checks, stopping at the first one that fails:

1. It looks up the customer.
2. It refuses any requested quantity that is zero or less.
3. It fetches the requested products and compares how many came back with the number of request entries.
4. It refuses the order when a product's stock minus the requested quantity would be zero or less. So ordering the last unit is refused, not only overdrawing.

It then builds one order line per fetched product: the product id, its current price and the requested quantity. It creates the order and then decrements the stock.

The second is the products repository:
- `findAllById` returns the table rows whose id is requested.
- `updateQuantity` re-fetches the requested rows and walks the request entries in order. For each entry it finds the row with that id and replaces it, in place, with a copy whose quantity is reduced. Afterwards it saves the fetched rows back in one batch.

The stores become in-memory state:
- the customers table is a set of ids (`CustomersRepository`); its `FindById` stands in for the database lookup of a customer and is set membership;
- the orders table is a sequence of orders (`OrdersRepository`);
- the products table is a sequence of rows whose ids are unique (`ProductsRepository`, with `Valid()` as the primary-key property).

The files are:
- `wrappers.dfy` (module `Wrappers`) holds `Option` and `Result`.
- `products.dfy` (module `Products`) holds:
  - the product row;
  - `FindAllById` as a filter of the table;
  - the update loop: `DecrementInPlace`, a method over an `array`, and `ApplyDeltas`, the function that specifies it;
  - `Decremented`, an independent reference definition, where each row loses the sum of the quantities requested for its id;
  - the batch `Save`;
  - the `ProductsRepository` class.
- `orders.dfy` (module `Orders`) holds:
  - `CreateOrder`, a pure function giving the outcome of `execute` over a customer set and a products table;
  - the lemmas about that outcome;
  - the repository classes;
  - `CreateOrderService.Execute`, the imperative check sequence. It is proved equal to `CreateOrder`, and it performs the writes.

The service class is called `CreateProductService` in `src/modules/orders/services/CreateOrderService.ts`. The model calls it `CreateOrderService`, after its file and its job.

The product-count check follows the code as written. The code compares the number of fetched rows with `products.length`, the number of request entries. It does not compare with the number of distinct requested ids. The consequence is that, over a table with unique ids, a request that names one id twice is refused as "Invalid product(s)" even when the id exists. `InvalidProductsExactly` states this: that check fails exactly when some requested id is missing from the table or some id occurs twice.

A request for an id that has no fetched row does not return normally from `updateQuantity`: `findIndex` gives -1, and reading `.quantity` of `productsToBeUpdated[-1]` throws before anything is saved. The model makes this an error result, `Failure(MissingRow(id))`, naming the first request entry that has no row (the entry at which the `forEach` throws), and leaves the table unchanged. It is not a precondition. `Execute` proves that this error cannot happen once its four checks have passed.

## Model

| member | source | states |
|---|---|---|
| Products.FindAllById | src/modules/products/infra/typeorm/repositories/ProductsRepository.ts:43-47 | a row is returned exactly when it is a table row whose id is requested; never more rows than the table has |
| Products.FindAllByIdUnique | src/modules/products/infra/typeorm/repositories/ProductsRepository.ts:43-47 | over a table with unique ids, each row is fetched at most once |
| Products.FindAllByIdIds | src/modules/products/infra/typeorm/repositories/ProductsRepository.ts:43-47 | the fetched ids are exactly the table ids that are requested |
| Products.FindAllByIdCount | src/modules/products/infra/typeorm/repositories/ProductsRepository.ts:43-47 | with unique table ids, the number of fetched rows is the number of requested ids the table holds |
| Products.RequestedIdsCount | src/modules/orders/services/CreateOrderService.ts:45-49 | a request has at most as many distinct ids as entries, and exactly as many iff no id repeats |
| Products.FindAllByIdFindsAll | src/modules/orders/services/CreateOrderService.ts:45-49 | with unique table ids, the fetched count equals the request length iff every requested id is in the table and no id repeats |
| Products.IndexOf | src/modules/products/infra/typeorm/repositories/ProductsRepository.ts:55 | findIndex: -1 iff no row has the id, otherwise the first row with that id |
| Products.ApplyDeltas | src/modules/products/infra/typeorm/repositories/ProductsRepository.ts:54-62 | the forEach/splice loop keeps the length and every row's id, name and price, and so the set of ids |
| Products.DeltaSumUnrequested | src/modules/products/infra/typeorm/repositories/ProductsRepository.ts:54-62 | an id the request does not name has nothing subtracted |
| Products.DeltaSumDistinct | src/modules/products/infra/typeorm/repositories/ProductsRepository.ts:54-61 | in a request without repeated ids, an entry's id has exactly that entry's quantity subtracted |
| Products.ApplyDeltasDecrements | src/modules/products/infra/typeorm/repositories/ProductsRepository.ts:54-61 | over unique ids, the loop gives the reference decrement: each row's quantity drops by the total requested for its id |
| Products.UpdateLeavesUnrequestedRows | src/modules/products/infra/typeorm/repositories/ProductsRepository.ts:54-62 | a row whose id is not requested is left exactly as it was |
| Products.UpdateHasNoFloor | src/modules/products/infra/typeorm/repositories/ProductsRepository.ts:55-61 | there is no floor at zero: a requested total larger than the stock leaves a negative quantity |
| Products.UpdateAccumulatesRepeats | src/modules/products/infra/typeorm/repositories/ProductsRepository.ts:55-61 | a further entry for an id already processed is subtracted again from the already updated row |
| Products.DecrementInPlace | src/modules/products/infra/typeorm/repositories/ProductsRepository.ts:54-62 | the in-place loop runs to the end iff every requested id has a row, and then the array holds ApplyDeltas of its old contents; otherwise it stops at the first entry with no row, with every earlier entry already applied |
| Products.SaveDecrementsTable | src/modules/products/infra/typeorm/repositories/ProductsRepository.ts:64 | saving the decremented fetched rows back gives the decremented table |
| Products.ProductsRepository.UpdateQuantity | src/modules/products/infra/typeorm/repositories/ProductsRepository.ts:49-67 | succeeds iff every requested id is in the table; it then returns the decremented fetched rows and the table becomes the reference decrement of the old table; otherwise it reports the id of the first request entry with no row and the table is unchanged; unique ids are kept |
| Orders.RequestedQuantity | src/modules/orders/services/CreateOrderService.ts:52-53 | `find(...)?.quantity` defaulted to 0: 0 for an id not requested, else the quantity of the first entry with that id |
| Orders.RequestedQuantityDistinct | src/modules/orders/services/CreateOrderService.ts:64 | without repeated ids, an entry's id looks up that entry's quantity |
| Orders.CreateOrder | src/modules/orders/services/CreateOrderService.ts:30-65 | Invalid customer iff the customer is unknown; Invalid quantity iff the customer is known and some quantity is <= 0; a success is for the given customer, with one line per request entry and all quantities positive |
| Orders.InvalidProductsExactly | src/modules/orders/services/CreateOrderService.ts:45-49 | after the first two checks pass, Invalid product(s) iff some requested id is not in the table or some id is requested twice |
| Orders.InsufficientStockExactly | src/modules/orders/services/CreateOrderService.ts:51-59 | after the product check passes, insufficient quantities iff some requested quantity is at least its product's stock (exact depletion included) |
| Orders.OrderLinesMatchRequest | src/modules/orders/services/CreateOrderService.ts:61-65 | on success there are as many lines as request entries; each line has a table product's id and current price and the quantity requested for it; every requested id has a line |
| Orders.OrderDecrementsStock | src/modules/orders/services/CreateOrderService.ts:51-72 | after a successful order, each requested row loses exactly its requested quantity and keeps at least 1; id, name and price are kept; other rows are unchanged |
| Orders.ReplayDecrementsTwice | src/modules/orders/services/CreateOrderService.ts:72 | the operation is not idempotent: the same request succeeding twice lowers a requested row by twice its quantity |
| Orders.ExampleOrderSucceeds | src/modules/orders/services/CreateOrderService.ts:61-72 | 3 of P1 (stock 10, price 5.0) gives one line (P1, 5.0, 3) and leaves a stock of 7 |
| Orders.ExampleExactDepletionRejected | src/modules/orders/services/CreateOrderService.ts:51-59 | 3 of a product with stock 3 is refused for insufficient quantities |
| Orders.ExampleUnknownProductRejected | src/modules/orders/services/CreateOrderService.ts:45-49 | an id the table lacks is refused as Invalid product(s) |
| Orders.OrdersRepository.Create | src/modules/orders/services/CreateOrderService.ts:67-70 | creates the order from the customer and lines and appends it to the orders table |
| Orders.CreateOrderService.Execute | src/modules/orders/services/CreateOrderService.ts:30-75 | returns exactly CreateOrder's outcome on the stores as they were; on any error nothing is written; on success the order is appended, the table becomes the reference decrement, and the writes are the order creation followed by the stock decrement |

## Left out

- TypeORM: `getRepository`, `findByIds`, `findOne`, `save` and `create` are foreign library calls. The stores are in-memory state instead. `ProductsRepository.create` and `ProductsRepository.findByName` (ProductsRepository.ts:15-41) are not modelled, because order creation does not call them.
- Products.FindAllById: the database's id match in `findByIds` (ProductsRepository.ts:44) is taken to be the same test as the exact string comparison `===` used by `find` and `findIndex` (CreateOrderService.ts:52 and 64, ProductsRepository.ts:55). A looser database match, such as a case-insensitive uuid column, is not modelled: the order would pass the count check, get a line with quantity 0, and then `updateQuantity` would throw after the order was written.
- Products.FindAllById: the database returns rows in an order of its own. The model returns them in table order. The lines of a created order and the rows `updateQuantity` returns come in this order too, where the source leaves both to the database (CreateOrderService.ts:61, ProductsRepository.ts:66). The lemmas about lines and stock (`OrderLinesMatchRequest`, `OrderDecrementsStock`, `SaveDecrementsTable`) do not mention it.
- Products.Save: only replaces rows whose ids are already in the table. Inserting new rows, which an ORM save also does, cannot happen here, because the saved rows come from the table.
- Dependency injection and the decorators (CreateOrderService.ts:1, 19-28): the collaborators are constructor parameters.
- `async`/`await`: the model is single-threaded. Two requests that run concurrently could both pass the stock check before either write, and that race is not modelled. The model has no intermediate failure either, so the order write and the stock write never fail partway.
- `AppError` message text and the HTTP layer: errors are the four-valued `OrderError` kind.
- Price is a JavaScript number. Here it is a `real` that is copied from row to line and never computed on. Quantities are unbounded `int`s, so non-integer, NaN and overflowing quantities are out of scope. For integers, the check `!pQuantity` (0 is falsy) and `|| 0` give the same result as the defaulting in `RequestedQuantity`.
- The generated order id, `created_at` and the relations the ORM fills in are not modelled. An order is its customer and its lines.
- Orders.CreateOrderService.Execute: the ghost `writes` log is appended by `Execute` itself, next to each call (to `OrdersRepository.Create`, then to `ProductsRepository.UpdateQuantity`). It records the call order by construction only: the repositories do not append to it, so the write-order `ensures` does not check the calls against each other. The order in which the stores change is carried by the other clauses: the orders table gains the order, and the products table becomes the decrement.
