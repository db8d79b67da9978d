/**
  Order creation (CreateOrderService.execute): four checks that stop at the
  first failure, the order lines built from the fetched products, and the two
  writes, order first and stock second.
 */
module Orders {
  import opened Wrappers
  import opened Products

  type CustomerId = string

  /** The four errors execute raises, in the order it checks for them. */
  datatype OrderError = InvalidCustomer | InvalidQuantity | InvalidProducts | InsufficientStock

  /** A line of an order: the product, its price at ordering time and the quantity ordered. */
  datatype OrderLine = OrderLine(productId: ProductId, price: Price, quantity: int)

  datatype Order = Order(customer: CustomerId, lines: seq<OrderLine>)

  /**
    The quantity of the first request entry with the given id, or 0 when no
    entry has it.
   */
  function RequestedQuantity(products: seq<QuantityRequest>, id: ProductId): (q: int)
    ensures id !in RequestedIds(products) ==> q == 0
    ensures forall k :: 0 <= k < |products| && products[k].id == id && id !in RequestedIds(products[..k]) ==>
      q == products[k].quantity
  {
    if products == [] then 0
    else if products[0].id == id then products[0].quantity
    else
      var rest := products[1..];
      assert RequestedIds(products) == {products[0].id} + RequestedIds(rest) by {
        assert products == [products[0]] + rest;
      }
      assert forall k :: 1 <= k <= |products| ==> RequestedIds(products[..k]) == {products[0].id} + RequestedIds(rest[..k - 1]) by {
        forall k | 1 <= k <= |products| ensures RequestedIds(products[..k]) == {products[0].id} + RequestedIds(rest[..k - 1]) {
          assert products[..k] == [products[0]] + rest[..k - 1];
        }
      }
      RequestedQuantity(rest, id)
  }

  /** In a request without repeated ids, an entry's id looks up that entry's quantity. */
  lemma {:induction false} RequestedQuantityDistinct(products: seq<QuantityRequest>, k: nat)
    requires DistinctIds(products)
    requires k < |products|
    ensures RequestedQuantity(products, products[k].id) == products[k].quantity
  {
    assert products[k].id !in RequestedIds(products[..k]);
  }

  /** Some request entry asks for a quantity of zero or less. */
  predicate SomeQuantityNotPositive(products: seq<QuantityRequest>) {
    exists k :: 0 <= k < |products| && products[k].quantity <= 0
  }

  /** Some fetched product would be left with no stock or less, so exact depletion counts. */
  predicate SomeWithoutStock(found: seq<Product>, products: seq<QuantityRequest>) {
    exists j :: 0 <= j < |found| && found[j].quantity - RequestedQuantity(products, found[j].id) <= 0
  }

  /** One line per fetched product, with its id, its current price and the requested quantity. */
  function OrderLines(found: seq<Product>, products: seq<QuantityRequest>): seq<OrderLine> {
    seq(|found|, j requires 0 <= j < |found| =>
      OrderLine(found[j].id, found[j].price, RequestedQuantity(products, found[j].id)))
  }

  /**
    The outcome of execute over a customer set and a products table: the
    first failing check's error, or the order that is created.
   */
  function CreateOrder(customers: set<CustomerId>, table: seq<Product>, customerId: CustomerId,
                       products: seq<QuantityRequest>): (result: Result<Order, OrderError>)
    ensures result == Failure(InvalidCustomer) <==> customerId !in customers
    ensures result == Failure(InvalidQuantity) <==> customerId in customers && SomeQuantityNotPositive(products)
    ensures result.Success? ==> result.value.customer == customerId && |result.value.lines| == |products|
    ensures result.Success? ==> forall k :: 0 <= k < |products| ==> products[k].quantity > 0
  {
    if customerId !in customers then Failure(InvalidCustomer)
    else if SomeQuantityNotPositive(products) then Failure(InvalidQuantity)
    else
      var found := FindAllById(table, products);
      if |products| != |found| then Failure(InvalidProducts)
      else if SomeWithoutStock(found, products) then Failure(InsufficientStock)
      else Success(Order(customerId, OrderLines(found, products)))
  }

  /**
    Once the customer and the quantities pass, the product check fails exactly
    when some requested id is not in the table or some id is requested twice.
   */
  lemma InvalidProductsExactly(customers: set<CustomerId>, table: seq<Product>, customerId: CustomerId,
                               products: seq<QuantityRequest>)
    requires UniqueIds(table)
    requires customerId in customers && !SomeQuantityNotPositive(products)
    ensures CreateOrder(customers, table, customerId, products) == Failure(InvalidProducts)
        <==> !(RequestedIds(products) <= ProductIds(table)) || !DistinctIds(products)
  {
    FindAllByIdFindsAll(table, products);
  }

  /**
    Once the product check passes, the stock check fails exactly when some
    requested quantity reaches or exceeds the product's stock.
   */
  lemma InsufficientStockExactly(customers: set<CustomerId>, table: seq<Product>, customerId: CustomerId,
                                 products: seq<QuantityRequest>)
    requires UniqueIds(table)
    requires customerId in customers && !SomeQuantityNotPositive(products)
    requires RequestedIds(products) <= ProductIds(table) && DistinctIds(products)
    ensures CreateOrder(customers, table, customerId, products) == Failure(InsufficientStock)
        <==> exists i, k :: 0 <= i < |table| && 0 <= k < |products| && table[i].id == products[k].id &&
                            table[i].quantity <= products[k].quantity
  {
    FindAllByIdFindsAll(table, products);
    var found := FindAllById(table, products);
    if SomeWithoutStock(found, products) {
      OverdrawnRowInTable(table, products);
    }
    if exists i, k :: 0 <= i < |table| && 0 <= k < |products| && table[i].id == products[k].id &&
                      table[i].quantity <= products[k].quantity {
      var i, k :| 0 <= i < |table| && 0 <= k < |products| && table[i].id == products[k].id &&
                  table[i].quantity <= products[k].quantity;
      OverdrawnRowFetched(table, products, i, k);
    }
  }

  /** A fetched product that fails the stock check is a table row whose request reaches its stock. */
  lemma {:induction false} OverdrawnRowInTable(table: seq<Product>, products: seq<QuantityRequest>)
    requires DistinctIds(products)
    requires SomeWithoutStock(FindAllById(table, products), products)
    ensures exists i, k :: 0 <= i < |table| && 0 <= k < |products| && table[i].id == products[k].id &&
                           table[i].quantity <= products[k].quantity
  {
    var found := FindAllById(table, products);
    var j :| 0 <= j < |found| && found[j].quantity - RequestedQuantity(products, found[j].id) <= 0;
    assert found[j] in found;
    var i :| 0 <= i < |table| && table[i] == found[j];
    var r :| r in products && r.id == found[j].id;
    var k :| 0 <= k < |products| && products[k] == r;
    RequestedQuantityDistinct(products, k);
    assert table[i].quantity <= products[k].quantity;
  }

  /** A table row whose request reaches its stock is fetched and fails the stock check. */
  lemma {:induction false} OverdrawnRowFetched(table: seq<Product>, products: seq<QuantityRequest>, i: nat, k: nat)
    requires DistinctIds(products)
    requires i < |table| && k < |products| && table[i].id == products[k].id
    requires table[i].quantity <= products[k].quantity
    ensures SomeWithoutStock(FindAllById(table, products), products)
  {
    var found := FindAllById(table, products);
    assert products[k] in products && table[i] in table;
    assert table[i] in found;
    var j :| 0 <= j < |found| && found[j] == table[i];
    RequestedQuantityDistinct(products, k);
    assert found[j].quantity - RequestedQuantity(products, found[j].id) <= 0;
  }

  /** The line carries a table row's id and price and the quantity of a request entry for that id. */
  predicate LineFromRequest(line: OrderLine, table: seq<Product>, products: seq<QuantityRequest>) {
    exists i, k :: 0 <= i < |table| && 0 <= k < |products| &&
                   line.productId == table[i].id == products[k].id &&
                   line.price == table[i].price && line.quantity == products[k].quantity
  }

  /** Some line is for the given product. */
  predicate HasLineFor(lines: seq<OrderLine>, id: ProductId) {
    exists j :: 0 <= j < |lines| && lines[j].productId == id
  }

  /**
    A successful order has one line per request entry: each line carries a
    table product's id and current price and the quantity requested for it,
    and every requested id has a line.
   */
  lemma OrderLinesMatchRequest(customers: set<CustomerId>, table: seq<Product>, customerId: CustomerId,
                               products: seq<QuantityRequest>)
    requires UniqueIds(table)
    requires CreateOrder(customers, table, customerId, products).Success?
    ensures var lines := CreateOrder(customers, table, customerId, products).value.lines;
      |lines| == |products| &&
      (forall j :: 0 <= j < |lines| ==> LineFromRequest(lines[j], table, products)) &&
      (forall k :: 0 <= k < |products| ==> HasLineFor(lines, products[k].id))
  {
    FindAllByIdFindsAll(table, products);
    LinesComeFromTable(table, products);
    LinesCoverRequest(table, products);
  }

  /** Each line built from the fetched rows carries a row's id and price and its requested quantity. */
  lemma {:induction false} LinesComeFromTable(table: seq<Product>, products: seq<QuantityRequest>)
    requires DistinctIds(products)
    ensures var lines := OrderLines(FindAllById(table, products), products);
      forall j :: 0 <= j < |lines| ==> LineFromRequest(lines[j], table, products)
  {
    var found := FindAllById(table, products);
    var lines := OrderLines(found, products);
    forall j | 0 <= j < |lines| ensures LineFromRequest(lines[j], table, products) {
      assert found[j] in found;
      var i :| 0 <= i < |table| && table[i] == found[j];
      var k :| 0 <= k < |products| && products[k].id == found[j].id;
      RequestedQuantityDistinct(products, k);
      assert lines[j] == OrderLine(table[i].id, table[i].price, products[k].quantity);
    }
  }

  /** When the table holds every requested id, every request entry gets a line. */
  lemma LinesCoverRequest(table: seq<Product>, products: seq<QuantityRequest>)
    requires RequestedIds(products) <= ProductIds(table)
    ensures var lines := OrderLines(FindAllById(table, products), products);
      forall k :: 0 <= k < |products| ==> HasLineFor(lines, products[k].id)
  {
    var found := FindAllById(table, products);
    var lines := OrderLines(found, products);
    forall k | 0 <= k < |products| ensures HasLineFor(lines, products[k].id) {
      assert products[k].id in RequestedIds(products);
      var i :| 0 <= i < |table| && table[i].id == products[k].id;
      assert table[i] in table;
      assert table[i] in found;
      var j :| 0 <= j < |found| && found[j] == table[i];
      assert lines[j].productId == products[k].id;
    }
  }

  /**
    After a successful order each requested product's stock is its old stock
    minus its requested quantity and stays at least 1; every other row is
    unchanged.
   */
  lemma OrderDecrementsStock(customers: set<CustomerId>, table: seq<Product>, customerId: CustomerId,
                             products: seq<QuantityRequest>, i: nat)
    requires UniqueIds(table)
    requires CreateOrder(customers, table, customerId, products).Success?
    requires i < |table|
    ensures var after := Decremented(table, products)[i];
      after.id == table[i].id && after.name == table[i].name && after.price == table[i].price &&
      (forall k :: 0 <= k < |products| && products[k].id == table[i].id ==>
        after.quantity == table[i].quantity - products[k].quantity && after.quantity >= 1) &&
      (table[i].id !in RequestedIds(products) ==> after == table[i])
  {
    FindAllByIdFindsAll(table, products);
    var found := FindAllById(table, products);
    forall k | 0 <= k < |products| && products[k].id == table[i].id
      ensures Decremented(table, products)[i].quantity == table[i].quantity - products[k].quantity >= 1
    {
      DeltaSumDistinct(products, k);
      RequestedQuantityDistinct(products, k);
      assert products[k] in products && table[i] in table;
      assert table[i] in found;
      var j :| 0 <= j < |found| && found[j] == table[i];
      assert !(found[j].quantity - RequestedQuantity(products, found[j].id) <= 0);
    }
    if table[i].id !in RequestedIds(products) {
      DeltaSumUnrequested(products, table[i].id);
    }
  }

  /**
    execute is not idempotent: when the same request succeeds twice in a row,
    the stock of each requested product drops by twice the requested quantity.
   */
  lemma ReplayDecrementsTwice(customers: set<CustomerId>, table: seq<Product>, customerId: CustomerId,
                              products: seq<QuantityRequest>, i: nat, k: nat)
    requires UniqueIds(table)
    requires CreateOrder(customers, table, customerId, products).Success?
    requires CreateOrder(customers, Decremented(table, products), customerId, products).Success?
    requires i < |table| && k < |products| && table[i].id == products[k].id
    ensures UniqueIds(Decremented(table, products))
    ensures Decremented(Decremented(table, products), products)[i].quantity == table[i].quantity - 2 * products[k].quantity
  {
    var once := Decremented(table, products);
    OrderDecrementsStock(customers, table, customerId, products, i);
    assert UniqueIds(once) by {
      forall a, b | 0 <= a < b < |once| ensures once[a].id != once[b].id {
        assert once[a].id == table[a].id && once[b].id == table[b].id;
      }
    }
    OrderDecrementsStock(customers, once, customerId, products, i);
  }

  /** Customer C1 orders 3 of P1 (stock 10, price 5.0): one line, and P1's stock becomes 7. */
  lemma ExampleOrderSucceeds()
    ensures CreateOrder({"C1"}, [Product("P1", "Widget", 5.0, 10)], "C1", [QuantityRequest("P1", 3)])
         == Success(Order("C1", [OrderLine("P1", 5.0, 3)]))
    ensures Decremented([Product("P1", "Widget", 5.0, 10)], [QuantityRequest("P1", 3)])
         == [Product("P1", "Widget", 5.0, 7)]
  {
    var table, products := [Product("P1", "Widget", 5.0, 10)], [QuantityRequest("P1", 3)];
    RequestedIdsCons(products);
    assert FindAllById(table, products) == table;
    assert !SomeQuantityNotPositive(products);
    assert RequestedQuantity(products, "P1") == 3;
    assert OrderLines(table, products) == [OrderLine("P1", 5.0, 3)];
    assert DeltaSum(products, "P1") == 3 by {
      assert products[..0] == [];
    }
  }

  /** Ordering all 3 units of a product with stock 3 would empty it, so the order is refused. */
  lemma ExampleExactDepletionRejected()
    ensures CreateOrder({"C1"}, [Product("P1", "Widget", 5.0, 3)], "C1", [QuantityRequest("P1", 3)])
         == Failure(InsufficientStock)
  {
    var table, products := [Product("P1", "Widget", 5.0, 3)], [QuantityRequest("P1", 3)];
    RequestedIdsCons(products);
    assert FindAllById(table, products) == table;
    assert !SomeQuantityNotPositive(products);
    assert RequestedQuantity(products, "P1") == 3;
    assert table[0].quantity - RequestedQuantity(products, table[0].id) <= 0;
  }

  /** A request naming an id the table lacks is refused as invalid products. */
  lemma ExampleUnknownProductRejected()
    ensures CreateOrder({"C1"}, [Product("P1", "Widget", 5.0, 10)], "C1", [QuantityRequest("unknown", 1)])
         == Failure(InvalidProducts)
  {
  }

  /** The customers table, read only here (customersRepository.findById). */
  class CustomersRepository {
    var customers: set<CustomerId>

    constructor (ids: set<CustomerId>)
      ensures customers == ids
    {
      customers := ids;
    }

    function FindById(id: CustomerId): (customer: Option<CustomerId>)
      reads this
      ensures customer.Some? <==> id in customers
      ensures customer.Some? ==> customer.value == id
    {
      if id in customers then Some(id) else None
    }
  }

  /** The orders table (ordersRepository.create). */
  class OrdersRepository {
    var orders: seq<Order>

    constructor ()
      ensures orders == []
    {
      orders := [];
    }

    method Create(customer: CustomerId, lines: seq<OrderLine>) returns (order: Order)
      modifies this
      ensures order == Order(customer, lines)
      ensures orders == old(orders) + [order]
    {
      order := Order(customer, lines);
      orders := orders + [order];
    }
  }

  /** A write execute performs on a repository. */
  datatype Write = OrderCreated(order: Order) | StockDecremented(products: seq<QuantityRequest>)

  class CreateOrderService {
    const ordersRepository: OrdersRepository
    const productsRepository: ProductsRepository
    const customersRepository: CustomersRepository

    /** The writes performed so far, in order. */
    ghost var writes: seq<Write>

    constructor (orders: OrdersRepository, products: ProductsRepository, customers: CustomersRepository)
      ensures ordersRepository == orders && productsRepository == products && customersRepository == customers
      ensures writes == []
    {
      ordersRepository, productsRepository, customersRepository := orders, products, customers;
      writes := [];
    }

    /**
      Checks the request, then creates the order and decrements the stock.
      A failed check returns its error and writes nothing.
     */
    method Execute(customerId: CustomerId, products: seq<QuantityRequest>) returns (result: Result<Order, OrderError>)
      requires productsRepository.Valid()
      modifies this`writes, ordersRepository, productsRepository
      ensures productsRepository.Valid()
      ensures result == CreateOrder(customersRepository.customers, old(productsRepository.table), customerId, products)
      ensures result.Failure? ==>
        ordersRepository.orders == old(ordersRepository.orders) &&
        productsRepository.table == old(productsRepository.table) &&
        writes == old(writes)
      ensures result.Success? ==>
        ordersRepository.orders == old(ordersRepository.orders) + [result.value] &&
        productsRepository.table == Decremented(old(productsRepository.table), products) &&
        writes == old(writes) + [OrderCreated(result.value), StockDecremented(products)]
    {
      var customer := customersRepository.FindById(customerId);
      if customer.None? {
        return Failure(InvalidCustomer);
      }
      var checkQuantityInvalid := SomeQuantityNotPositive(products);
      if checkQuantityInvalid {
        return Failure(InvalidQuantity);
      }
      var allProducts := FindAllById(productsRepository.table, products);
      if |products| != |allProducts| {
        return Failure(InvalidProducts);
      }
      var withoutStock := SomeWithoutStock(allProducts, products);
      if withoutStock {
        return Failure(InsufficientStock);
      }
      var verifiedProducts := OrderLines(allProducts, products);
      var order := ordersRepository.Create(customer.value, verifiedProducts);
      writes := writes + [OrderCreated(order)];
      // the count check guarantees that updateQuantity finds a row for every entry
      FindAllByIdFindsAll(productsRepository.table, products);
      var updated := productsRepository.UpdateQuantity(products);
      assert updated.Success?;
      writes := writes + [StockDecremented(products)];
      return Success(order);
    }
  }
}
