/**
  The products table and its repository: looking rows up by id and
  decrementing their stock (ProductsRepository.findAllById and
  ProductsRepository.updateQuantity).
 */
module Products {
  import opened Wrappers

  type ProductId = string

  /** A unit price. It is only ever copied from a row into an order line, never computed on. */
  type Price = real

  /** A row of the products table. */
  datatype Product = Product(id: ProductId, name: string, price: Price, quantity: int)

  /** One entry of a request: a product id and a quantity (to order, or to subtract from stock). */
  datatype QuantityRequest = QuantityRequest(id: ProductId, quantity: int)

  /** The error updateQuantity raises when a requested id has no fetched row. */
  datatype UpdateError = MissingRow(id: ProductId)

  // ---------------------------------------------------------------------------
  // Ids of rows and of requests

  function ProductIds(rows: seq<Product>): set<ProductId> {
    set i | 0 <= i < |rows| :: rows[i].id
  }

  function RequestedIds(requests: seq<QuantityRequest>): set<ProductId> {
    set k | 0 <= k < |requests| :: requests[k].id
  }

  /** The primary-key property of the products table. */
  predicate UniqueIds(rows: seq<Product>) {
    forall i, j :: 0 <= i < j < |rows| ==> rows[i].id != rows[j].id
  }

  /** No product id occurs twice in a request. */
  predicate DistinctIds(requests: seq<QuantityRequest>) {
    forall i, j :: 0 <= i < j < |requests| ==> requests[i].id != requests[j].id
  }

  lemma SubsetCardinality(a: set<ProductId>, b: set<ProductId>)
    requires a <= b
    ensures |a| <= |b|
    ensures |a| == |b| ==> a == b
  {
    assert b == a + (b - a);
    if a != b {
      var x :| x in b && x !in a;
      assert x in b - a;
    }
  }

  lemma {:induction false} RequestedIdsCons(requests: seq<QuantityRequest>)
    requires requests != []
    ensures RequestedIds(requests) == {requests[0].id} + RequestedIds(requests[1..])
  {
    var rest := requests[1..];
    forall x | x in RequestedIds(requests) ensures x in {requests[0].id} + RequestedIds(rest) {
      var k :| 0 <= k < |requests| && requests[k].id == x;
      if k > 0 {
        assert rest[k - 1].id == x;
      }
    }
    forall x | x in RequestedIds(rest) ensures x in RequestedIds(requests) {
      var k :| 0 <= k < |rest| && rest[k].id == x;
      assert requests[k + 1].id == x;
    }
  }

  lemma {:induction false} DistinctIdsCons(requests: seq<QuantityRequest>)
    requires requests != []
    ensures DistinctIds(requests) <==> DistinctIds(requests[1..]) && requests[0].id !in RequestedIds(requests[1..])
  {
    var rest := requests[1..];
    if DistinctIds(requests) {
      forall i, j | 0 <= i < j < |rest| ensures rest[i].id != rest[j].id {
        assert requests[i + 1].id != requests[j + 1].id;
      }
    }
    if DistinctIds(rest) && requests[0].id !in RequestedIds(rest) {
      forall i, j | 0 <= i < j < |requests| ensures requests[i].id != requests[j].id {
        if i == 0 {
          assert rest[j - 1].id in RequestedIds(rest);
        } else {
          assert rest[i - 1].id != rest[j - 1].id;
        }
      }
    }
  }

  /** A request has at most as many distinct ids as entries, and exactly as many when no id repeats. */
  lemma {:induction false} RequestedIdsCount(requests: seq<QuantityRequest>)
    ensures |RequestedIds(requests)| <= |requests|
    ensures |RequestedIds(requests)| == |requests| <==> DistinctIds(requests)
  {
    if requests != [] {
      RequestedIdsCount(requests[1..]);
      RequestedIdsCons(requests);
      DistinctIdsCons(requests);
    }
  }

  // ---------------------------------------------------------------------------
  // findAllById

  /**
    The rows of the table whose id occurs in the request, each row once and
    in table order (ProductsRepository.findAllById, an ORM query by primary key).
   */
  function FindAllById(table: seq<Product>, requests: seq<QuantityRequest>): (found: seq<Product>)
    ensures |found| <= |table|
    ensures forall p :: p in found <==> p in table && p.id in RequestedIds(requests)
  {
    if table == [] then []
    else if table[0].id in RequestedIds(requests) then [table[0]] + FindAllById(table[1..], requests)
    else FindAllById(table[1..], requests)
  }

  /** Distinct rows of a table with unique ids are fetched as distinct rows. */
  lemma {:induction false} FindAllByIdUnique(table: seq<Product>, requests: seq<QuantityRequest>)
    requires UniqueIds(table)
    ensures UniqueIds(FindAllById(table, requests))
  {
    if table != [] && table[0].id in RequestedIds(requests) {
      var rest := table[1..];
      var tail := FindAllById(rest, requests);
      HeadIdUnique(table);
      FindAllByIdUnique(rest, requests);
      FindAllByIdIds(rest, requests);
      ConsUnique(table[0], tail);
    } else if table != [] {
      HeadIdUnique(table);
      FindAllByIdUnique(table[1..], requests);
    }
  }

  lemma {:induction false} ConsUnique(p: Product, rows: seq<Product>)
    requires UniqueIds(rows) && p.id !in ProductIds(rows)
    ensures UniqueIds([p] + rows)
  {
    forall i, j | 0 <= i < j < |[p] + rows| ensures ([p] + rows)[i].id != ([p] + rows)[j].id {
      if i == 0 {
        assert rows[j - 1].id in ProductIds(rows);
      }
    }
  }

  /** The ids of the fetched rows are the requested ids that the table holds. */
  lemma {:induction false} FindAllByIdIds(table: seq<Product>, requests: seq<QuantityRequest>)
    ensures ProductIds(FindAllById(table, requests)) == ProductIds(table) * RequestedIds(requests)
  {
    var found := FindAllById(table, requests);
    forall x | x in ProductIds(table) * RequestedIds(requests) ensures x in ProductIds(found) {
      var p :| p in table && p.id == x;
      assert p in found;
    }
  }

  lemma {:induction false} ProductIdsCons(rows: seq<Product>)
    requires rows != []
    ensures ProductIds(rows) == {rows[0].id} + ProductIds(rows[1..])
  {
    assert rows == [rows[0]] + rows[1..];
  }

  /** The first row of a table with unique ids has an id no later row has. */
  lemma {:induction false} HeadIdUnique(rows: seq<Product>)
    requires rows != [] && UniqueIds(rows)
    ensures rows[0].id !in ProductIds(rows[1..])
    ensures UniqueIds(rows[1..])
  {
  }

  /** With unique table ids there is one fetched row per requested id that the table holds. */
  lemma {:induction false} FindAllByIdCount(table: seq<Product>, requests: seq<QuantityRequest>)
    requires UniqueIds(table)
    ensures |FindAllById(table, requests)| == |ProductIds(table) * RequestedIds(requests)|
  {
    if table != [] {
      var head, rest := table[0].id, table[1..];
      var wanted := RequestedIds(requests);
      HeadIdUnique(table);
      FindAllByIdCount(rest, requests);
      ProductIdsCons(table);
      var tail := ProductIds(rest) * wanted;
      assert head !in tail;
      if head in wanted {
        assert ProductIds(table) * wanted == {head} + tail;
      } else {
        assert ProductIds(table) * wanted == tail;
      }
    }
  }

  /**
    Over a table with unique ids, as many rows are fetched as the request has
    entries exactly when every requested id is in the table and no id repeats.
   */
  lemma FindAllByIdFindsAll(table: seq<Product>, requests: seq<QuantityRequest>)
    requires UniqueIds(table)
    ensures |FindAllById(table, requests)| == |requests|
        <==> DistinctIds(requests) && RequestedIds(requests) <= ProductIds(table)
  {
    var held, wanted := ProductIds(table), RequestedIds(requests);
    FindAllByIdCount(table, requests);
    RequestedIdsCount(requests);
    SubsetCardinality(held * wanted, wanted);
    if wanted <= held {
      assert held * wanted == wanted;
    }
  }

  // ---------------------------------------------------------------------------
  // updateQuantity: one step, the loop, and its reference definition

  /** The index of the first row with the given id, or -1 (Array.prototype.findIndex). */
  function IndexOf(rows: seq<Product>, id: ProductId): (index: int)
    ensures -1 <= index < |rows|
    ensures index == -1 <==> id !in ProductIds(rows)
    ensures 0 <= index ==> rows[index].id == id
    ensures 0 <= index ==> forall j :: 0 <= j < index ==> rows[j].id != id
  {
    if rows == [] then -1
    else if rows[0].id == id then 0
    else
      assert rows == [rows[0]] + rows[1..];
      var k := IndexOf(rows[1..], id);
      if k == -1 then -1 else k + 1
  }

  /** Two row sequences with the same id at every position hold the same ids. */
  lemma {:induction false} SameIdsSameSet(a: seq<Product>, b: seq<Product>)
    requires |a| == |b|
    requires forall i :: 0 <= i < |a| ==> a[i].id == b[i].id
    ensures ProductIds(a) == ProductIds(b)
  {
    forall x | x in ProductIds(a) ensures x in ProductIds(b) {
      var p :| p in a && p.id == x;
      var i :| 0 <= i < |a| && a[i] == p;
      assert b[i] in b;
    }
    forall x | x in ProductIds(b) ensures x in ProductIds(a) {
      var p :| p in b && p.id == x;
      var i :| 0 <= i < |b| && b[i] == p;
      assert a[i] in a;
    }
  }

  /**
    One iteration of the forEach in updateQuantity: the first row with the
    requested id is replaced by a copy whose quantity is reduced by the
    requested amount.
   */
  function ApplyDelta(rows: seq<Product>, request: QuantityRequest): seq<Product>
    requires request.id in ProductIds(rows)
  {
    var index := IndexOf(rows, request.id);
    rows[index := rows[index].(quantity := rows[index].quantity - request.quantity)]
  }

  lemma ApplyDeltaUnfold(rows: seq<Product>, request: QuantityRequest, index: int, nQuantity: int)
    requires request.id in ProductIds(rows)
    requires index == IndexOf(rows, request.id)
    requires nQuantity == rows[index].quantity - request.quantity
    ensures ApplyDelta(rows, request) == rows[index := rows[index].(quantity := nQuantity)]
  {
    var updated := rows[index := rows[index].(quantity := nQuantity)];
    forall j | 0 <= j < |rows| ensures ApplyDelta(rows, request)[j] == updated[j] { }
  }

  /** The whole forEach: the requests applied one after another, in order. */
  function ApplyDeltas(rows: seq<Product>, requests: seq<QuantityRequest>): (updated: seq<Product>)
    requires RequestedIds(requests) <= ProductIds(rows)
    ensures |updated| == |rows|
    ensures forall i :: 0 <= i < |rows| ==>
      updated[i].id == rows[i].id && updated[i].name == rows[i].name && updated[i].price == rows[i].price
    ensures ProductIds(updated) == ProductIds(rows)
    decreases |requests|
  {
    if requests == [] then rows
    else
      var n := |requests| - 1;
      assert RequestedIds(requests[..n]) <= RequestedIds(requests) by {
        forall r | r in requests[..n] ensures r in requests { }
      }
      assert requests[n] in requests;
      var updated := ApplyDelta(ApplyDeltas(rows, requests[..n]), requests[n]);
      SameIdsSameSet(updated, rows);
      updated
  }

  /** The total amount a request subtracts from the product with the given id. */
  function DeltaSum(requests: seq<QuantityRequest>, id: ProductId): int {
    if requests == [] then 0
    else
      var n := |requests| - 1;
      DeltaSum(requests[..n], id) + (if requests[n].id == id then requests[n].quantity else 0)
  }

  /** Reference definition of the decrement: every row loses the total requested for its id. */
  function Decremented(rows: seq<Product>, requests: seq<QuantityRequest>): seq<Product> {
    seq(|rows|, i requires 0 <= i < |rows| => rows[i].(quantity := rows[i].quantity - DeltaSum(requests, rows[i].id)))
  }

  /** An id the request does not mention gets nothing subtracted. */
  lemma {:induction false} DeltaSumUnrequested(requests: seq<QuantityRequest>, id: ProductId)
    requires id !in RequestedIds(requests)
    ensures DeltaSum(requests, id) == 0
  {
    if requests != [] {
      var n := |requests| - 1;
      assert requests[n] in requests;
      assert RequestedIds(requests[..n]) <= RequestedIds(requests) by {
        forall r | r in requests[..n] ensures r in requests { }
      }
      DeltaSumUnrequested(requests[..n], id);
    }
  }

  /** In a request without repeated ids, the total for an entry's id is that entry's quantity. */
  lemma {:induction false} DeltaSumDistinct(requests: seq<QuantityRequest>, k: nat)
    requires DistinctIds(requests)
    requires k < |requests|
    ensures DeltaSum(requests, requests[k].id) == requests[k].quantity
  {
    var n := |requests| - 1;
    var prefix := requests[..n];
    if k == n {
      assert requests[k].id !in RequestedIds(prefix);
      DeltaSumUnrequested(prefix, requests[k].id);
    } else {
      assert DistinctIds(prefix);
      assert prefix[k] == requests[k];
      DeltaSumDistinct(prefix, k);
    }
  }

  /** Over rows with unique ids, the forEach loop computes the reference decrement. */
  lemma {:induction false} ApplyDeltasDecrements(rows: seq<Product>, requests: seq<QuantityRequest>)
    requires UniqueIds(rows)
    requires RequestedIds(requests) <= ProductIds(rows)
    ensures ApplyDeltas(rows, requests) == Decremented(rows, requests)
    decreases |requests|
  {
    if requests != [] {
      var n := |requests| - 1;
      var prefix, last := requests[..n], requests[n];
      assert RequestedIds(prefix) <= RequestedIds(requests) by {
        forall r | r in prefix ensures r in requests { }
      }
      assert last in requests;
      ApplyDeltasDecrements(rows, prefix);
      DecrementedStep(rows, requests);
    }
  }

  /** The reference decrement by a request is one ApplyDelta of the last entry after the rest. */
  lemma DecrementedStep(rows: seq<Product>, requests: seq<QuantityRequest>)
    requires UniqueIds(rows)
    requires requests != [] && requests[|requests| - 1].id in ProductIds(rows)
    ensures requests[|requests| - 1].id in ProductIds(Decremented(rows, requests[..|requests| - 1]))
    ensures ApplyDelta(Decremented(rows, requests[..|requests| - 1]), requests[|requests| - 1]) == Decremented(rows, requests)
  {
    var n := |requests| - 1;
    var prefix, last := requests[..n], requests[n];
    var before := Decremented(rows, prefix);
    SameIdsSameSet(before, rows);
    var k := IndexOf(before, last.id);
    var after := ApplyDelta(before, last);
    forall i | 0 <= i < |rows| ensures after[i] == Decremented(rows, requests)[i] {
      if i != k {
        assert rows[i].id != last.id;
      }
    }
  }

  /**
    Only the quantity of a row changes, and the rows whose id the request
    does not mention are unchanged.
   */
  lemma {:induction false} UpdateLeavesUnrequestedRows(rows: seq<Product>, requests: seq<QuantityRequest>, i: nat)
    requires UniqueIds(rows)
    requires RequestedIds(requests) <= ProductIds(rows)
    requires i < |rows|
    requires rows[i].id !in RequestedIds(requests)
    ensures ApplyDeltas(rows, requests)[i] == rows[i]
  {
    ApplyDeltasDecrements(rows, requests);
    DeltaSumUnrequested(requests, rows[i].id);
  }

  /**
    There is no floor at zero: a row whose requested total exceeds its stock
    ends with a negative quantity.
   */
  lemma {:induction false} UpdateHasNoFloor(rows: seq<Product>, requests: seq<QuantityRequest>, i: nat)
    requires UniqueIds(rows)
    requires RequestedIds(requests) <= ProductIds(rows)
    requires i < |rows|
    requires DeltaSum(requests, rows[i].id) > rows[i].quantity
    ensures ApplyDeltas(rows, requests)[i].quantity < 0
  {
    ApplyDeltasDecrements(rows, requests);
  }

  /**
    A request for an id already processed is subtracted again, from the row
    the earlier iterations already updated: repeated ids accumulate.
   */
  lemma {:induction false} UpdateAccumulatesRepeats(rows: seq<Product>, requests: seq<QuantityRequest>, r: QuantityRequest, i: nat)
    requires UniqueIds(rows)
    requires RequestedIds(requests) <= ProductIds(rows)
    requires i < |rows| && rows[i].id == r.id
    ensures RequestedIds(requests + [r]) <= ProductIds(rows)
    ensures ApplyDeltas(rows, requests + [r])[i].quantity == ApplyDeltas(rows, requests)[i].quantity - r.quantity
  {
    assert (requests + [r])[..|requests|] == requests;
    assert rows[i] in rows;
  }

  /** Extending the processed prefix of the request by one entry is one more ApplyDelta. */
  lemma ApplyDeltasStep(rows: seq<Product>, requests: seq<QuantityRequest>, k: nat)
    requires k < |requests|
    requires RequestedIds(requests[..k]) <= ProductIds(rows)
    requires requests[k].id in ProductIds(rows)
    ensures RequestedIds(requests[..k + 1]) <= ProductIds(rows)
    ensures ApplyDeltas(rows, requests[..k + 1]) == ApplyDelta(ApplyDeltas(rows, requests[..k]), requests[k])
  {
    assert requests[..k + 1] == requests[..k] + [requests[k]];
    assert requests[..k + 1][..k] == requests[..k];
  }

  /** Entry k is the first entry of the request whose id has no row. */
  predicate FirstMissing(rows: seq<Product>, requests: seq<QuantityRequest>, k: nat) {
    k < |requests| && requests[k].id !in ProductIds(rows) && RequestedIds(requests[..k]) <= ProductIds(rows)
  }

  /**
    The in-place loop of updateQuantity over the fetched rows. When an entry
    has no row the loop stops there, at the first such entry.
   */
  method DecrementInPlace(a: array<Product>, requests: seq<QuantityRequest>) returns (ok: bool, stop: nat)
    modifies a
    ensures ok <==> RequestedIds(requests) <= ProductIds(old(a[..]))
    ensures ok ==> a[..] == ApplyDeltas(old(a[..]), requests)
    ensures !ok ==> FirstMissing(old(a[..]), requests, stop)
    ensures !ok ==> a[..] == ApplyDeltas(old(a[..]), requests[..stop])
  {
    ghost var rows := a[..];
    var k := 0;
    while k < |requests|
      invariant 0 <= k <= |requests|
      invariant RequestedIds(requests[..k]) <= ProductIds(rows)
      invariant a[..] == ApplyDeltas(rows, requests[..k])
    {
      var request := requests[k];
      var index := IndexOf(a[..], request.id);
      if index == -1 {
        // productsToBeUpdated[-1] is undefined and reading its quantity throws
        assert request in requests;
        return false, k;
      }
      ghost var before := a[..];
      ApplyDeltasStep(rows, requests, k);
      var nQuantity := a[index].quantity - request.quantity;
      ApplyDeltaUnfold(before, request, index, nQuantity);
      a[index] := a[index].(quantity := nQuantity);
      assert a[..] == before[index := before[index].(quantity := nQuantity)];
      k := k + 1;
    }
    assert requests[..k] == requests;
    return true, 0;
  }

  /**
    The batch save: every table row with the id of a saved row is replaced
    by that saved row.
   */
  function Save(table: seq<Product>, saved: seq<Product>): seq<Product> {
    seq(|table|, i requires 0 <= i < |table| =>
      var k := IndexOf(saved, table[i].id);
      if k == -1 then table[i] else saved[k])
  }

  /**
    Fetching the requested rows, decrementing them and saving them back
    decrements the table itself: each row loses the total requested for its id.
   */
  lemma SaveDecrementsTable(table: seq<Product>, requests: seq<QuantityRequest>)
    requires UniqueIds(table)
    ensures Save(table, Decremented(FindAllById(table, requests), requests)) == Decremented(table, requests)
  {
    var found := FindAllById(table, requests);
    var saved := Decremented(found, requests);
    FindAllByIdUnique(table, requests);
    SameIdsSameSet(saved, found);
    FindAllByIdIds(table, requests);
    forall i | 0 <= i < |table|
      ensures Save(table, saved)[i] == Decremented(table, requests)[i]
    {
      var id := table[i].id;
      var k := IndexOf(saved, id);
      assert table[i] in table;
      if id in RequestedIds(requests) {
        assert found[k].id == id && found[k] in table;
        var m :| 0 <= m < |table| && table[m] == found[k];
        assert m == i;
      } else {
        DeltaSumUnrequested(requests, id);
      }
    }
  }

  /** What updateQuantity saves, and the table that results, when every requested id has a row. */
  lemma SaveAppliedDeltas(table: seq<Product>, requests: seq<QuantityRequest>)
    requires UniqueIds(table)
    requires RequestedIds(requests) <= ProductIds(table)
    ensures RequestedIds(requests) <= ProductIds(FindAllById(table, requests))
    ensures ApplyDeltas(FindAllById(table, requests), requests) == Decremented(FindAllById(table, requests), requests)
    ensures Save(table, ApplyDeltas(FindAllById(table, requests), requests)) == Decremented(table, requests)
    ensures UniqueIds(Decremented(table, requests))
  {
    FindAllByIdIds(table, requests);
    FindAllByIdUnique(table, requests);
    ApplyDeltasDecrements(FindAllById(table, requests), requests);
    SaveDecrementsTable(table, requests);
  }

  /** The products table, whose rows updateQuantity changes. */
  class ProductsRepository {
    var table: seq<Product>

    ghost predicate Valid()
      reads this
    {
      UniqueIds(table)
    }

    constructor (rows: seq<Product>)
      requires UniqueIds(rows)
      ensures Valid() && table == rows
    {
      table := rows;
    }

    /**
      Re-fetches the requested rows, subtracts every request from the row
      with its id and saves the fetched rows back. The first request entry
      whose id has no row makes the loop throw before anything is saved.
     */
    method UpdateQuantity(products: seq<QuantityRequest>) returns (result: Result<seq<Product>, UpdateError>)
      requires Valid()
      modifies this
      ensures Valid()
      ensures result.Success? <==> RequestedIds(products) <= ProductIds(old(table))
      ensures result.Success? ==> result.value == Decremented(FindAllById(old(table), products), products)
      ensures result.Success? ==> table == Decremented(old(table), products)
      ensures result.Failure? ==> exists k: nat :: FirstMissing(old(table), products, k) && result.error == MissingRow(products[k].id)
      ensures result.Failure? ==> table == old(table)
    {
      var fetched := FindAllById(table, products);
      var productsToBeUpdated := new Product[|fetched|](i requires 0 <= i < |fetched| => fetched[i]);
      assert productsToBeUpdated[..] == fetched;
      var ok, stop := DecrementInPlace(productsToBeUpdated, products);
      FindAllByIdIds(table, products);
      if !ok {
        assert products[stop] in products;
        assert FirstMissing(table, products, stop);
        return Failure(MissingRow(products[stop].id));
      }
      var updated := productsToBeUpdated[..];
      SaveAppliedDeltas(table, products);
      table := Save(table, updated);
      return Success(updated);
    }
  }
}
