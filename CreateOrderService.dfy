/** The order-placement service: the customer, product and order stores it
    works on, and the placement itself as a sequence of steps that returns
    early on the first failed check and only then writes to the stores. */
module CreateOrderService {
  import opened OrderRules

  /** A persisted order; `id` is the identifier the order store assigns. */
  datatype Order = Order(id: nat, customer: CustomerId, items: seq<LineItem>)

  /** The outcome of a placement: the created order, or the first failure. */
  datatype Result = Success(order: Order) | Failure(error: OrderError)

  /** Every line item names one of the given products. */
  ghost predicate ItemsKnown(items: seq<LineItem>, productIds: set<ProductId>)
  {
    forall item :: item in items ==> item.productId in productIds
  }

  /** No negative stock, and every order has its position as id and refers
      only to known customers and products. */
  ghost predicate StoresValid(customers: set<CustomerId>, products: map<ProductId, Stock>, orders: seq<Order>)
  {
    && (forall id :: id in products ==> products[id].quantity >= 0)
    && (forall i :: 0 <= i < |orders| ==>
          orders[i].id == i && orders[i].customer in customers && ItemsKnown(orders[i].items, products.Keys))
  }

  /** A placement that passed validation keeps the stores valid. */
  lemma PlacementKeepsStoresValid(customers: set<CustomerId>, catalog: map<ProductId, Stock>, orders: seq<Order>,
                                  customerId: CustomerId, request: seq<RequestLine>)
    requires StoresValid(customers, catalog, orders)
    requires customerId in customers && InStock(catalog, request)
    ensures AllFound(request, FindAllById(catalog, request))
    ensures StoresValid(customers, CatalogAfter(catalog, request),
                        orders + [Order(|orders|, customerId, LineItems(request, FindAllById(catalog, request)))])
  {
    var found := FindAllById(catalog, request);
    FoundIsKnown(catalog, request);
    var items := LineItems(request, found);
    var after := CatalogAfter(catalog, request);
    var placed := orders + [Order(|orders|, customerId, items)];
    StockStaysNonNegative(catalog, request);
    assert ItemsKnown(items, after.Keys) by {
      forall item | item in items ensures item.productId in after {
        var j :| 0 <= j < |items| && items[j] == item;
        assert request[j] in request;
      }
    }
    forall i | 0 <= i < |placed|
      ensures placed[i].id == i && placed[i].customer in customers && ItemsKnown(placed[i].items, after.Keys)
    {
      if i < |orders| {
        assert placed[i] == orders[i];
      }
    }
  }

  class OrderService {
    var customers: set<CustomerId>
    var products: map<ProductId, Stock>
    var orders: seq<Order>

    /** The data model's invariants, as StoresValid states them. */
    ghost predicate Valid()
      reads this
    {
      StoresValid(customers, products, orders)
    }

    constructor (customers: set<CustomerId>, products: map<ProductId, Stock>)
      ensures this.customers == customers && this.products == products && orders == []
      ensures (forall id :: id in products ==> products[id].quantity >= 0) ==> Valid()
    {
      this.customers := customers;
      this.products := products;
      orders := [];
    }

    /** The order store's create: a new order holding the given line items unchanged.
        Only Commit calls it, after validation, and Commit re-establishes Valid(). */
    method CreateOrder(customer: CustomerId, items: seq<LineItem>) returns (order: Order)
      modifies this`orders
      ensures order == Order(|old(orders)|, customer, items)
      ensures orders == old(orders) + [order]
    {
      order := Order(|orders|, customer, items);
      orders := orders + [order];
    }

    /** The product store's bulk quantity update, written in list order.
        Only Commit calls it, after validation, and Commit re-establishes Valid(). */
    method UpdateQuantity(updates: seq<QuantityUpdate>)
      modifies this`products
      ensures products == ApplyUpdates(old(products), updates)
    {
      products := ApplyUpdates(products, updates);
    }

    /** Places an order: the checks of Validate in order, returning the first
        failure with the stores untouched; once all pass, Commit. */
    method PlaceOrder(customerId: CustomerId, request: seq<RequestLine>) returns (r: Result)
      modifies this`products, this`orders
      ensures var v := Validate(old(customers), old(products), customerId, request);
              && (v.Fail? ==> r == Failure(v.error) && products == old(products) && orders == old(orders))
              && (v.Pass? ==>
                    && r == Success(Order(|old(orders)|, customerId,
                                          LineItems(request, FindAllById(old(products), request))))
                    && orders == old(orders) + [r.order]
                    && products == CatalogAfter(old(products), request))
      ensures old(Valid()) ==> Valid()
    {
      if customerId !in customers {
        return Failure(CustomerNotFound);
      }
      var found := FindAllById(products, request);
      if |found| == 0 {
        return Failure(NoProductsFound);
      }
      var missing := MissingLines(request, Ids(found));
      if |missing| > 0 {
        return Failure(ProductNotFound(missing[0].id));
      }
      var short := ShortLines(request, found);
      if |short| > 0 {
        return Failure(InsufficientStock(short[0].id, short[0].quantity));
      }
      var order := Commit(customerId, request, found);
      r := Success(order);
    }

    /** The steps after validation: one line item per request line priced
        from the snapshot, the new order, then the stock computed from the
        snapshot and written in bulk. */
    method Commit(customerId: CustomerId, request: seq<RequestLine>, found: seq<Product>) returns (order: Order)
      requires customerId in customers && InStock(products, request)
      requires found == FindAllById(products, request)
      modifies this`products, this`orders
      ensures AllFound(request, found)
      ensures order == Order(|old(orders)|, customerId, LineItems(request, found))
      ensures orders == old(orders) + [order]
      ensures products == CatalogAfter(old(products), request)
      ensures old(Valid()) ==> Valid()
    {
      ghost var catalog := products;
      FoundIsKnown(catalog, request);
      order := CreateOrder(customerId, LineItems(request, found));
      UpdateQuantity(StockUpdates(order.items, found));
      if old(Valid()) {
        PlacementKeepsStoresValid(customers, catalog, old(orders), customerId, request);
      }
    }
  }
}
