/** The pure part of order placement: the product snapshot, the validation
    filters, the line-item and stock-update builders, the ordered checks as
    one specification function, and what they promise. */
module OrderRules {

  type ProductId = string
  type CustomerId = string

  /** A catalog row: the product's available quantity and unit price
      (prices are whole units, e.g. cents; only copying them matters). */
  datatype Stock = Stock(quantity: int, price: int)

  /** A product as the products repository returns it. */
  datatype Product = Product(id: ProductId, quantity: int, price: int)

  /** One line of the request: a product id and the quantity asked for. */
  datatype RequestLine = RequestLine(id: ProductId, quantity: int)

  /** One line item of an order, with the price copied at purchase time. */
  datatype LineItem = LineItem(productId: ProductId, quantity: int, price: int)

  /** One entry of the bulk quantity update. */
  datatype QuantityUpdate = QuantityUpdate(id: ProductId, quantity: int)

  /** The failures of order placement, each carrying the offending data. */
  datatype OrderError =
    | CustomerNotFound
    | NoProductsFound
    | ProductNotFound(id: ProductId)
    | InsufficientStock(id: ProductId, quantity: int)

  /** The verdict of the validation steps. */
  datatype Check = Pass | Fail(error: OrderError)

  // ---------------------------------------------------------------------
  // The snapshot and lookups in it
  // ---------------------------------------------------------------------

  /** The ids of a list of products, in order. */
  function Ids(snapshot: seq<Product>): (ids: seq<ProductId>)
    ensures |ids| == |snapshot|
    ensures forall i :: 0 <= i < |snapshot| ==> ids[i] == snapshot[i].id
  {
    if snapshot == [] then [] else [snapshot[0].id] + Ids(snapshot[1..])
  }

  ghost predicate DistinctIds(snapshot: seq<Product>)
  {
    forall i, j :: 0 <= i < j < |snapshot| ==> snapshot[i].id != snapshot[j].id
  }

  /** The products of the catalog whose id appears in the request, each once. */
  function FindAllById(catalog: map<ProductId, Stock>, request: seq<RequestLine>): (found: seq<Product>)
    ensures forall p :: p in found ==> p.id in catalog && catalog[p.id] == Stock(p.quantity, p.price)
    ensures forall p :: p in found ==> exists line :: line in request && line.id == p.id
    ensures forall line :: line in request && line.id in catalog ==> line.id in Ids(found)
    ensures DistinctIds(found)
  {
    if request == [] then []
    else
      var rest := FindAllById(catalog, request[1..]);
      var id := request[0].id;
      if id in catalog && id !in Ids(rest) then
        [Product(id, catalog[id].quantity, catalog[id].price)] + rest
      else
        rest
  }

  /** The first product of the snapshot with the given id. */
  function Lookup(snapshot: seq<Product>, id: ProductId): (p: Product)
    requires id in Ids(snapshot)
    ensures p in snapshot && p.id == id
  {
    if snapshot[0].id == id then snapshot[0]
    else
      assert Ids(snapshot) == [snapshot[0].id] + Ids(snapshot[1..]);
      Lookup(snapshot[1..], id)
  }

  /** The lookup is `filter(id)[0]`: the product at the first index holding the id. */
  lemma {:induction false} LookupIsFirstMatch(snapshot: seq<Product>, id: ProductId, k: int)
    requires 0 <= k < |snapshot| && snapshot[k].id == id
    requires forall j :: 0 <= j < k ==> snapshot[j].id != id
    ensures id in Ids(snapshot) && Lookup(snapshot, id) == snapshot[k]
  {
    assert Ids(snapshot)[k] == id;
    if k > 0 {
      assert Ids(snapshot) == [snapshot[0].id] + Ids(snapshot[1..]);
      LookupIsFirstMatch(snapshot[1..], id, k - 1);
    }
  }

  /** A snapshot found by id holds exactly the requested products of the
      catalog, and a lookup in it reads the catalog row. */
  lemma SnapshotMatchesCatalog(catalog: map<ProductId, Stock>, request: seq<RequestLine>, id: ProductId)
    ensures id in Ids(FindAllById(catalog, request)) <==>
      id in catalog && exists line :: line in request && line.id == id
    ensures id in Ids(FindAllById(catalog, request)) ==>
      Lookup(FindAllById(catalog, request), id) == Product(id, catalog[id].quantity, catalog[id].price)
  {
  }

  // ---------------------------------------------------------------------
  // The validation filters
  // ---------------------------------------------------------------------

  /** k is the first request line whose id is not among `ids`. */
  ghost predicate FirstMissingAt(request: seq<RequestLine>, ids: seq<ProductId>, k: int)
  {
    0 <= k < |request| && request[k].id !in ids &&
    forall j :: 0 <= j < k ==> request[j].id in ids
  }

  /** The request lines whose product id is not among the found ids, in request order. */
  function MissingLines(request: seq<RequestLine>, ids: seq<ProductId>): (missing: seq<RequestLine>)
    ensures forall line :: line in missing <==> line in request && line.id !in ids
  {
    if request == [] then []
    else if request[0].id !in ids then [request[0]] + MissingLines(request[1..], ids)
    else MissingLines(request[1..], ids)
  }

  /** The first missing line reported is the first one in request order. */
  lemma {:induction false} FirstMissingLine(request: seq<RequestLine>, ids: seq<ProductId>)
    requires MissingLines(request, ids) != []
    ensures exists k :: FirstMissingAt(request, ids, k) && MissingLines(request, ids)[0] == request[k]
  {
    if request[0].id !in ids {
      assert FirstMissingAt(request, ids, 0);
    } else {
      FirstMissingLine(request[1..], ids);
      var k :| FirstMissingAt(request[1..], ids, k) && MissingLines(request[1..], ids)[0] == request[1..][k];
      assert FirstMissingAt(request, ids, k + 1);
    }
  }

  /** Every line of the request names a product of the snapshot. */
  ghost predicate AllFound(request: seq<RequestLine>, snapshot: seq<Product>)
  {
    forall line :: line in request ==> line.id in Ids(snapshot)
  }

  /** The line asks for more than the snapshot holds (a strict comparison). */
  predicate Short(line: RequestLine, snapshot: seq<Product>)
    requires line.id in Ids(snapshot)
  {
    Lookup(snapshot, line.id).quantity < line.quantity
  }

  /** k is the first request line that asks for more than the snapshot holds. */
  ghost predicate FirstShortAt(request: seq<RequestLine>, snapshot: seq<Product>, k: int)
    requires AllFound(request, snapshot)
  {
    0 <= k < |request| && Short(request[k], snapshot) &&
    forall j :: 0 <= j < k ==> !Short(request[j], snapshot)
  }

  /** The request lines asking for more than the snapshot holds, in request order. */
  function ShortLines(request: seq<RequestLine>, snapshot: seq<Product>): (short: seq<RequestLine>)
    requires AllFound(request, snapshot)
    ensures forall line :: line in short <==> line in request && Short(line, snapshot)
  {
    if request == [] then []
    else if Short(request[0], snapshot) then [request[0]] + ShortLines(request[1..], snapshot)
    else ShortLines(request[1..], snapshot)
  }

  /** The first short line reported is the first one in request order. */
  lemma {:induction false} FirstShortLine(request: seq<RequestLine>, snapshot: seq<Product>)
    requires AllFound(request, snapshot)
    requires ShortLines(request, snapshot) != []
    ensures exists k :: FirstShortAt(request, snapshot, k) && ShortLines(request, snapshot)[0] == request[k]
  {
    if Short(request[0], snapshot) {
      assert FirstShortAt(request, snapshot, 0);
    } else {
      FirstShortLine(request[1..], snapshot);
      var k :| FirstShortAt(request[1..], snapshot, k) && ShortLines(request[1..], snapshot)[0] == request[1..][k];
      assert FirstShortAt(request, snapshot, k + 1);
    }
  }

  // ---------------------------------------------------------------------
  // The builders
  // ---------------------------------------------------------------------

  /** Every line item names a product of the snapshot. */
  ghost predicate ItemsFound(items: seq<LineItem>, snapshot: seq<Product>)
  {
    forall item :: item in items ==> item.productId in Ids(snapshot)
  }

  /** One line item per request line, the price copied from the snapshot. */
  function LineItems(request: seq<RequestLine>, snapshot: seq<Product>): (items: seq<LineItem>)
    requires AllFound(request, snapshot)
    ensures |items| == |request|
    ensures ItemsFound(items, snapshot)
    ensures forall i :: 0 <= i < |request| ==>
      items[i] == LineItem(request[i].id, request[i].quantity, Lookup(snapshot, request[i].id).price)
  {
    if request == [] then []
    else
      [LineItem(request[0].id, request[0].quantity, Lookup(snapshot, request[0].id).price)]
      + LineItems(request[1..], snapshot)
  }

  /** One update per line item: the snapshot quantity minus the ordered quantity. */
  function StockUpdates(items: seq<LineItem>, snapshot: seq<Product>): (updates: seq<QuantityUpdate>)
    requires ItemsFound(items, snapshot)
    ensures |updates| == |items|
    ensures forall i :: 0 <= i < |items| ==>
      updates[i] == QuantityUpdate(items[i].productId,
                                   Lookup(snapshot, items[i].productId).quantity - items[i].quantity)
  {
    if items == [] then []
    else
      [QuantityUpdate(items[0].productId, Lookup(snapshot, items[0].productId).quantity - items[0].quantity)]
      + StockUpdates(items[1..], snapshot)
  }

  /** The catalog after writing each update in list order: a later entry for
      the same id overwrites an earlier one, the price is kept, and an id the
      catalog does not hold is skipped. */
  function ApplyUpdates(catalog: map<ProductId, Stock>, updates: seq<QuantityUpdate>): (after: map<ProductId, Stock>)
    ensures after.Keys == catalog.Keys
    ensures forall id :: id in after ==> after[id].price == catalog[id].price
  {
    if updates == [] then catalog
    else
      var before := ApplyUpdates(catalog, updates[..|updates| - 1]);
      var last := updates[|updates| - 1];
      if last.id in before then before[last.id := Stock(last.quantity, before[last.id].price)]
      else before
  }

  // ---------------------------------------------------------------------
  // The ordered checks
  // ---------------------------------------------------------------------

  /** The four checks of order placement, in order; the first failure wins. */
  function Validate(customers: set<CustomerId>, catalog: map<ProductId, Stock>,
                    customerId: CustomerId, request: seq<RequestLine>): (v: Check)
    ensures v.Pass? ==> customerId in customers && |request| > 0
    ensures v.Pass? ==> AllFound(request, FindAllById(catalog, request))
    ensures v.Pass? ==> forall line :: line in request ==>
      line.quantity <= Lookup(FindAllById(catalog, request), line.id).quantity
    ensures v.Pass? ==> InStock(catalog, request)
  {
    FoundIsKnown(catalog, request);
    if customerId !in customers then Fail(CustomerNotFound)
    else
      var found := FindAllById(catalog, request);
      if |found| == 0 then Fail(NoProductsFound)
      else
        var missing := MissingLines(request, Ids(found));
        if |missing| > 0 then Fail(ProductNotFound(missing[0].id))
        else
          var short := ShortLines(request, found);
          if |short| > 0 then Fail(InsufficientStock(short[0].id, short[0].quantity))
          else Pass
  }

  // ---------------------------------------------------------------------
  // What the ordered checks decide, stated against the catalog
  // ---------------------------------------------------------------------

  /** k is the first request line whose product the catalog does not hold. */
  ghost predicate FirstUnknownAt(catalog: map<ProductId, Stock>, request: seq<RequestLine>, k: int)
  {
    0 <= k < |request| && request[k].id !in catalog &&
    forall j :: 0 <= j < k ==> request[j].id in catalog
  }

  /** Every requested product is in the catalog. */
  ghost predicate AllKnown(catalog: map<ProductId, Stock>, request: seq<RequestLine>)
  {
    forall line :: line in request ==> line.id in catalog
  }

  /** k is the first request line asking for more than the catalog holds. */
  ghost predicate FirstOverStockAt(catalog: map<ProductId, Stock>, request: seq<RequestLine>, k: int)
    requires AllKnown(catalog, request)
  {
    0 <= k < |request| && catalog[request[k].id].quantity < request[k].quantity &&
    forall j :: 0 <= j < k ==> request[j].quantity <= catalog[request[j].id].quantity
  }

  /** Every request line asks for at most what the catalog holds. */
  ghost predicate InStock(catalog: map<ProductId, Stock>, request: seq<RequestLine>)
  {
    forall line :: line in request ==> line.id in catalog && line.quantity <= catalog[line.id].quantity
  }

  /** On the request's own lines, "found in the snapshot" is "held by the
      catalog", and a snapshot lookup reads the catalog row. */
  lemma FoundIsKnown(catalog: map<ProductId, Stock>, request: seq<RequestLine>)
    ensures forall line :: line in request ==>
      (line.id in Ids(FindAllById(catalog, request)) <==> line.id in catalog)
    ensures forall line :: line in request && line.id in catalog ==>
      Lookup(FindAllById(catalog, request), line.id) ==
        Product(line.id, catalog[line.id].quantity, catalog[line.id].price)
  {
  }

  /** An unknown customer is reported first, whatever the request. */
  lemma ValidateCustomerNotFound(customers: set<CustomerId>, catalog: map<ProductId, Stock>,
                                 customerId: CustomerId, request: seq<RequestLine>)
    ensures Validate(customers, catalog, customerId, request) == Fail(CustomerNotFound) <==>
            customerId !in customers
  {
  }

  /** No products is reported exactly when the customer exists and no
      requested id is in the catalog; this includes an empty request. */
  lemma ValidateNoProductsFound(customers: set<CustomerId>, catalog: map<ProductId, Stock>,
                                customerId: CustomerId, request: seq<RequestLine>)
    ensures Validate(customers, catalog, customerId, request) == Fail(NoProductsFound) <==>
            customerId in customers && forall line :: line in request ==> line.id !in catalog
  {
  }

  /** A missing product is reported exactly when the customer exists, some
      requested product exists, and some does not; the id named is that of the
      first unknown line in request order. */
  lemma ValidateProductNotFound(customers: set<CustomerId>, catalog: map<ProductId, Stock>,
                                customerId: CustomerId, request: seq<RequestLine>, id: ProductId)
    ensures Validate(customers, catalog, customerId, request) == Fail(ProductNotFound(id)) <==>
            customerId in customers &&
            (exists line :: line in request && line.id in catalog) &&
            exists k :: FirstUnknownAt(catalog, request, k) && request[k].id == id
  {
    var found := FindAllById(catalog, request);
    var ids := Ids(found);
    FoundIsKnown(catalog, request);
    if |found| > 0 {
      assert found[0] in found;
    }
    forall k | 0 <= k < |request|
      ensures FirstMissingAt(request, ids, k) <==> FirstUnknownAt(catalog, request, k)
    {
      assert request[k] in request;
      assert forall j :: 0 <= j < k ==> request[j] in request;
    }
    var missing := MissingLines(request, ids);
    if missing != [] {
      FirstMissingLine(request, ids);
      var k0 :| FirstMissingAt(request, ids, k0) && missing[0] == request[k0];
      forall k | FirstUnknownAt(catalog, request, k) ensures k == k0 { }
    } else {
      forall k | 0 <= k < |request| ensures !FirstUnknownAt(catalog, request, k) {
        assert request[k] in request;
      }
    }
  }

  /** With every requested id known, no line is missing. */
  lemma {:induction false} NoMissingLines(request: seq<RequestLine>, ids: seq<ProductId>)
    requires forall line :: line in request ==> line.id in ids
    ensures MissingLines(request, ids) == []
  {
    if request != [] {
      assert request[0] in request;
      assert forall line :: line in request[1..] ==> line in request;
      NoMissingLines(request[1..], ids);
    }
  }

  /** With no line asking for more than the snapshot holds, no line is short. */
  lemma {:induction false} NoShortLines(request: seq<RequestLine>, snapshot: seq<Product>)
    requires AllFound(request, snapshot)
    requires forall line :: line in request ==> !Short(line, snapshot)
    ensures ShortLines(request, snapshot) == []
  {
    if request != [] {
      assert request[0] in request;
      assert forall line :: line in request[1..] ==> line in request;
      NoShortLines(request[1..], snapshot);
    }
  }

  /** With a known customer and a non-empty request of known products,
      validation is decided by the stock check alone. */
  lemma ValidateReachesStockCheck(customers: set<CustomerId>, catalog: map<ProductId, Stock>,
                                  customerId: CustomerId, request: seq<RequestLine>)
    requires customerId in customers && |request| > 0 && AllKnown(catalog, request)
    ensures AllFound(request, FindAllById(catalog, request))
    ensures var short := ShortLines(request, FindAllById(catalog, request));
            Validate(customers, catalog, customerId, request) ==
              if short == [] then Pass else Fail(InsufficientStock(short[0].id, short[0].quantity))
  {
    FoundIsKnown(catalog, request);
    var found := FindAllById(catalog, request);
    assert request[0] in request;
    NoMissingLines(request, Ids(found));
  }

  /** On known products, the first short line is the first over-stock line. */
  lemma FirstShortIsFirstOverStock(catalog: map<ProductId, Stock>, request: seq<RequestLine>)
    requires AllKnown(catalog, request)
    ensures AllFound(request, FindAllById(catalog, request))
    ensures forall k :: FirstShortAt(request, FindAllById(catalog, request), k) <==>
                        FirstOverStockAt(catalog, request, k)
  {
    FoundIsKnown(catalog, request);
    var found := FindAllById(catalog, request);
    forall k ensures FirstShortAt(request, found, k) <==> FirstOverStockAt(catalog, request, k) {
      if 0 <= k < |request| {
        assert request[k] in request;
        assert forall j :: 0 <= j < k ==> request[j] in request;
      }
    }
  }

  /** Insufficient stock is reported exactly when the customer and every
      requested product exist, and some line asks for strictly more than the
      catalog holds; the error carries the first such line's id and quantity.
      A quantity equal to the stock passes. */
  lemma ValidateInsufficientStock(customers: set<CustomerId>, catalog: map<ProductId, Stock>,
                                  customerId: CustomerId, request: seq<RequestLine>,
                                  id: ProductId, quantity: int)
    ensures Validate(customers, catalog, customerId, request) == Fail(InsufficientStock(id, quantity)) <==>
            customerId in customers && |request| > 0 && AllKnown(catalog, request) &&
            exists k :: FirstOverStockAt(catalog, request, k) && request[k] == RequestLine(id, quantity)
  {
    if customerId in customers && |request| > 0 && AllKnown(catalog, request) {
      ValidateReachesStockCheck(customers, catalog, customerId, request);
      FirstShortIsFirstOverStock(catalog, request);
      var found := FindAllById(catalog, request);
      var short := ShortLines(request, found);
      if short != [] {
        FirstShortLine(request, found);
        var k0 :| FirstShortAt(request, found, k0) && short[0] == request[k0];
        forall k | FirstOverStockAt(catalog, request, k) ensures k == k0 { }
      } else {
        forall k | 0 <= k < |request| ensures !FirstOverStockAt(catalog, request, k) {
          assert request[k] in request;
        }
      }
    } else if customerId in customers && |request| > 0 {
      FoundIsKnown(catalog, request);
      var found := FindAllById(catalog, request);
      var line :| line in request && line.id !in catalog;
      assert line in MissingLines(request, Ids(found));
    }
  }

  /** Validation passes exactly when the customer exists, the request is not
      empty, and every line names a catalog product with at least that much stock. */
  lemma ValidatePasses(customers: set<CustomerId>, catalog: map<ProductId, Stock>,
                       customerId: CustomerId, request: seq<RequestLine>)
    ensures Validate(customers, catalog, customerId, request) == Pass <==>
            customerId in customers && |request| > 0 && InStock(catalog, request)
  {
    if customerId in customers && |request| > 0 && InStock(catalog, request) {
      ValidateReachesStockCheck(customers, catalog, customerId, request);
      FoundIsKnown(catalog, request);
      NoShortLines(request, FindAllById(catalog, request));
    }
  }

  // ---------------------------------------------------------------------
  // What a passed validation builds
  // ---------------------------------------------------------------------

  /** The line items follow the request one to one, in order, with the
      catalog's price at validation time. */
  lemma LineItemsCopyCatalogPrices(catalog: map<ProductId, Stock>, request: seq<RequestLine>)
    requires AllKnown(catalog, request)
    ensures AllFound(request, FindAllById(catalog, request))
    ensures var items := LineItems(request, FindAllById(catalog, request));
            |items| == |request| &&
            forall i :: 0 <= i < |request| ==>
              items[i] == LineItem(request[i].id, request[i].quantity, catalog[request[i].id].price)
  {
  }

  /** Each stock update is the catalog quantity read at validation time minus
      that line's quantity, and none is negative. */
  lemma StockUpdatesFromSnapshot(catalog: map<ProductId, Stock>, request: seq<RequestLine>)
    requires InStock(catalog, request)
    ensures AllFound(request, FindAllById(catalog, request))
    ensures var found := FindAllById(catalog, request);
            var updates := StockUpdates(LineItems(request, found), found);
            |updates| == |request| &&
            forall i :: 0 <= i < |request| ==>
              updates[i] == QuantityUpdate(request[i].id, catalog[request[i].id].quantity - request[i].quantity) &&
              updates[i].quantity >= 0
  {
  }

  /** A product named by no update keeps its row. */
  lemma {:induction false} ApplyUpdatesUntouched(catalog: map<ProductId, Stock>, updates: seq<QuantityUpdate>, id: ProductId)
    requires id in catalog
    requires forall u :: u in updates ==> u.id != id
    ensures ApplyUpdates(catalog, updates)[id] == catalog[id]
  {
    if updates != [] {
      var prefix := updates[..|updates| - 1];
      assert forall u :: u in prefix ==> u in updates;
      ApplyUpdatesUntouched(catalog, prefix, id);
    }
  }

  /** The last update naming a product decides its quantity. */
  lemma {:induction false} ApplyUpdatesLastWins(catalog: map<ProductId, Stock>, updates: seq<QuantityUpdate>, k: int)
    requires 0 <= k < |updates| && updates[k].id in catalog
    requires forall j :: k < j < |updates| ==> updates[j].id != updates[k].id
    ensures ApplyUpdates(catalog, updates)[updates[k].id].quantity == updates[k].quantity
  {
    if k < |updates| - 1 {
      ApplyUpdatesLastWins(catalog, updates[..|updates| - 1], k);
    }
  }

  /** The catalog as a placement whose validation passed leaves it: the
      stock updates built from the snapshot, written in request order. */
  function CatalogAfter(catalog: map<ProductId, Stock>, request: seq<RequestLine>): (after: map<ProductId, Stock>)
    requires InStock(catalog, request)
    ensures after.Keys == catalog.Keys
    ensures forall id :: id in after ==> after[id].price == catalog[id].price
  {
    FoundIsKnown(catalog, request);
    var found := FindAllById(catalog, request);
    ApplyUpdates(catalog, StockUpdates(LineItems(request, found), found))
  }

  /** A product the request does not name keeps its row. */
  lemma StockAfterUntouched(catalog: map<ProductId, Stock>, request: seq<RequestLine>, id: ProductId)
    requires InStock(catalog, request)
    requires id in catalog && forall line :: line in request ==> line.id != id
    ensures CatalogAfter(catalog, request)[id] == catalog[id]
  {
    StockUpdatesFromSnapshot(catalog, request);
    var found := FindAllById(catalog, request);
    var updates := StockUpdates(LineItems(request, found), found);
    forall u | u in updates ensures u.id != id {
      var i :| 0 <= i < |updates| && updates[i] == u;
      assert request[i] in request;
    }
    ApplyUpdatesUntouched(catalog, updates, id);
  }

  /** A requested product holds its catalog quantity minus the quantity of
      the LAST line naming it: duplicate lines overwrite, they are not summed. */
  lemma StockAfterRequested(catalog: map<ProductId, Stock>, request: seq<RequestLine>, k: int)
    requires InStock(catalog, request)
    requires 0 <= k < |request| && forall j :: k < j < |request| ==> request[j].id != request[k].id
    ensures request[k].id in catalog
    ensures CatalogAfter(catalog, request)[request[k].id].quantity ==
            catalog[request[k].id].quantity - request[k].quantity
  {
    assert request[k] in request;
    StockUpdatesFromSnapshot(catalog, request);
    var found := FindAllById(catalog, request);
    ApplyUpdatesLastWins(catalog, StockUpdates(LineItems(request, found), found), k);
  }

  /** No product the request names ends with a negative quantity. */
  lemma StockAfterNonNegative(catalog: map<ProductId, Stock>, request: seq<RequestLine>)
    requires InStock(catalog, request)
    ensures forall line :: line in request ==>
      line.id in catalog && CatalogAfter(catalog, request)[line.id].quantity >= 0
  {
    forall line | line in request
      ensures line.id in catalog && CatalogAfter(catalog, request)[line.id].quantity >= 0
    {
      var k :| 0 <= k < |request| && request[k] == line;
      var last := LastIndexOf(request, line.id, k);
      StockAfterRequested(catalog, request, last);
      assert request[last] in request;
    }
  }

  /** Placement keeps every catalog quantity non-negative. */
  lemma StockStaysNonNegative(catalog: map<ProductId, Stock>, request: seq<RequestLine>)
    requires InStock(catalog, request)
    requires forall id :: id in catalog ==> catalog[id].quantity >= 0
    ensures forall id :: id in CatalogAfter(catalog, request) ==> CatalogAfter(catalog, request)[id].quantity >= 0
  {
    StockAfterNonNegative(catalog, request);
    forall id | id in catalog && forall line :: line in request ==> line.id != id
      ensures CatalogAfter(catalog, request)[id].quantity >= 0
    {
      StockAfterUntouched(catalog, request, id);
    }
  }

  /** The worked example: customer C1 exists and product P1 has 10 in stock
      at price 500. Ordering 3 passes, copies the price and leaves 7. */
  lemma PlacementExampleAccepted()
    ensures Validate({"C1"}, map["P1" := Stock(10, 500)], "C1", [RequestLine("P1", 3)]) == Pass
    ensures LineItems([RequestLine("P1", 3)], FindAllById(map["P1" := Stock(10, 500)], [RequestLine("P1", 3)]))
            == [LineItem("P1", 3, 500)]
    ensures CatalogAfter(map["P1" := Stock(10, 500)], [RequestLine("P1", 3)]) == map["P1" := Stock(7, 500)]
  {
    var catalog := map["P1" := Stock(10, 500)];
    var request := [RequestLine("P1", 3)];
    ValidatePasses({"C1"}, catalog, "C1", request);
    LineItemsCopyCatalogPrices(catalog, request);
    StockAfterRequested(catalog, request, 0);
    assert CatalogAfter(catalog, request).Keys == catalog.Keys;
  }

  /** In the same state, ordering 11 fails naming P1 and 11. */
  lemma PlacementExampleRejected()
    ensures Validate({"C1"}, map["P1" := Stock(10, 500)], "C1", [RequestLine("P1", 11)])
            == Fail(InsufficientStock("P1", 11))
  {
    var catalog := map["P1" := Stock(10, 500)];
    assert FirstOverStockAt(catalog, [RequestLine("P1", 11)], 0);
    ValidateInsufficientStock({"C1"}, catalog, "C1", [RequestLine("P1", 11)], "P1", 11);
  }

  /** In the same state, ordering exactly the 10 in stock passes and leaves 0. */
  lemma PlacementExampleWholeStock()
    ensures Validate({"C1"}, map["P1" := Stock(10, 500)], "C1", [RequestLine("P1", 10)]) == Pass
    ensures CatalogAfter(map["P1" := Stock(10, 500)], [RequestLine("P1", 10)])["P1"].quantity == 0
  {
    var catalog := map["P1" := Stock(10, 500)];
    ValidatePasses({"C1"}, catalog, "C1", [RequestLine("P1", 10)]);
    StockAfterRequested(catalog, [RequestLine("P1", 10)], 0);
  }

  /** Two lines for the same product are each checked against the snapshot
      alone and the later write wins: with 5 in stock, lines of 3 and 4 both
      pass and leave 1, not the 5 - 3 - 4 that summing the lines would give. */
  lemma DuplicateLinesOverwrite()
    ensures Validate({"C1"}, map["P1" := Stock(5, 500)], "C1", [RequestLine("P1", 3), RequestLine("P1", 4)]) == Pass
    ensures CatalogAfter(map["P1" := Stock(5, 500)], [RequestLine("P1", 3), RequestLine("P1", 4)])["P1"].quantity == 1
  {
    var catalog := map["P1" := Stock(5, 500)];
    var request := [RequestLine("P1", 3), RequestLine("P1", 4)];
    ValidatePasses({"C1"}, catalog, "C1", request);
    StockAfterRequested(catalog, request, 1);
  }

  /** The index of the last line naming `id`, at or after a line `k` that names it. */
  function LastIndexOf(request: seq<RequestLine>, id: ProductId, k: int): (last: int)
    requires 0 <= k < |request| && request[k].id == id
    ensures k <= last < |request| && request[last].id == id
    ensures forall j :: last < j < |request| ==> request[j].id != id
    decreases |request| - k
  {
    if exists j :: k < j < |request| && request[j].id == id then
      var j :| k < j < |request| && request[j].id == id;
      LastIndexOf(request, id, j)
    else k
  }
}
