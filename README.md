# Order placement (CreateOrderService) in Dafny

This project models the order-placement workflow of a small e-commerce
back end: `CreateOrderService.execute`. Given a customer id and a list of
`{id, quantity}` request lines, the service

1. looks the customer up and fails with *customer does not exist*;
2. fetches the products whose ids the request names and fails when none
   is found;
3. fails naming the first request line whose product was not found;
4. fails naming the first request line that asks for strictly more than
   the fetched stock (a quantity equal to the stock is accepted);
5. builds one line item per request line, with the price copied from the
   fetched products (the snapshot);
6. persists the order with those line items;
7. computes each product's new quantity as snapshot quantity minus the
   ordered quantity, writes them in one bulk update, and returns the order.

Two modules, following the source's split between comprehensions and the
step-by-step service:

- `OrderRules` (`OrderRules.dfy`) is the pure part. It holds the data
  (`Stock`, `Product`, `RequestLine`, `LineItem`, `QuantityUpdate`, the
  tagged `OrderError`) and the snapshot `FindAllById`. `Lookup` is the
  source's `filter(...)[0]`. It also holds the filters `MissingLines` and
  `ShortLines`, the builders `LineItems` and `StockUpdates`, and the bulk
  write `ApplyUpdates`. `Validate` is the four checks in source order, and
  `CatalogAfter` is the product store a successful placement leaves. The
  lemmas state each check's outcome against the catalog itself, "if and
  only if", and what the stock becomes.
- `CreateOrderService` (`CreateOrderService.dfy`) is the service. Class
  `OrderService` holds the three stores as fields: `customers` (a set of
  ids), `products` (id to `Stock`) and `orders` (a sequence).
  `CreateOrder` and `UpdateQuantity` are the order and product store
  calls. `PlaceOrder` is `execute`: it runs the checks with early returns,
  then `Commit` builds the line items, creates the order and writes the
  stock. `Valid()` is the data-model invariant: no negative stock, and
  each order has its position as id and names known customers and
  products. Placement preserves it.

The snapshot read by `findAllById` is the list of catalog products whose id
the request names, each once. A database returns these rows in no fixed
order. Every later use looks rows up by id, and ids are unique, so the model
fixes one order and proves the lookups do not depend on it.

Three behaviours of the code worth stating outright:

- A product named on two lines is not decremented by their sum: each line
  is checked against the snapshot on its own, the code writes
  `snapshot - line quantity` per line, and the later write wins.
  `StockAfterRequested` and `DuplicateLinesOverwrite` state this.
- Request quantities are not checked to be positive, so the model accepts
  any integer.
- Store failures are not caught or turned into errors: a failing store
  call rejects the promise, and that is not modelled (see below).

## Model

| member | source | states |
|---|---|---|
| `OrderRules.Ids` | src/modules/orders/services/CreateOrderService.ts:46 | the found ids, one per fetched product and in the same order |
| `OrderRules.FindAllById` | src/modules/orders/services/CreateOrderService.ts:40 | the snapshot holds only catalog products, each with its catalog quantity and price, and only those the request names; every requested id the catalog holds is in it; no id appears twice |
| `OrderRules.SnapshotMatchesCatalog` | src/modules/orders/services/CreateOrderService.ts:40-50 | an id is in the snapshot if and only if the catalog holds it and the request names it, and a lookup there yields the catalog row |
| `OrderRules.FoundIsKnown` | src/modules/orders/services/CreateOrderService.ts:46-58 | for the request's own lines, "found in the snapshot" is "held by the catalog", and snapshot lookups read the catalog rows |
| `OrderRules.Lookup` | src/modules/orders/services/CreateOrderService.ts:58 | the lookup is only called when the id is among the found ids (the `[0]` index is in bounds), and it yields a snapshot product with that id |
| `OrderRules.LookupIsFirstMatch` | src/modules/orders/services/CreateOrderService.ts:58 | the lookup yields the product at the first snapshot index holding the id, as `filter(...)[0]` does |
| `OrderRules.MissingLines` | src/modules/orders/services/CreateOrderService.ts:48-50 | a line is reported missing if and only if it is a request line whose id is not among the found ids |
| `OrderRules.FirstMissingLine` | src/modules/orders/services/CreateOrderService.ts:52-53 | the first missing line reported is the first such line in request order |
| `OrderRules.NoMissingLines` | src/modules/orders/services/CreateOrderService.ts:48-52 | when every requested id is found, nothing is reported missing |
| `OrderRules.ShortLines` | src/modules/orders/services/CreateOrderService.ts:56-60 | a line is reported short if and only if it is a request line asking for strictly more than its snapshot quantity |
| `OrderRules.FirstShortLine` | src/modules/orders/services/CreateOrderService.ts:62-65 | the first short line reported is the first such line in request order |
| `OrderRules.NoShortLines` | src/modules/orders/services/CreateOrderService.ts:56-62 | when no line asks for more than its snapshot quantity, nothing is reported short |
| `OrderRules.LineItems` | src/modules/orders/services/CreateOrderService.ts:68-72 | one line item per request line, in request order, with the line's id and quantity and the snapshot price; every item names a snapshot product |
| `OrderRules.StockUpdates` | src/modules/orders/services/CreateOrderService.ts:81-86 | one update per line item, in order: the item's product and snapshot quantity minus ordered quantity; every lookup is in bounds |
| `OrderRules.ApplyUpdates` | src/modules/orders/services/CreateOrderService.ts:88 | the bulk write changes no product set and no price |
| `OrderRules.Validate` | src/modules/orders/services/CreateOrderService.ts:34-66 | when all four checks pass, the customer exists, the request is non-empty, every line is found in the snapshot and asks for at most its snapshot quantity |
| `OrderRules.ValidateCustomerNotFound` | src/modules/orders/services/CreateOrderService.ts:34-38 | the result is the customer-not-found error if and only if the customer id does not resolve |
| `OrderRules.ValidateNoProductsFound` | src/modules/orders/services/CreateOrderService.ts:40-44 | the result is the no-products error if and only if the customer exists and no requested id is in the catalog (an empty request included) |
| `OrderRules.ValidateProductNotFound` | src/modules/orders/services/CreateOrderService.ts:46-54 | the result is product-not-found(id) if and only if the customer exists, some requested product exists, and id is that of the first unknown line in request order |
| `OrderRules.ValidateReachesStockCheck` | src/modules/orders/services/CreateOrderService.ts:46-66 | with a known customer and a non-empty request of known products, the outcome is decided by the stock check alone |
| `OrderRules.FirstShortIsFirstOverStock` | src/modules/orders/services/CreateOrderService.ts:56-60 | on known products, the first line short of snapshot stock is the first line asking for more than the catalog holds |
| `OrderRules.ValidateInsufficientStock` | src/modules/orders/services/CreateOrderService.ts:56-66 | the result is insufficient-stock(id, quantity) if and only if the customer and all products exist and (id, quantity) is the first line asking strictly more than the stock |
| `OrderRules.ValidatePasses` | src/modules/orders/services/CreateOrderService.ts:34-66 | validation passes if and only if the customer exists, the request is non-empty and every line names a catalog product with at least that much stock |
| `OrderRules.LineItemsCopyCatalogPrices` | src/modules/orders/services/CreateOrderService.ts:68-72 | the line items follow the request one to one, in order, each with the catalog price read at validation time |
| `OrderRules.StockUpdatesFromSnapshot` | src/modules/orders/services/CreateOrderService.ts:81-86 | each update is the validation-time catalog quantity minus that line's quantity, and none is negative |
| `OrderRules.ApplyUpdatesUntouched` | src/modules/orders/services/CreateOrderService.ts:88 | a product named by no update keeps its row |
| `OrderRules.ApplyUpdatesLastWins` | src/modules/orders/services/CreateOrderService.ts:88 | the last update naming a product decides its quantity |
| `OrderRules.CatalogAfter` | src/modules/orders/services/CreateOrderService.ts:79-88 | after a successful placement the store holds the same products with the same prices |
| `OrderRules.StockAfterUntouched` | src/modules/orders/services/CreateOrderService.ts:81-88 | a product the request does not name keeps its row |
| `OrderRules.StockAfterRequested` | src/modules/orders/services/CreateOrderService.ts:81-88 | a requested product ends at its catalog quantity minus the quantity of the last line naming it |
| `OrderRules.StockAfterNonNegative` | src/modules/orders/services/CreateOrderService.ts:56-88 | no requested product ends with a negative quantity |
| `OrderRules.StockStaysNonNegative` | src/modules/orders/services/CreateOrderService.ts:81-88 | if all quantities were non-negative before, they are after |
| `OrderRules.PlacementExampleAccepted` | src/modules/orders/services/CreateOrderService.ts:33-91 | C1 orders 3 of P1 (10 in stock at 500): accepted, one item (P1, 3, 500), P1 left with 7 |
| `OrderRules.PlacementExampleRejected` | src/modules/orders/services/CreateOrderService.ts:56-66 | ordering 11 of the same P1 fails with insufficient-stock(P1, 11) |
| `OrderRules.PlacementExampleWholeStock` | src/modules/orders/services/CreateOrderService.ts:56-60 | ordering exactly the 10 in stock passes and leaves 0 |
| `OrderRules.DuplicateLinesOverwrite` | src/modules/orders/services/CreateOrderService.ts:56-88 | two lines of 3 and 4 for a product with 5 both pass, and the product ends at 1: the last write wins, decrements are not summed |
| `CreateOrderService.PlacementKeepsStoresValid` | src/modules/orders/services/CreateOrderService.ts:74-88 | a validated placement keeps stock non-negative and every order referring to known customers and products |
| `CreateOrderService.OrderService.constructor` | src/modules/orders/services/CreateOrderService.ts:22-31 | the service starts on the given customer and product stores and no orders |
| `CreateOrderService.OrderService.CreateOrder` | src/modules/orders/services/CreateOrderService.ts:74-79 | exactly one order is appended, holding the given line items unchanged, and it is the order returned |
| `CreateOrderService.OrderService.UpdateQuantity` | src/modules/orders/services/CreateOrderService.ts:88 | the product store becomes the old one with every update written in list order; nothing else changes |
| `CreateOrderService.OrderService.PlaceOrder` | src/modules/orders/services/CreateOrderService.ts:33-91 | on a failed check the first error is returned and neither store changes; otherwise exactly one order is added (snapshot prices, request order) and returned, and products become the stock computed from the snapshot; the invariant is kept |
| `CreateOrderService.OrderService.Commit` | src/modules/orders/services/CreateOrderService.ts:68-90 | after validation: the new order holds one item per request line, is appended, and the product store becomes the snapshot-based stock; the invariant is kept |

Repeating a failing request changes nothing. `PlaceOrder` leaves both stores
unchanged on failure, and `Validate` depends only on those stores and the
input, so the same error comes back.

## Left out

- Dependency injection: the three repositories are the class's fields.
- `async`/`await` and concurrent requests: the model is one sequential call. It does not model the race where two requests both pass the stock check and then both write.
- Storage failures: a rejected `create` or `updateQuantity` promise, and so the orphaned order a failed stock write leaves, are not modelled. The repositories' implementations and failure modes are not modelled; only their effect on the stores is.
- Error message texts: errors are the tagged `OrderError` variants carrying the same id and quantity.
- The customer entity: only whether the id resolves matters; the order stores the customer id.
- Order identifiers: the store's generated id is modelled as the order's position in the store.
- Numbers: TypeScript `number` quantities and prices are modelled as unbounded integers. Fractional and non-finite values are not modelled.
- `OrderService.UpdateQuantity`: an update for an id the store does not hold is skipped. This never happens after validation, and the repository's own behaviour for that case is not part of this model.
