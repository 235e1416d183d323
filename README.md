# Storefront stock-check and buy workflow

A Dafny model of the browser-side shop page in `app.js`. The page lists the
catalog. Each product card has a quantity input, a "Check" button that asks
for a stock check, and a "Buy" button. Stripped of the DOM, the alerts and
`localStorage`, the script is a small state machine over three things:

- the product list, whose entries' `stock` and `lastChecked` fields the
  handlers update in place;
- the cooldown table, mapping a product id to the instant (ms) until which
  its Check button stays locked;
- the quantity table, mapping a product id to the typed quantity.

Modules:

- `Catalog` (`catalog.dfy`): the `Product` record and the constants: a
  10-minute check cooldown, 60 000 ms per minute, and a 7-day (604 800 000 ms)
  limit on how old a check may be.
- `Cooldowns` (`cooldowns.dfy`): `setCooldown` and `isOnCooldown` as
  functions on the table.
- `Search` (`search.dfy`): the name/category filter of the product list, with
  ASCII lower-casing and substring search.
- `Totals` (`totals.dfy`): the quantity table and the "Total items" figure.
- `Actions` (`actions.dfy`): the check button, buy button and quantity input
  as functions on a `Snapshot` of the page. Also lemmas about single actions
  and about any sequence of them.
- `Storefront` (`shop.dfy`): class `Shop`, the page as it runs. It holds a
  `products` array whose elements are updated in place and the two tables as
  fields. Each handler is a method proved to produce the state that the
  matching `Actions` function describes. `TotalItems` is the accumulating loop
  of `updateTotals`.
- `Seed` (`seed.dfy`): the twelve seed products of `products.js` as a
  fixture, and what a freshly loaded page allows.

`Date.now()` becomes an explicit `now: int` parameter (milliseconds).
`lastChecked == 0` stands for a product that was never checked. The buy guard
`!p.lastChecked` treats a missing timestamp and a zero one alike.

The page script keeps no user sessions, carts, favourites, sold counts or
popularity ranking, and the model has none either. Its rules are these:

- the check cooldown is 10 minutes and kept per product on the page;
- buy sets no cooldown and changes no sold count;
- buy accepts a negative quantity, which raises the stock;
- buy refuses a product whose last check is missing or more than 7 days old.

## Model

| member | source | states |
|---|---|---|
| Cooldowns.Until | app.js:24 | Definition of the stored "until" instant: the table entry, or 0 when the product has none. Its properties are stated by `Cooldowns.Set` and `Cooldowns.MissingEntryNeverActive`. |
| Cooldowns.Active | app.js:23-26 | Definition of `isOnCooldown`: strictly before the "until" instant. Its properties are stated by `Cooldowns.Set`, `Cooldowns.SetLocksWindow`, `Cooldowns.MissingEntryNeverActive` and `Cooldowns.ActiveIsMonotone`. |
| Cooldowns.Set | app.js:18-22 | After locking `id` at `now` for `m` minutes, `id` is on cooldown at exactly the instants `t < now + m*60000`. Every other id keeps its "until" instant. |
| Cooldowns.SetLocksWindow | app.js:18-26 | A lock of m > 0 minutes holds from `now` through `now + m*60000 - 1` and is off at `now + m*60000`, because the comparison is strict. |
| Cooldowns.MissingEntryNeverActive | app.js:23-26 | A product with no entry counts as "until 0", so it is never on cooldown at any `now >= 0`. |
| Cooldowns.ActiveIsMonotone | app.js:23-26 | If a product is on cooldown at a later instant, it is on cooldown at every earlier one: a lock only expires. |
| Search.LowerChar | app.js:30 | Definition of lower-casing one character: ASCII capitals become small letters, every other character is kept. Used by `Search.Lower`. |
| Search.Lower | app.js:30 | Definition of `toLowerCase` on a string, character by character. Its property is stated by `Search.LowerIdempotent` and used by `Search.FilterIgnoresTermCase`. |
| Search.Includes | app.js:36 | Definition of `String.includes`, scanning from the left. Its meaning is stated by `Search.IncludesIffOccurs` and `Search.EmptyTermIncluded`. |
| Search.Matches | app.js:36-37 | Definition of the filter condition of one product: name test and category test. Its use is stated by `Search.Filter`, `Search.FilterEverything` and `Search.FilterNoneInCategory`. |
| Search.IncludesIffOccurs | app.js:36 | The substring test `includes` holds exactly when the term occurs at some position of the name (both directions). |
| Search.EmptyTermIncluded | app.js:36 | The empty search term is contained in every name. |
| Search.Filter | app.js:35-37 | The shown list holds exactly the catalog products whose lower-cased name contains the lower-cased term and whose category equals the selected one, or no category is selected. Each shown product appears as often as in the catalog, and the list is an order-preserving subsequence of the catalog. |
| Search.FilterEverything | app.js:35-37 | With an empty term and no category selected, the whole catalog is shown, in order. |
| Search.FilterNoneInCategory | app.js:37 | Selecting a category that no product carries shows nothing. |
| Search.LowerIdempotent | app.js:30 | Lower-casing an already lower-cased string changes nothing. |
| Search.FilterIgnoresTermCase | app.js:30-37 | A term and its lower-cased form select the same products, so the search is case-insensitive. |
| Totals.Quantity | app.js:126 | Definition of the stored quantity: the table entry, or 0 when the product has none. Used by `Totals.Counted`; its update is stated by `Actions.EnterQuantity`. |
| Totals.TotalItems | app.js:122-131 | Definition of the item count: the sum of `Totals.Counted` over the catalog, left to right. Its properties are stated by `Storefront.Shop.TotalItems`, `Totals.TotalItemsNonNegative`, `Totals.TotalItemsZeroIff`, `Totals.TotalItemsReadsIdsOnly`, `Totals.TotalItemsIgnoresOtherIds` and `Totals.TotalItemsAfterSet`. |
| Totals.Counted | app.js:126-130 | A product adds its stored quantity to the item count when that quantity is positive. A missing or non-positive entry adds 0. |
| Totals.TotalItemsNonNegative | app.js:122-131 | The item count is never negative. |
| Totals.TotalItemsZeroIff | app.js:122-131 | The item count is 0 exactly when no catalog product has a positive quantity. |
| Totals.TotalItemsReadsIdsOnly | app.js:125-126 | The item count depends only on the products' ids. Changing stock or check times does not move it. |
| Totals.TotalItemsIgnoresOtherIds | app.js:125-126 | Storing a quantity under an id that is not in the catalog does not change the item count. |
| Totals.TotalItemsAfterSet | app.js:71-75 | With distinct ids, storing quantity `q` for product `i` changes the item count by `max(q,0)` minus that product's old contribution. |
| Actions.EnterQuantity | app.js:71-75 | The typed quantity becomes the product's stored quantity. Other quantities, the products and the cooldowns are unchanged. |
| Actions.Check | app.js:78-86 | Check keeps the product list's length. Its full effect is stated by `Actions.CheckEffect`. |
| Actions.CheckEffect | app.js:78-86 | On cooldown, Check changes nothing. Otherwise it locks exactly this product until `now + 600000` and sets its `lastChecked` to `now`. Stock, other products, other cooldowns and quantities are unchanged. |
| Actions.CheckIsRateLimited | app.js:79-81 | A second check of the same product less than ten minutes after a check that went through is ignored. |
| Actions.CheckReopensAfterCooldown | app.js:23-26 | Ten minutes or more after a check, a new check goes through and restamps `lastChecked`. |
| Actions.Buy | app.js:89-110 | Buy keeps the product list's length. Its full effect is stated by `Actions.BuyEffect` and `Actions.BuyRejectedChangesNothing`. |
| Actions.BuyGuard | app.js:90-102 | Definition of the three buy guards, tested in the source's order, naming the first that refuses. Its meaning is stated by `Actions.BuyAcceptedIff`, `Actions.SoldOutRefusesPositive` and `Seed.FreshPageRefusesEveryBuy`. |
| Actions.BuyAcceptedIff | app.js:90-102 | The buy guards pass exactly when `lastChecked` is non-zero and at most 7 days old, the quantity is non-zero, and it does not exceed the stock (both directions). |
| Actions.BuyRejectedChangesNothing | app.js:90-102 | A refused buy changes nothing: no stock, quantity or cooldown. |
| Actions.BuyEffect | app.js:104-107 | A buy that goes through lowers this product's stock by `qty` and sets its stored quantity to 0. Other products, other quantities and the cooldown table are unchanged. |
| Actions.BuyKeepsStockNonNegative | app.js:99-105 | If every stock is non-negative before a buy, every stock is non-negative after it, for any quantity. |
| Actions.NegativeQuantityRaisesStock | app.js:95-105 | On a recently checked product with non-negative stock, a negative quantity passes the guards and increases the stock. |
| Actions.SoldOutRefusesPositive | app.js:99-101 | A product with stock 0 refuses every positive quantity. |
| Actions.CheckEnablesBuy | app.js:84-90 | After a check at a non-zero instant, any non-zero quantity up to the stock can be bought for the next 7 days, and the stock drops by that quantity. |
| Actions.BuyClearsTotal | app.js:104-107 | With distinct ids, a buy that goes through removes exactly that product's positive quantity from the item count. |
| Actions.StockNeverNegative | app.js:71-110 | Starting from non-negative stocks, no sequence of checks, buys and quantity entries makes any stock negative. |
| Storefront.Shop.constructor | app.js:7-8 | Page load: the catalog, with the cooldown and quantity tables restored from storage. |
| Storefront.Shop.SetCooldown | app.js:18-22 | Replaces the cooldown table with `Cooldowns.Set` of the old one. The quantity table is unchanged. |
| Storefront.Shop.EnterQuantity | app.js:71-75 | The page's new state is `Actions.EnterQuantity` of the old state. |
| Storefront.Shop.Check | app.js:78-86 | Reports whether the check went through (the product was not on cooldown). Updates the product in place so the page's new state is `Actions.Check` of the old state. |
| Storefront.Shop.Buy | app.js:89-110 | Returns the first guard that refused, in the source's order, or None. Updates stock and quantity in place so the page's new state is `Actions.Buy` of the old state. |
| Storefront.Shop.TotalItems | app.js:118-131 | The loop's item count equals `Totals.TotalItems` of the catalog and the quantity table, and it is non-negative. |
| Seed.SeedCatalog | products.js:3-111 | The seed catalog has twelve products with distinct ids and non-negative stock. None has a category or a check time. |
| Seed.FreshPageRefusesEveryBuy | app.js:90-93 | On a freshly loaded page no seed product was checked, so every buy is refused as needing a check. |
| Seed.CheddarRefusesPositiveAfterCheck | products.js:31-39 | Cheddar Cheese (id 4, stock 0) refuses every positive quantity, even right after a check. |
| Seed.AnyCategoryHidesSeed | app.js:37 | The seed products carry no category, so selecting any category hides them all. |

## Left out

- DOM construction, templating, button disabling and relabelling, event wiring, `attachQuantityListeners` and the re-render after a buy (app.js:1-4, 39-68, 109, 113, 139-151): user interface only.
- The `alert` messages (app.js:80, 91, 96, 100, 103): display only. The refusal reason is returned as a `BuyError` instead.
- `localStorage` persistence (`saveCooldowns`, `saveQuantities`, app.js:7-16): the tables are kept in memory. The constructor receives them as already-loaded maps.
- `Date.now()`: replaced by a `now` parameter. The check handler reads the clock before and after a blocking `alert`. The model uses one instant for the whole handler.
- Prices and the total cost (app.js:103, 129, 135): floating point and display formatting.
- `parseInt(...) || 0`: quantities arrive already parsed, with unparsable input as 0. The buy handler reads the quantity from the input field, which the input handler keeps equal to the stored quantity. The model passes it as a parameter.
- JavaScript numbers are doubles. The model uses unbounded integers, so values beyond 2^53 are not modelled.
- `toLowerCase`: only ASCII letters are lower-cased; other Unicode case mappings are not modelled.
- The bug-report form (app.js:157-164): user interface only.
- `server.js` and `Node.js`: static file serving, the health route and the Telegram notifier are network plumbing and are not part of this model.
- Sessions, carts, favourites, sold counts, buy cooldowns and ranking: the modelled code has none of them.
