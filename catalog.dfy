/**
 The catalog entities the storefront script works on: a product card's data
 and the few constants the check and buy handlers use.
 */
module Catalog {

  datatype Option<T> = None | Some(value: T)

  /** One catalog entry. `stock` and `lastChecked` are the two fields the
      handlers update in place. `lastChecked == 0` stands for "never checked":
      the buy guard treats a missing and a zero timestamp alike (both are
      falsy). `category` is optional because the seed catalog carries none.
      The price is not part of the model (floating point, display only). */
  datatype Product = Product(
    id: int,
    name: string,
    category: Option<string>,
    stock: int,
    lastChecked: int)

  /** Milliseconds in a minute: the unit of the cooldown length. */
  const MsPerMinute: int := 60_000

  /** A stock check locks the product's check button for ten minutes. */
  const CheckCooldownMinutes: int := 10

  /** A check older than seven days (in milliseconds) no longer allows a purchase. */
  const StaleAfterMs: int := 7 * 24 * 60 * 60 * 1000

  /** Every product of the list has a non-negative stock. */
  predicate StockNonNegative(ps: seq<Product>)
  {
    forall k :: 0 <= k < |ps| ==> ps[k].stock >= 0
  }

  /** No two products of the list share an id. */
  predicate DistinctIds(ps: seq<Product>)
  {
    forall j, k :: 0 <= j < k < |ps| ==> ps[j].id != ps[k].id
  }
}
