/**
 The quantity table (product id -> quantity typed into the card) and the
 "Total items" figure computed from it.
 */
module Totals {

  import opened Catalog

  /** The stored quantity; a product without an entry counts as 0. */
  function Quantity(quantities: map<int, int>, id: int): int
  {
    if id in quantities then quantities[id] else 0
  }

  /** What one product adds to the item count: its quantity when positive,
      nothing otherwise. */
  function Counted(quantities: map<int, int>, id: int): (n: int)
    ensures n >= 0
    ensures n > 0 <==> Quantity(quantities, id) > 0
    ensures n > 0 ==> n == Quantity(quantities, id)
  {
    var q := Quantity(quantities, id);
    if q > 0 then q else 0
  }

  /** The item count over the catalog, taken left to right. */
  function TotalItems(ps: seq<Product>, quantities: map<int, int>): int
  {
    if ps == [] then 0
    else TotalItems(ps[..|ps| - 1], quantities) + Counted(quantities, ps[|ps| - 1].id)
  }

  /** The item count is never negative. */
  lemma {:induction false} TotalItemsNonNegative(ps: seq<Product>, quantities: map<int, int>)
    ensures TotalItems(ps, quantities) >= 0
  {
    if ps != [] {
      TotalItemsNonNegative(ps[..|ps| - 1], quantities);
    }
  }

  /** A product with no positive quantity is no part of the count: the count
      is zero exactly when no catalog product has a positive quantity. */
  lemma {:induction false} TotalItemsZeroIff(ps: seq<Product>, quantities: map<int, int>)
    ensures TotalItems(ps, quantities) == 0
        <==> forall k :: 0 <= k < |ps| ==> Quantity(quantities, ps[k].id) <= 0
  {
    if ps != [] {
      var init := ps[..|ps| - 1];
      TotalItemsZeroIff(init, quantities);
      TotalItemsNonNegative(init, quantities);
      assert forall k :: 0 <= k < |init| ==> init[k] == ps[k];
    }
  }

  /** The count reads only the products' ids: changing stock or lastChecked
      leaves it as it was. */
  lemma {:induction false} TotalItemsReadsIdsOnly(ps: seq<Product>, ps': seq<Product>, quantities: map<int, int>)
    requires |ps| == |ps'|
    requires forall k :: 0 <= k < |ps| ==> ps[k].id == ps'[k].id
    ensures TotalItems(ps, quantities) == TotalItems(ps', quantities)
  {
    if ps != [] {
      TotalItemsReadsIdsOnly(ps[..|ps| - 1], ps'[..|ps'| - 1], quantities);
    }
  }

  /** Setting the quantity of a product whose id is not in the catalog does
      not move the count. */
  lemma {:induction false} TotalItemsIgnoresOtherIds(ps: seq<Product>, quantities: map<int, int>, id: int, q: int)
    requires forall k :: 0 <= k < |ps| ==> ps[k].id != id
    ensures TotalItems(ps, quantities[id := q]) == TotalItems(ps, quantities)
  {
    if ps != [] {
      TotalItemsIgnoresOtherIds(ps[..|ps| - 1], quantities, id, q);
    }
  }

  /** In a catalog with distinct ids, setting product `i`'s quantity to `q`
      moves the count by the change of that product's contribution alone. */
  lemma {:induction false} TotalItemsAfterSet(ps: seq<Product>, quantities: map<int, int>, i: nat, q: int)
    requires DistinctIds(ps)
    requires i < |ps|
    ensures TotalItems(ps, quantities[ps[i].id := q])
         == TotalItems(ps, quantities) - Counted(quantities, ps[i].id) + (if q > 0 then q else 0)
  {
    var init := ps[..|ps| - 1];
    var id := ps[i].id;
    if i == |ps| - 1 {
      TotalItemsIgnoresOtherIds(init, quantities, id, q);
    } else {
      TotalItemsAfterSet(init, quantities, i, q);
    }
  }
}
