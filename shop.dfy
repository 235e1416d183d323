/**
 The storefront page as it runs: the product list whose entries the handlers
 update in place, and the cooldown and quantity tables they reassign. Each
 method performs one handler's steps and is proved to leave the page in the
 state the matching function of `Actions` describes.
 */
module Storefront {

  import opened Catalog
  import Cooldowns
  import Totals
  import Actions

  class Shop {
    const products: array<Product>
    var cooldowns: map<int, int>
    var quantities: map<int, int>

    /** The page's state as a value. */
    function State(): Actions.Snapshot
      reads this, products
    {
      Actions.Snapshot(products[..], cooldowns, quantities)
    }

    /** Page load: the catalog, and the two tables restored from storage. */
    constructor (catalog: seq<Product>, storedCooldowns: map<int, int>, storedQuantities: map<int, int>)
      ensures fresh(products)
      ensures State() == Actions.Snapshot(catalog, storedCooldowns, storedQuantities)
    {
      products := new Product[|catalog|](k requires 0 <= k < |catalog| => catalog[k]);
      cooldowns := storedCooldowns;
      quantities := storedQuantities;
    }

    /** Lock product `id`'s check button for `minutes` minutes from `now`. */
    method SetCooldown(id: int, minutes: int, now: int)
      modifies this
      ensures cooldowns == Cooldowns.Set(old(cooldowns), id, minutes, now)
      ensures quantities == old(quantities)
    {
      cooldowns := cooldowns[id := now + minutes * MsPerMinute];
    }

    /** The quantity input of product `id`, with the typed text already parsed. */
    method EnterQuantity(id: int, qty: int)
      modifies this
      ensures State() == Actions.EnterQuantity(old(State()), id, qty)
    {
      quantities := quantities[id := qty];
    }

    /** The stock-check button of card `i`; `requested` tells whether the
        request went through (false: the product was on cooldown). */
    method Check(i: nat, now: int) returns (requested: bool)
      requires i < products.Length
      modifies this, products
      ensures requested == !Cooldowns.Active(old(cooldowns), old(products[i].id), now)
      ensures State() == Actions.Check(old(State()), i, now)
    {
      var p := products[i];
      if Cooldowns.Active(cooldowns, p.id, now) {
        return false;
      }
      SetCooldown(p.id, CheckCooldownMinutes, now);
      products[i] := p.(lastChecked := now);
      requested := true;
    }

    /** The buy button of card `i` with the typed quantity `qty`; `refused`
        names the guard that stopped the purchase, None when it went through. */
    method Buy(i: nat, qty: int, now: int) returns (refused: Option<Actions.BuyError>)
      requires i < products.Length
      modifies this, products
      ensures refused == Actions.BuyGuard(old(products[i]), qty, now)
      ensures State() == Actions.Buy(old(State()), i, qty, now)
    {
      var p := products[i];
      if p.lastChecked == 0 || now - p.lastChecked > StaleAfterMs {
        return Some(Actions.CheckMissingOrStale);
      }
      if qty == 0 {
        return Some(Actions.NoQuantity);
      }
      if qty > p.stock {
        return Some(Actions.ExceedsStock);
      }
      products[i] := p.(stock := p.stock - qty);
      quantities := quantities[p.id := 0];
      refused := None;
    }

    /** The "Total items" figure: the sum of the positive quantities of the
        catalog's products, accumulated in one pass over the list. */
    method TotalItems() returns (totalItems: int)
      ensures totalItems == Totals.TotalItems(products[..], quantities)
      ensures totalItems >= 0
    {
      totalItems := 0;
      for k := 0 to products.Length
        invariant totalItems == Totals.TotalItems(products[..k], quantities)
        invariant totalItems >= 0
      {
        var qty := Totals.Quantity(quantities, products[k].id);
        if qty > 0 {
          totalItems := totalItems + qty;
        }
        assert products[..k + 1][..k] == products[..k];
      }
      assert products[..products.Length] == products[..];
    }
  }
}
