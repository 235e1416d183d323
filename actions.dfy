/**
 The card handlers as functions of the page's state: the stock-check button,
 the buy button and the quantity input. The `Storefront.Shop` class performs
 the same steps in place and is proved equal to these functions.
 */
module Actions {

  import opened Catalog
  import Cooldowns
  import Totals

  /** Everything the handlers read or write: the product list, the cooldown
      table and the quantity table. */
  datatype Snapshot = Snapshot(
    products: seq<Product>,
    cooldowns: map<int, int>,
    quantities: map<int, int>)

  /** Why the buy button refused a purchase, in the order it tests. */
  datatype BuyError =
    | CheckMissingOrStale   // never checked, or checked more than seven days ago
    | NoQuantity            // quantity is zero
    | ExceedsStock          // quantity is larger than the stock

  /** The stock-check button of product `i`: ignored while the product is on
      cooldown, otherwise it starts a ten-minute cooldown and stamps the check
      time on the product. */
  function Check(s: Snapshot, i: nat, now: int): (r: Snapshot)
    requires i < |s.products|
    ensures |r.products| == |s.products|
  {
    var p := s.products[i];
    if Cooldowns.Active(s.cooldowns, p.id, now) then s
    else s.(cooldowns := Cooldowns.Set(s.cooldowns, p.id, CheckCooldownMinutes, now),
            products := s.products[i := p.(lastChecked := now)])
  }

  /** The buy button's three guards, tested in order; None lets the purchase through. */
  function BuyGuard(p: Product, qty: int, now: int): Option<BuyError>
  {
    if p.lastChecked == 0 || now - p.lastChecked > StaleAfterMs then Some(CheckMissingOrStale)
    else if qty == 0 then Some(NoQuantity)
    else if qty > p.stock then Some(ExceedsStock)
    else None
  }

  /** The buy button of product `i` with the typed quantity `qty`: on success
      the stock drops by `qty` and the product's stored quantity is reset. */
  function Buy(s: Snapshot, i: nat, qty: int, now: int): (r: Snapshot)
    requires i < |s.products|
    ensures |r.products| == |s.products|
  {
    var p := s.products[i];
    if BuyGuard(p, qty, now).Some? then s
    else s.(products := s.products[i := p.(stock := p.stock - qty)],
            quantities := s.quantities[p.id := 0])
  }

  /** The quantity input of product `id`, already parsed (unparsable input is 0). */
  function EnterQuantity(s: Snapshot, id: int, qty: int): (r: Snapshot)
    ensures Totals.Quantity(r.quantities, id) == qty
    ensures forall other :: other != id ==> Totals.Quantity(r.quantities, other) == Totals.Quantity(s.quantities, other)
    ensures r.products == s.products && r.cooldowns == s.cooldowns
  {
    s.(quantities := s.quantities[id := qty])
  }

  // ---------------------------------------------------------------------------
  // Check

  /** While on cooldown the check button changes nothing; otherwise it locks
      exactly this product until `now + 600000`, stamps `lastChecked`, and
      leaves stock, the quantity table and the other products alone. */
  lemma CheckEffect(s: Snapshot, i: nat, now: int)
    requires i < |s.products|
    ensures var p := s.products[i];
            var r := Check(s, i, now);
            if Cooldowns.Active(s.cooldowns, p.id, now) then r == s
            else
              && r.products[i] == p.(lastChecked := now)
              && Cooldowns.Until(r.cooldowns, p.id) == now + 600_000
              && (forall id :: id != p.id ==> Cooldowns.Until(r.cooldowns, id) == Cooldowns.Until(s.cooldowns, id))
              && (forall j :: 0 <= j < |s.products| && j != i ==> r.products[j] == s.products[j])
              && r.quantities == s.quantities
  {
  }

  /** A second check of the same product within ten minutes of a check that
      went through is ignored. */
  lemma CheckIsRateLimited(s: Snapshot, i: nat, now: int, later: int)
    requires i < |s.products|
    requires !Cooldowns.Active(s.cooldowns, s.products[i].id, now)
    requires now <= later < now + CheckCooldownMinutes * MsPerMinute
    ensures Check(Check(s, i, now), i, later) == Check(s, i, now)
  {
  }

  /** Ten minutes after a check, the product can be checked again. */
  lemma CheckReopensAfterCooldown(s: Snapshot, i: nat, now: int, later: int)
    requires i < |s.products|
    requires !Cooldowns.Active(s.cooldowns, s.products[i].id, now)
    requires later >= now + CheckCooldownMinutes * MsPerMinute
    ensures Check(Check(s, i, now), i, later).products[i].lastChecked == later
  {
  }

  // ---------------------------------------------------------------------------
  // Buy

  /** The purchase goes through exactly when the product was checked (at a
      non-zero instant) no more than seven days ago, the quantity is non-zero
      and it does not exceed the stock. */
  lemma BuyAcceptedIff(p: Product, qty: int, now: int)
    ensures BuyGuard(p, qty, now) == None
        <==> p.lastChecked != 0 && now - p.lastChecked <= 604_800_000 && qty != 0 && qty <= p.stock
  {
  }

  /** A rejected purchase changes nothing: no stock, no quantity, no cooldown. */
  lemma BuyRejectedChangesNothing(s: Snapshot, i: nat, qty: int, now: int)
    requires i < |s.products|
    requires BuyGuard(s.products[i], qty, now).Some?
    ensures Buy(s, i, qty, now) == s
  {
  }

  /** A purchase that goes through lowers product `i`'s stock by `qty`, resets
      its stored quantity to 0, and touches no other product, no other
      quantity and no cooldown. */
  lemma BuyEffect(s: Snapshot, i: nat, qty: int, now: int)
    requires i < |s.products|
    requires BuyGuard(s.products[i], qty, now) == None
    ensures var p := s.products[i];
            var r := Buy(s, i, qty, now);
            && r.products[i] == p.(stock := p.stock - qty)
            && (forall j :: 0 <= j < |s.products| && j != i ==> r.products[j] == s.products[j])
            && Totals.Quantity(r.quantities, p.id) == 0
            && (forall id :: id != p.id ==> Totals.Quantity(r.quantities, id) == Totals.Quantity(s.quantities, id))
            && r.cooldowns == s.cooldowns
  {
  }

  /** A buy never makes a stock negative: a positive quantity is bounded by
      the stock, and a negative quantity passes the guards and raises it. */
  lemma BuyKeepsStockNonNegative(s: Snapshot, i: nat, qty: int, now: int)
    requires i < |s.products|
    requires StockNonNegative(s.products)
    ensures StockNonNegative(Buy(s, i, qty, now).products)
  {
  }

  /** A negative typed quantity on a recently checked product is accepted and
      increases the stock. */
  lemma NegativeQuantityRaisesStock(s: Snapshot, i: nat, qty: int, now: int)
    requires i < |s.products|
    requires qty < 0 && s.products[i].stock >= 0
    requires s.products[i].lastChecked != 0 && now - s.products[i].lastChecked <= StaleAfterMs
    ensures Buy(s, i, qty, now).products[i].stock == s.products[i].stock - qty > s.products[i].stock
  {
  }

  /** A sold-out product refuses every positive quantity. */
  lemma SoldOutRefusesPositive(p: Product, qty: int, now: int)
    requires p.stock == 0 && qty > 0
    ensures BuyGuard(p, qty, now).Some?
  {
  }

  /** A check that went through at a non-zero instant enables buying any
      non-zero quantity up to the stock for the next seven days, whatever the
      cooldown. */
  lemma CheckEnablesBuy(s: Snapshot, i: nat, now: int, qty: int, later: int)
    requires i < |s.products|
    requires !Cooldowns.Active(s.cooldowns, s.products[i].id, now) && now != 0
    requires later <= now + StaleAfterMs
    requires qty != 0 && qty <= s.products[i].stock
    ensures var c := Check(s, i, now);
            BuyGuard(c.products[i], qty, later) == None
            && Buy(c, i, qty, later).products[i].stock == s.products[i].stock - qty
  {
  }

  /** A successful purchase takes its product's positive quantity out of the
      "Total items" figure (catalog ids distinct). */
  lemma {:induction false} BuyClearsTotal(s: Snapshot, i: nat, qty: int, now: int)
    requires i < |s.products|
    requires DistinctIds(s.products)
    requires BuyGuard(s.products[i], qty, now) == None
    ensures var r := Buy(s, i, qty, now);
            Totals.TotalItems(r.products, r.quantities)
            == Totals.TotalItems(s.products, s.quantities) - Totals.Counted(s.quantities, s.products[i].id)
  {
    var r := Buy(s, i, qty, now);
    Totals.TotalItemsAfterSet(s.products, s.quantities, i, 0);
    Totals.TotalItemsReadsIdsOnly(s.products, r.products, r.quantities);
  }

  // ---------------------------------------------------------------------------
  // Any sequence of user actions

  /** One user action on the page. */
  datatype Event =
    | ClickCheck(i: nat, now: int)
    | ClickBuy(i: nat, qty: int, now: int)
    | TypeQuantity(id: int, qty: int)

  /** The action refers to a card that exists. */
  predicate OnCard(e: Event, n: nat)
  {
    match e
    case ClickCheck(i, _) => i < n
    case ClickBuy(i, _, _) => i < n
    case TypeQuantity(_, _) => true
  }

  function Step(s: Snapshot, e: Event): (r: Snapshot)
    requires OnCard(e, |s.products|)
    ensures |r.products| == |s.products|
  {
    match e
    case ClickCheck(i, now) => Check(s, i, now)
    case ClickBuy(i, qty, now) => Buy(s, i, qty, now)
    case TypeQuantity(id, qty) => EnterQuantity(s, id, qty)
  }

  function Run(s: Snapshot, es: seq<Event>): (r: Snapshot)
    requires forall k :: 0 <= k < |es| ==> OnCard(es[k], |s.products|)
    ensures |r.products| == |s.products|
    decreases |es|
  {
    if es == [] then s else Run(Step(s, es[0]), es[1..])
  }

  /** Starting from non-negative stocks, no sequence of checks, buys and
      quantity entries ever makes a stock negative. */
  lemma {:induction false} StockNeverNegative(s: Snapshot, es: seq<Event>)
    requires forall k :: 0 <= k < |es| ==> OnCard(es[k], |s.products|)
    requires StockNonNegative(s.products)
    ensures StockNonNegative(Run(s, es).products)
    decreases |es|
  {
    if es != [] {
      if es[0].ClickBuy? {
        BuyKeepsStockNonNegative(s, es[0].i, es[0].qty, es[0].now);
      }
      StockNeverNegative(Step(s, es[0]), es[1..]);
    }
  }
}
