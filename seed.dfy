/**
 The seed catalog the page starts from (prices, pictures and descriptions
 are not modelled), and what a freshly loaded page allows.
 */
module Seed {

  import opened Catalog
  import Actions
  import Search

  function Item(id: int, name: string, stock: int): Product
  {
    Product(id, name, None, stock, 0)
  }

  /** The twelve seed products: distinct ids, no category, never checked. */
  function SeedCatalog(): (ps: seq<Product>)
    ensures |ps| == 12
    ensures StockNonNegative(ps) && DistinctIds(ps)
    ensures forall k :: 0 <= k < |ps| ==> ps[k].lastChecked == 0 && ps[k].category == None
  {
    [ Item(1, "Cocoa Powder", 25),
      Item(2, "Whole Wheat Bread", 80),
      Item(3, "Olive Oil (1L)", 40),
      Item(4, "Cheddar Cheese", 0),
      Item(5, "Bananas (1kg)", 100),
      Item(6, "Coffee Beans (500g)", 35),
      Item(7, "Tomatoes (1kg)", 50),
      Item(8, "Mineral Water (6-pack)", 60),
      Item(9, "Pasta (500g)", 120),
      Item(10, "Milk (1L)", 75),
      Item(11, "Apples (1kg)", 90),
      Item(12, "Eggs (12-pack)", 70) ]
  }

  /** On a freshly loaded page nothing has been checked, so every buy is
      refused until the product's stock is checked. */
  lemma FreshPageRefusesEveryBuy(i: nat, qty: int, now: int)
    requires i < 12
    ensures Actions.BuyGuard(SeedCatalog()[i], qty, now) == Some(Actions.CheckMissingOrStale)
  {
  }

  /** Cheddar Cheese (id 4) is sold out: even right after a check, every
      positive quantity is refused as exceeding the stock. */
  lemma CheddarRefusesPositiveAfterCheck(cooldowns: map<int, int>, quantities: map<int, int>, now: int, qty: int)
    requires 4 !in cooldowns && now > 0 && qty > 0
    ensures var s := Actions.Check(Actions.Snapshot(SeedCatalog(), cooldowns, quantities), 3, now);
            s.products[3].id == 4
            && Actions.BuyGuard(s.products[3], qty, now) == Some(Actions.ExceedsStock)
  {
  }

  /** The seed products carry no category, so choosing any category hides them all. */
  lemma {:induction false} AnyCategoryHidesSeed(term: string, category: string)
    requires category != ""
    ensures Search.Filter(SeedCatalog(), term, category) == []
  {
    Search.FilterNoneInCategory(SeedCatalog(), term, category);
  }
}
