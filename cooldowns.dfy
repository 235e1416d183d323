/**
 The cooldown table: product id -> the instant (milliseconds) until which the
 product's stock-check button stays locked.
 */
module Cooldowns {

  import opened Catalog

  /** The stored "until" instant; a product without an entry counts as 0. */
  function Until(table: map<int, int>, id: int): int
  {
    if id in table then table[id] else 0
  }

  /** A product is on cooldown strictly before its "until" instant. */
  predicate Active(table: map<int, int>, id: int, now: int)
  {
    now < Until(table, id)
  }

  /** Lock `id` for `minutes` minutes starting at `now`. */
  function Set(table: map<int, int>, id: int, minutes: int, now: int): (r: map<int, int>)
    ensures forall t :: Active(r, id, t) <==> t < now + minutes * MsPerMinute
    ensures forall other :: other != id ==> Until(r, other) == Until(table, other)
    ensures r.Keys == table.Keys + {id}
  {
    table[id := now + minutes * MsPerMinute]
  }

  /** Right after `Set`, the product is locked for the whole window and free
      again from its last instant on: the comparison is strict. */
  lemma SetLocksWindow(table: map<int, int>, id: int, minutes: int, now: int)
    requires minutes > 0
    ensures Active(Set(table, id, minutes, now), id, now)
    ensures Active(Set(table, id, minutes, now), id, now + minutes * MsPerMinute - 1)
    ensures !Active(Set(table, id, minutes, now), id, now + minutes * MsPerMinute)
  {
  }

  /** A product that was never locked is free at every non-negative instant. */
  lemma MissingEntryNeverActive(table: map<int, int>, id: int, now: int)
    requires id !in table
    requires now >= 0
    ensures !Active(table, id, now)
  {
  }

  /** Once free, a product stays free: the lock never comes back by itself. */
  lemma ActiveIsMonotone(table: map<int, int>, id: int, t: int, t': int)
    requires t <= t'
    ensures Active(table, id, t') ==> Active(table, id, t)
  {
  }
}
