/**
 The search box and category select of the product list: a product is shown
 when its lower-cased name contains the lower-cased search term and, unless
 the category select is empty, its category equals the selected one.
 */
module Search {

  import opened Catalog

  /** ASCII lower-casing of one character; every other character is kept. */
  function LowerChar(c: char): char
  {
    if 'A' <= c <= 'Z' then (c as int + 32) as char else c
  }

  function Lower(s: string): string
  {
    seq(|s|, k requires 0 <= k < |s| => LowerChar(s[k]))
  }

  /** `t` occurs in `s` starting at position `k`. */
  predicate OccursAt(s: string, t: string, k: int)
  {
    0 <= k && k + |t| <= |s| && s[k..k + |t|] == t
  }

  /** Substring containment, scanning `s` from the left. */
  function Includes(s: string, t: string): bool
    decreases |s|
  {
    |t| <= |s| && (s[..|t|] == t || (|s| > 0 && Includes(s[1..], t)))
  }

  /** `Includes` finds `t` exactly when `t` occurs somewhere in `s`. */
  lemma {:induction false} IncludesIffOccurs(s: string, t: string)
    ensures Includes(s, t) <==> exists k :: OccursAt(s, t, k)
    decreases |s|
  {
    if |t| <= |s| && s[..|t|] == t {
      assert OccursAt(s, t, 0);
    } else if |t| <= |s| && |s| > 0 {
      IncludesIffOccurs(s[1..], t);
      if Includes(s[1..], t) {
        var k :| OccursAt(s[1..], t, k);
        assert s[k + 1..k + 1 + |t|] == s[1..][k..k + |t|];
        assert OccursAt(s, t, k + 1);
      } else {
        forall k | OccursAt(s, t, k) ensures false {
          assert k != 0;
          assert s[1..][k - 1..k - 1 + |t|] == s[k..k + |t|];
          assert OccursAt(s[1..], t, k - 1);
        }
      }
    }
  }

  /** The empty search term is found in every name. */
  lemma EmptyTermIncluded(s: string)
    ensures Includes(s, "")
  {
  }

  /** The filter condition of one product. */
  predicate Matches(p: Product, term: string, category: string)
  {
    Includes(Lower(p.name), Lower(term)) && (category == "" || p.category == Some(category))
  }

  /** `r` keeps some of the elements of `s`, in their order in `s`. */
  predicate Subsequence(r: seq<Product>, s: seq<Product>)
    decreases |s|
  {
    if r == [] then true
    else if s == [] then false
    else if r[0] == s[0] then Subsequence(r[1..], s[1..])
    else Subsequence(r, s[1..])
  }

  /** The products shown for a search term and a category selection. */
  function Filter(ps: seq<Product>, term: string, category: string): (r: seq<Product>)
    ensures forall p :: p in r <==> p in ps && Matches(p, term, category)
    ensures forall p :: multiset(r)[p] == if Matches(p, term, category) then multiset(ps)[p] else 0
    ensures Subsequence(r, ps)
  {
    if ps == [] then []
    else
      assert ps == [ps[0]] + ps[1..];
      if Matches(ps[0], term, category) then [ps[0]] + Filter(ps[1..], term, category)
      else Filter(ps[1..], term, category)
  }

  /** Choosing a category no product carries empties the list. */
  lemma {:induction false} FilterNoneInCategory(ps: seq<Product>, term: string, category: string)
    requires category != ""
    requires forall k :: 0 <= k < |ps| ==> ps[k].category != Some(category)
    ensures Filter(ps, term, category) == []
  {
    if ps != [] {
      FilterNoneInCategory(ps[1..], term, category);
    }
  }

  /** Lower-casing twice is lower-casing once. */
  lemma LowerIdempotent(s: string)
    ensures Lower(Lower(s)) == Lower(s)
  {
  }

  /** With no search term and no category every product is shown, in order. */
  lemma {:induction false} FilterEverything(ps: seq<Product>)
    ensures Filter(ps, "", "") == ps
  {
    if ps != [] {
      EmptyTermIncluded(Lower(ps[0].name));
      assert Lower("") == "";
      FilterEverything(ps[1..]);
    }
  }

  /** The search is case-insensitive: a term and its lower-cased form select
      the same products. */
  lemma {:induction false} FilterIgnoresTermCase(ps: seq<Product>, term: string, category: string)
    ensures Filter(ps, term, category) == Filter(ps, Lower(term), category)
  {
    LowerIdempotent(term);
    if ps != [] {
      FilterIgnoresTermCase(ps[1..], term, category);
    }
  }
}
