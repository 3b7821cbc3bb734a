/** The navbar product search: a query gate on the trimmed text, a
    case-insensitive substring filter over the loaded products, and a cap of
    five results; and what the dropdown under the search field shows. */
module NavbarSearch {
  import opened JsText

  /** The `{ id, name }` pair the search keeps of each product. */
  datatype Product = Product(id: string, name: string)

  const MaxResults: nat := 5

  /** `p.name.toLowerCase().includes(q)`, `q` being the lowercased query. */
  predicate Matches(p: Product, q: string) {
    Includes(LowerStr(p.name), q)
  }

  /** `products.filter(...)` with `Matches`. */
  function Matching(products: seq<Product>, q: string): (r: seq<Product>)
    ensures |r| <= |products|
  {
    if products == [] then []
    else (if Matches(products[0], q) then [products[0]] else []) + Matching(products[1..], q)
  }

  /** The filter keeps exactly the matching products. */
  lemma {:induction false} MatchingMembers(products: seq<Product>, q: string)
    ensures forall i :: 0 <= i < |Matching(products, q)| ==>
      Matches(Matching(products, q)[i], q) && Matching(products, q)[i] in products
    ensures forall p :: p in products && Matches(p, q) ==> p in Matching(products, q)
  {
    if products != [] {
      MatchingMembers(products[1..], q);
      assert products == [products[0]] + products[1..];
    }
  }

  /** The search results for `query`: empty while the trimmed query is
      empty; otherwise the first five matches, matched with the whole
      (untrimmed) lowercased query. */
  function Search(query: string, products: seq<Product>): (r: seq<Product>)
    ensures AllSpace(query) ==> r == []
    ensures |r| <= MaxResults
    ensures forall i :: 0 <= i < |r| ==> r[i] in products
    ensures forall i :: 0 <= i < |r| ==> Includes(LowerStr(r[i].name), LowerStr(query))
    ensures !AllSpace(query) ==>
      |r| == (if |Matching(products, LowerStr(query))| < MaxResults
              then |Matching(products, LowerStr(query))| else MaxResults)
  {
    TrimEmptyIffBlank(query);
    if Trim(query) == [] then []
    else
      var filtered := Matching(products, LowerStr(query));
      MatchingMembers(products, LowerStr(query));
      if |filtered| <= MaxResults then filtered else filtered[..MaxResults]
  }

  /** A reference reading of the results: walk the products in order and take
      each match until `budget` of them are taken. */
  function FirstMatches(products: seq<Product>, q: string, budget: nat): seq<Product> {
    if products == [] || budget == 0 then []
    else if Matches(products[0], q) then [products[0]] + FirstMatches(products[1..], q, budget - 1)
    else FirstMatches(products[1..], q, budget)
  }

  lemma {:induction false} TakeOfMatching(products: seq<Product>, q: string, budget: nat)
    ensures var m := Matching(products, q);
      (if |m| <= budget then m else m[..budget]) == FirstMatches(products, q, budget)
  {
    if products != [] && budget != 0 {
      var rest := Matching(products[1..], q);
      if Matches(products[0], q) {
        TakeOfMatching(products[1..], q, budget - 1);
        assert Matching(products, q) == [products[0]] + rest;
        if |rest| > budget - 1 {
          assert ([products[0]] + rest)[..budget] == [products[0]] + rest[..budget - 1];
        }
      } else {
        TakeOfMatching(products[1..], q, budget);
        assert Matching(products, q) == rest;
      }
    }
  }

  /** For a non-blank query the results are exactly the first `MaxResults`
      matching products, in product-list order. */
  lemma SearchIsFirstMatches(query: string, products: seq<Product>)
    requires !AllSpace(query)
    ensures Search(query, products) == FirstMatches(products, LowerStr(query), MaxResults)
  {
    TrimEmptyIffBlank(query);
    TakeOfMatching(products, LowerStr(query), MaxResults);
  }

  /** When at most `MaxResults` products match, every one of them is a result. */
  lemma FewMatchesAllShown(query: string, products: seq<Product>, p: Product)
    requires !AllSpace(query)
    requires |Matching(products, LowerStr(query))| <= MaxResults
    requires p in products && Matches(p, LowerStr(query))
    ensures p in Search(query, products)
  {
    TrimEmptyIffBlank(query);
    MatchingMembers(products, LowerStr(query));
  }

  /** The trim only gates emptiness: the query takes part in the match as
      typed, so `"ab"` finds `"xab"` ... */
  lemma QueryFinds()
    ensures Search("ab", [Product("1", "xab")]) == [Product("1", "xab")]
  {
    assert LowerStr("xab") == "xab";
    assert LowerStr("ab") == "ab";
    assert !IsSpace("ab"[0]);
    assert "ab" <= "xab"[1..];
    assert Includes("xab"[1..], "ab");
  }

  /** ... and `" ab"`, with its leading space, does not. */
  lemma PaddedQueryMisses()
    ensures Search(" ab", [Product("1", "xab")]) == []
  {
    assert LowerStr("xab") == "xab";
    assert LowerStr(" ab") == " ab";
    assert !IsSpace(" ab"[1]);
    NoShortInclude("xab", " ab");
  }

  lemma NoShortInclude(hay: string, needle: string)
    requires |hay| == |needle| && hay != needle
    ensures !Includes(hay, needle)
  {
    IncludesIff(hay, needle);
  }

  /** What the dropdown under the search field shows. */
  datatype Dropdown = Hidden | ResultLinks(items: seq<Product>) | NoProductFound

  /** The dropdown renders while it is open and the query is non-empty as
      typed; it lists the results, or the "No product found" prompt when
      there are none. */
  function DropdownView(open: bool, query: string, results: seq<Product>): (v: Dropdown)
    ensures v == Hidden <==> !open || query == []
    ensures v == NoProductFound <==> open && query != [] && results == []
    ensures v.ResultLinks? ==> v.items == results
  {
    if !open || query == [] then Hidden
    else if results != [] then ResultLinks(results)
    else NoProductFound
  }

  /** When no product matches, an open dropdown with a non-empty query shows
      the fallback prompt — also for a query of spaces only. */
  lemma NoMatchShowsFallback(query: string, products: seq<Product>)
    requires query != []
    requires AllSpace(query) || forall p :: p in products ==> !Matches(p, LowerStr(query))
    ensures DropdownView(true, query, Search(query, products)) == NoProductFound
  {
    if !AllSpace(query) {
      NothingMatching(products, LowerStr(query));
    }
  }

  lemma {:induction false} NothingMatching(products: seq<Product>, q: string)
    requires forall p :: p in products ==> !Matches(p, q)
    ensures Matching(products, q) == []
  {
    if products != [] {
      NothingMatching(products[1..], q);
    }
  }
}
