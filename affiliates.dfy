/** The affiliates page controller: the catalog, the active tag filters, the
    search term, the tag universe and the derived filtered view, updated in
    place by the page's handlers. */
module Affiliates {
  import opened Text
  import opened Sequences
  import opened Catalog

  /** What fetching and parsing the catalog document produced: a failure
      (network error, non-success status or malformed JSON), or a parsed
      document whose `products` field may be missing. */
  datatype Fetched = FetchFailed | Parsed(products: Option<seq<Product>>)

  /** The catalog a parsed document yields: `data.products || []`. */
  function CatalogOf(products: Option<seq<Product>>): seq<Product> {
    if products.Some? then products.value else []
  }

  class AffiliatesManager {
    var products: seq<Product>
    var filteredProducts: seq<Product>
    var activeFilters: set<string>
    var searchTerm: string
    var allTags: set<string>

    /** The view is the filter of the catalog under the current state. */
    ghost predicate InSync()
      reads this
    {
      filteredProducts == Filter(products, searchTerm, activeFilters)
    }

    /** What the handlers keep true of the state: the search term is lower
        case and trimmed, the tag universe holds only lower-case tags, and
        every active tag is one of them, since tag buttons are rendered only
        from the tag universe and a tag is taken to read back unchanged from
        its button's `data-tag`. */
    ghost predicate Consistent()
      reads this`searchTerm, this`allTags, this`activeFilters
    {
      IsLower(searchTerm) && IsTrimmed(searchTerm) &&
      (forall t :: t in allTags ==> IsLower(t)) &&
      activeFilters <= allTags
    }

    constructor ()
      ensures products == [] && filteredProducts == []
      ensures activeFilters == {} && searchTerm == "" && allTags == {}
      ensures InSync() && Consistent()
    {
      products := [];
      filteredProducts := [];
      activeFilters := {};
      searchTerm := "";
      allTags := {};
    }

    /** `loadProducts`: installs the fetched catalog, copies it into the view
        and adds every lower-cased tag to the tag universe; a failed fetch
        leaves an empty catalog. Neither the filters nor the search term are
        reset, and the tag universe is only ever added to. */
    method LoadProducts(fetched: Fetched)
      requires Consistent()
      modifies this
      ensures fetched.Parsed? ==> products == CatalogOf(fetched.products)
      ensures fetched.Parsed? ==> allTags == old(allTags) + TagUniverse(products)
      ensures fetched.FetchFailed? ==> products == [] && allTags == old(allTags)
      ensures filteredProducts == products
      ensures activeFilters == old(activeFilters) && searchTerm == old(searchTerm)
      ensures old(searchTerm) == "" && old(activeFilters) == {} ==> InSync()
      ensures Consistent()
    {
      match fetched {
        case FetchFailed =>
          products := [];
          filteredProducts := [];
        case Parsed(field) =>
          products := CatalogOf(field);
          filteredProducts := products;
          var i := 0;
          while i < |products|
            invariant 0 <= i <= |products|
            invariant products == CatalogOf(field) && filteredProducts == products
            invariant activeFilters == old(activeFilters) && searchTerm == old(searchTerm)
            invariant allTags == old(allTags) + TagUniverse(products[..i])
          {
            var tags := products[i].tags;
            var j := 0;
            while j < |tags|
              invariant 0 <= j <= |tags|
              invariant products == CatalogOf(field) && filteredProducts == products
              invariant activeFilters == old(activeFilters) && searchTerm == old(searchTerm)
              invariant allTags == old(allTags) + TagUniverse(products[..i]) + TagSet(tags[..j])
            {
              assert tags[..j + 1][..j] == tags[..j];
              allTags := allTags + {Lower(tags[j])};
              j := j + 1;
            }
            assert tags[..j] == tags;
            assert products[..i + 1][..i] == products[..i];
            i := i + 1;
          }
          assert products[..i] == products;
      }
      FilterIdentity(products);
      TagUniverseIsLower(products);
    }

    /** `filterProducts`: recomputes the view from the catalog. */
    method FilterProducts()
      modifies this`filteredProducts
      ensures InSync()
    {
      filteredProducts := Filter(products, searchTerm, activeFilters);
    }

    /** The search box handler: the typed value, lower-cased and trimmed,
        becomes the search term and the view is recomputed. */
    method HandleSearchInput(value: string)
      requires Consistent()
      modifies this
      ensures searchTerm == NormalizeSearch(value)
      ensures products == old(products) && activeFilters == old(activeFilters)
      ensures allTags == old(allTags)
      ensures InSync() && Consistent()
    {
      SetSearchTerm(NormalizeSearch(value));
    }

    /** Installs an already normalised search term and recomputes the view. */
    method SetSearchTerm(term: string)
      requires Consistent() && IsLower(term) && IsTrimmed(term)
      modifies this
      ensures searchTerm == term
      ensures products == old(products) && activeFilters == old(activeFilters)
      ensures allTags == old(allTags)
      ensures InSync() && Consistent()
    {
      searchTerm := term;
      FilterProducts();
    }

    /** The Escape key handler: clears the search term. */
    method HandleEscape()
      requires Consistent()
      modifies this
      ensures searchTerm == ""
      ensures products == old(products) && activeFilters == old(activeFilters)
      ensures allTags == old(allTags)
      ensures InSync() && Consistent()
    {
      searchTerm := "";
      FilterProducts();
    }

    /** `handleFilterClick`: applies the click rule to the active tags and
        recomputes the view. The clicked button is one of those rendered:
        "All Products" or the button of a tag in the tag universe. */
    method HandleFilterClick(b: FilterButton)
      requires Consistent()
      requires b.TagButton? ==> b.tag in allTags
      modifies this
      ensures activeFilters == Click(old(activeFilters), b)
      ensures products == old(products) && searchTerm == old(searchTerm)
      ensures allTags == old(allTags)
      ensures InSync() && Consistent()
    {
      activeFilters := Click(activeFilters, b);
      FilterProducts();
    }

    /** `updateFilterButtons`: the pressed state of every rendered button. */
    method UpdateFilterButtons(buttons: seq<FilterButton>) returns (pressed: seq<bool>)
      ensures |pressed| == |buttons|
      ensures forall k :: 0 <= k < |buttons| ==> pressed[k] == Active(activeFilters, buttons[k])
    {
      pressed := [];
      var k := 0;
      while k < |buttons|
        invariant 0 <= k <= |buttons| && |pressed| == k
        invariant forall m :: 0 <= m < k ==> (pressed[m] <==> Active(activeFilters, buttons[m]))
      {
        pressed := pressed + [Active(activeFilters, buttons[k])];
        k := k + 1;
      }
    }

    /** `addProduct`: appends to the catalog and recomputes the view, which
        gains the new product at its end exactly when it passes the current
        filters. The tag universe is not updated. */
    method AddProduct(p: Product)
      requires Consistent()
      modifies this
      ensures products == old(products) + [p]
      ensures old(InSync()) ==>
                filteredProducts == old(filteredProducts) + (if Keep(p, searchTerm, activeFilters) then [p] else [])
      ensures activeFilters == old(activeFilters) && searchTerm == old(searchTerm)
      ensures allTags == old(allTags)
      ensures InSync() && Consistent()
    {
      FilterAppendOne(products, p, searchTerm, activeFilters);
      products := products + [p];
      FilterProducts();
    }

    /** `removeProduct`: drops every product with the id and recomputes the
        view, which loses exactly the products with that id. */
    method RemoveProduct(id: string)
      requires Consistent()
      modifies this
      ensures products == WithoutId(old(products), id)
      ensures old(InSync()) ==> filteredProducts == WithoutId(old(filteredProducts), id)
      ensures activeFilters == old(activeFilters) && searchTerm == old(searchTerm)
      ensures allTags == old(allTags)
      ensures InSync() && Consistent()
    {
      FilterWithoutId(products, id, searchTerm, activeFilters);
      products := WithoutId(products, id);
      FilterProducts();
    }
  }
}
