/** The product catalog of the affiliates page and the pure rules over it:
    the search and tag predicates, the filtered view, the tag universe shown
    as filter buttons, the button rules and the card defaults. */
module Catalog {
  import opened Text
  import opened Sequences

  datatype Option<T> = None | Some(value: T)

  /** One catalog entry. An entry without a `tags` field has `tags == []`:
      every rule below treats a missing list and an empty one alike. */
  datatype Product = Product(
    id: string,
    title: string,
    description: string,
    tags: seq<string>,
    price: Option<string>,
    ctaText: Option<string>)

  // ---------------------------------------------------------------------
  // Matching rules

  /** The search rule: an empty term matches everything; otherwise the term
      must occur in the lower-cased title, description or one of the tags. */
  predicate MatchesSearch(p: Product, term: string) {
    term == [] ||
    Contains(Lower(p.title), term) ||
    Contains(Lower(p.description), term) ||
    exists j :: 0 <= j < |p.tags| && Contains(Lower(p.tags[j]), term)
  }

  /** The tag rule: no active tag matches everything; otherwise one of the
      product's lower-cased tags must be active (any one is enough). */
  predicate MatchesFilter(p: Product, active: set<string>) {
    active == {} || exists j :: 0 <= j < |p.tags| && Lower(p.tags[j]) in active
  }

  /** A product stays in the view when it passes both rules. */
  predicate Keep(p: Product, term: string, active: set<string>) {
    MatchesSearch(p, term) && MatchesFilter(p, active)
  }

  function KeepFn(term: string, active: set<string>): Product -> bool {
    (p: Product) => Keep(p, term, active)
  }

  /** The filtered view: `products.filter(matchesSearch && matchesFilter)`. */
  function Filter(ps: seq<Product>, term: string, active: set<string>): seq<Product> {
    FilterBy(ps, KeepFn(term, active))
  }

  function HasOtherId(id: string): Product -> bool {
    (p: Product) => p.id != id
  }

  /** `products.filter(p => p.id !== id)`. */
  function WithoutId(ps: seq<Product>, id: string): seq<Product> {
    FilterBy(ps, HasOtherId(id))
  }

  // ---------------------------------------------------------------------
  // Tag universe

  /** The lower-cased tags of one product. */
  function TagSet(tags: seq<string>): set<string> {
    if tags == [] then {} else TagSet(tags[..|tags| - 1]) + {Lower(tags[|tags| - 1])}
  }

  /** The lower-cased tags over a whole catalog: the union of the products'
      tag sets, first product to last, as the loading loop collects them. */
  function TagUniverse(ps: seq<Product>): set<string> {
    if ps == [] then {} else TagUniverse(ps[..|ps| - 1]) + TagSet(ps[|ps| - 1].tags)
  }

  // ---------------------------------------------------------------------
  // Filter buttons

  /** A rendered filter button: the "All Products" button or one per tag. */
  datatype FilterButton = AllProducts | TagButton(tag: string)

  /** The click rule: "All Products" clears the active tags, a tag button
      toggles its own tag and leaves every other tag as it was. */
  function Click(active: set<string>, b: FilterButton): (r: set<string>)
    ensures b.AllProducts? ==> r == {}
    ensures b.TagButton? ==> (b.tag in r <==> b.tag !in active)
    ensures b.TagButton? ==> forall u :: u != b.tag ==> (u in r <==> u in active)
  {
    match b
    case AllProducts => {}
    case TagButton(t) => if t in active then active - {t} else active + {t}
  }

  /** The button-state rule: "All Products" is pressed when no tag is
      active, a tag button when its tag is active. */
  predicate Active(active: set<string>, b: FilterButton) {
    match b
    case AllProducts => active == {}
    case TagButton(t) => t in active
  }

  // ---------------------------------------------------------------------
  // Card defaults

  const DefaultCta: string := "View Product"

  /** The call-to-action label: `ctaText || 'View Product'`. */
  function CtaLabel(p: Product): (cta: string)
    ensures cta != ""
    ensures p.ctaText.Some? && p.ctaText.value != "" ==> cta == p.ctaText.value
    ensures p.ctaText.None? || p.ctaText.value == "" ==> cta == DefaultCta
  {
    if p.ctaText.Some? && p.ctaText.value != "" then p.ctaText.value else DefaultCta
  }

  /** The price badge: shown only for a present, non-empty price. */
  function PriceShown(p: Product): (shown: Option<string>)
    ensures shown.Some? ==> shown.value != "" && p.price == Some(shown.value)
    ensures shown.None? ==> p.price.None? || p.price == Some("")
  {
    if p.price.Some? && p.price.value != "" then p.price else None
  }

  // ---------------------------------------------------------------------
  // Lemmas about the filtered view

  /** With no search term and no active tag the view is the whole catalog,
      same entries, same order. */
  lemma FilterIdentity(ps: seq<Product>)
    ensures Filter(ps, "", {}) == ps
  {
    FilterByKeepsAll(ps, KeepFn("", {}));
  }

  /** The view is an order-preserving subsequence of the catalog that holds
      every kept product as often as the catalog does and no other. */
  lemma FilterIsStableSubsequence(ps: seq<Product>, term: string, active: set<string>)
    ensures IsSubsequence(Filter(ps, term, active), ps)
    ensures forall p :: multiset(Filter(ps, term, active))[p] ==
                        if Keep(p, term, active) then multiset(ps)[p] else 0
  {
    FilterBySubsequence(ps, KeepFn(term, active));
    forall p ensures multiset(Filter(ps, term, active))[p] ==
                     if Keep(p, term, active) then multiset(ps)[p] else 0 {
      FilterByCount(ps, KeepFn(term, active), p);
    }
  }

  /** A product is in the view exactly when it is in the catalog and passes
      both the search rule and the tag rule. */
  lemma FilterMembership(ps: seq<Product>, term: string, active: set<string>, p: Product)
    ensures p in Filter(ps, term, active) <==>
            p in ps && MatchesSearch(p, term) && MatchesFilter(p, active)
  {
    FilterByMembership(ps, KeepFn(term, active), p);
  }

  /** Re-filtering the view with the same state changes nothing. */
  lemma FilterIdempotent(ps: seq<Product>, term: string, active: set<string>)
    ensures Filter(Filter(ps, term, active), term, active) == Filter(ps, term, active)
  {
    FilterByIdempotent(ps, KeepFn(term, active));
  }

  /** Appending a product to the catalog appends it to the view exactly
      when it passes both rules. */
  lemma FilterAppendOne(ps: seq<Product>, p: Product, term: string, active: set<string>)
    ensures Filter(ps + [p], term, active) ==
            Filter(ps, term, active) + (if Keep(p, term, active) then [p] else [])
  {
    FilterByAppend(ps, [p], KeepFn(term, active));
    assert FilterBy([p], KeepFn(term, active)) == (if Keep(p, term, active) then [p] else []) + FilterBy([p][1..], KeepFn(term, active));
  }

  /** Removing by id keeps the other products, in order and with their
      multiplicities, and drops every product with that id. */
  lemma WithoutIdSpec(ps: seq<Product>, id: string)
    ensures IsSubsequence(WithoutId(ps, id), ps)
    ensures forall p :: multiset(WithoutId(ps, id))[p] == if p.id != id then multiset(ps)[p] else 0
  {
    FilterBySubsequence(ps, HasOtherId(id));
    forall p ensures multiset(WithoutId(ps, id))[p] == if p.id != id then multiset(ps)[p] else 0 {
      FilterByCount(ps, HasOtherId(id), p);
    }
  }

  /** Filtering after removing a product by id gives the old view with that
      product removed. */
  lemma FilterWithoutId(ps: seq<Product>, id: string, term: string, active: set<string>)
    ensures Filter(WithoutId(ps, id), term, active) == WithoutId(Filter(ps, term, active), id)
  {
    FilterByCommute(ps, HasOtherId(id), KeepFn(term, active));
  }

  /** A term that occurs in a longer term matches whatever the longer one
      matches. */
  lemma SearchMonotone(p: Product, longer: string, shorter: string)
    requires Contains(longer, shorter)
    requires MatchesSearch(p, longer)
    ensures MatchesSearch(p, shorter)
  {
    if shorter != [] {
      if longer == [] {
        ContainsIff(longer, shorter);
      } else if Contains(Lower(p.title), longer) {
        ContainsTransitive(Lower(p.title), longer, shorter);
      } else if Contains(Lower(p.description), longer) {
        ContainsTransitive(Lower(p.description), longer, shorter);
      } else {
        var j :| 0 <= j < |p.tags| && Contains(Lower(p.tags[j]), longer);
        ContainsTransitive(Lower(p.tags[j]), longer, shorter);
      }
    }
  }

  /** Typing more of a term narrows the view: the view for the longer term is
      a subsequence of the view for any term it contains. */
  lemma SearchNarrows(ps: seq<Product>, longer: string, shorter: string, active: set<string>)
    requires Contains(longer, shorter)
    ensures IsSubsequence(Filter(ps, longer, active), Filter(ps, shorter, active))
  {
    forall p | KeepFn(longer, active)(p) ensures KeepFn(shorter, active)(p) {
      SearchMonotone(p, longer, shorter);
    }
    FilterByMonotone(ps, KeepFn(longer, active), KeepFn(shorter, active));
  }

  /** The tag rule is a disjunction: for two non-empty tag sets, matching
      their union is matching one or the other. */
  lemma TagRuleIsDisjunction(p: Product, a: set<string>, b: set<string>)
    requires a != {} && b != {}
    ensures MatchesFilter(p, a + b) <==> MatchesFilter(p, a) || MatchesFilter(p, b)
  {
  }

  /** Selecting more tags (once at least one is selected) widens the view. */
  lemma TagWidening(ps: seq<Product>, term: string, fewer: set<string>, more: set<string>)
    requires fewer != {} && fewer <= more
    ensures IsSubsequence(Filter(ps, term, fewer), Filter(ps, term, more))
  {
    forall p | KeepFn(term, fewer)(p) ensures KeepFn(term, more)(p) {
      var j :| 0 <= j < |p.tags| && Lower(p.tags[j]) in fewer;
      assert Lower(p.tags[j]) in more;
    }
    FilterByMonotone(ps, KeepFn(term, fewer), KeepFn(term, more));
  }

  /** A product without tags never survives an active tag filter. */
  lemma UntaggedExcluded(ps: seq<Product>, term: string, active: set<string>, p: Product)
    requires active != {} && p.tags == []
    ensures p !in Filter(ps, term, active)
  {
    FilterMembership(ps, term, active, p);
  }

  // ---------------------------------------------------------------------
  // Lemmas about the tag universe

  /** A tag is in a product's tag set exactly when one of its tags folds to it. */
  lemma {:induction false} TagSetIff(tags: seq<string>, t: string)
    ensures t in TagSet(tags) <==> exists j :: 0 <= j < |tags| && Lower(tags[j]) == t
  {
    if tags != [] {
      var init := tags[..|tags| - 1];
      TagSetIff(init, t);
      forall j | 0 <= j < |init| ensures init[j] == tags[j] {
      }
    }
  }

  /** The tag universe is exactly the set of lower-cased tags over all
      products. */
  lemma {:induction false} TagUniverseIff(ps: seq<Product>, t: string)
    ensures t in TagUniverse(ps) <==>
            exists i, j :: 0 <= i < |ps| && 0 <= j < |ps[i].tags| && Lower(ps[i].tags[j]) == t
  {
    if ps != [] {
      var n := |ps| - 1;
      var init := ps[..n];
      TagUniverseIff(init, t);
      TagSetIff(ps[n].tags, t);
      forall i | 0 <= i < n ensures init[i] == ps[i] {
      }
      if t in TagUniverse(ps) && t !in TagUniverse(init) {
        var j :| 0 <= j < |ps[n].tags| && Lower(ps[n].tags[j]) == t;
        assert 0 <= n < |ps| && 0 <= j < |ps[n].tags| && Lower(ps[n].tags[j]) == t;
      }
    }
  }

  /** Every tag the loading loop collects is lower case. */
  lemma TagUniverseIsLower(ps: seq<Product>)
    ensures forall t :: t in TagUniverse(ps) ==> IsLower(t)
  {
    forall t | t in TagUniverse(ps) ensures IsLower(t) {
      TagUniverseIff(ps, t);
      var i, j :| 0 <= i < |ps| && 0 <= j < |ps[i].tags| && Lower(ps[i].tags[j]) == t;
      LowerProps(ps[i].tags[j]);
    }
  }

  /** Every tag in the universe is lower case, so its button label folds back
      to it; and selecting it alone from a cleared state shows at least one
      product. */
  lemma UniverseTagSelectsSomething(ps: seq<Product>, t: string)
    requires t in TagUniverse(ps)
    ensures IsLower(t) && Lower(CapitalizeFirst(t)) == t
    ensures Filter(ps, "", Click({}, TagButton(t))) != []
  {
    TagUniverseIff(ps, t);
    var i, j :| 0 <= i < |ps| && 0 <= j < |ps[i].tags| && Lower(ps[i].tags[j]) == t;
    var p := ps[i];
    LowerProps(p.tags[j]);
    CapitalizedTagFoldsBack(t);
    assert Click({}, TagButton(t)) == {t};
    assert MatchesFilter(p, {t}) by {
      assert Lower(p.tags[j]) in {t};
    }
    FilterMembership(ps, "", {t}, p);
  }

  // ---------------------------------------------------------------------
  // Lemmas about the filter buttons

  /** Clicking the same tag button twice restores the active set. */
  lemma ClickTwiceRestores(active: set<string>, t: string)
    ensures Click(Click(active, TagButton(t)), TagButton(t)) == active
  {
  }

  /** After a click on a tag button that button's state has flipped and no
      other tag button changed; after "All Products" only that button is
      pressed. */
  lemma ClickThenActive(active: set<string>, b: FilterButton)
    ensures b.TagButton? ==> (Active(Click(active, b), b) <==> !Active(active, b))
    ensures b.TagButton? ==> forall u :: u != b.tag ==>
              (Active(Click(active, b), TagButton(u)) <==> Active(active, TagButton(u)))
    ensures b.AllProducts? ==> forall c :: Active(Click(active, b), c) <==> c.AllProducts?
  {
  }

  /** "All Products" is pressed exactly when no tag button is. */
  lemma AllPressedIffNoTagPressed(active: set<string>)
    ensures Active(active, AllProducts) <==> forall t :: !Active(active, TagButton(t))
  {
    if active != {} {
      var t :| t in active;
      assert Active(active, TagButton(t));
    }
  }

  // ---------------------------------------------------------------------
  // Finding: a catalog tag spelled "all" collides with the "All Products"
  // button, because both buttons carry the data-tag "all" and the click and
  // state rules dispatch on that string.

  /** The data-tag attribute a rendered button carries. */
  function DataTag(b: FilterButton): string {
    match b
    case AllProducts => "all"
    case TagButton(t) => t
  }

  /** The click rule as written, dispatching on the data-tag string. */
  function ClickAsWritten(active: set<string>, dataTag: string): set<string> {
    if dataTag == "all" then {}
    else if dataTag in active then active - {dataTag}
    else active + {dataTag}
  }

  /** The button-state rule as written, dispatching on the data-tag string. */
  predicate ActiveAsWritten(active: set<string>, dataTag: string) {
    if dataTag == "all" then active == {} else dataTag in active
  }

  /** The rules as written agree with `Click` and `Active` on every button
      except the tag button for "all". */
  lemma AsWrittenAgreesElsewhere(active: set<string>, b: FilterButton)
    requires b != TagButton("all")
    ensures ClickAsWritten(active, DataTag(b)) == Click(active, b)
    ensures ActiveAsWritten(active, DataTag(b)) <==> Active(active, b)
  {
  }

  /** As written, the tag "all" can never be selected: clicking its button
      clears every active tag, and the button shows pressed exactly when
      nothing is selected. `Click` selects it. */
  lemma AllTagCannotBeSelected(active: set<string>)
    ensures ClickAsWritten(active, DataTag(TagButton("all"))) == {}
    ensures ActiveAsWritten(active, DataTag(TagButton("all"))) <==> active == {}
    ensures Click({}, TagButton("all")) == {"all"}
    ensures Active(Click(active, TagButton("all")), TagButton("all")) <==> "all" !in active
  {
  }

  // ---------------------------------------------------------------------
  // Worked scenarios

  function LaptopStand(): Product {
    Product("1", "Laptop Stand", "Desk riser", ["office"], None, None)
  }

  function YogaMat(): Product {
    Product("2", "Yoga Mat", "Non-slip mat", ["fitness"], None, None)
  }

  /** A term whose first letter occurs, in neither case, in the title, the
      description or any tag does not match. */
  lemma NoFirstLetterNoMatch(p: Product, term: string)
    requires term != [] && 'a' <= term[0] <= 'z'
    requires term[0] !in p.title && UpperChar(term[0]) !in p.title
    requires term[0] !in p.description && UpperChar(term[0]) !in p.description
    requires forall j :: 0 <= j < |p.tags| ==> term[0] !in p.tags[j] && UpperChar(term[0]) !in p.tags[j]
    ensures !MatchesSearch(p, term)
  {
    LowerAvoids(p.title, term[0]);
    LowerAvoids(p.description, term[0]);
    NotContainsFirstChar(Lower(p.title), term);
    NotContainsFirstChar(Lower(p.description), term);
    forall j | 0 <= j < |p.tags| ensures !Contains(Lower(p.tags[j]), term) {
      LowerAvoids(p.tags[j], term[0]);
      NotContainsFirstChar(Lower(p.tags[j]), term);
    }
  }

  lemma LaptopStandLacksY()
    ensures 'y' !in LaptopStand().title && 'Y' !in LaptopStand().title
    ensures 'y' !in LaptopStand().description && 'Y' !in LaptopStand().description
    ensures forall j :: 0 <= j < |LaptopStand().tags| ==>
              'y' !in LaptopStand().tags[j] && 'Y' !in LaptopStand().tags[j]
  {
  }

  lemma LaptopSkipsYoga()
    ensures !MatchesSearch(LaptopStand(), "yoga")
  {
    LaptopStandLacksY();
    NoFirstLetterNoMatch(LaptopStand(), "yoga");
  }

  lemma YogaMatchesYoga()
    ensures MatchesSearch(YogaMat(), "yoga")
  {
    var t := Lower(YogaMat().title);
    assert t[0] == 'y' && t[1] == 'o' && t[2] == 'g' && t[3] == 'a';
    assert "yoga" <= t;
  }

  /** With no search and no tag both products show, in catalog order; an
      empty catalog stays empty whatever the state. */
  lemma ScenarioNoFilter(term: string, active: set<string>)
    ensures Filter([LaptopStand(), YogaMat()], "", {}) == [LaptopStand(), YogaMat()]
    ensures Filter([], term, active) == []
  {
    FilterIdentity([LaptopStand(), YogaMat()]);
  }

  /** Searching "yoga" keeps only the yoga mat. */
  lemma ScenarioSearch()
    ensures Filter([LaptopStand(), YogaMat()], "yoga", {}) == [YogaMat()]
  {
    LaptopSkipsYoga();
    YogaMatchesYoga();
    FilterByPair(LaptopStand(), YogaMat(), KeepFn("yoga", {}));
  }

  /** Selecting "office" keeps only the laptop stand. */
  lemma ScenarioTag()
    ensures Filter([LaptopStand(), YogaMat()], "", {"office"}) == [LaptopStand()]
  {
    assert IsLower("office");
    LowerProps("office");
    assert Lower(YogaMat().tags[0])[0] == 'f';
    assert Lower(LaptopStand().tags[0]) in {"office"};
    assert MatchesFilter(LaptopStand(), {"office"});
    assert !MatchesFilter(YogaMat(), {"office"});
    FilterByPair(LaptopStand(), YogaMat(), KeepFn("", {"office"}));
  }

  /** The tag rule is OR across the selected tags: tags {a, b} pass the
      selection {a, c} and fail the selection {c, d}. */
  lemma TagOrScenario()
    ensures MatchesFilter(Product("e", "E", "", ["a", "b"], None, None), {"a", "c"})
    ensures !MatchesFilter(Product("e", "E", "", ["a", "b"], None, None), {"c", "d"})
  {
    var p := Product("e", "E", "", ["a", "b"], None, None);
    assert Lower(p.tags[0]) == "a" && Lower(p.tags[1]) == "b";
  }

  /** A catalog with a product tagged "All": its button shows everything as
      written, and only that product once corrected. */
  lemma AllTagScenario()
    ensures TagUniverse([Product("1", "T", "", ["All"], None, None)]) == {"all"}
    ensures Filter([Product("1", "T", "", ["All"], None, None), YogaMat()], "",
                   ClickAsWritten({}, DataTag(TagButton("all"))))
            == [Product("1", "T", "", ["All"], None, None), YogaMat()]
    ensures Filter([Product("1", "T", "", ["All"], None, None), YogaMat()], "",
                   Click({}, TagButton("all")))
            == [Product("1", "T", "", ["All"], None, None)]
  {
    var p := Product("1", "T", "", ["All"], None, None);
    assert Lower("All") == "all";
    assert TagSet(p.tags) == {"all"} by {
      assert p.tags[..0] == [];
    }
    assert [p][..0] == [];
    FilterIdentity([p, YogaMat()]);
    assert Lower(YogaMat().tags[0])[0] == 'f';
    assert MatchesFilter(p, {"all"});
    assert !MatchesFilter(YogaMat(), {"all"});
    FilterByPair(p, YogaMat(), KeepFn("", {"all"}));
  }
}
