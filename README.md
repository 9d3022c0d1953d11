# Affiliates catalog and wishlist, modelled in Dafny

This project models the client-side logic of the affiliates page of a static
portfolio site (`assets/js/affiliates.js`). It has two controllers:

- `AffiliatesManager` holds four pieces of state:
  - the product catalog;
  - the set of active tag filters;
  - the search term;
  - the tag universe shown as filter buttons.

  It also holds the filtered view, which is recomputed from scratch after every
  change. A product stays in the view when two rules both hold:
  - the search term is empty, or it occurs (as a substring) in the
    lower-cased title, description or one of the tags;
  - no tag is active, or at least one of the product's lower-cased tags is
    active.
- `WishlistManager` holds an ordered list of product ids without duplicates,
  kept in memory and saved to browser storage after every successful change.

Files:

- `text.dfy` (module `Text`): ASCII case folding, JavaScript `trim`, `includes`, `capitalizeFirst` and how the search box value is normalised.
- `sequences.dfy` (module `Sequences`): the stable filter that `Array.prototype.filter` performs, with its subsequence, multiplicity, idempotence, append, commutation and monotonicity lemmas.
- `catalog.dfy` (module `Catalog`): the `Product` datatype, the search and tag rules, the filtered view, the tag universe, the filter-button click and pressed-state rules, and the call-to-action and price defaults. It also holds worked scenarios and the finding below.
- `affiliates.dfy` (module `Affiliates`): class `AffiliatesManager`, whose methods update its fields in place. Each handler except `LoadProducts` ends with the view in sync with the state (`InSync()`); `LoadProducts` copies the whole catalog into the view, which is in sync only when no search term and no tag filter are set, as they are at start. Each handler also keeps the state invariant `Consistent()`: the search term is lower case and trimmed, the tag universe holds only lower-case tags, and every active tag is in the tag universe.
- `wishlist.dfy` (module `Wishlist`): the pure list operations (`IndexOf`, `Added`, `Removed`) and their lemmas, and class `WishlistManager`. In that class, storage is two ghost fields: `storage`, a map from storage keys to saved values, and `saves`, the number of writes. The list lives under the key `WishlistKey` ("affiliate-wishlist").

Behaviour of the catalog operations:

- `loadProducts` resets neither the filters nor the search term.
- `loadProducts` only ever adds to the tag universe; it never clears it.
- `addProduct` appends in place and does not update the tag universe.
- `removeProduct` drops every entry with the id, and leaves the tag universe as it was.

## Model

| member | source | states |
|---|---|---|
| `Text.TrimStart` | assets/js/affiliates.js:61 | The result is a suffix of the input. Everything dropped is whitespace, and the result does not start with whitespace. |
| `Text.TrimEnd` | assets/js/affiliates.js:61 | The result is a prefix of the input. Everything dropped is whitespace, and the result does not end with whitespace. |
| `Text.Trim` | assets/js/affiliates.js:61 | The result is the input with whitespace cut off its two ends and nothing else removed (`IsTrimOf`). No whitespace is left at either end. An all-whitespace input trims to the empty string. |
| `Text.TrimIsCut` | assets/js/affiliates.js:61 | Trimming the end and then the start removes only whitespace, from the two ends only, leaves no whitespace at either end, and leaves a piece that occurs in the input. |
| `Text.TrimUnique` | assets/js/affiliates.js:61 | Any cut of whitespace off the two ends that leaves no whitespace at either end equals `Trim`, so the contract of `Trim` determines its result. |
| `Text.NormalizeSearch` | assets/js/affiliates.js:61 | The search term is the lower-cased box value with whitespace cut off its two ends and nothing else removed. It has no upper-case letter and no whitespace at either end. |
| `Text.Lower` | assets/js/affiliates.js:151-154 | Lower-casing keeps the length and leaves no upper-case letter. `Text.LowerProps` adds that it is idempotent and fixes lower-case strings. |
| `Text.Contains` | assets/js/affiliates.js:151-154 | `includes`; `Text.ContainsIff` states its meaning (the needle starts at some position). |
| `Text.NormalizeIdempotent` | assets/js/affiliates.js:61 | Normalising an already normalised term leaves it unchanged. |
| `Text.ContainsIff` | assets/js/affiliates.js:151-154 | `includes` holds exactly when the needle starts at some position of the haystack. |
| `Text.CapitalizeFirst` | assets/js/affiliates.js:284-286 | The string keeps its length and all characters after the first. The first character is no longer a lower-case letter. The result case-folds to the same string as the input. |
| `Text.CapitalizedTagFoldsBack` | assets/js/affiliates.js:103 | A tag button's label, once lower-cased, gives back its lower-case tag. |
| `Catalog.MatchesSearch` | assets/js/affiliates.js:150-155 | The search rule; `Catalog.FilterMembership` and `Catalog.SearchNarrows` state what it does to the view. |
| `Catalog.MatchesFilter` | assets/js/affiliates.js:158-161 | The tag rule; `Catalog.TagRuleIsDisjunction`, `Catalog.TagWidening` and `Catalog.UntaggedExcluded` state its meaning. |
| `Catalog.Filter` | assets/js/affiliates.js:148-164 | The filtered view; `Catalog.FilterIsStableSubsequence` and `Catalog.FilterMembership` state its meaning. |
| `Catalog.WithoutId` | assets/js/affiliates.js:327 | Removal by id; `Catalog.WithoutIdSpec` states its meaning. |
| `Catalog.TagSet` | assets/js/affiliates.js:43-45 | One product's lower-cased tags; `Catalog.TagSetIff` states its meaning. |
| `Catalog.TagUniverse` | assets/js/affiliates.js:42-46 | The tag universe; `Catalog.TagUniverseIff` and `Catalog.TagUniverseIsLower` state its meaning. |
| `Catalog.TagUniverseIsLower` | assets/js/affiliates.js:44 | Every tag in the universe is lower case. |
| `Catalog.Active` | assets/js/affiliates.js:140 | The corrected pressed-state rule; `Catalog.ClickThenActive` and `Catalog.AllPressedIffNoTagPressed` state its meaning. |
| `Catalog.DataTag` | assets/js/affiliates.js:89-100 | The `data-tag` a rendered button carries: "all" for "All Products", the tag itself for a tag button, assuming the tag reads back unescaped (see "## Left out"). |
| `Catalog.ClickAsWritten` | assets/js/affiliates.js:119-127 | The click rule as written, keyed on the `data-tag` string; `Catalog.AsWrittenAgreesElsewhere` and `Catalog.AllTagCannotBeSelected` state how it relates to `Catalog.Click`. |
| `Catalog.ActiveAsWritten` | assets/js/affiliates.js:140 | The pressed-state rule as written, keyed on the `data-tag` string; related to `Catalog.Active` by the same two lemmas. |
| `Catalog.FilterIdentity` | assets/js/affiliates.js:148-164 | With an empty search term and no active tag, the view is the whole catalog: same entries, same order. |
| `Catalog.FilterIsStableSubsequence` | assets/js/affiliates.js:148-164 | The view is an order-preserving subsequence of the catalog. It holds each kept product as often as the catalog does, and no other product. |
| `Catalog.FilterMembership` | assets/js/affiliates.js:148-163 | A product is in the view exactly when it is in the catalog and passes both the search rule and the tag rule. |
| `Catalog.FilterIdempotent` | assets/js/affiliates.js:148-164 | Re-filtering the view with the same state changes nothing. |
| `Catalog.SearchNarrows` | assets/js/affiliates.js:150-155 | The view for a term is a subsequence of the view for any term it contains, so typing more narrows the view. |
| `Catalog.TagRuleIsDisjunction` | assets/js/affiliates.js:158-161 | For two non-empty tag sets, matching their union means matching one or the other (OR across the selected tags). |
| `Catalog.TagWidening` | assets/js/affiliates.js:158-161 | Once a tag is selected, selecting more tags widens the view, as a subsequence. |
| `Catalog.UntaggedExcluded` | assets/js/affiliates.js:158-161 | A product without tags is never in the view while any tag is active. |
| `Catalog.TagOrScenario` | assets/js/affiliates.js:158-161 | Tags {a, b} pass the selection {a, c} and fail the selection {c, d}. |
| `Catalog.ScenarioNoFilter` | assets/js/affiliates.js:147-164 | Laptop Stand and Yoga Mat with no search and no tag: both show, in order. An empty catalog gives an empty view. |
| `Catalog.ScenarioSearch` | assets/js/affiliates.js:150-155 | Searching "yoga" keeps only the Yoga Mat. |
| `Catalog.ScenarioTag` | assets/js/affiliates.js:158-161 | Selecting "office" keeps only the Laptop Stand. |
| `Catalog.FilterAppendOne` | assets/js/affiliates.js:319-321 | Appending a product to the catalog appends it to the end of the view exactly when it passes both rules. |
| `Catalog.WithoutIdSpec` | assets/js/affiliates.js:327 | Removal by id keeps every other product in order and with its multiplicity, and drops every product with that id. |
| `Catalog.FilterWithoutId` | assets/js/affiliates.js:326-328 | Filtering after a removal gives the old view with that id removed. |
| `Catalog.TagSetIff` | assets/js/affiliates.js:43-45 | A product's tag set is exactly the lower-cased forms of its tags. |
| `Catalog.TagUniverseIff` | assets/js/affiliates.js:42-46 | The tag universe is exactly the set of lower-cased tags over all products. |
| `Catalog.UniverseTagSelectsSomething` | assets/js/affiliates.js:42-46 | Every tag in the universe is lower case and its label folds back to it. Selecting it alone shows at least one product. |
| `Catalog.Click` | assets/js/affiliates.js:116-127 | The corrected click rule (see Findings): "All Products" empties the active set. A tag button flips its own tag's membership and leaves every other tag unchanged. |
| `Catalog.ClickTwiceRestores` | assets/js/affiliates.js:122-126 | Two clicks on the same tag button restore the active set. |
| `Catalog.ClickThenActive` | assets/js/affiliates.js:116-144 | After a tag click, that button's pressed state has flipped and no other tag button changed. After "All Products", only that button is pressed. |
| `Catalog.AllPressedIffNoTagPressed` | assets/js/affiliates.js:140 | "All Products" is pressed exactly when no tag button is. |
| `Catalog.AsWrittenAgreesElsewhere` | assets/js/affiliates.js:116-140 | The source's string-keyed click and pressed-state rules agree with the corrected ones on every button except the tag "all". |
| `Catalog.AllTagCannotBeSelected` | assets/js/affiliates.js:97-127 | As written, the tag "all" can never be selected: its button clears all filters. The corrected rule selects it. |
| `Catalog.AllTagScenario` | assets/js/affiliates.js:89-127 | A catalog with a product tagged "All": as written its button shows every product; corrected, only that product. |
| `Catalog.CtaLabel` | assets/js/affiliates.js:241-244 | The call-to-action label is never empty. It is the product's own non-empty text, or "View Product" when that text is absent or empty. |
| `Catalog.PriceShown` | assets/js/affiliates.js:213-214 | The price badge appears exactly when the price is present and non-empty, and shows that price. |
| `Affiliates.CatalogOf` | assets/js/affiliates.js:38 | `data.products \|\| []`; its use is stated by `Affiliates.AffiliatesManager.LoadProducts`. |
| `Affiliates.AffiliatesManager.constructor` | assets/js/affiliates.js:6-11 | Starts with an empty catalog, view, filter set, search term and tag universe. The view is in sync and the state invariant holds. |
| `Affiliates.AffiliatesManager.LoadProducts` | assets/js/affiliates.js:30-54 | A parsed document installs its `products`, or none if the field is missing. A failed fetch installs none. The view is a copy of the catalog, and every lower-cased tag is added to the tag universe. Filters and search term are untouched, so from the start state the view is in sync. The state invariant `Consistent()` is kept. |
| `Affiliates.AffiliatesManager.FilterProducts` | assets/js/affiliates.js:147-164 | The view is recomputed as the filter of the catalog under the current state. |
| `Affiliates.AffiliatesManager.SetSearchTerm` | assets/js/affiliates.js:61-62 | A normalised term is installed, the view is back in sync, the state invariant is kept, and nothing else changes. |
| `Affiliates.AffiliatesManager.HandleSearchInput` | assets/js/affiliates.js:60-63 | The term becomes the normalised box value, the view is back in sync, and nothing else changes. The state invariant `Consistent()` is kept. |
| `Affiliates.AffiliatesManager.HandleEscape` | assets/js/affiliates.js:68-74 | The term is cleared, the view is back in sync, and nothing else changes. The state invariant `Consistent()` is kept. |
| `Affiliates.AffiliatesManager.HandleFilterClick` | assets/js/affiliates.js:116-131 | The clicked button is "All Products" or a tag in the tag universe. The active set becomes the click rule applied to the old set, the view is back in sync, the state invariant is kept, and nothing else changes. It uses the corrected rule `Catalog.Click`, which differs from line 119 for a catalog tag "all" (see Findings). |
| `Affiliates.AffiliatesManager.UpdateFilterButtons` | assets/js/affiliates.js:136-145 | One state per button. "All Products" is pressed exactly when no tag is active; a tag button exactly when its tag is active. It uses the corrected rule `Catalog.Active`, which differs from line 140 for a catalog tag "all" (see Findings). |
| `Affiliates.AffiliatesManager.AddProduct` | assets/js/affiliates.js:319-323 | The product is appended to the catalog. A view that was in sync gains it at its end exactly when it passes both rules. Filters, term and tag universe are unchanged. The state invariant `Consistent()` is kept. |
| `Affiliates.AffiliatesManager.RemoveProduct` | assets/js/affiliates.js:326-330 | Every product with the id leaves the catalog, which keeps the others in order. A view that was in sync loses exactly those products. The state invariant `Consistent()` is kept. |
| `Wishlist.LoadWishlist` | assets/js/affiliates.js:343-351 | The loaded list; its use is stated by `Wishlist.WishlistManager.constructor`. |
| `Wishlist.Added` | assets/js/affiliates.js:361-369 | The list after an add; `Wishlist.AddedSpec` and `Wishlist.AddRemoveRoundTrip` state its meaning. |
| `Wishlist.Removed` | assets/js/affiliates.js:371-380 | The list after a remove; `Wishlist.RemovedSpec` and `Wishlist.AddRemoveRoundTrip` state its meaning. |
| `Wishlist.IndexOf` | assets/js/affiliates.js:372-373 | Returns the first position of the id, or -1 exactly when the id is absent. |
| `Wishlist.AddedSpec` | assets/js/affiliates.js:361-369 | After an add, the id is present. No duplicates are introduced, a second add changes nothing, and no other id's membership changes. |
| `Wishlist.RemovedSpec` | assets/js/affiliates.js:371-380 | Removing a present id takes out exactly one occurrence, in order. In a duplicate-free list the id is then gone and no duplicates appear. |
| `Wishlist.AddRemoveRoundTrip` | assets/js/affiliates.js:361-380 | Adding an absent id and then removing it restores the list. |
| `Wishlist.RemoveAddSameMembers` | assets/js/affiliates.js:361-380 | Removing a present id and adding it back keeps the same members. |
| `Wishlist.WishlistManager.constructor` | assets/js/affiliates.js:338-351 | The value under `WishlistKey` is read. A missing, empty or unparsable value loads as `[]`, and a saved array loads as-is. Reloading would give back the list. |
| `Wishlist.WishlistManager.SaveWishlist` | assets/js/affiliates.js:353-359 | Storage holds the current list under `WishlistKey`, every other key is unchanged, and one more write has happened. |
| `Wishlist.WishlistManager.AddToWishlist` | assets/js/affiliates.js:361-369 | Returns true and appends and saves once, exactly when the id was absent. Otherwise it returns false and changes nothing, storage included. No duplicates are introduced. |
| `Wishlist.WishlistManager.RemoveFromWishlist` | assets/js/affiliates.js:371-380 | Returns true, splices out the first occurrence and saves once, exactly when the id was present. Otherwise it returns false and changes nothing. A duplicate-free list then lacks the id. |
| `Wishlist.WishlistManager.IsInWishlist` | assets/js/affiliates.js:382-384 | True exactly when the id is in the list. |
| `Wishlist.WishlistManager.GetWishlist` | assets/js/affiliates.js:386-388 | Returns the list as a value, so the caller cannot alias the manager's state. |
| `Wishlist.WishlistManager.ClearWishlist` | assets/js/affiliates.js:390-394 | The list is empty, and it is saved once. |

## Findings

| source | as written | input that shows it | evidently intended | confidence | as-written member | corrected member |
|---|---|---|---|---|---|---|
| assets/js/affiliates.js:97-127 | Each tag button carries its tag as `data-tag`. The click and pressed-state rules treat `data-tag === 'all'` as the "All Products" button. | A catalog with a product tagged "All": its button clears every filter instead of selecting the tag, and it shows pressed only when nothing is selected. | The tag "all" toggles like any other tag. | medium, not executed | `Catalog.ClickAsWritten`, `Catalog.ActiveAsWritten`, shown by `Catalog.AllTagCannotBeSelected` and `Catalog.AllTagScenario` | `Catalog.Click`, `Catalog.Active`, proved by `Catalog.ClickThenActive` and used by `Affiliates.AffiliatesManager.HandleFilterClick` |

## Left out

- DOM rendering is left out because it is display side effects:
  - `renderFilterTags` markup and the alphabetical sort of the tag buttons;
  - `renderProducts` and its empty-state toggling;
  - the `createProductCard` markup, including the attachment links and the image fallback;
  - the IntersectionObserver fade-in, `showError` and `hideLoading`.
- Only two card rules are modelled: the call-to-action default and the price-present rule.
- Product fields used only by the markup (`image`, `affiliateLink`, `attachments`) are not in `Product`.
- `init` and the network are left out: `fetch`, the status check and JSON parsing. `LoadProducts` takes the already-fetched outcome as a `Fetched` value.
- A `products` field that is present but not an array is not modelled.
- An exception thrown part-way through the tag loop (a non-string tag) is not modelled.
- Event wiring is left out: the listeners, the 300 ms search debounce and the click delegation. The handlers are modelled as methods the event loop calls one at a time.
- Analytics (`PersonalSite.trackEvent`) is fire-and-forget and is left out.
- Browser storage is left out. `localStorage` becomes the ghost fields `storage` and `saves` of `WishlistManager`.
- Wishlist.WishlistManager.SaveWishlist: a write always succeeds. The source catches and logs a failing write and keeps the in-memory list; that case is not modelled.
- Wishlist.WishlistManager.constructor: a saved value that parses to a JSON value other than an array (a number, an object, `null`) is not modelled. The source would then hold that value as its "list".
- Catalog.DataTag: a tag is assumed to come back unchanged from its button's `data-tag` attribute. In the source, line 100 puts the tag into the double-quoted attribute without escaping it, and line 117 reads back the parsed `dataset.tag`. A tag containing `"` comes back cut short (`27" monitor` gives `27`), and a character reference is decoded (`a &amp; b` gives `a & b`). Line 125 would then add a string that is not in the tag universe. The view would then be empty, and line 140 would show that button pressed. `HandleFilterClick`'s requirement that a clicked tag is in the tag universe, and the `activeFilters <= allTags` part of `Consistent()`, rest on this assumption.
- Text.Lower: case folding is ASCII only. JavaScript's full Unicode `toLowerCase`/`toUpperCase` mappings and locale rules are not modelled (this also holds for `Text.CapitalizeFirst`).
- An absent `tags` field is modelled as an empty list. Every modelled rule treats the two alike.
- `title` and `description` are required strings, so a product missing either is not modelled. In the source, a missing `title` throws in the filter only when the search term is non-empty (line 151). A missing `description` throws only when the term is non-empty and not in the title (line 152). With an empty term neither field is read, and such a product passes the search rule.
- Product ids are strings. JSON numbers compared by `!==` are not modelled.
- The global singletons and the page check that creates them are not modelled (assets/js/affiliates.js:401-411).
- All of assets/js/main.js is left out: profile loading and display, social links, the theme toggle, accessibility helpers, the footer year, the global error handlers, and `debounce`/`throttle`. It is page plumbing with no sequential contract.
