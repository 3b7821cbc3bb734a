# A-One Traders catalog — verified model of the client-side logic

The site is a product catalog for a packaging wholesaler, with an admin back
office. It is built on a hosted document database and object storage. Almost
all of the code is create/read/update/delete plumbing. This project models the
parts that carry logic of their own, one Dafny module per source file:

- `CategorySlug` (`category_slug.dfy`): the slug helpers `slugifyCategory`
  and `unslugifyCategory`.
- `Categories` (`categories.dfy`): the `Category` record; the public list
  `getActiveCategoriesWithProducts`, which counts products per category name
  and keeps the active categories with a non-zero count; and the admin
  operations `deleteCategory`, `toggleCategoryStatus` and `upsertCategory`.
  These run against a `CategoryStore` class. Its field `records` is a map
  from id to category and stands for the category collection. Its field
  `images` is the set of stored image URLs and stands for object storage.
- `NavbarSearch` (`navbar_search.dfy`): the search effect and the dropdown. A
  query whose `trim()` is empty gives no results. Otherwise the results are
  the products whose lowercased name `includes` the lowercased query, cut
  to the first five. When there are no results, the dropdown shows the
  "No product found" prompt.
- `ProductImageCarousel` (`product_image_carousel.dfy`): a `Carousel` class
  holding `activeIndex`. Its methods are the cyclic `prev`/`next` arrows and
  the thumbnail click. `Render` gives the "No Image" placeholder or the
  gallery.
- `HeroCarousel` (`hero_carousel.dfy`): a `Rotator` class. Its slides are
  loaded once. While there is at least one slide, an interval tick moves the
  index by `(index + 1) % n`.
- `Header` (`header.dfy`): the `isActive` and `linkClass` link highlighting,
  and a `Menu` class for the mobile menu's `open` flag.
- `JsText` (`js_text.dfy`): the JavaScript string built-ins used above.
  These are the regex class `\s` (taken to be the full ECMAScript
  WhiteSpace/LineTerminator set, which is also what `trim` strips), `trim`,
  `toLowerCase`/`toUpperCase`, and `includes`. `Wrappers` (`wrappers.dfy`)
  holds `Option` and `Outcome`.

The main results proved:
- `slugifyCategory` output has no whitespace and no ASCII capitals.
- `slugifyCategory` turns each maximal whitespace run into a single `-`, and
  it is idempotent.
- `unslugifyCategory` works character by character. It keeps the length,
  turns each `-` into a space, and uppercases only the first character of
  each piece.
- An ASCII slug with no whitespace, no capitals and no `--` survives
  slugify(unslugify(s)).
- The reverse does not hold: "PP" displays back as "Pp", and "PP Bags" as
  "Pp Bags". More generally, take a name with no two whitespace characters
  in a row. If it has an ASCII capital right after a character that is
  neither whitespace nor `-`, it never comes back from its slug.
- The public category page (src/app/(public)/category/[slug]/page.tsx:26-31)
  lists the products whose category equals the unslugified slug. So for such
  a name, with a slug made by `slugifyCategory`, the page looks up a name
  other than the category's own. It does not show the products filed under
  the category's name; it shows those filed under the title-case spelling,
  if there are any. Slugs made by the admin form's own slug generator are
  not part of this model.
- The public category list is exactly the active categories, in input order,
  that have a product filed under their name.
- The search returns exactly the first five matches in list order.
- The carousel arrows are inverse cyclic steps. The hero advance returns to
  its start after `n` ticks.
- On any path, at most one navigation link is highlighted.

## Model

| member | source | states |
|---|---|---|
| `JsText.IsSpace` | src/lib/category.ts:33 | the regex class `\s`: the ECMAScript WhiteSpace and LineTerminator code points (tab to carriage return, space, no-break space, the Unicode space separators, line and paragraph separators, byte order mark) |
| `JsText.Lower` | src/lib/category.ts:33 | `toLowerCase` on a character maps each ASCII capital to its own lowercase letter (code point plus 32) and leaves every other character as it is; the result is never an ASCII capital |
| `JsText.Upper` | src/lib/category.ts:40 | `toUpperCase` on a character maps each ASCII lowercase letter to its own capital (code point minus 32) and leaves every other character as it is; the result is never an ASCII lowercase letter |
| `JsText.LowerStr` | src/components/shared/NavbarSearch.tsx:37-39 | `toLowerCase` on a string keeps the length and lowercases the string character by character |
| `JsText.LowerStrOfLower` | src/lib/category.ts:33 | lowercasing a string that has no ASCII capitals leaves it unchanged |
| `JsText.TrimStart` | src/components/shared/NavbarSearch.tsx:32 | the result is a suffix of the input; everything dropped is whitespace; the result does not start with whitespace |
| `JsText.TrimEnd` | src/components/shared/NavbarSearch.tsx:32 | the result is a prefix of the input; everything dropped is whitespace; the result does not end with whitespace |
| `JsText.Trim` | src/components/shared/NavbarSearch.tsx:32 | `trim()` is a prefix of `trimStart()` of the input, and everything it drops from that is whitespace; the result neither begins nor ends with whitespace |
| `JsText.TrimEmptyIffBlank` | src/components/shared/NavbarSearch.tsx:32 | `query.trim()` is empty exactly when every character of the query is whitespace |
| `JsText.Includes` | src/components/shared/NavbarSearch.tsx:39 | `includes`: the needle is a prefix of the string or of one of its suffixes; `IncludesIff` characterises it |
| `JsText.IncludesIff` | src/components/shared/NavbarSearch.tsx:39 | `includes` holds exactly when the needle occurs as a contiguous slice of the string at some index |
| `CategorySlug.CollapseSpaces` | src/lib/category.ts:33 | `replace(/\s+/g, "-")`: scanning left to right, a whitespace character and the whole run after it become one `-`, and any other character is copied; `CollapseChars`, `CollapseNoSpace` and `CollapseRun` state what it does |
| `CategorySlug.Slugify` | src/lib/category.ts:32-34 | a slug contains no whitespace and no ASCII capital |
| `CategorySlug.CollapseChars` | src/lib/category.ts:33 | every character the whitespace replacement outputs is `-` or a non-whitespace character of its input |
| `CategorySlug.CollapseNoSpace` | src/lib/category.ts:33 | the replacement leaves a string with no whitespace unchanged |
| `CategorySlug.CollapseRun` | src/lib/category.ts:33 | a maximal whitespace run between two parts becomes exactly one `-`, and the parts are replaced independently |
| `CategorySlug.SlugifyIdempotent` | src/lib/category.ts:32-34 | slugify(slugify(x)) == slugify(x) |
| `CategorySlug.Unslugify` | src/lib/category.ts:36-43 | `unslugifyCategory`: split on `-`, uppercase the first character of each piece, join with a space; `UnslugifyOnePass` and `UnslugifyAt` state what it gives |
| `CategorySlug.UnslugifyOnePass` | src/lib/category.ts:36-43 | split/capitalize/join equals one left-to-right pass: `-` becomes a space, and a character right after a `-` or at the start is uppercased |
| `CategorySlug.UnslugifyAt` | src/lib/category.ts:36-43 | unslugify keeps the length; each `-` becomes a space; the first character of each `-`-separated piece is uppercased; every other character is unchanged |
| `CategorySlug.SlugifyUnslugify` | src/lib/category.ts:32-43 | an ASCII slug with no whitespace, no capital and no two `-` in a row comes back unchanged from slugify(unslugify(s)) |
| `CategorySlug.SlugOfMixedCaseName` | src/lib/category.ts:32-34 | the name "PP" slugifies to "pp" |
| `CategorySlug.DisplayOfSlug` | src/lib/category.ts:36-43 | "pp" unslugifies to "Pp", so the name "PP" is not recovered from its slug |
| `CategorySlug.CollapseSingleSpaces` | src/lib/category.ts:33 | on a string with no two whitespace characters in a row, the replacement keeps the length and turns each whitespace character into `-` in place |
| `CategorySlug.LowerSingleSpaced` | src/lib/category.ts:33 | lowercasing keeps a string free of two whitespace characters in a row |
| `CategorySlug.NameNotRecovered` | src/lib/category.ts:32-43 | a name with no two whitespace characters in a row differs from unslugify(slugify(name)) when it has an ASCII capital right after a character that is neither whitespace nor `-` |
| `CategorySlug.MixedCaseNameNotRecovered` | src/lib/category.ts:32-43 | the category name "PP Bags" is not recovered from its slug |
| `Categories.CountInAppend` | src/lib/category.ts:140-145 | the per-name product count adds up over concatenated product lists |
| `Categories.CountPositiveIff` | src/lib/category.ts:140-145 | a name has a positive count exactly when some product's `category` is that name and the name is non-empty |
| `Categories.KeepCounted` | src/lib/category.ts:147-152 | the `filter`: keeps, in order, each category that is active and whose name has a positive entry in the count record; `KeepCountedIsActiveWithProducts` relates it to the specification |
| `Categories.KeepCountedIsActiveWithProducts` | src/lib/category.ts:147-152 | filtering with a count record that holds the true per-name counts selects the same categories as the specification |
| `Categories.GetActiveCategoriesWithProducts` | src/lib/category.ts:138-152 | the loop builds the per-name count record; the result is the categories that are active and have a positive count, in input order |
| `Categories.ActiveWithProductsMembers` | src/lib/category.ts:138-152 | a category is listed exactly when it is in the input, is active, and has a non-empty name that is the `category` of at least one product |
| `Categories.ActiveWithProductsAppend` | src/lib/category.ts:147-152 | the list keeps input order: it distributes over concatenation of the category list |
| `Categories.UncategorizedProductIgnored` | src/lib/category.ts:140-145 | adding a product with an absent or empty `category` anywhere in the product list does not change the result |
| `Categories.Merge` | src/lib/category.ts:112-115 | a merged write takes every field from the written category, except that an absent `image` keeps the stored one |
| `Categories.MergeIdempotent` | src/lib/category.ts:112-115 | writing the same category twice gives the same record as writing it once |
| `Categories.CategoryStore.constructor` | src/lib/category.ts:20-27 | the store starts with the given records, each stored under its own id, and the given images |
| `Categories.CategoryStore.DeleteCategory` | src/lib/category.ts:78-106 | an absent id fails with "Category not found" and changes nothing. Otherwise the record is removed. A stored image is removed only when the record's image is a non-empty URL and storage does not fail, and a storage failure is swallowed. No remaining record has the deleted id |
| `Categories.CategoryStore.ToggleCategoryStatus` | src/lib/category.ts:120-127 | on an existing id only that record's `isActive` changes to the given value; an absent id is rejected with nothing changed |
| `Categories.CategoryStore.UpsertCategory` | src/lib/category.ts:112-115 | the record under `category.id` becomes the merge of the stored record (if any) with `category`; nothing else changes |
| `Categories.ToggleTwiceRestores` | src/lib/category.ts:120-127 | toggling a category to the other status and back restores every record |
| `NavbarSearch.Matches` | src/components/shared/NavbarSearch.tsx:39 | the filter test: the lowercased product name includes the (already lowercased) query; `MatchingMembers` and `Search` use it |
| `NavbarSearch.Matching` | src/components/shared/NavbarSearch.tsx:38-40 | the filtered list is no longer than the product list |
| `NavbarSearch.MatchingMembers` | src/components/shared/NavbarSearch.tsx:38-40 | the filter keeps exactly the products whose lowercased name includes the lowercased query |
| `NavbarSearch.NothingMatching` | src/components/shared/NavbarSearch.tsx:38-40 | when no product matches, the filtered list is empty |
| `NavbarSearch.Search` | src/components/shared/NavbarSearch.tsx:31-43 | a whitespace-only or empty query gives no results. There are at most 5 results, each is a listed product whose lowercased name includes the lowercased untrimmed query, and there are min(5, number of matches) of them |
| `NavbarSearch.TakeOfMatching` | src/components/shared/NavbarSearch.tsx:38-42 | filtering and then keeping the first `budget` entries equals taking matches in order until `budget` are taken |
| `NavbarSearch.SearchIsFirstMatches` | src/components/shared/NavbarSearch.tsx:38-42 | for a non-blank query the results are exactly the first five matching products, in product-list order |
| `NavbarSearch.FewMatchesAllShown` | src/components/shared/NavbarSearch.tsx:38-42 | when at most five products match, every matching product is among the results |
| `NavbarSearch.QueryFinds` | src/components/shared/NavbarSearch.tsx:32-39 | the query "ab" finds the product named "xab" |
| `NavbarSearch.PaddedQueryMisses` | src/components/shared/NavbarSearch.tsx:32-39 | the query " ab" does not find "xab": trimming only gates emptiness, and the leading space takes part in the match |
| `NavbarSearch.NoShortInclude` | src/components/shared/NavbarSearch.tsx:39 | a string includes no different needle of its own length |
| `NavbarSearch.DropdownView` | src/components/shared/NavbarSearch.tsx:60-88 | the dropdown is hidden exactly when it is closed or the query is empty; otherwise it lists the results, or shows "No product found" exactly when there are none |
| `NavbarSearch.NoMatchShowsFallback` | src/components/shared/NavbarSearch.tsx:31-88 | with an open dropdown and a non-empty query that is blank or matches nothing, the "No product found" prompt is shown |
| `ProductImageCarousel.NextIndex` | src/components/shared/ProductImageCarousel.tsx:27-31 | `next` stays in [0, n) |
| `ProductImageCarousel.PrevIndex` | src/components/shared/ProductImageCarousel.tsx:21-25 | `prev` stays in [0, n) |
| `ProductImageCarousel.NextIsModular` | src/components/shared/ProductImageCarousel.tsx:27-31 | `next(i) == (i + 1) % n`, so n-1 goes to 0 and any other i to i+1 |
| `ProductImageCarousel.PrevIsModular` | src/components/shared/ProductImageCarousel.tsx:21-25 | `prev(i) == (i + n - 1) % n`, so 0 goes to n-1 and any other i to i-1 |
| `ProductImageCarousel.ArrowsInverse` | src/components/shared/ProductImageCarousel.tsx:21-31 | next(prev(i)) == i and prev(next(i)) == i |
| `ProductImageCarousel.SingleImageStays` | src/components/shared/ProductImageCarousel.tsx:21-31 | with one image both arrows leave the index at 0 |
| `ProductImageCarousel.Carousel.constructor` | src/components/shared/ProductImageCarousel.tsx:11 | the carousel starts on image 0 |
| `ProductImageCarousel.Carousel.Prev` | src/components/shared/ProductImageCarousel.tsx:21-25 | the index becomes `prev` of the old index and stays in range |
| `ProductImageCarousel.Carousel.Next` | src/components/shared/ProductImageCarousel.tsx:27-31 | the index becomes `next` of the old index and stays in range |
| `ProductImageCarousel.Carousel.SelectThumbnail` | src/components/shared/ProductImageCarousel.tsx:86 | a thumbnail click sets the index to that thumbnail's index |
| `ProductImageCarousel.Carousel.Render` | src/components/shared/ProductImageCarousel.tsx:13-101 | no images gives the "No Image" placeholder. Otherwise the main image is `images[activeIndex]`, and arrows and thumbnails appear exactly when there is more than one image. The thumbnail highlighted is exactly the one at the active index |
| `HeroCarousel.Advance` | src/components/shared/HeroCarousel.tsx:18 | the advance stays in [0, n); from n-1 it gives 0; from any other index it gives the next one |
| `HeroCarousel.AdvanceIsNext` | src/components/shared/HeroCarousel.tsx:18 | on a valid index the hero advance equals the product carousel's `next` |
| `HeroCarousel.AdvanceTimes` | src/components/shared/HeroCarousel.tsx:17-19 | any number of ticks keeps the index in [0, n) |
| `HeroCarousel.AdvanceTimesAdd` | src/components/shared/HeroCarousel.tsx:17-19 | ticks compose: a ticks and then b ticks are a + b ticks |
| `HeroCarousel.AdvanceTimesBelowEnd` | src/components/shared/HeroCarousel.tsx:18 | while i + k < n, k ticks from i give i + k |
| `HeroCarousel.FullCycle` | src/components/shared/HeroCarousel.tsx:18 | n ticks from any valid index return to that index |
| `HeroCarousel.Periodic` | src/components/shared/HeroCarousel.tsx:17-19 | the shown index repeats with period n |
| `HeroCarousel.Rotator.constructor` | src/components/shared/HeroCarousel.tsx:7-8 | there are no slides at first and the index is 0 |
| `HeroCarousel.Rotator.Load` | src/components/shared/HeroCarousel.tsx:10-12 | the one-time fetch sets the slides and leaves the index at 0 |
| `HeroCarousel.Rotator.TimerScheduled` | src/components/shared/HeroCarousel.tsx:15-17 | the effect sets up the interval only when there is at least one slide; `Tick` requires it |
| `HeroCarousel.Rotator.Tick` | src/components/shared/HeroCarousel.tsx:14-19 | a tick, scheduled only while there are slides, sets the index to `(index + 1) % n` |
| `HeroCarousel.Rotator.Render` | src/components/shared/HeroCarousel.tsx:24-70 | no slides render nothing; otherwise the shown title and subtitle are those of `slides[index]`, and an empty image falls back to "No Image" |
| `Header.IsActive` | src/components/layout/Header.tsx:14-15 | `isActive(href)`: the path equals the href, or the href is not "/" and is a prefix of the path; `HomeActiveIff` and `OtherLinkActiveIff` state both cases |
| `Header.LinkClass` | src/components/layout/Header.tsx:17-22 | a link gets the primary/semibold classes exactly when it is active, and the secondary classes otherwise |
| `Header.ActiveOnOwnPath` | src/components/layout/Header.tsx:14-15 | a link is active whenever the path equals its href |
| `Header.HomeActiveIff` | src/components/layout/Header.tsx:15 | the link "/" is active exactly when the path is "/" |
| `Header.OtherLinkActiveIff` | src/components/layout/Header.tsx:15 | any other link is active exactly when its href is a prefix of the path |
| `Header.PrefixIsNotSegmentMatch` | src/components/layout/Header.tsx:15 | "/products" is active on "/productsX" as well as on "/products/42" |
| `Header.PrefixesOfOnePath` | src/components/layout/Header.tsx:15 | two prefixes of one path are prefixes of each other |
| `Header.NavLinksNotPrefixes` | src/components/layout/Header.tsx:52-66 | apart from "/", no navigation link is a prefix of another |
| `Header.AtMostOneNavLinkActive` | src/components/layout/Header.tsx:52-66 | on any path, at most one of the five navigation links is active |
| `Header.Menu.constructor` | src/components/layout/Header.tsx:11 | the mobile menu starts closed |
| `Header.Menu.ToggleMenu` | src/components/layout/Header.tsx:89 | the hamburger click flips `open`, so the mobile menu is shown exactly when it was hidden before |
| `Header.Menu.LinkClicked` | src/components/layout/Header.tsx:112 | a click on a mobile menu link sets `open` to false, which hides the mobile menu |
| `Header.Menu.MobileMenuShown` | src/components/layout/Header.tsx:108 | the mobile menu is rendered exactly while `open` holds; `ToggleMenu` and `LinkClicked` state their effect on it |

## Left out

- The database and storage calls (`getDocs`, `getDoc`, `addDoc`, `setDoc`, `updateDoc`, `deleteDoc`, `deleteObject`) are foreign library calls. They are replaced by the `CategoryStore` map and set. Record-store calls are taken to succeed, with one exception: `updateDoc` rejects a document that does not exist, and `ToggleCategoryStatus` keeps that rejection as `Fail(DocumentMissing)`. The failure of an image deletion is an input, `storageFault`, of `DeleteCategory`.
- `getAllCategories` is a query ordered by the `order` field, and the model does not sort. `GetActiveCategoriesWithProducts` takes both fetched lists as inputs. Fetching them in parallel with `Promise.all` is not modelled.
- The admin form's slug generator `generateSlug` (src/app/(admin)/admin/categories/new/page.tsx:25-32) is not part of this model. Only seeded categories get their slug from `slugifyCategory`.
- `createCategory` is not modelled because the database generates the new id. Its `createdAt` timestamp is also left out.
- `Categories.GetActiveCategoriesWithProducts`: the count record is `{}`, an ordinary JavaScript object. A name that is a property inherited from `Object.prototype` (such as "constructor" or "toString") therefore reads back a non-number, and such a category is never listed. The model treats the record as a plain map.
- `Categories.Category`: `order` is an unbounded integer, while the source has a JavaScript number.
- `CategorySlug.SlugifyUnslugify`: the round trip is stated for ASCII slugs only. For other letters the ASCII-only case mapping would make it hold where JavaScript's does not ("ß" uppercases to "SS"). The admin form's slug generator emits only `a`-`z`, digits and `-` anyway.
- `JsText.Lower`, `JsText.Upper`: `toLowerCase`/`toUpperCase` are modelled for ASCII letters only. Other characters are unchanged, so length-changing Unicode mappings such as "ß" to "SS" are not modelled. Strings are sequences of Unicode scalar values, not UTF-16 code units.
- `ProductImageCarousel.Carousel`: `images` is a constant. A new `images` prop on a mounted carousel that keeps a now out-of-range `activeIndex` is not modelled.
- Timers: the 4000 ms interval of the hero carousel becomes the `Tick` method. The 150 ms delayed close of the search dropdown on blur is not modelled. Neither is the search field's own `open` state (set on typing, cleared on blur and on result click).
- Rendering details are not modelled: markup, styles, link targets, images' `alt` text. The `usePathname` value is a parameter of `IsActive`.
- Fetching products for the search and fetching hero slides (`getAllProducts`, `getActiveHeroSlides`) are external. Their results are inputs.
- The other repository files are not part of this model. These are `products.ts`, `heroSlides.ts`, `contact.ts`, `about.ts`, `storage.ts`, the admin pages (slide draft editor, product image limits), the presentation components, and authentication.
