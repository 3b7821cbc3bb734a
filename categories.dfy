/** The category records of the catalog, the public "active and non-empty"
    category list, and the admin operations that delete, toggle and write a
    category, over an in-memory store that takes the place of the hosted
    document database and object storage. */
module Categories {
  import opened Wrappers

  /** The `image` field of a category document: absent from the document,
      `null`, or a URL string. */
  datatype Image = Missing | Null | Url(url: string)

  datatype Category = Category(
    id: string,
    name: string,
    slug: string,
    order: int,
    isActive: bool,
    image: Image)

  /** The part of a product record the category list reads: its free-text
      `category` name, possibly absent. */
  datatype Product = Product(id: string, name: string, category: Option<string>)

  /** A JavaScript truthiness test on the image field: a non-empty URL string. */
  predicate HasImage(c: Category) {
    c.image.Url? && c.image.url != ""
  }

  /** `if (product.category)` and then counts toward `name`. */
  predicate FiledUnder(p: Product, name: string) {
    p.category == Some(name) && name != ""
  }

  /** How many of `products` are counted under the category name `name`. */
  function CountIn(products: seq<Product>, name: string): nat {
    if products == [] then 0
    else CountIn(products[..|products| - 1], name)
         + (if FiledUnder(products[|products| - 1], name) then 1 else 0)
  }

  lemma {:induction false} CountInAppend(a: seq<Product>, b: seq<Product>, name: string)
    ensures CountIn(a + b, name) == CountIn(a, name) + CountIn(b, name)
    decreases |b|
  {
    if b == [] {
      assert a + b == a;
    } else {
      assert (a + b)[..|a + b| - 1] == a + b[..|b| - 1];
      CountInAppend(a, b[..|b| - 1], name);
    }
  }

  /** A name is counted exactly when some product is filed under it. */
  lemma {:induction false} CountPositiveIff(products: seq<Product>, name: string)
    ensures CountIn(products, name) > 0 <==>
      exists j :: 0 <= j < |products| && FiledUnder(products[j], name)
  {
    if products != [] {
      var init := products[..|products| - 1];
      CountPositiveIff(init, name);
      if exists j :: 0 <= j < |init| && FiledUnder(init[j], name) {
        var j :| 0 <= j < |init| && FiledUnder(init[j], name);
        assert products[j] == init[j];
      }
      if exists j :: 0 <= j < |products| && FiledUnder(products[j], name) {
        var j :| 0 <= j < |products| && FiledUnder(products[j], name);
        if j < |init| {
          assert init[j] == products[j];
        }
      }
    }
  }

  /** The categories the public pages list: those, in the given order, that
      are active and have at least one product filed under their name. */
  function ActiveWithProducts(categories: seq<Category>, products: seq<Product>): seq<Category> {
    if categories == [] then []
    else
      var c := categories[0];
      (if c.isActive && CountIn(products, c.name) > 0 then [c] else [])
      + ActiveWithProducts(categories[1..], products)
  }

  /** The `filter` step over the count record built from the products. */
  function KeepCounted(categories: seq<Category>, counts: map<string, nat>): seq<Category> {
    if categories == [] then []
    else
      var c := categories[0];
      (if c.isActive && c.name in counts && counts[c.name] > 0 then [c] else [])
      + KeepCounted(categories[1..], counts)
  }

  /** `counts` holds, for every name, the number of `products` filed under it. */
  ghost predicate CountsOf(counts: map<string, nat>, products: seq<Product>) {
    forall k :: (k in counts <==> CountIn(products, k) > 0)
             && (k in counts ==> counts[k] == CountIn(products, k))
  }

  lemma {:induction false} KeepCountedIsActiveWithProducts(
    categories: seq<Category>, counts: map<string, nat>, products: seq<Product>)
    requires CountsOf(counts, products)
    ensures KeepCounted(categories, counts) == ActiveWithProducts(categories, products)
  {
    if categories != [] {
      KeepCountedIsActiveWithProducts(categories[1..], counts, products);
    }
  }

  /** `getActiveCategoriesWithProducts` once both collections are fetched:
      count the products per category name, then keep the counted active
      categories. */
  method GetActiveCategoriesWithProducts(categories: seq<Category>, products: seq<Product>)
    returns (r: seq<Category>)
    ensures r == ActiveWithProducts(categories, products)
  {
    var counts: map<string, nat> := map[];
    var i := 0;
    while i < |products|
      invariant 0 <= i <= |products|
      invariant CountsOf(counts, products[..i])
    {
      var p := products[i];
      assert products[..i + 1][..i] == products[..i];
      if p.category.Some? && p.category.value != "" {
        var key := p.category.value;
        counts := counts[key := (if key in counts then counts[key] else 0) + 1];
      }
      i := i + 1;
    }
    assert products[..|products|] == products;
    r := KeepCounted(categories, counts);
    KeepCountedIsActiveWithProducts(categories, counts, products);
  }

  /** A category is listed exactly when it is one of the given categories,
      is active, and some product is filed under its (non-empty) name. */
  lemma {:induction false} ActiveWithProductsMembers(
    categories: seq<Category>, products: seq<Product>, c: Category)
    ensures c in ActiveWithProducts(categories, products) <==>
      c in categories && c.isActive && c.name != "" &&
      exists j :: 0 <= j < |products| && products[j].category == Some(c.name)
  {
    CountPositiveIff(products, c.name);
    if categories != [] {
      ActiveWithProductsMembers(categories[1..], products, c);
      assert categories == [categories[0]] + categories[1..];
    }
  }

  /** The list keeps the input order: it distributes over concatenation. */
  lemma {:induction false} ActiveWithProductsAppend(
    a: seq<Category>, b: seq<Category>, products: seq<Product>)
    ensures ActiveWithProducts(a + b, products)
         == ActiveWithProducts(a, products) + ActiveWithProducts(b, products)
  {
    if a == [] {
      assert a + b == b;
    } else {
      assert (a + b)[1..] == a[1..] + b;
      ActiveWithProductsAppend(a[1..], b, products);
    }
  }

  /** A product whose category is absent or empty changes no count, so it
      changes nothing in the list. */
  lemma {:induction false} UncategorizedProductIgnored(
    categories: seq<Category>, before: seq<Product>, p: Product, after: seq<Product>)
    requires p.category == None || p.category == Some("")
    ensures ActiveWithProducts(categories, before + [p] + after)
         == ActiveWithProducts(categories, before + after)
  {
    forall name: string
      ensures CountIn(before + [p] + after, name) == CountIn(before + after, name)
    {
      CountInAppend(before + [p], after, name);
      CountInAppend(before, [p], name);
      CountInAppend(before, after, name);
      assert CountIn([p], name) == 0 by {
        assert [p][..0] == [];
      }
    }
    if categories != [] {
      UncategorizedProductIgnored(categories[1..], before, p, after);
    }
  }

  datatype CategoryError =
    | CategoryNotFound   // the "Category not found" error `deleteCategory` throws
    | DocumentMissing    // the database's rejection of an update to an absent document

  /** `setDoc(ref, category, { merge: true })` on the stored record `existing`:
      every field of `category` overwrites, and an absent `image` keeps the
      stored one. */
  function Merge(existing: Option<Category>, category: Category): (r: Category)
    ensures r.id == category.id && r.name == category.name && r.slug == category.slug
    ensures r.order == category.order && r.isActive == category.isActive
    ensures r.image == (if category.image == Missing && existing.Some?
                        then existing.value.image else category.image)
  {
    match existing
    case None => category
    case Some(stored) => if category.image == Missing then category.(image := stored.image) else category
  }

  /** Writing the same category twice is writing it once. */
  lemma MergeIdempotent(existing: Option<Category>, category: Category)
    ensures Merge(Some(Merge(existing, category)), category) == Merge(existing, category)
  {
  }

  /** The category collection (documents keyed by id) and the stored image
      objects (by URL). */
  class CategoryStore {
    var records: map<string, Category>
    var images: set<string>

    /** Every document is stored under its own `id`. */
    ghost predicate Valid()
      reads this
    {
      forall id :: id in records ==> records[id].id == id
    }

    constructor (records0: map<string, Category>, images0: set<string>)
      requires forall id :: id in records0 ==> records0[id].id == id
      ensures Valid() && records == records0 && images == images0
    {
      records := records0;
      images := images0;
    }

    /** `deleteCategory(id)`. An absent id fails with "Category not found" and
        changes nothing. Otherwise the document is removed first; then, when
        its image field holds a URL, the stored object is removed too, and a
        failure of that removal (the object is not stored, or `storageFault`)
        is swallowed with the document still gone. */
    method DeleteCategory(id: string, storageFault: bool) returns (r: Outcome<CategoryError>)
      requires Valid()
      modifies this
      ensures Valid()
      ensures id !in old(records) ==>
        r == Fail(CategoryNotFound) && records == old(records) && images == old(images)
      ensures id in old(records) ==> r == Pass && records == old(records) - {id}
      ensures id in old(records) ==>
        images == (if HasImage(old(records)[id]) && !storageFault
                   then old(images) - {old(records)[id].image.url} else old(images))
      ensures forall k :: k in records ==> records[k].id != id
    {
      if id in records {
        var data := records[id];
        records := records - {id};
        if HasImage(data) {
          var url := data.image.url;
          if !storageFault && url in images {
            images := images - {url};
          }
        }
        r := Pass;
      } else {
        r := Fail(CategoryNotFound);
      }
    }

    /** `toggleCategoryStatus(id, isActive)`: only that document's `isActive`
        field changes; an absent document is rejected and nothing changes. */
    method ToggleCategoryStatus(id: string, isActive: bool) returns (r: Outcome<CategoryError>)
      requires Valid()
      modifies this`records
      ensures Valid()
      ensures id !in old(records) ==> r == Fail(DocumentMissing) && records == old(records)
      ensures id in old(records) ==>
        r == Pass && records == old(records)[id := old(records)[id].(isActive := isActive)]
    {
      if id in records {
        records := records[id := records[id].(isActive := isActive)];
        r := Pass;
      } else {
        r := Fail(DocumentMissing);
      }
    }

    /** `upsertCategory(category)`: creates or merges the document keyed by
        `category.id`; no other document and no stored image changes. */
    method UpsertCategory(category: Category)
      requires Valid()
      modifies this`records
      ensures Valid()
      ensures records == old(records)[category.id :=
        Merge(if category.id in old(records) then Some(old(records)[category.id]) else None, category)]
    {
      var existing := if category.id in records then Some(records[category.id]) else None;
      records := records[category.id := Merge(existing, category)];
    }
  }

  /** Toggling a category to the other status and back restores the store. */
  method ToggleTwiceRestores(store: CategoryStore, id: string)
    requires store.Valid() && id in store.records
    modifies store`records
    ensures store.Valid() && store.records == old(store.records)
  {
    var was := store.records[id].isActive;
    var _ := store.ToggleCategoryStatus(id, !was);
    var _ := store.ToggleCategoryStatus(id, was);
    assert store.records[id] == old(store.records)[id];
    assert store.records.Keys == old(store.records).Keys;
  }
}
