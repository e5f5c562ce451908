/** The product list and the pure views the page derives from it: the grid
    filter, the hero's featured list, the video-fallback and per-category image
    lists, and the bestseller choice. The list is loaded once and never mutated. */
module Products {

  datatype Option<T> = None | Some(value: T)

  /** A catalogue entry, reduced to the fields the page logic reads
      (names, descriptions and features only feed the markup). */
  datatype Product = Product(id: string, images: seq<string>, categories: seq<string>, bestseller: bool)

  /** The filter value that shows every product. */
  const ALL_FILTER := "all"
  const FEATURED_COUNT := 5
  const VIDEO_IMAGES_PER_PRODUCT := 2
  const VIDEO_IMAGE_COUNT := 6
  const CATEGORY_IMAGES_PER_PRODUCT := 3
  const BESTSELLER_THUMB_COUNT := 5

  function Min(a: int, b: int): int {
    if a <= b then a else b
  }

  /** `s.slice(0, n)`: the first `n` elements, or all of `s` when it is shorter. */
  function Take<T>(s: seq<T>, n: nat): (r: seq<T>)
    ensures |r| == Min(|s|, n)
    ensures r <= s
  {
    if |s| <= n then s else s[..n]
  }

  /** The two tests the page selects products by: category membership
      (`p.categories.includes(c)`) and the bestseller flag. */
  datatype Criterion = InCategory(category: string) | IsBestseller(flag: bool)

  predicate Matches(p: Product, c: Criterion) {
    match c
    case InCategory(cat) => cat in p.categories
    case IsBestseller(flag) => p.bestseller == flag
  }

  /** `ps.filter(...)`: the products that match, in list order. */
  function Select(ps: seq<Product>, c: Criterion): (r: seq<Product>)
    ensures |r| <= |ps|
  {
    if ps == [] then [] else (if Matches(ps[0], c) then [ps[0]] else []) + Select(ps[1..], c)
  }

  /** A product is selected exactly when it is in the list and matches. */
  lemma {:induction false} SelectMembership(ps: seq<Product>, c: Criterion)
    ensures forall p :: p in Select(ps, c) <==> p in ps && Matches(p, c)
  {
    if ps != [] {
      SelectMembership(ps[1..], c);
      assert forall p :: p in ps <==> p == ps[0] || p in ps[1..];
    }
  }

  lemma SelectFirst(ps: seq<Product>, c: Criterion)
    requires ps != []
    ensures Select(ps, c) == if Matches(ps[0], c) then [ps[0]] + Select(ps[1..], c) else Select(ps[1..], c)
  {
  }

  /** Selection distributes over concatenation, so it keeps the list order. */
  lemma {:induction false} SelectAppend(a: seq<Product>, b: seq<Product>, c: Criterion)
    ensures Select(a + b, c) == Select(a, c) + Select(b, c)
  {
    if a == [] {
      assert a + b == b;
    } else {
      var h := if Matches(a[0], c) then [a[0]] else [];
      assert (a + b)[0] == a[0];
      assert (a + b)[1..] == a[1..] + b;
      SelectAppend(a[1..], b, c);
      assert Select(a + b, c) == h + (Select(a[1..], c) + Select(b, c));
      assert h + (Select(a[1..], c) + Select(b, c)) == (h + Select(a[1..], c)) + Select(b, c);
    }
  }

  /** Selecting twice by the same criterion selects nothing more. */
  lemma {:induction false} SelectIdempotent(ps: seq<Product>, c: Criterion)
    ensures Select(Select(ps, c), c) == Select(ps, c)
  {
    if ps != [] {
      SelectIdempotent(ps[1..], c);
      var s := Select(ps, c);
      if Matches(ps[0], c) {
        assert s == [ps[0]] + Select(ps[1..], c);
        assert s[0] == ps[0] && s[1..] == Select(ps[1..], c);
      } else {
        assert s == Select(ps[1..], c);
      }
    }
  }

  /** Bestsellers and the rest split the list: every product is in exactly one part. */
  lemma {:induction false} SelectSplitLength(ps: seq<Product>)
    ensures |Select(ps, IsBestseller(true))| + |Select(ps, IsBestseller(false))| == |ps|
  {
    if ps != [] {
      SelectSplitLength(ps[1..]);
    }
  }

  /** `filterProducts(products, category)`: everything for "all", otherwise the
      products tagged with the category. */
  function FilterProducts(ps: seq<Product>, category: string): (r: seq<Product>)
    ensures category == ALL_FILTER ==> r == ps
    ensures category != ALL_FILTER ==> forall p :: p in r <==> p in ps && category in p.categories
    ensures |r| <= |ps|
  {
    if category == ALL_FILTER then ps
    else
      SelectMembership(ps, InCategory(category));
      Select(ps, InCategory(category))
  }

  /** The filter keeps order: filtering a concatenation is concatenating the
      filtered parts; with the membership guarantee this pins the result down. */
  lemma FilterProductsAppend(a: seq<Product>, b: seq<Product>, category: string)
    ensures FilterProducts(a + b, category) == FilterProducts(a, category) + FilterProducts(b, category)
  {
    if category != ALL_FILTER {
      SelectAppend(a, b, InCategory(category));
    }
  }

  /** Re-applying the current filter to the grid's products changes nothing. */
  lemma FilterProductsIdempotent(ps: seq<Product>, category: string)
    ensures FilterProducts(FilterProducts(ps, category), category) == FilterProducts(ps, category)
  {
    if category != ALL_FILTER {
      SelectIdempotent(ps, InCategory(category));
    }
  }

  // ----- the hero's featured list -----

  function Rank(p: Product): int {
    if p.bestseller then 1 else 0
  }

  /** The comparator `(a, b) => b.bestseller - a.bestseller`: negative when `a`
      sorts before `b`. */
  function CompareBestsellerFirst(a: Product, b: Product): int {
    Rank(b) - Rank(a)
  }

  /** Inserts `x`, which came before every element of the sorted `s` in the
      input, ahead of the first element it does not sort after. */
  function Insert(x: Product, s: seq<Product>): (r: seq<Product>)
    ensures multiset(r) == multiset(s) + multiset{x}
  {
    if s == [] || CompareBestsellerFirst(x, s[0]) <= 0 then [x] + s
    else
      assert s == [s[0]] + s[1..];
      [s[0]] + Insert(x, s[1..])
  }

  /** `Array.prototype.sort` with the comparator above. The language requires a
      stable sort; this is stable insertion sort. */
  function StableSort(ps: seq<Product>): (r: seq<Product>)
    ensures multiset(r) == multiset(ps)
  {
    if ps == [] then []
    else
      assert ps == [ps[0]] + ps[1..];
      Insert(ps[0], StableSort(ps[1..]))
  }

  lemma {:induction false} InsertPastBestsellers(x: Product, b: seq<Product>, o: seq<Product>)
    requires !x.bestseller
    requires forall y :: y in b ==> y.bestseller
    requires forall y :: y in o ==> !y.bestseller
    ensures Insert(x, b + o) == b + [x] + o
  {
    if b == [] {
      assert b + o == o;
    } else {
      assert (b + o)[0] == b[0];
      assert (b + o)[1..] == b[1..] + o;
      InsertPastBestsellers(x, b[1..], o);
    }
  }

  lemma InsertAhead(x: Product, s: seq<Product>)
    requires x.bestseller
    ensures Insert(x, s) == [x] + s
  {
  }

  /** The sort puts the bestsellers first and the others after them, each group
      in its original order. */
  lemma {:induction false} StableSortSplits(ps: seq<Product>)
    ensures StableSort(ps) == Select(ps, IsBestseller(true)) + Select(ps, IsBestseller(false))
  {
    if ps != [] {
      StableSortSplits(ps[1..]);
      StableSortSplitsStep(ps);
    }
  }

  /** One insertion step of StableSortSplits. */
  lemma StableSortSplitsStep(ps: seq<Product>)
    requires ps != []
    requires StableSort(ps[1..]) == Select(ps[1..], IsBestseller(true)) + Select(ps[1..], IsBestseller(false))
    ensures StableSort(ps) == Select(ps, IsBestseller(true)) + Select(ps, IsBestseller(false))
  {
    if ps[0].bestseller {
      InsertBestsellerStep(ps);
    } else {
      InsertOtherStep(ps);
    }
  }

  lemma InsertBestsellerStep(ps: seq<Product>)
    requires ps != [] && ps[0].bestseller
    requires StableSort(ps[1..]) == Select(ps[1..], IsBestseller(true)) + Select(ps[1..], IsBestseller(false))
    ensures StableSort(ps) == Select(ps, IsBestseller(true)) + Select(ps, IsBestseller(false))
  {
    var x, b, o := ps[0], Select(ps[1..], IsBestseller(true)), Select(ps[1..], IsBestseller(false));
    calc {
      StableSort(ps);
      Insert(x, b + o);
      { InsertAhead(x, b + o); }
      [x] + (b + o);
      ([x] + b) + o;
      { SelectFirst(ps, IsBestseller(true)); SelectFirst(ps, IsBestseller(false)); }
      Select(ps, IsBestseller(true)) + Select(ps, IsBestseller(false));
    }
  }

  lemma InsertOtherStep(ps: seq<Product>)
    requires ps != [] && !ps[0].bestseller
    requires StableSort(ps[1..]) == Select(ps[1..], IsBestseller(true)) + Select(ps[1..], IsBestseller(false))
    ensures StableSort(ps) == Select(ps, IsBestseller(true)) + Select(ps, IsBestseller(false))
  {
    var x, b, o := ps[0], Select(ps[1..], IsBestseller(true)), Select(ps[1..], IsBestseller(false));
    calc {
      StableSort(ps);
      Insert(x, b + o);
      { SelectMembership(ps[1..], IsBestseller(true));
        SelectMembership(ps[1..], IsBestseller(false));
        InsertOther(x, b, o); }
      b + ([x] + o);
      { SelectFirst(ps, IsBestseller(true)); SelectFirst(ps, IsBestseller(false)); }
      Select(ps, IsBestseller(true)) + Select(ps, IsBestseller(false));
    }
  }

  lemma {:induction false} InsertOther(x: Product, b: seq<Product>, o: seq<Product>)
    requires !x.bestseller
    requires forall y :: y in b ==> Matches(y, IsBestseller(true))
    requires forall y :: y in o ==> Matches(y, IsBestseller(false))
    ensures Insert(x, b + o) == b + ([x] + o)
  {
    InsertPastBestsellers(x, b, o);
    assert b + [x] + o == b + ([x] + o);
  }

  /** A prefix of "bestsellers, then the rest" never has a bestseller after a
      non-bestseller, and holds nothing but elements of the two parts. */
  lemma GroupedPrefix(r: seq<Product>, b: seq<Product>, o: seq<Product>)
    requires r <= b + o
    requires forall y :: y in b ==> y.bestseller
    requires forall y :: y in o ==> !y.bestseller
    ensures forall i, j :: 0 <= i < j < |r| && r[j].bestseller ==> r[i].bestseller
    ensures forall y :: y in r ==> y in b || y in o
  {
    forall j | 0 <= j < |r|
      ensures r[j] in b || r[j] in o
      ensures r[j].bestseller ==> j < |b|
    {
      if j < |b| {
        assert r[j] == b[j];
      } else {
        assert r[j] == o[j - |b|];
      }
    }
    forall y | y in r
      ensures y in b || y in o
    {
      var j :| 0 <= j < |r| && r[j] == y;
    }
  }

  /** `[...products].sort(bestseller first).slice(0, 5)`: the hero slides. */
  function Featured(ps: seq<Product>): (r: seq<Product>)
    ensures |r| == Min(|ps|, FEATURED_COUNT)
    ensures r <= Select(ps, IsBestseller(true)) + Select(ps, IsBestseller(false))
    ensures forall i, j :: 0 <= i < j < |r| && r[j].bestseller ==> r[i].bestseller
    ensures forall p :: p in r ==> p in ps
  {
    StableSortSplits(ps);
    SelectSplitLength(ps);
    SelectMembership(ps, IsBestseller(true));
    SelectMembership(ps, IsBestseller(false));
    GroupedPrefix(Take(StableSort(ps), FEATURED_COUNT), Select(ps, IsBestseller(true)), Select(ps, IsBestseller(false)));
    Take(StableSort(ps), FEATURED_COUNT)
  }

  /** When there are at most five bestsellers, the hero shows all of them. */
  lemma FeaturedShowsFewBestsellers(ps: seq<Product>, p: Product)
    requires p in ps && p.bestseller
    requires |Select(ps, IsBestseller(true))| <= FEATURED_COUNT
    ensures p in Featured(ps)
  {
    var b := Select(ps, IsBestseller(true));
    SelectSplitLength(ps);
    SelectMembership(ps, IsBestseller(true));
    var r := Featured(ps);
    assert |b| <= |r|;
    assert p in b;
    var k :| 0 <= k < |b| && b[k] == p;
    assert r[k] == (b + Select(ps, IsBestseller(false)))[k];
  }

  // ----- image lists -----

  /** `ps.flatMap(p => p.images.slice(0, k))`. */
  function FlatTake(ps: seq<Product>, k: nat): seq<string> {
    if ps == [] then [] else Take(ps[0].images, k) + FlatTake(ps[1..], k)
  }

  /** An image is in the flattened list exactly when it is among the first `k`
      images of some product. */
  lemma {:induction false} FlatTakeMembership(ps: seq<Product>, k: nat)
    ensures forall x :: x in FlatTake(ps, k) <==> exists i :: 0 <= i < |ps| && x in Take(ps[i].images, k)
  {
    if ps != [] {
      FlatTakeMembership(ps[1..], k);
      forall x
        ensures x in FlatTake(ps, k) <==> exists i :: 0 <= i < |ps| && x in Take(ps[i].images, k)
      {
        if x in FlatTake(ps[1..], k) {
          var i :| 0 <= i < |ps[1..]| && x in Take(ps[1..][i].images, k);
          assert x in Take(ps[i + 1].images, k);
        }
        if i :| 0 <= i < |ps| && x in Take(ps[i].images, k) {
          if i > 0 {
            assert x in Take(ps[1..][i - 1].images, k);
          }
        }
      }
    }
  }

  /** `flatMap` distributes over concatenation: the images come product by
      product, in list order. */
  lemma {:induction false} FlatTakeAppend(a: seq<Product>, b: seq<Product>, k: nat)
    ensures FlatTake(a + b, k) == FlatTake(a, k) + FlatTake(b, k)
  {
    if a == [] {
      assert a + b == b;
    } else {
      var h := Take(a[0].images, k);
      assert (a + b)[0] == a[0];
      assert (a + b)[1..] == a[1..] + b;
      FlatTakeAppend(a[1..], b, k);
      assert FlatTake(a, k) == h + FlatTake(a[1..], k);
      assert FlatTake(a + b, k) == h + FlatTake(a[1..] + b, k);
      assert h + (FlatTake(a[1..], k) + FlatTake(b, k)) == (h + FlatTake(a[1..], k)) + FlatTake(b, k);
    }
  }

  /** `products.flatMap(p => p.images.slice(0, 2)).slice(0, 6)`: the video-fallback slides. */
  function VideoFallbackImages(ps: seq<Product>): (r: seq<string>)
    ensures |r| == Min(|FlatTake(ps, VIDEO_IMAGES_PER_PRODUCT)|, VIDEO_IMAGE_COUNT)
    ensures r <= FlatTake(ps, VIDEO_IMAGES_PER_PRODUCT)
    ensures forall x :: x in r ==> exists i :: 0 <= i < |ps| && x in Take(ps[i].images, VIDEO_IMAGES_PER_PRODUCT)
  {
    var all := FlatTake(ps, VIDEO_IMAGES_PER_PRODUCT);
    FlatTakeMembership(ps, VIDEO_IMAGES_PER_PRODUCT);
    var r := Take(all, VIDEO_IMAGE_COUNT);
    assert forall x :: x in r ==> x in all by {
      forall x | x in r
        ensures x in all
      {
        var j :| 0 <= j < |r| && r[j] == x;
        assert all[j] == x;
      }
    }
    r
  }

  /** With three products of two or more images each, the video fallback shows
      the first two images of each of the first three products, in order. */
  lemma VideoFallbackFromFirstThree(ps: seq<Product>)
    requires |ps| >= 3
    requires forall i :: 0 <= i < 3 ==> |ps[i].images| >= 2
    ensures VideoFallbackImages(ps) ==
      [ps[0].images[0], ps[0].images[1], ps[1].images[0], ps[1].images[1], ps[2].images[0], ps[2].images[1]]
  {
    var k := VIDEO_IMAGES_PER_PRODUCT;
    assert FlatTake(ps, k) == Take(ps[0].images, k) + FlatTake(ps[1..], k);
    assert FlatTake(ps[1..], k) == Take(ps[1].images, k) + FlatTake(ps[2..], k) by {
      assert ps[1..][1..] == ps[2..];
    }
    assert FlatTake(ps[2..], k) == Take(ps[2].images, k) + FlatTake(ps[3..], k) by {
      assert ps[2..][1..] == ps[3..];
    }
  }

  /** The slides of one category's slideshow: up to three images of each
      product in the category, product by product. */
  function CategoryImages(ps: seq<Product>, category: string): (r: seq<string>)
    ensures forall x :: x in r <==>
      exists p :: p in ps && category in p.categories && x in Take(p.images, CATEGORY_IMAGES_PER_PRODUCT)
  {
    var members := Select(ps, InCategory(category));
    SelectMembership(ps, InCategory(category));
    FlatTakeMembership(members, CATEGORY_IMAGES_PER_PRODUCT);
    var r := FlatTake(members, CATEGORY_IMAGES_PER_PRODUCT);
    assert forall x :: x in r <==>
      exists p :: p in ps && category in p.categories && x in Take(p.images, CATEGORY_IMAGES_PER_PRODUCT) by {
      forall x
        ensures x in r <==>
          exists p :: p in ps && category in p.categories && x in Take(p.images, CATEGORY_IMAGES_PER_PRODUCT)
      {
        if p :| p in ps && category in p.categories && x in Take(p.images, CATEGORY_IMAGES_PER_PRODUCT) {
          var i :| 0 <= i < |members| && members[i] == p;
          assert x in Take(members[i].images, CATEGORY_IMAGES_PER_PRODUCT);
        }
        if x in r {
          var i :| 0 <= i < |members| && x in Take(members[i].images, CATEGORY_IMAGES_PER_PRODUCT);
          assert members[i] in members;
        }
      }
    }
    r
  }

  /** A category's slides over a concatenated list are the slides of each
      part, one after the other. */
  lemma CategoryImagesAppend(a: seq<Product>, b: seq<Product>, category: string)
    ensures CategoryImages(a + b, category) == CategoryImages(a, category) + CategoryImages(b, category)
  {
    SelectAppend(a, b, InCategory(category));
    FlatTakeAppend(Select(a, InCategory(category)), Select(b, InCategory(category)), CATEGORY_IMAGES_PER_PRODUCT);
  }

  /** One product contributes its first three images when it is in the
      category and nothing otherwise. With CategoryImagesAppend this fixes the
      slides, their order and their count (`totalSlides`). */
  lemma CategoryImagesOfOne(p: Product, category: string)
    ensures CategoryImages([p], category) ==
      if category in p.categories then Take(p.images, CATEGORY_IMAGES_PER_PRODUCT) else []
  {
    assert [p][1..] == [];
    if category in p.categories {
      assert Select([p], InCategory(category)) == [p];
      assert FlatTake([p], CATEGORY_IMAGES_PER_PRODUCT) == Take(p.images, CATEGORY_IMAGES_PER_PRODUCT) + [];
    } else {
      assert Select([p], InCategory(category)) == [];
    }
  }

  // ----- lookups -----

  /** `s.findIndex(f)`: the first position whose element satisfies `f`. */
  function FindIndex<T>(s: seq<T>, f: T -> bool): (r: Option<nat>)
    ensures r.Some? ==> r.value < |s| && f(s[r.value]) && forall j :: 0 <= j < r.value ==> !f(s[j])
    ensures r.None? ==> forall j :: 0 <= j < |s| ==> !f(s[j])
  {
    if s == [] then None
    else if f(s[0]) then Some(0)
    else match FindIndex(s[1..], f)
      case None => None
      case Some(i) => Some(i + 1)
  }

  /** `products.find(p => p.id === productId)`. */
  function FindById(ps: seq<Product>, id: string): (r: Option<Product>)
    ensures r.None? <==> forall p :: p in ps ==> p.id != id
    ensures r.Some? ==> r.value.id == id
    ensures r.Some? ==> exists i :: 0 <= i < |ps| && ps[i] == r.value && (forall j :: 0 <= j < i ==> ps[j].id != id)
  {
    match FindIndex(ps, (p: Product) => p.id == id)
    case None => None
    case Some(i) => Some(ps[i])
  }

  /** Position of `products.find((p: Product) => p.bestseller) || products[0]`. */
  function BestsellerIndex(ps: seq<Product>): (r: Option<nat>)
    ensures r.None? <==> ps == []
    ensures r.Some? ==> r.value < |ps| && forall j :: 0 <= j < r.value ==> !ps[j].bestseller
    ensures r.Some? && !ps[r.value].bestseller ==> r.value == 0 && forall j :: 0 <= j < |ps| ==> !ps[j].bestseller
  {
    match FindIndex(ps, (p: Product) => p.bestseller)
    case Some(i) => Some(i)
    case None => if ps == [] then None else Some(0)
  }

  /** The bestseller section's thumbnails: up to five images of the chosen product. */
  function BestsellerThumbnails(ps: seq<Product>): (r: seq<string>)
    ensures |r| <= BESTSELLER_THUMB_COUNT
    ensures ps == [] ==> r == []
    ensures ps != [] ==> exists i :: 0 <= i < |ps| && r <= ps[i].images
    ensures BestsellerIndex(ps).Some? ==>
      r <= ps[BestsellerIndex(ps).value].images &&
      |r| == Min(|ps[BestsellerIndex(ps).value].images|, BESTSELLER_THUMB_COUNT)
  {
    match BestsellerIndex(ps)
    case None => []
    case Some(i) => Take(ps[i].images, BESTSELLER_THUMB_COUNT)
  }
}
