/** The carousel controllers. Every slideshow on the page (hero, video
    fallback, category slideshows, product cards, bestseller gallery) keeps a
    current index and renders it by toggling an "active" flag on each slide and
    on each indicator dot. */
module Carousels {
  import opened Indexing
  import opened Swipe
  import opened Products

  /** The `forEach((el, i) => el.classList.toggle('active', i === index))` loop. */
  method MarkActive(flags: array<bool>, index: int)
    modifies flags
    ensures forall j :: 0 <= j < flags.Length ==> flags[j] == (j == index)
  {
    for j := 0 to flags.Length
      invariant forall k :: 0 <= k < j ==> flags[k] == (k == index)
    {
      flags[j] := j == index;
    }
  }

  /** One slideshow: its state (`currentIndex`, whether an autoplay interval is
      set, product cards' `isPaused`) and the active flags of its slides and dots.
      The slide count (`slides.length`, `totalSlides`, `imageCount`) is the
      number of slides rendered. */
  class Carousel {
    var current: int
    var running: bool
    var paused: bool
    const slides: array<bool>
    const dots: array<bool>

    /** Exactly the slide and the dot at position `i` are marked active. */
    ghost predicate Shows(i: int)
      reads slides, dots
    {
      (forall j :: 0 <= j < slides.Length ==> slides[j] == (j == i)) &&
      (forall j :: 0 <= j < dots.Length ==> dots[j] == (j == i))
    }

    /** The interval and the hover pause are as they were. */
    twostate predicate FlagsKept()
      reads this
    {
      running == old(running) && paused == old(paused)
    }

    /** The index and every active flag are as they were. */
    twostate predicate Unmoved()
      reads this, slides, dots
    {
      current == old(current) && slides[..] == old(slides[..]) && dots[..] == old(dots[..])
    }

    /** The rendered markup: slide and dot 0 active (`index === 0 ? 'active' : ''`),
        no interval set yet. */
    constructor (slideCount: nat, dotCount: nat)
      ensures current == 0 && !running && !paused
      ensures slides.Length == slideCount && dots.Length == dotCount
      ensures fresh(slides) && fresh(dots)
      ensures Shows(0)
    {
      current, running, paused := 0, false, false;
      slides := new bool[slideCount](j => j == 0);
      dots := new bool[dotCount](j => j == 0);
    }

    /** `goTo(index)`: records the index and marks that slide and dot active;
        an index outside the slides leaves none of them active. */
    method GoTo(index: int)
      modifies this`current, slides, dots
      ensures current == index && Shows(index)
    {
      current := index;
      MarkActive(slides, index);
      MarkActive(dots, index);
      assert forall j :: 0 <= j < slides.Length ==> slides[j] == (j == index);
    }

    /** "next": `(current + 1) % count`. */
    method Next()
      requires slides.Length > 0
      modifies this`current, slides, dots
      ensures current == NextIndex(old(current), slides.Length) && Shows(current)
      ensures -1 <= old(current) ==> 0 <= current < slides.Length
    {
      GoTo(NextIndex(current, slides.Length));
    }

    /** "prev": `(current - 1 + count) % count`. */
    method Prev()
      requires slides.Length > 0
      modifies this`current, slides, dots
      ensures current == PrevIndex(old(current), slides.Length) && Shows(current)
      ensures 1 - slides.Length <= old(current) ==> 0 <= current < slides.Length
    {
      GoTo(PrevIndex(current, slides.Length));
    }

    /** One autoplay interval firing: nothing happens without an interval, and
        a paused product carousel stays where it is. */
    method Tick()
      requires running && !paused ==> slides.Length > 0
      modifies this`current, slides, dots
      ensures old(running && !paused) ==> current == NextIndex(old(current), slides.Length) && Shows(current)
      ensures !old(running && !paused) ==> current == old(current) && unchanged(slides, dots)
    {
      if running && !paused {
        Next();
      }
    }

    /** A classified swipe: left is "next", right is "prev", otherwise nothing. */
    method ApplySwipe(g: Gesture)
      requires g != Ignored ==> slides.Length > 0
      modifies this`current, slides, dots
      ensures g != Ignored ==> current == SwipeTarget(old(current), slides.Length, g) && Shows(current)
      ensures g == Ignored ==> current == old(current) && unchanged(slides, dots)
    {
      match g
      case Ignored =>
      case SwipeLeft => Next();
      case SwipeRight => Prev();
    }

    /** `setInterval(...)`: autoplay starts. */
    method Start()
      modifies this`running
      ensures running
    {
      running := true;
    }

    /** `clearInterval(...)`: autoplay stops. */
    method Stop()
      modifies this`running
      ensures !running
    {
      running := false;
    }

    /** `isPaused = paused` (mouse entering or leaving a product card). */
    method SetPaused(paused': bool)
      modifies this`paused
      ensures paused == paused'
    {
      paused := paused';
    }
  }

  /** Two carousels share no object: updating one cannot change the other. */
  predicate Separate(a: Carousel, b: Carousel) {
    a != b && a.slides != b.slides && a.slides != b.dots && a.dots != b.slides && a.dots != b.dots
  }

  ghost predicate AllSeparate(m: map<string, Carousel>) {
    forall a, b :: a in m && b in m && a != b ==> Separate(m[a], m[b])
  }

  ghost function Footprint(m: map<string, Carousel>): set<object> {
    (set k | k in m :: m[k] as object) + (set k | k in m :: m[k].slides as object) +
    (set k | k in m :: m[k].dots as object)
  }

  function TouchedBy(m: map<string, Carousel>, key: string): set<object> {
    if key in m then {m[key], m[key].slides, m[key].dots} else {}
  }

  /** Every carousel of the table except the one under `key` is as it was. */
  twostate predicate OthersUnchanged(m: map<string, Carousel>, key: string)
    reads Footprint(m)
  {
    forall k :: k in m && k != key ==>
      m[k].current == old(m[k].current) && m[k].running == old(m[k].running) &&
      m[k].paused == old(m[k].paused) &&
      m[k].slides[..] == old(m[k].slides[..]) && m[k].dots[..] == old(m[k].dots[..])
  }

  /** Ids of the products that get a card carousel: those with more than one image. */
  function CarouselIds(ps: seq<Product>): set<string> {
    set p | p in ps && |p.images| > 1 :: p.id
  }

  /** The image count of the last product with this id and more than one
      image: the one whose carousel the table keeps. */
  function LastImageCount(ps: seq<Product>, id: string): nat {
    if ps == [] then 0
    else if ps[|ps| - 1].id == id && |ps[|ps| - 1].images| > 1 then |ps[|ps| - 1].images|
    else LastImageCount(ps[..|ps| - 1], id)
  }

  lemma CarouselIdsAppend(ps: seq<Product>, p: Product)
    ensures CarouselIds(ps + [p]) == CarouselIds(ps) + (if |p.images| > 1 then {p.id} else {})
  {
    assert forall q :: q in ps + [p] <==> q in ps || q == p;
  }

  lemma LastImageCountAppend(ps: seq<Product>, p: Product)
    ensures forall id ::
      LastImageCount(ps + [p], id) == if p.id == id && |p.images| > 1 then |p.images| else LastImageCount(ps, id)
  {
    assert (ps + [p])[..|ps|] == ps;
  }

  /** A freshly rendered slideshow with its autoplay started: first slide,
      interval set, not paused, with the given numbers of slides and dots. */
  ghost predicate Started(c: Carousel, slideCount: nat, dotCount: nat)
    reads c, c.slides, c.dots
  {
    c.current == 0 && c.running && !c.paused && c.Shows(0) &&
    c.slides.Length == slideCount && c.dots.Length == dotCount
  }

  /** Renders a slideshow and sets its autoplay interval. */
  method NewStarted(slideCount: nat, dotCount: nat) returns (c: Carousel)
    ensures fresh(c) && fresh(c.slides) && fresh(c.dots)
    ensures Started(c, slideCount, dotCount)
  {
    c := new Carousel(slideCount, dotCount);
    c.Start();
  }

  /** Adding a carousel that shares no object with the table keeps the
      carousels of the table separate. */
  lemma AllSeparateInsert(m: map<string, Carousel>, key: string, c: Carousel)
    requires AllSeparate(m)
    requires c !in Footprint(m) && c.slides !in Footprint(m) && c.dots !in Footprint(m)
    ensures AllSeparate(m[key := c])
  {
    var m' := m[key := c];
    forall a, b | a in m' && b in m' && a != b
      ensures Separate(m'[a], m'[b])
    {
      if a != key && b != key {
        assert Separate(m[a], m[b]);
      } else if a == key {
        assert m[b] in Footprint(m) && m[b].slides in Footprint(m) && m[b].dots in Footprint(m);
      } else {
        assert m[a] in Footprint(m) && m[a].slides in Footprint(m) && m[a].dots in Footprint(m);
      }
    }
  }

  /** The products grid: the active filter, the filter buttons' active flags and
      the table of product-card carousels, keyed by product id. */
  class ProductGrid {
    const products: seq<Product>
    var currentFilter: string
    var carousels: map<string, Carousel>
    const filterButtons: seq<string>
    const buttonActive: array<bool>

    ghost predicate Valid()
      reads this
    {
      buttonActive.Length == |filterButtons| &&
      AllSeparate(carousels) &&
      forall id :: id in carousels ==>
        carousels[id].slides.Length > 1 &&
        carousels[id].slides != buttonActive && carousels[id].dots != buttonActive
    }

    /** The page as loaded: filter "all" (its button marked active, as the
        markup has it) and no product carousels yet. */
    constructor (products: seq<Product>, filterButtons: seq<string>)
      ensures Valid()
      ensures this.products == products && this.filterButtons == filterButtons
      ensures currentFilter == ALL_FILTER && carousels == map[]
      ensures fresh(buttonActive)
    {
      this.products := products;
      this.filterButtons := filterButtons;
      currentFilter := ALL_FILTER;
      carousels := map[];
      buttonActive := new bool[|filterButtons|]((i: int) => 0 <= i < |filterButtons| && filterButtons[i] == ALL_FILTER);
    }

    /** `renderProducts`: a fresh carousel, on its first image, unpaused and
        with autoplay started, for every visible product with more than one
        image; when two visible products share an id, the later one's carousel
        is the one kept. */
    method Render()
      requires Valid()
      modifies this`carousels
      ensures Valid()
      ensures forall id :: id in carousels <==> id in old(carousels) || id in CarouselIds(FilterProducts(products, currentFilter))
      ensures forall id :: id in CarouselIds(FilterProducts(products, currentFilter)) ==>
        fresh(carousels[id]) && fresh(carousels[id].slides) && fresh(carousels[id].dots) &&
        Started(carousels[id], LastImageCount(FilterProducts(products, currentFilter), id), LastImageCount(FilterProducts(products, currentFilter), id))
      ensures forall id :: id in old(carousels) && id !in CarouselIds(FilterProducts(products, currentFilter)) ==>
        carousels[id] == old(carousels[id])
    {
      var visible := FilterProducts(products, currentFilter);
      for i := 0 to |visible|
        invariant Valid()
        invariant forall id :: id in carousels <==> id in old(carousels) || id in CarouselIds(visible[..i])
        invariant forall id :: id in CarouselIds(visible[..i]) ==>
          fresh(carousels[id]) && fresh(carousels[id].slides) && fresh(carousels[id].dots) &&
          Started(carousels[id], LastImageCount(visible[..i], id), LastImageCount(visible[..i], id))
        invariant forall id :: id in old(carousels) && id !in CarouselIds(visible[..i]) ==>
          carousels[id] == old(carousels[id])
      {
        var p := visible[i];
        assert visible[..i + 1] == visible[..i] + [p];
        CarouselIdsAppend(visible[..i], p);
        LastImageCountAppend(visible[..i], p);
        ghost var before := carousels;
        if |p.images| > 1 {
          InitCarousel(p.id, |p.images|);
        }
        forall id | id in CarouselIds(visible[..i + 1])
          ensures fresh(carousels[id]) && fresh(carousels[id].slides) && fresh(carousels[id].dots)
          ensures Started(carousels[id], LastImageCount(visible[..i + 1], id), LastImageCount(visible[..i + 1], id))
        {
          if !(|p.images| > 1 && id == p.id) {
            assert id in CarouselIds(visible[..i]);
            assert carousels[id] == before[id];
          }
        }
      }
      assert visible[..|visible|] == visible;
    }

    /** `initProductCarousel(id, imageCount)` with its autoplay start. */
    method InitCarousel(id: string, imageCount: nat)
      requires Valid() && imageCount > 1
      modifies this`carousels
      ensures Valid()
      ensures carousels.Keys == old(carousels).Keys + {id}
      ensures forall k :: k in old(carousels) && k != id ==> carousels[k] == old(carousels[k])
      ensures fresh(carousels[id]) && fresh(carousels[id].slides) && fresh(carousels[id].dots)
      ensures Started(carousels[id], imageCount, imageCount)
    {
      var c := NewStarted(imageCount, imageCount);
      AllSeparateInsert(carousels, id, c);
      carousels := carousels[id := c];
    }

    /** `setFilter`: marks the matching button, clears every product carousel's
        interval, empties the table and records the filter. The grid is
        re-rendered afterwards by Render. */
    method SetFilter(filter: string)
      requires Valid()
      modifies this`carousels, this`currentFilter, buttonActive, set id | id in carousels :: carousels[id]
      ensures Valid()
      ensures currentFilter == filter && carousels == map[]
      ensures forall i :: 0 <= i < buttonActive.Length ==> buttonActive[i] == (filterButtons[i] == filter)
      ensures forall id :: id in old(carousels) ==> !old(carousels)[id].running
    {
      for i := 0 to buttonActive.Length
        invariant carousels == old(carousels) && currentFilter == old(currentFilter)
        invariant forall k :: 0 <= k < i ==> buttonActive[k] == (filterButtons[k] == filter)
      {
        buttonActive[i] := filterButtons[i] == filter;
      }
      var pending := carousels.Keys;
      while pending != {}
        invariant pending <= carousels.Keys
        invariant carousels == old(carousels)
        invariant forall i :: 0 <= i < buttonActive.Length ==> buttonActive[i] == (filterButtons[i] == filter)
        invariant forall id :: id in carousels && id !in pending ==> !carousels[id].running
        decreases pending
      {
        var id :| id in pending;
        carousels[id].Stop();
        pending := pending - {id};
      }
      carousels := map[];
      currentFilter := filter;
    }

    /** `nextProductSlide(id)`: no carousel for the id, no change. */
    method Next(id: string)
      requires Valid()
      modifies TouchedBy(carousels, id)
      ensures carousels == old(carousels) && OthersUnchanged(carousels, id)
      ensures id in carousels ==> carousels[id].current == NextIndex(old(carousels[id].current), carousels[id].slides.Length)
      ensures id in carousels ==> carousels[id].Shows(carousels[id].current)
      ensures id in carousels ==> carousels[id].FlagsKept()
    {
      if id in carousels {
        carousels[id].Next();
      }
    }

    /** `prevProductSlide(id)`. */
    method Prev(id: string)
      requires Valid()
      modifies TouchedBy(carousels, id)
      ensures carousels == old(carousels) && OthersUnchanged(carousels, id)
      ensures id in carousels ==> carousels[id].current == PrevIndex(old(carousels[id].current), carousels[id].slides.Length)
      ensures id in carousels ==> carousels[id].Shows(carousels[id].current)
      ensures id in carousels ==> carousels[id].FlagsKept()
    {
      if id in carousels {
        carousels[id].Prev();
      }
    }

    /** `goToProductSlide(id, index)` (a dot click). */
    method GoTo(id: string, index: int)
      requires Valid()
      modifies TouchedBy(carousels, id)
      ensures carousels == old(carousels) && OthersUnchanged(carousels, id)
      ensures id in carousels ==> carousels[id].current == index && carousels[id].Shows(index)
      ensures id in carousels ==> carousels[id].FlagsKept()
    {
      if id in carousels {
        carousels[id].GoTo(index);
      }
    }

    /** The autoplay interval of the carousel under `id` firing. */
    method Tick(id: string)
      requires Valid()
      modifies TouchedBy(carousels, id)
      ensures carousels == old(carousels) && OthersUnchanged(carousels, id)
      ensures id in carousels && old(carousels[id].running && !carousels[id].paused) ==>
        carousels[id].current == NextIndex(old(carousels[id].current), carousels[id].slides.Length)
      ensures id in carousels && old(carousels[id].running && !carousels[id].paused) ==>
        carousels[id].Shows(carousels[id].current)
      ensures id in carousels && !old(carousels[id].running && !carousels[id].paused) ==>
        carousels[id].Unmoved()
      ensures id in carousels ==> carousels[id].FlagsKept()
    {
      if id in carousels {
        carousels[id].Tick();
      }
    }

    /** `mouseenter` / `mouseleave` on the card of product `id`. */
    method Hover(id: string, entering: bool)
      requires Valid()
      modifies TouchedBy(carousels, id)
      ensures carousels == old(carousels) && OthersUnchanged(carousels, id)
      ensures id in carousels ==>
        carousels[id].paused == entering && carousels[id].running == old(carousels[id].running) &&
        carousels[id].Unmoved()
    {
      if id in carousels {
        carousels[id].SetPaused(entering);
      }
    }

    /** A swipe on the card of product `id`. */
    method Swipe(id: string, g: Gesture)
      requires Valid()
      modifies TouchedBy(carousels, id)
      ensures carousels == old(carousels) && OthersUnchanged(carousels, id)
      ensures id in carousels ==> carousels[id].current == SwipeTarget(old(carousels[id].current), carousels[id].slides.Length, g)
      ensures id in carousels && g != Ignored ==> carousels[id].Shows(carousels[id].current)
      ensures id in carousels && g == Ignored ==> carousels[id].Unmoved()
      ensures id in carousels ==> carousels[id].FlagsKept()
    {
      if id in carousels {
        carousels[id].ApplySwipe(g);
      }
    }
  }

  /** The category slideshows, in page order. */
  const CATEGORY_NAMES := ["privacy", "semi-privacy", "decorative", "modern"]

  /** The category slideshows, keyed by category name. */
  class CategoryShows {
    var carousels: map<string, Carousel>

    ghost predicate Valid()
      reads this
    {
      AllSeparate(carousels)
    }

    constructor ()
      ensures Valid() && carousels == map[]
    {
      carousels := map[];
    }

    /** `renderCategoryCarousels`: for each category whose slides element is on
        the page (`present`), a started slideshow over its category images. */
    method Render(ps: seq<Product>, present: set<string>)
      requires Valid()
      modifies this`carousels
      ensures Valid()
      ensures forall c :: c in carousels <==> c in old(carousels) || (c in CATEGORY_NAMES && c in present)
      ensures forall c :: c in CATEGORY_NAMES && c in present ==>
        fresh(carousels[c]) && fresh(carousels[c].slides) && fresh(carousels[c].dots) &&
        Started(carousels[c], |CategoryImages(ps, c)|, 0)
      ensures forall c :: c in old(carousels) && !(c in CATEGORY_NAMES && c in present) ==>
        carousels[c] == old(carousels[c])
    {
      for i := 0 to |CATEGORY_NAMES|
        invariant Valid()
        invariant forall c :: c in carousels <==> c in old(carousels) || (c in CATEGORY_NAMES[..i] && c in present)
        invariant forall c :: c in CATEGORY_NAMES[..i] && c in present ==>
          fresh(carousels[c]) && fresh(carousels[c].slides) && fresh(carousels[c].dots) &&
          Started(carousels[c], |CategoryImages(ps, c)|, 0)
        invariant forall c :: c in old(carousels) && !(c in CATEGORY_NAMES[..i] && c in present) ==>
          carousels[c] == old(carousels[c])
      {
        var name := CATEGORY_NAMES[i];
        assert CATEGORY_NAMES[..i + 1] == CATEGORY_NAMES[..i] + [name];
        ghost var before := carousels;
        if name in present {
          AddShow(name, |CategoryImages(ps, name)|);
        }
        forall c | c in CATEGORY_NAMES[..i + 1] && c in present
          ensures fresh(carousels[c]) && fresh(carousels[c].slides) && fresh(carousels[c].dots)
          ensures Started(carousels[c], |CategoryImages(ps, c)|, 0)
        {
          if c != name {
            assert c in CATEGORY_NAMES[..i];
            assert carousels[c] == before[c];
          }
        }
      }
      assert CATEGORY_NAMES[..|CATEGORY_NAMES|] == CATEGORY_NAMES;
    }

    /** One category's slideshow: rendered, autoplay started and recorded. */
    method AddShow(category: string, slideCount: nat)
      requires Valid()
      modifies this`carousels
      ensures Valid()
      ensures carousels.Keys == old(carousels).Keys + {category}
      ensures forall k :: k in old(carousels) && k != category ==> carousels[k] == old(carousels[k])
      ensures fresh(carousels[category]) && fresh(carousels[category].slides) && fresh(carousels[category].dots)
      ensures Started(carousels[category], slideCount, 0)
    {
      var c := NewStarted(slideCount, 0);
      AllSeparateInsert(carousels, category, c);
      carousels := carousels[category := c];
    }

    /** `nextCategorySlide(category)`; `found` is whether the slides element
        is found by its derived id or its data attribute. */
    method Next(category: string, found: bool)
      requires Valid()
      requires category in carousels && found ==> carousels[category].slides.Length > 0
      modifies TouchedBy(carousels, category)
      ensures carousels == old(carousels) && OthersUnchanged(carousels, category)
      ensures category in carousels && found ==>
        carousels[category].current == NextIndex(old(carousels[category].current), carousels[category].slides.Length) &&
        carousels[category].Shows(carousels[category].current)
      ensures category in carousels && !found ==> carousels[category].Unmoved()
      ensures category in carousels ==> carousels[category].FlagsKept()
    {
      if category in carousels && found {
        carousels[category].Next();
      }
    }

    /** `prevCategorySlide(category)`. */
    method Prev(category: string, found: bool)
      requires Valid()
      requires category in carousels && found ==> carousels[category].slides.Length > 0
      modifies TouchedBy(carousels, category)
      ensures carousels == old(carousels) && OthersUnchanged(carousels, category)
      ensures category in carousels && found ==>
        carousels[category].current == PrevIndex(old(carousels[category].current), carousels[category].slides.Length) &&
        carousels[category].Shows(carousels[category].current)
      ensures category in carousels && !found ==> carousels[category].Unmoved()
      ensures category in carousels ==> carousels[category].FlagsKept()
    {
      if category in carousels && found {
        carousels[category].Prev();
      }
    }

    /** A swipe on a category visual (its handler is only installed for
        categories that have a slideshow). */
    method Swipe(category: string, g: Gesture)
      requires Valid()
      requires category in carousels && g != Ignored ==> carousels[category].slides.Length > 0
      modifies TouchedBy(carousels, category)
      ensures carousels == old(carousels) && OthersUnchanged(carousels, category)
      ensures category in carousels && g != Ignored ==>
        carousels[category].current == SwipeTarget(old(carousels[category].current), carousels[category].slides.Length, g)
      ensures category in carousels && g != Ignored ==> carousels[category].Shows(carousels[category].current)
      ensures category in carousels && g == Ignored ==> carousels[category].Unmoved()
      ensures category in carousels ==> carousels[category].FlagsKept()
    {
      if category in carousels {
        carousels[category].ApplySwipe(g);
      }
    }
  }

  /** `renderHeroCarousel`: one slide and one dot per featured product. */
  method RenderHero(ps: seq<Product>) returns (hero: Carousel)
    ensures fresh(hero) && fresh(hero.slides) && fresh(hero.dots)
    ensures hero.current == 0 && !hero.running && !hero.paused && hero.Shows(0)
    ensures hero.slides.Length == hero.dots.Length == |Featured(ps)| <= FEATURED_COUNT
  {
    var featured := Featured(ps);
    hero := new Carousel(|featured|, |featured|);
  }

  /** `renderVideoFallback`: one slide per fallback image, autoplay started. */
  method RenderVideoFallback(ps: seq<Product>) returns (video: Carousel)
    ensures fresh(video) && fresh(video.slides) && fresh(video.dots)
    ensures video.current == 0 && video.running && !video.paused && video.Shows(0)
    ensures video.slides.Length == |VideoFallbackImages(ps)| <= VIDEO_IMAGE_COUNT && video.dots.Length == 0
  {
    var images := VideoFallbackImages(ps);
    video := new Carousel(|images|, 0);
    video.Start();
  }

  /** `renderBestseller`: one thumbnail per gallery image. */
  method RenderBestseller(ps: seq<Product>) returns (gallery: Carousel)
    ensures fresh(gallery) && fresh(gallery.slides) && fresh(gallery.dots)
    ensures gallery.current == 0 && !gallery.running && !gallery.paused && gallery.Shows(0)
    ensures gallery.slides.Length == |BestsellerThumbnails(ps)| <= BESTSELLER_THUMB_COUNT && gallery.dots.Length == 0
  {
    gallery := new Carousel(|BestsellerThumbnails(ps)|, 0);
  }

  /** `changeBestsellerImage(index)`: ignored when there is no product at all. */
  method ChangeBestsellerImage(gallery: Carousel, ps: seq<Product>, index: int)
    modifies gallery`current, gallery.slides, gallery.dots
    ensures ps == [] ==> gallery.current == old(gallery.current) && unchanged(gallery.slides, gallery.dots)
    ensures ps != [] ==> gallery.current == index && gallery.Shows(index)
  {
    if BestsellerIndex(ps).Some? {
      gallery.GoTo(index);
    }
  }
}
