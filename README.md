# Fency catalogue: page state logic in Dafny

This project models the state logic of the Fency product catalogue page
(`assets/js/catalogue.js`). The page loads a product list once and then
derives several views from it:

- a hero carousel of up to five featured products, bestsellers first;
- a video-fallback slideshow of product images;
- one slideshow per category;
- a bestseller gallery;
- a filterable product grid, with an image carousel on each product card;
- a modal lightbox for browsing one product's images.

The model leaves out the DOM, the markup and the timers. It keeps:

- the views over the product list, as pure functions (`Products`);
- the slide-index arithmetic, with JavaScript's truncating `%` written out (`Indexing`);
- the touch-swipe decision (`Swipe`);
- the carousel controllers, as classes whose methods update the current index,
  the autoplay and pause flags, and the slide and dot "active" flags (arrays),
  in place (`Carousels`);
- the lightbox state machine, as a class (`LightboxViewer`).

Each autoplay interval is a `running` flag. Its firing is an explicit `Tick` method, except for category slideshows: their interval calls `nextCategorySlide`, which is `CategoryShows.Next`.
Product cards' hover pause is the `paused` flag.

Files: `indexing.dfy`, `products.dfy`, `swipe.dfy`, `carousels.dfy`, `lightbox.dfy`.

## Model

| member | source | states |
|---|---|---|
| `Products.FilterProducts` | assets/js/catalogue.js:381-384 | The filter "all" returns the list unchanged. Any other filter returns exactly the products whose categories include it, and never a longer list. |
| `Products.SelectMembership` | assets/js/catalogue.js:383 | A product is kept by `filter` if and only if it is in the list and matches the test. |
| `Products.SelectAppend` | assets/js/catalogue.js:383 | Filtering a concatenation concatenates the filtered parts, so filtering keeps the original order. |
| `Products.FilterProductsAppend` | assets/js/catalogue.js:381-384 | The grid filter distributes over concatenation. Together with membership, this fixes the result as the matching products in list order. |
| `Products.FilterProductsIdempotent` | assets/js/catalogue.js:381-384 | Filtering the filtered list again by the same category changes nothing. |
| `Products.StableSort` | assets/js/catalogue.js:98 | Sorting with the comparator `b.bestseller - a.bestseller` returns a permutation of the products (same multiset). |
| `Products.StableSortSplits` | assets/js/catalogue.js:98 | The stable sort returns all bestsellers, then all other products, each group in its original order. |
| `Products.Featured` | assets/js/catalogue.js:98 | The hero list has `min(5, number of products)` entries. It is a prefix of "bestsellers in order, then the others in order". No bestseller comes after a non-bestseller. Every entry comes from the product list. |
| `Products.FeaturedShowsFewBestsellers` | assets/js/catalogue.js:98 | With at most five bestsellers, every bestseller appears in the hero list. |
| `Products.SelectSplitLength` | assets/js/catalogue.js:98 | Bestsellers and non-bestsellers together account for every product. |
| `Products.FlatTakeMembership` | assets/js/catalogue.js:164 | An image is in `flatMap(p => p.images.slice(0, k))` if and only if it is among the first `k` images of some product. |
| `Products.FlatTakeAppend` | assets/js/catalogue.js:164 | `flatMap` over a concatenation is the concatenation of the parts, so images come product by product, in list order. |
| `Products.VideoFallbackImages` | assets/js/catalogue.js:164 | The video fallback has exactly `min(6, length of the flattened list)` images, where the flattened list is "first two images of each product". It is a prefix of that list, so it is its first six entries. Each image is among the first two images of some product. |
| `Products.VideoFallbackFromFirstThree` | assets/js/catalogue.js:164 | If the first three products each have two or more images, the fallback is exactly their first two images each, in product order. |
| `Products.CategoryImages` | assets/js/catalogue.js:199-200 | An image is in a category's slideshow if and only if it is among the first three images of some product tagged with that category. |
| `Products.CategoryImagesAppend` | assets/js/catalogue.js:199-200 | The slides for a concatenated list are the slides of the first part followed by those of the second. With the one-product case this fixes the slides, their order and their number (`totalSlides`). |
| `Products.CategoryImagesOfOne` | assets/js/catalogue.js:199-200 | A single product contributes its first three images, in order, when it is tagged with the category, and nothing otherwise. |
| `Products.FindById` | assets/js/catalogue.js:700 | No result if and only if no product has the id. Otherwise the result is the first product with that id. |
| `Products.BestsellerIndex` | assets/js/catalogue.js:253 | Empty list: no choice. Otherwise the choice is the first bestseller, or position 0 when no product is a bestseller. |
| `Products.BestsellerThumbnails` | assets/js/catalogue.js:253-260 | With products, the gallery is the first `min(5, n)` images of the chosen product (`BestsellerIndex`), where `n` is that product's image count. With no products it is empty. |
| `Indexing.NextIndex` | assets/js/catalogue.js:149 | `(i + 1) % n` lies in `[0, n)` for every `i >= -1`. It moves to `i + 1` before the last slide and wraps from `n - 1` to 0. |
| `Indexing.PrevIndex` | assets/js/catalogue.js:155 | `(i - 1 + n) % n` lies in `[0, n)` for every `i >= 1 - n`. It moves to `i - 1` inside the range and wraps from 0 to `n - 1`. |
| `Indexing.PrevNextInverse` | assets/js/catalogue.js:147-157 | In range, prev undoes next and next undoes prev. |
| `Indexing.NextFromNegativeIndex` | assets/js/catalogue.js:132-136 | An unchecked negative index is not always brought back into range by next, because JavaScript's `%` keeps the sign. |
| `Indexing.AdvanceCompose` | assets/js/catalogue.js:404-408 | `a` autoplay ticks followed by `b` ticks equal `a + b` ticks. |
| `Indexing.AdvanceWithinCycle` | assets/js/catalogue.js:173-182 | Before wrapping, `k` ticks from slide `i` reach slide `i + k`. |
| `Indexing.AdvanceFullCycle` | assets/js/catalogue.js:825 | After `n` ticks an `n`-slide carousel is back where it started, and the ticks from slide 0 visit every slide. |
| `Swipe.Classify` | assets/js/catalogue.js:600-610 | A swipe fires if and only if `abs(dx) > abs(dy)` and `abs(dx) > 50`, where `dx = startX - endX`. A left swipe means the finger moved left by more than 50; a right swipe means it moved right by more than 50. |
| `Swipe.ClassifyReversed` | assets/js/catalogue.js:600-610 | The same movement traced backwards is the opposite gesture. |
| `Swipe.ClassifyTranslated` | assets/js/catalogue.js:600-601 | Only the displacement matters, not the screen position. |
| `Swipe.SwipeTarget` | assets/js/catalogue.js:615-619 | A swipe on a carousel keeps an in-range index in range. An ignored touch leaves the index alone. |
| `Swipe.SwipeThereAndBack` | assets/js/catalogue.js:615-626 | Swiping back along the same path returns to the starting slide. |
| `Carousels.MarkActive` | assets/js/catalogue.js:138-144 | After the toggle loop, flag `j` is set if and only if `j == index`. |
| `Carousels.Carousel.constructor` | assets/js/catalogue.js:100-101 | A rendered slideshow starts at index 0 with slide 0 and dot 0 active. No interval is set and it is not paused. |
| `Carousels.Carousel.GoTo` | assets/js/catalogue.js:132-145 | The index becomes `index`, and slide or dot `j` is active if and only if `j == index`. The slide count, the interval and the pause flag are unchanged. |
| `Carousels.Carousel.Next` | assets/js/catalogue.js:147-151 | The index becomes `NextIndex` of the old index, and the flags show it. |
| `Carousels.Carousel.Prev` | assets/js/catalogue.js:153-157 | The index becomes `PrevIndex` of the old index, and the flags show it. |
| `Carousels.Carousel.Tick` | assets/js/catalogue.js:404-408 | An interval firing advances the carousel only if an interval is set and the carousel is not paused. Otherwise nothing changes. |
| `Carousels.Carousel.ApplySwipe` | assets/js/catalogue.js:615-619 | A left swipe is next, a right swipe is prev, and an ignored touch changes nothing (even on an empty slideshow). |
| `Carousels.Carousel.Start` | assets/js/catalogue.js:832-834 | Setting the interval starts autoplay. |
| `Carousels.Carousel.Stop` | assets/js/catalogue.js:828-830 | Clearing the interval stops autoplay. |
| `Carousels.Carousel.SetPaused` | assets/js/catalogue.js:548 | Sets `isPaused` and nothing else. |
| `Carousels.NewStarted` | assets/js/catalogue.js:389-398 | A rendered slideshow with its interval set is fresh, shows slide and dot 0, is not paused, and has the requested slide and dot counts. |
| `Carousels.ProductGrid.constructor` | assets/js/catalogue.js:24-29 | The page starts with filter "all" and no product carousels. |
| `Carousels.ProductGrid.Render` | assets/js/catalogue.js:285-307 | Every visible product with more than one image gets a fresh carousel. It starts at index 0 with slide 0 active, autoplay running and no pause, with one slide and one dot per image. Entries for other ids are kept. |
| `Carousels.ProductGrid.InitCarousel` | assets/js/catalogue.js:389-398 | Installs a fresh started carousel under the id and leaves every other entry as it was. |
| `Carousels.ProductGrid.SetFilter` | assets/js/catalogue.js:501-514 | Exactly the buttons for the new filter are active. Every carousel in the old table has its interval cleared. The table is emptied and `currentFilter` is set. |
| `Carousels.ProductGrid.Next` | assets/js/catalogue.js:427-432 | An unknown id changes nothing. Otherwise that carousel moves to the next index and shows it, its interval and pause flag are kept, and every other carousel is unchanged. |
| `Carousels.ProductGrid.Prev` | assets/js/catalogue.js:434-439 | An unknown id changes nothing. Otherwise that carousel moves to the previous index and shows it, its interval and pause flag are kept, and every other carousel is unchanged. |
| `Carousels.ProductGrid.GoTo` | assets/js/catalogue.js:411-425 | An unknown id changes nothing. Otherwise that carousel shows `index`, its interval and pause flag are kept, and every other carousel is unchanged. |
| `Carousels.ProductGrid.Tick` | assets/js/catalogue.js:400-409 | The card's autoplay advances it to the next index only when it is not paused. Otherwise its index and flags are untouched. Its interval and pause flag are kept, and other carousels are unchanged. |
| `Carousels.ProductGrid.Hover` | assets/js/catalogue.js:543-561 | A `mouseenter` (`entering`) or `mouseleave` on the card or any element inside it sets that carousel's pause flag to `entering`. Its index, slide and dot flags and interval are kept, and other carousels are unchanged. |
| `Carousels.ProductGrid.Swipe` | assets/js/catalogue.js:663-684 | A swipe on a card moves only that card's carousel: left is next, right is prev, and an ignored touch leaves its index and flags untouched. Its interval and pause flag are kept. |
| `Carousels.CategoryShows.constructor` | assets/js/catalogue.js:28 | The page starts with no category slideshows. |
| `Carousels.CategoryShows.Render` | assets/js/catalogue.js:188-219 | Each category whose slides element is on the page gets a new slideshow, with new slide and dot arrays. It is started and unpaused, at index 0, with one slide per category image and no dots. Other categories' entries are kept. |
| `Carousels.CategoryShows.AddShow` | assets/js/catalogue.js:209-218 | Records one category's slideshow: a fresh, started carousel at index 0, unpaused, over the given number of slides. Every other category's entry is kept. |
| `Carousels.CategoryShows.Next` | assets/js/catalogue.js:222-240 | A category without a slideshow does not change. If its slides element is not found, its index and flags are untouched. Otherwise it moves to the next index and shows it. Its interval is kept, and the other slideshows are unchanged. |
| `Carousels.CategoryShows.Prev` | assets/js/catalogue.js:222-247 | Same as next, moving to the previous index. |
| `Carousels.CategoryShows.Swipe` | assets/js/catalogue.js:628-648 | A swipe moves only that category's slideshow, to `SwipeTarget` of its index, and shows it. An ignored touch leaves its index and flags untouched, even on an empty slideshow. Its interval is kept. |
| `Carousels.RenderHero` | assets/js/catalogue.js:96-130 | The hero is a new slideshow, with new slide and dot arrays, and one slide and one dot per featured product (at most 5). It starts at 0 with slide 0 active, with no interval yet, and it is never paused. |
| `Carousels.RenderVideoFallback` | assets/js/catalogue.js:162-183 | The fallback is a new slideshow, with new arrays, one slide per fallback image (at most 6) and no dots. It starts at 0 with autoplay running and no pause. |
| `Carousels.RenderBestseller` | assets/js/catalogue.js:252-267 | The gallery is a new slideshow, with new arrays, one thumbnail per gallery image (at most 5) and no dots. The first thumbnail is active, and it has no interval and no pause. |
| `Carousels.ChangeBestsellerImage` | assets/js/catalogue.js:269-280 | With no products nothing changes. Otherwise the gallery shows `index`. |
| `LightboxViewer.Lightbox.constructor` | assets/js/catalogue.js:32-36 | The lightbox starts closed, with no product, index 0 and a new, empty thumbnail array. |
| `LightboxViewer.Lightbox.Open` | assets/js/catalogue.js:699-718 | An unknown id changes nothing. Otherwise the lightbox is open on the first product with that id, at the given index, with freshly rendered thumbnails. The index is in bounds if and only if the argument was. |
| `LightboxViewer.Lightbox.Close` | assets/js/catalogue.js:720-727 | From any state: closed, no product, index 0. |
| `LightboxViewer.Lightbox.ShowPrev` | assets/js/catalogue.js:729-735 | With no product nothing changes. Otherwise the index becomes `PrevIndex` over the image count. An in-bounds index stays in bounds, and "open if and only if a product is selected" is kept. |
| `LightboxViewer.Lightbox.ShowNext` | assets/js/catalogue.js:737-743 | With no product nothing changes. Otherwise the index becomes `NextIndex` over the image count, and bounds are kept. |
| `LightboxViewer.Lightbox.GoTo` | assets/js/catalogue.js:745-750 | With no product nothing changes. Otherwise the index becomes `index`, unchecked. |
| `LightboxViewer.Lightbox.HandleKeydown` | assets/js/catalogue.js:563-571 | While closed, nothing changes. While open: Escape closes (also on a product without images), ArrowRight goes to the previous image, ArrowLeft goes to the next image, and any other key changes nothing. The thumbnail array is never replaced: only its flags change. |
| `LightboxViewer.Lightbox.HandleBackdropClick` | assets/js/catalogue.js:573-577 | Only a click on the backdrop itself closes the lightbox. |
| `LightboxViewer.Lightbox.Swipe` | assets/js/catalogue.js:621-626 | A left swipe shows the next image and a right swipe the previous one. Bounds are kept. With no product, or an ignored touch, nothing changes. |

## Left out

- Loading `data/products.json` with `fetch`, and `showError`: network I/O. The product list is a parameter.
- All markup: `createProductCard`, the `innerHTML` templates, image paths, alt texts, counters and background images. Only slide counts and active flags are modelled. Product names, descriptions and features only feed the markup and are not part of `Product`.
- Timing: the intervals, the 200 ms re-render delay after a filter change and the 150 ms lightbox fade. An interval is the `running` flag and its firing is `Tick`. The delayed re-render is a separate call to `ProductGrid.Render` after `SetFilter`. Each filter change is taken to re-render before the next one; the line on two filter changes within the delay covers the other case. `updateLightboxImage` only touches the display.
- Scroll effects, `IntersectionObserver`, `scrollIntoView`, CSS opacity and transforms, and the card animation delay.
- The DOM lookup in `goToCategorySlide` is the `found` parameter. For "semi-privacy", the id it derives is `semiprivacySlides`, while the rendered element is `semiPrivacySlides`. Whether that category's slideshow moves therefore depends on the fallback selector and the page markup, which are not modelled.
- `goToProductSlide` updates the index even when the card element is missing. The model assumes the card is always present, because cards and carousels are rendered together, so the flags always follow the index.
- A slide count of zero, where the page computes `NaN`. `NextIndex` and `PrevIndex` need `n > 0`. The methods that advance a carousel or the lightbox require a non-empty slide or image list wherever the page would divide by zero: a hero with no products, a video fallback with no images (no products, or no product with an image), a category with no images, a lightbox product with no images.
- Screen coordinates and indices are integers. Browsers give fractional coordinates, and `parseInt` of a malformed index gives `NaN`.
- Hero hover: `mouseleave` sets a new interval without clearing the previous one. A single `running` flag cannot represent two intervals running at once.
- The filter buttons' initial active flags are assumed to mark the "all" button. The page takes them from the markup, which is not part of this model.
- The category swipe handlers count slides with a DOM query on the section id. The model uses the rendered slide count and takes the section id to be the category key.
- Two filter changes within the 200 ms re-render delay, for example a double click on one button. The second `setFilter` finds the table already empty and clears nothing. Then the two `renderProducts` calls run, and the second overwrites every carousel of the first without clearing its interval. Those intervals keep firing: they read the pause flag of the replaced object, which hover no longer sets, and they advance the current entry. So each card moves twice per period, keeps moving while hovered, and later filter changes never stop it. In the model, the `running` flag of a replaced carousel stays set, but no `Tick` reaches it. The model therefore has no orphaned intervals and does not capture this.
- Hover pause does not track the pointer. The page's `mouseenter`/`mouseleave` listeners are capture-phase listeners on `document`, so they run for every element inside a card. Leaving an inner element, such as the gallery button, unpauses the card while the pointer is still over it. `ProductGrid.Hover` models each such event, with `entering` saying which of the two it was. The model does not relate `paused` to the pointer position.
- `openLightbox`'s default argument: `imageIndex` defaults to 0. `Lightbox.Open` takes the index explicitly, so callers that omit it pass 0.
- Two visible products with the same id. `ProductGrid.Render` keeps only the later product's carousel. In the page, `initProductCarousel` overwrites the table entry without clearing the earlier interval. That interval keeps firing, reads the pause flag of the replaced object (which hover no longer sets), and advances the current entry. `setFilter` never clears it, because it only clears intervals still in the table. The card lookup by `querySelector` finds the first card with the id, while the table holds the later product's image count. The model has one carousel per id and no orphaned intervals, so none of this is captured.
- Product fields are assumed well typed: `id` is a string and `bestseller` is a boolean. With a numeric id in the JSON, the `===` comparison in `openLightbox` never matches the string id taken from the markup. With a missing `bestseller`, the sort comparator returns `NaN`. Neither case is modelled.
- `Lightbox.GoTo`, `Carousel.GoTo` and `ChangeBestsellerImage` do not check their index, because the page does not.
