/** The modal image viewer: whether it is open, the product shown, the image
    index, and the active flags of the product's thumbnails. */
module LightboxViewer {
  import opened Indexing
  import opened Swipe
  import opened Products
  import Carousels

  const ESCAPE := "Escape"
  const ARROW_RIGHT := "ArrowRight"
  const ARROW_LEFT := "ArrowLeft"

  class Lightbox {
    var isOpen: bool
    var current: Option<Product>
    var imageIndex: int
    var thumbs: array<bool>

    /** The viewer is open exactly when a product is selected, and while open
        its thumbnails are the product's images with the current one active. */
    ghost predicate Valid()
      reads this, thumbs
    {
      isOpen == current.Some? &&
      (isOpen ==> thumbs.Length == |current.value.images| &&
                  forall j :: 0 <= j < thumbs.Length ==> thumbs[j] == (j == imageIndex))
    }

    /** The index names one of the selected product's images. */
    ghost predicate InBounds()
      reads this
    {
      current.Some? ==> 0 <= imageIndex < |current.value.images|
    }

    /** The initial state: closed, nothing selected, index 0. */
    constructor ()
      ensures Valid() && InBounds()
      ensures !isOpen && current == None && imageIndex == 0
      ensures fresh(thumbs)
    {
      isOpen, current, imageIndex := false, None, 0;
      thumbs := new bool[0];
    }

    /** `openLightbox(productId, imageIndex)`: an unknown id changes nothing;
        otherwise the product is shown at the given image, with its thumbnails
        rendered afresh. */
    method Open(products: seq<Product>, id: string, index: int)
      requires Valid()
      modifies this
      ensures Valid()
      ensures FindById(products, id).None? ==>
        isOpen == old(isOpen) && current == old(current) && imageIndex == old(imageIndex) && thumbs == old(thumbs)
      ensures FindById(products, id).Some? ==>
        isOpen && current == FindById(products, id) && imageIndex == index && fresh(thumbs)
      ensures FindById(products, id).Some? ==> (InBounds() <==> 0 <= index < |current.value.images|)
    {
      var found := FindById(products, id);
      if found.None? {
        return;
      }
      isOpen, current, imageIndex := true, found, index;
      thumbs := new bool[|found.value.images|](j => j == index);
    }

    /** `closeLightbox`: back to the initial state, whatever the state was. */
    method Close()
      requires Valid()
      modifies this`isOpen, this`current, this`imageIndex
      ensures Valid() && InBounds()
      ensures !isOpen && current == None && imageIndex == 0
    {
      isOpen, current, imageIndex := false, None, 0;
    }

    /** `showPrevImage`: nothing selected, no change; otherwise one image back,
        wrapping from the first to the last. */
    method ShowPrev()
      requires Valid()
      requires current.Some? ==> |current.value.images| > 0
      modifies this`imageIndex, thumbs
      ensures Valid()
      ensures old(InBounds()) ==> InBounds()
      ensures current.None? ==> imageIndex == old(imageIndex) && unchanged(thumbs)
      ensures current.Some? ==> imageIndex == PrevIndex(old(imageIndex), |current.value.images|)
    {
      if current.None? {
        return;
      }
      imageIndex := PrevIndex(imageIndex, |current.value.images|);
      Carousels.MarkActive(thumbs, imageIndex);
    }

    /** `showNextImage`: nothing selected, no change; otherwise one image on,
        wrapping from the last to the first. */
    method ShowNext()
      requires Valid()
      requires current.Some? ==> |current.value.images| > 0
      modifies this`imageIndex, thumbs
      ensures Valid()
      ensures old(InBounds()) ==> InBounds()
      ensures current.None? ==> imageIndex == old(imageIndex) && unchanged(thumbs)
      ensures current.Some? ==> imageIndex == NextIndex(old(imageIndex), |current.value.images|)
    {
      if current.None? {
        return;
      }
      imageIndex := NextIndex(imageIndex, |current.value.images|);
      Carousels.MarkActive(thumbs, imageIndex);
    }

    /** `goToLightboxImage(index)` (a thumbnail click); the index is not checked. */
    method GoTo(index: int)
      requires Valid()
      modifies this`imageIndex, thumbs
      ensures Valid()
      ensures current.None? ==> imageIndex == old(imageIndex) && unchanged(thumbs)
      ensures current.Some? ==> imageIndex == index
    {
      if current.None? {
        return;
      }
      imageIndex := index;
      Carousels.MarkActive(thumbs, imageIndex);
    }

    /** `handleKeydown`: ignored while closed; while open, Escape closes and,
        for right-to-left reading, ArrowRight goes back and ArrowLeft goes on. */
    method HandleKeydown(key: string)
      requires Valid()
      requires current.Some? && (key == ARROW_RIGHT || key == ARROW_LEFT) ==> |current.value.images| > 0
      modifies this`isOpen, this`current, this`imageIndex, thumbs
      ensures Valid()
      ensures !old(isOpen) || key !in {ESCAPE, ARROW_RIGHT, ARROW_LEFT} ==>
        isOpen == old(isOpen) && current == old(current) && imageIndex == old(imageIndex) &&
        unchanged(thumbs)
      ensures old(isOpen) && key == ESCAPE ==> !isOpen && current == None && imageIndex == 0
      ensures old(isOpen) && key == ARROW_RIGHT ==>
        isOpen && current == old(current) && imageIndex == PrevIndex(old(imageIndex), |current.value.images|)
      ensures old(isOpen) && key == ARROW_LEFT ==>
        isOpen && current == old(current) && imageIndex == NextIndex(old(imageIndex), |current.value.images|)
    {
      if !isOpen {
        return;
      }
      if key == ESCAPE {
        Close();
      } else if key == ARROW_RIGHT {
        ShowPrev();
      } else if key == ARROW_LEFT {
        ShowNext();
      }
    }

    /** A click on the lightbox: only a click on the backdrop itself closes it. */
    method HandleBackdropClick(onBackdrop: bool)
      requires Valid()
      modifies this`isOpen, this`current, this`imageIndex
      ensures Valid()
      ensures onBackdrop ==> !isOpen && current == None && imageIndex == 0
      ensures !onBackdrop ==> isOpen == old(isOpen) && current == old(current) && imageIndex == old(imageIndex)
    {
      if onBackdrop {
        Close();
      }
    }

    /** A swipe on the main image: left shows the next image, right the previous. */
    method Swipe(g: Gesture)
      requires Valid()
      requires current.Some? && g != Ignored ==> |current.value.images| > 0
      modifies this`imageIndex, thumbs
      ensures Valid()
      ensures old(InBounds()) ==> InBounds()
      ensures current.Some? && g != Ignored ==> imageIndex == SwipeTarget(old(imageIndex), |current.value.images|, g)
      ensures current.None? || g == Ignored ==> imageIndex == old(imageIndex) && unchanged(thumbs)
    {
      match g
      case Ignored =>
      case SwipeLeft => ShowNext();
      case SwipeRight => ShowPrev();
    }
  }
}
