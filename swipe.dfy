/** Touch-swipe classification, shared by the hero, category, lightbox and
    product-card swipe handlers: a touch counts as a swipe only when it moved
    more horizontally than vertically and by more than the threshold. */
module Swipe {
  import opened Indexing

  datatype Gesture = Ignored | SwipeLeft | SwipeRight

  const SWIPE_THRESHOLD := 50

  function Abs(x: int): nat {
    if x < 0 then -x else x
  }

  /** The decision taken at `touchend` from the start and end screen coordinates:
      `diffX = startX - endX`, a positive difference is a swipe to the left. */
  function Classify(startX: int, startY: int, endX: int, endY: int): (g: Gesture)
    ensures g != Ignored <==>
      Abs(startX - endX) > Abs(startY - endY) && Abs(startX - endX) > SWIPE_THRESHOLD
    ensures g == SwipeLeft ==> endX < startX - SWIPE_THRESHOLD
    ensures g == SwipeRight ==> endX > startX + SWIPE_THRESHOLD
  {
    var diffX, diffY := startX - endX, startY - endY;
    if Abs(diffX) > Abs(diffY) && Abs(diffX) > SWIPE_THRESHOLD then
      (if diffX > 0 then SwipeLeft else SwipeRight)
    else Ignored
  }

  function Reverse(g: Gesture): Gesture {
    match g
    case Ignored => Ignored
    case SwipeLeft => SwipeRight
    case SwipeRight => SwipeLeft
  }

  /** The same movement traced backwards is the opposite gesture. */
  lemma ClassifyReversed(startX: int, startY: int, endX: int, endY: int)
    ensures Classify(endX, endY, startX, startY) == Reverse(Classify(startX, startY, endX, endY))
  {
  }

  /** Only the displacement matters, not where on the screen it happened. */
  lemma ClassifyTranslated(startX: int, startY: int, endX: int, endY: int, dx: int, dy: int)
    ensures Classify(startX + dx, startY + dy, endX + dx, endY + dy) == Classify(startX, startY, endX, endY)
  {
  }

  /** The slide a carousel of `n` slides moves to on a gesture: a left swipe
      is "next", a right swipe is "prev". */
  function SwipeTarget(i: int, n: int, g: Gesture): (r: int)
    requires n > 0
    ensures 0 <= i < n ==> 0 <= r < n
    ensures g == Ignored ==> r == i
  {
    match g
    case Ignored => i
    case SwipeLeft => NextIndex(i, n)
    case SwipeRight => PrevIndex(i, n)
  }

  /** Swiping back along the same path returns to the slide one started on. */
  lemma SwipeThereAndBack(i: int, n: int, startX: int, startY: int, endX: int, endY: int)
    requires 0 <= i < n
    ensures SwipeTarget(SwipeTarget(i, n, Classify(startX, startY, endX, endY)), n,
                        Classify(endX, endY, startX, startY)) == i
  {
    ClassifyReversed(startX, startY, endX, endY);
    PrevNextInverse(i, n);
  }
}
