/** Slide-index arithmetic shared by every carousel and by the lightbox.
    Indices are integers; the page never checks that an index handed to a
    `goTo` is in range, so the arithmetic is stated for all integers. */
module Indexing {

  /** Dafny's remainder of a number below `n`. */
  lemma RemBelowModulus(a: int, n: int)
    requires n > 0 && 0 <= a < n
    ensures a % n == a
  {
  }

  /** Dafny's remainder of a number between `n` and `2n`. */
  lemma RemAfterOneWrap(a: int, n: int)
    requires n > 0 && n <= a < 2 * n
    ensures a % n == a - n
  {
    assert a == n * (a / n) + a % n;
  }

  /** JavaScript's `%` on integers: the result takes the sign of the dividend
      (Dafny's own `%` is Euclidean and never negative). */
  function JsRem(a: int, n: int): (r: int)
    requires n > 0
    ensures a >= 0 ==> 0 <= r < n && r == a % n
    ensures a < 0 ==> -n < r <= 0
    ensures 0 <= a < n ==> r == a
    ensures n <= a < 2 * n ==> r == a - n
  {
    if 0 <= a < n then RemBelowModulus(a, n); a % n
    else if n <= a < 2 * n then RemAfterOneWrap(a, n); a % n
    else if a >= 0 then a % n
    else -((-a) % n)
  }

  /** `(current + 1) % count`: the slide an autoplay tick or a "next" button selects. */
  function NextIndex(i: int, n: int): (r: int)
    requires n > 0
    ensures -1 <= i ==> 0 <= r < n
    ensures 0 <= i < n - 1 ==> r == i + 1
    ensures i == n - 1 ==> r == 0
  {
    JsRem(i + 1, n)
  }

  /** `(current - 1 + count) % count`: the slide a "prev" button selects. */
  function PrevIndex(i: int, n: int): (r: int)
    requires n > 0
    ensures 1 - n <= i ==> 0 <= r < n
    ensures 0 < i <= n ==> r == i - 1
    ensures i == 0 ==> r == n - 1
  {
    JsRem(i - 1 + n, n)
  }

  /** Within range, "prev" undoes "next" and "next" undoes "prev". */
  lemma PrevNextInverse(i: int, n: int)
    requires 0 <= i < n
    ensures PrevIndex(NextIndex(i, n), n) == i
    ensures NextIndex(PrevIndex(i, n), n) == i
  {
  }

  /** A negative index left behind by an unchecked `goTo` is not always
      repaired by "next": JavaScript's `%` keeps the sign. */
  lemma NextFromNegativeIndex()
    ensures NextIndex(-3, 2) == 0 && NextIndex(-5, 3) == -1
  {
  }

  /** The slide reached after `k` autoplay ticks from slide `i`. */
  function Advance(i: int, n: int, k: nat): int
    requires n > 0
  {
    if k == 0 then i else NextIndex(Advance(i, n, k - 1), n)
  }

  /** Ticks compose: `a` ticks followed by `b` ticks are `a + b` ticks. */
  lemma {:induction false} AdvanceCompose(i: int, n: int, a: nat, b: nat)
    requires n > 0
    ensures Advance(Advance(i, n, a), n, b) == Advance(i, n, a + b)
  {
    if b > 0 {
      AdvanceCompose(i, n, a, b - 1);
    }
  }

  /** Before wrapping, each tick moves to the following slide. */
  lemma {:induction false} AdvanceWithinCycle(i: int, n: int, k: nat)
    requires n > 0 && 0 <= i && i + k < n
    ensures Advance(i, n, k) == i + k
  {
    if k > 0 {
      AdvanceWithinCycle(i, n, k - 1);
    }
  }

  /** Autoplay is cyclic: after `n` ticks an `n`-slide carousel is back on the
      slide it started from, and on the way it has shown every slide. */
  lemma AdvanceFullCycle(i: int, n: int)
    requires 0 <= i < n
    ensures Advance(i, n, n) == i
    ensures forall j :: 0 <= j < n ==> Advance(0, n, j) == j
  {
    AdvanceWithinCycle(i, n, n - 1 - i);
    assert Advance(i, n, n - i) == 0;
    AdvanceWithinCycle(0, n, i);
    AdvanceCompose(i, n, n - i, i);
    forall j | 0 <= j < n
      ensures Advance(0, n, j) == j
    {
      AdvanceWithinCycle(0, n, j);
    }
  }
}
