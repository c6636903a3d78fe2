/**
 * The "Assigned Exercises" carousel of the patient view: one exercise is shown
 * at a time, the arrows step through the list with wrap-around, and one dot
 * per exercise jumps straight to it.
 */
module Exercises {

  /**
   * The index `nextSlide` moves to over a list of `n` exercises: from the last
   * slide back to 0, otherwise one further. On an in-range index this is the
   * successor modulo n.
   */
  function NextIndex(i: int, n: nat): (r: int)
    ensures 0 <= i < n ==> 0 <= r < n && r == (i + 1) % n
  {
    if i == n - 1 then 0 else i + 1
  }

  /**
   * The index `prevSlide` moves to: from the first slide to the last one,
   * otherwise one back. On an in-range index this is the predecessor modulo n.
   */
  function PrevIndex(i: int, n: nat): (r: int)
    ensures 0 <= i < n ==> 0 <= r < n && r == (i - 1 + n) % n
  {
    if i == 0 then n - 1 else i - 1
  }

  /** Going forward and then back returns to the same slide. */
  lemma PrevUndoesNext(i: int, n: nat)
    requires 0 <= i < n
    ensures PrevIndex(NextIndex(i, n), n) == i
  {
  }

  /** Going back and then forward returns to the same slide. */
  lemma NextUndoesPrev(i: int, n: nat)
    requires 0 <= i < n
    ensures NextIndex(PrevIndex(i, n), n) == i
  {
  }

  /** With a single exercise both arrows stay on it. */
  lemma SingleSlide()
    ensures NextIndex(0, 1) == 0 && PrevIndex(0, 1) == 0
  {
  }

  /** The index after pressing the right arrow k times. */
  function Advance(i: int, n: nat, k: nat): int
  {
    if k == 0 then i else NextIndex(Advance(i, n, k - 1), n)
  }

  /** The index after pressing the left arrow k times. */
  function Retreat(i: int, n: nat, k: nat): int
  {
    if k == 0 then i else PrevIndex(Retreat(i, n, k - 1), n)
  }

  /** Euclidean remainder of a value at most one turn outside [0, n). */
  lemma WrapOnce(x: int, n: nat)
    requires n > 0 && 0 - n <= x < 2 * n
    ensures x % n == if x < 0 then x + n else if x < n then x else x - n
  {
    if x < 0 {
      assert x == -1 * n + (x + n);
    } else if x >= n {
      assert x == 1 * n + (x - n);
    }
  }

  /**
   * Up to one full turn, k presses of the right arrow move k slides forward,
   * wrapping past the last slide at most once.
   */
  lemma {:induction false} AdvanceWithinTurn(i: int, n: nat, k: nat)
    requires 0 <= i < n && k <= n
    ensures Advance(i, n, k) == if i + k < n then i + k else i + k - n
  {
    if k > 0 {
      AdvanceWithinTurn(i, n, k - 1);
    }
  }

  /** Up to one full turn, k presses of the left arrow move k slides back. */
  lemma {:induction false} RetreatWithinTurn(i: int, n: nat, k: nat)
    requires 0 <= i < n && k <= n
    ensures Retreat(i, n, k) == if k <= i then i - k else i - k + n
  {
    if k > 0 {
      RetreatWithinTurn(i, n, k - 1);
    }
  }

  /** Up to one full turn, k presses of the right arrow are the successor k times modulo n. */
  lemma AdvanceMod(i: int, n: nat, k: nat)
    requires 0 <= i < n && k <= n
    ensures Advance(i, n, k) == (i + k) % n
  {
    AdvanceWithinTurn(i, n, k);
    WrapOnce(i + k, n);
  }

  /** Up to one full turn, k presses of the left arrow are the predecessor k times modulo n. */
  lemma RetreatMod(i: int, n: nat, k: nat)
    requires 0 <= i < n && k <= n
    ensures Retreat(i, n, k) == (i - k) % n
  {
    RetreatWithinTurn(i, n, k);
    WrapOnce(i - k, n);
  }

  /** Pressing an arrow a times and then b times is pressing it a + b times. */
  lemma {:induction false} AdvanceAdd(i: int, n: nat, a: nat, b: nat)
    ensures Advance(Advance(i, n, a), n, b) == Advance(i, n, a + b)
  {
    if b > 0 {
      AdvanceAdd(i, n, a, b - 1);
    }
  }

  lemma {:induction false} RetreatAdd(i: int, n: nat, a: nat, b: nat)
    ensures Retreat(Retreat(i, n, a), n, b) == Retreat(i, n, a + b)
  {
    if b > 0 {
      RetreatAdd(i, n, a, b - 1);
    }
  }

  /** Pressing either arrow n times comes back to the starting slide. */
  lemma FullCycle(i: int, n: nat)
    requires 0 <= i < n
    ensures Advance(i, n, n) == i && Retreat(i, n, n) == i
  {
    AdvanceWithinTurn(i, n, n);
    RetreatWithinTurn(i, n, n);
  }

  /** Whatever the number of presses, n more presses land on the same slide. */
  lemma Periodic(i: int, n: nat, k: nat)
    requires 0 <= i < n
    ensures Advance(i, n, k + n) == Advance(i, n, k)
    ensures Retreat(i, n, k + n) == Retreat(i, n, k)
  {
    FullCycle(i, n);
    AdvanceAdd(i, n, n, k);
    RetreatAdd(i, n, n, k);
  }

  lemma {:induction false} MulAtLeast(d: nat, n: nat)
    requires d >= 1
    ensures d * n >= n
  {
    if d > 1 {
      MulAtLeast(d - 1, n);
      assert d * n == (d - 1) * n + n;
    }
  }

  /** A remainder is determined by any decomposition x == q * n + r with 0 <= r < n. */
  lemma ModUnique(x: int, n: nat, q: int, r: int)
    requires n > 0 && 0 <= r < n && x == q * n + r
    ensures x % n == r
  {
    var q', r' := x / n, x % n;
    assert x == q' * n + r';
    assert (q - q') * n == r' - r by {
      assert (q - q') * n == q * n - q' * n;
    }
    if q > q' {
      MulAtLeast(q - q', n);
    } else if q < q' {
      MulAtLeast(q' - q, n);
    }
  }

  /** Adding one turn does not change the Euclidean remainder. */
  lemma ModShift(x: int, n: nat)
    requires n > 0
    ensures (x + n) % n == x % n
  {
    var q, r := x / n, x % n;
    assert x == q * n + r;
    assert x + n == (q + 1) * n + r;
    ModUnique(x + n, n, q + 1, r);
  }

  /** Any number k of presses of the right arrow moves k slides forward, modulo n. */
  lemma {:induction false} AdvanceIsModular(i: int, n: nat, k: nat)
    requires 0 <= i < n
    ensures Advance(i, n, k) == (i + k) % n
    decreases k
  {
    if k <= n {
      AdvanceMod(i, n, k);
    } else {
      Periodic(i, n, k - n);
      AdvanceIsModular(i, n, k - n);
      ModShift(i + k - n, n);
    }
  }

  /** Any number k of presses of the left arrow moves k slides back, modulo n. */
  lemma {:induction false} RetreatIsModular(i: int, n: nat, k: nat)
    requires 0 <= i < n
    ensures Retreat(i, n, k) == (i - k) % n
    decreases k
  {
    if k <= n {
      RetreatMod(i, n, k);
    } else {
      Periodic(i, n, k - n);
      RetreatIsModular(i, n, k - n);
      ModShift(i - k, n);
    }
  }

  /** The dots under the carousel: dot i has the border exactly when it is the current slide. */
  function Dots(current: int, n: nat): (dots: seq<bool>)
    ensures |dots| == n
  {
    seq(n, i => i == current)
  }

  /** How many dots are highlighted. */
  function CountHighlighted(dots: seq<bool>): nat
  {
    if dots == [] then 0
    else CountHighlighted(dots[..|dots| - 1]) + (if dots[|dots| - 1] then 1 else 0)
  }

  /** One dot is highlighted when the current index is in range, none otherwise. */
  lemma {:induction false} CountDots(current: int, n: nat)
    ensures CountHighlighted(Dots(current, n)) == if 0 <= current < n then 1 else 0
  {
    if n > 0 {
      assert Dots(current, n)[..n - 1] == Dots(current, n - 1);
      CountDots(current, n - 1);
    }
  }

  /** With an in-range index exactly one dot is highlighted, and it is the current one. */
  lemma ExactlyOneDot(current: int, n: nat)
    requires 0 <= current < n
    ensures CountHighlighted(Dots(current, n)) == 1
    ensures forall i :: 0 <= i < n ==> (Dots(current, n)[i] <==> i == current)
  {
    CountDots(current, n);
  }

  /** The carousel state: the index of the exercise on show over a fixed list. */
  class Carousel {
    /** The number of exercises in the list (`exercises.length`). */
    const length: nat
    /** The index of the exercise on show. */
    var currentIndex: int

    /** The index designates an exercise of a non-empty list. */
    predicate Valid()
      reads this
    {
      length > 0 && 0 <= currentIndex < length
    }

    /** The carousel opens on the first exercise. */
    constructor (length: nat)
      ensures this.length == length && currentIndex == 0
      ensures length > 0 ==> Valid()
    {
      this.length := length;
      currentIndex := 0;
    }

    /** The left arrow. */
    method PrevSlide()
      modifies this
      ensures currentIndex == PrevIndex(old(currentIndex), length)
      ensures old(Valid()) ==> Valid()
      ensures old(currentIndex) == 0 ==> currentIndex == length - 1
      ensures old(currentIndex) != 0 ==> currentIndex == old(currentIndex) - 1
    {
      var isFirstSlide := currentIndex == 0;
      var newIndex := if isFirstSlide then length - 1 else currentIndex - 1;
      currentIndex := newIndex;
    }

    /** The right arrow. */
    method NextSlide()
      modifies this
      ensures currentIndex == NextIndex(old(currentIndex), length)
      ensures old(Valid()) ==> Valid()
      ensures old(currentIndex) == length - 1 ==> currentIndex == 0
      ensures old(currentIndex) != length - 1 ==> currentIndex == old(currentIndex) + 1
    {
      var isLastSlide := currentIndex == length - 1;
      var newIndex := if isLastSlide then 0 else currentIndex + 1;
      currentIndex := newIndex;
    }

    /** A click on dot `slideIndex`; dots exist only for 0 .. length - 1. */
    method GoToSlide(slideIndex: int)
      modifies this
      ensures currentIndex == slideIndex
      ensures 0 <= slideIndex < length ==> Valid()
    {
      currentIndex := slideIndex;
    }

    /** The highlighting of the dots in the current state. */
    function HighlightedDots(): (dots: seq<bool>)
      reads this
      ensures |dots| == length
      ensures Valid() ==> CountHighlighted(dots) == 1 && dots[currentIndex]
    {
      if Valid() then ExactlyOneDot(currentIndex, length); Dots(currentIndex, length)
      else Dots(currentIndex, length)
    }
  }

  /** A right arrow followed by a left arrow, on any carousel, restores its index. */
  method NextThenPrev(c: Carousel)
    requires c.Valid()
    modifies c
    ensures c.Valid() && c.currentIndex == old(c.currentIndex)
  {
    c.NextSlide();
    c.PrevSlide();
    PrevUndoesNext(old(c.currentIndex), c.length);
  }

  /** A left arrow followed by a right arrow, on any carousel, restores its index. */
  method PrevThenNext(c: Carousel)
    requires c.Valid()
    modifies c
    ensures c.Valid() && c.currentIndex == old(c.currentIndex)
  {
    c.PrevSlide();
    c.NextSlide();
    NextUndoesPrev(old(c.currentIndex), c.length);
  }
}
