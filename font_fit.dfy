/** Shrink-to-fit sizing of the student's name. `width(size)` is the rendered width
    of the name in its font at `size`; it is left abstract, with no monotonicity
    assumed, so every statement here holds for any font metrics. */
module FontFit {

  /** The widest the name may be drawn, in layout units. */
  const MaxWidth: real := 400.0

  /** The floor for the name's size: the search never goes below it. */
  const MinSize: int := 10

  /** The size the greedy search settles on, as a function: step down by one
      while the name is too wide and the size is above the floor. */
  function FitSize(width: int -> real, size: int): (r: int)
    ensures r <= size
    ensures size <= MinSize ==> r == size
    ensures size >= MinSize ==> r >= MinSize
    ensures width(size) <= MaxWidth ==> r == size
    ensures width(r) <= MaxWidth || r <= MinSize
    ensures forall s :: r < s <= size ==> width(s) > MaxWidth
    decreases size
  {
    if width(size) > MaxWidth && size > MinSize then FitSize(width, size - 1) else size
  }

  /** The loop itself: start at `initialSize` and lower the size by one while
      the name is wider than `MaxWidth` and the size is above `MinSize`.
      Every size it skips was too wide. */
  method AdjustFontSizeForName(width: int -> real, initialSize: int) returns (adjustedSize: int)
    ensures adjustedSize <= initialSize
    ensures initialSize <= MinSize ==> adjustedSize == initialSize
    ensures initialSize >= MinSize ==> adjustedSize >= MinSize
    ensures width(initialSize) <= MaxWidth ==> adjustedSize == initialSize
    ensures width(adjustedSize) <= MaxWidth || adjustedSize <= MinSize
    ensures forall s :: adjustedSize < s <= initialSize ==> width(s) > MaxWidth
    ensures adjustedSize == FitSize(width, initialSize)
  {
    adjustedSize := initialSize;
    var textWidth := width(adjustedSize);
    while textWidth > MaxWidth && adjustedSize > MinSize
      invariant adjustedSize <= initialSize
      invariant initialSize >= MinSize ==> adjustedSize >= MinSize
      invariant adjustedSize < initialSize ==> width(initialSize) > MaxWidth && initialSize > MinSize
      invariant textWidth == width(adjustedSize)
      invariant forall s :: adjustedSize < s <= initialSize ==> width(s) > MaxWidth
      invariant FitSize(width, adjustedSize) == FitSize(width, initialSize)
      decreases adjustedSize
    {
      adjustedSize := adjustedSize - 1;
      textWidth := width(adjustedSize);
    }
  }

  /** When some size between the floor and the initial size fits, the fitted
      size fits and is at least as large as any such size: it is the largest
      fitting size in that range. */
  lemma FitSizeIsLargestFitting(width: int -> real, size: int, s: int)
    requires MinSize <= s <= size && width(s) <= MaxWidth
    ensures width(FitSize(width, size)) <= MaxWidth
    ensures s <= FitSize(width, size)
  {
  }

  /** When no size between the floor and the initial size fits, the floor is
      used regardless of the overflow. */
  lemma FitSizeFloor(width: int -> real, size: int)
    requires size >= MinSize
    requires forall s :: MinSize <= s <= size ==> width(s) > MaxWidth
    ensures FitSize(width, size) == MinSize
  {
  }

  /** The contract of `AdjustFontSizeForName` pins its result down: any size
      meeting it is the one `FitSize` computes. */
  lemma FitSizeUnique(width: int -> real, size: int, r: int)
    requires r <= size
    requires size >= MinSize ==> r >= MinSize
    requires size <= MinSize ==> r == size
    requires width(r) <= MaxWidth || r <= MinSize
    requires forall s :: r < s <= size ==> width(s) > MaxWidth
    ensures r == FitSize(width, size)
  {
  }

  /** Starting from the size already chosen changes nothing. */
  lemma FitSizeIdempotent(width: int -> real, size: int)
    ensures FitSize(width, FitSize(width, size)) == FitSize(width, size)
  {
  }

  // The loop as the source runs it, on JavaScript numbers. The base size comes
  // from `parseInt` and is a double, on which `adjustedSize -= 1` rounds.

  const TwoPow53: int := 0x20_0000_0000_0000
  const TwoPow54: int := 0x40_0000_0000_0000

  /** The non-negative integers that are doubles: every one up to 2^53, and
      above it exactly the even ones whose half is a double. */
  predicate IsIntegerDouble(x: nat)
    decreases x
  {
    x <= TwoPow53 || (x % 2 == 0 && IsIntegerDouble(x / 2))
  }

  /** `x - 1` on an integer double `x`, rounded to the nearest double with ties
      to the even significand. Up to 2^53 it is exact. Between 2^53 and 2^54 the
      doubles are 2 apart, `x - 1` is a tie between `x - 2` and `x`, and the one
      whose half is even wins. From 2^54 on they are at least 4 apart, and
      `x - 1` rounds back to `x`. */
  function DoubleDecrement(x: int): (r: int)
    requires x >= 1 && IsIntegerDouble(x)
    ensures r >= 0 && IsIntegerDouble(r)
    ensures x - 2 <= r <= x
    ensures x <= TwoPow53 ==> r == x - 1
  {
    if x <= TwoPow53 then x - 1
    else if x < TwoPow54 then
      var r := if (x / 2) % 2 == 0 then x else x - 2;
      EvenBelow2Pow54IsDouble(r);
      r
    else x
  }

  /** Below 2^54 every even integer is a double. */
  lemma EvenBelow2Pow54IsDouble(y: nat)
    requires y % 2 == 0 && y < TwoPow54
    ensures IsIntegerDouble(y)
  {
    assert y / 2 <= TwoPow53;
    assert IsIntegerDouble(y / 2);
  }

  /** Where the source's loop stands after at most `fuel` steps. */
  datatype Progress = Returned(size: int) | StillRunning

  /** The source's loop as written, bounded to `fuel` steps: the same guard as
      `FitSize`, with the rounded decrement. */
  function SourceLoop(width: int -> real, size: int, fuel: nat): (p: Progress)
    requires size > MinSize ==> IsIntegerDouble(size)
    ensures p.Returned? ==> p.size <= size && (width(p.size) <= MaxWidth || p.size <= MinSize)
    decreases fuel
  {
    if width(size) > MaxWidth && size > MinSize then
      if fuel == 0 then StillRunning else SourceLoop(width, DoubleDecrement(size), fuel - 1)
    else Returned(size)
  }

  /** Above 2^53 + 2 the rounded decrement gets stuck after at most one step. */
  lemma DoubleDecrementStalls(x: int)
    requires x >= TwoPow53 + 4 && IsIntegerDouble(x)
    ensures DoubleDecrement(x) > TwoPow53
    ensures DoubleDecrement(DoubleDecrement(x)) == DoubleDecrement(x)
  {
    if x < TwoPow54 {
      assert x % 2 == 0;
      if (x / 2) % 2 != 0 {
        assert ((x - 2) / 2) % 2 == 0;
      }
    }
  }

  /** With a base size of 2^54 and a name too wide at that size, the source's
      loop never returns: after any number of steps it is still running. */
  lemma {:induction false} HugeBaseSizeNeverReturns(width: int -> real, fuel: nat)
    requires width(TwoPow54) > MaxWidth
    ensures IsIntegerDouble(TwoPow54)
    ensures SourceLoop(width, TwoPow54, fuel) == StillRunning
    decreases fuel
  {
    assert IsIntegerDouble(TwoPow54 / 2);
    assert DoubleDecrement(TwoPow54) == TwoPow54;
    if fuel > 0 {
      HugeBaseSizeNeverReturns(width, fuel - 1);
    }
  }

  /** Up to 2^53 the source's loop and `FitSize` agree: with enough steps the
      loop returns the size `FitSize` gives. */
  lemma {:induction false} SourceLoopAgreesBelow2Pow53(width: int -> real, size: int, fuel: nat)
    requires size <= TwoPow53
    requires fuel >= size - MinSize
    ensures SourceLoop(width, size, fuel) == Returned(FitSize(width, size))
    decreases fuel
  {
    if width(size) > MaxWidth && size > MinSize {
      SourceLoopAgreesBelow2Pow53(width, size - 1, fuel - 1);
    }
  }
}
