/** `GridBuilder` (src/builder.rs): collects items and two optional
    dimension hints, then validates them in `build`. */
module Builders {
  import opened Options
  import opened Numbers
  import opened Grids
  import opened BuildErrors

  /** The width the height-only branch of `build` derives, as written: the
      quotient `len / h`, accepted when it is non-zero and divides `len`.
      The requested height itself is never checked against `len`. */
  function WidthForHeightAsWritten(len: nat, h: NonZeroUsize): (r: Option<NonZeroUsize>)
    requires len <= USIZE_MAX
    ensures r.Some? ==> GridInvariant(len, r.value) && r.value * h <= len
  {
    var w := len / h;
    if 0 < w && len % w == 0 then
      DivModUnique(len, h, len % h, w);
      Some(w)
    else None
  }

  /** Eight items with height 3 are accepted as written, with width 2: the
      grid then has height 4, not the height that was asked for. */
  lemma HeightOnlyEightByThreeAsWritten()
    ensures WidthForHeightAsWritten(8, 3) == Some(2)
    ensures 2 * 3 != 8 && 8 / 2 == 4
  {
    assert 8 / 3 == 2 && 8 % 2 == 0;
  }

  /** The width the height-only branch evidently intends: the item count
      must be a multiple of the requested height, and the width is the
      quotient, so the grid has exactly that height. */
  function WidthForHeight(len: nat, h: NonZeroUsize): (r: Option<NonZeroUsize>)
    requires len <= USIZE_MAX
    ensures r.Some? <==> 0 < len && len % h == 0
    ensures r.Some? ==> GridInvariant(len, r.value) && r.value * h == len
  {
    if 0 < len && len % h == 0 then
      DivisorAtMost(len, h);
      var w := len / h;
      DivModUnique(len, h, 0, w);
      MulMonotone(1, h, w);
      DivModUnique(len, w, 0, h);
      Some(w)
    else None
  }

  /** The corrected rule only rejects more: whatever it accepts, the code as
      written accepts with the same width. */
  lemma WidthForHeightRefinesAsWritten(len: nat, h: NonZeroUsize)
    requires len <= USIZE_MAX
    ensures WidthForHeight(len, h).Some? ==> WidthForHeightAsWritten(len, h) == WidthForHeight(len, h)
  {
    if WidthForHeight(len, h).Some? {
      var w := WidthForHeight(len, h).value;
      DivModUnique(len, h, 0, w);
      DivModUnique(len, w, 0, h);
    }
  }

  /** The decision `build` takes, on values: the width of the grid it
      creates, or the error it returns. A `Vec` never holds more than
      `usize::MAX` items. The height-only branch follows `WidthForHeight`. */
  function BuildPlan<T>(items: seq<T>, width: Option<NonZeroUsize>, height: Option<NonZeroUsize>)
    : (r: Result<NonZeroUsize, BuildError<T>>)
    requires |items| <= USIZE_MAX
    ensures r.Ok? ==> GridInvariant(|items|, r.value)
    ensures r.Ok? && width.Some? ==> r.value == width.value
    ensures r.Ok? && height.Some? ==> |items| == r.value * height.value
    ensures r.Err? ==> r.error.IntoItems() == items
  {
    match (width, height)
    case (Some(w), Some(h)) =>
      var size := CheckedMul(w, h);
      if size.Some? && |items| == size.value then
        MulMonotone(1, h, w);
        DivModUnique(|items|, w, 0, h);
        Ok(w)
      else Err(SizeDoesNotMatch(items))
    case (Some(w), None) =>
      if w > |items| then Err(TooWide(items))
      else if |items| % w != 0 then Err(SizeNotMultipleOfWidth(items))
      else Ok(w)
    case (None, Some(h)) =>
      if h > |items| then Err(TooTall(items))
      else
        (match WidthForHeight(|items|, h)
         case Some(w) => Ok(w)
         case None => Err(SizeNotMultipleOfHeight(items)))
    case (None, None) => Err(NeitherWidthNotHeightSet(items))
  }

  /** With both hints, only the product matters: it either equals the item
      count, giving a grid of the requested width, or the items come back as
      `SizeDoesNotMatch`. A product too large for `usize` never matches. */
  lemma BothHints<T>(items: seq<T>, w: NonZeroUsize, h: NonZeroUsize)
    requires |items| <= USIZE_MAX
    ensures BuildPlan(items, Some(w), Some(h)) ==
      if |items| == w * h then Ok(w) else Err(SizeDoesNotMatch(items))
  {
    if w * h > USIZE_MAX {
      assert |items| != w * h;
    }
  }

  /** With the width alone, `build` accepts exactly what `TryFrom` with that
      width accepts; too wide a width is reported before divisibility. */
  lemma WidthOnly<T>(items: seq<T>, w: NonZeroUsize)
    requires |items| <= USIZE_MAX
    ensures BuildPlan(items, Some(w), None).Ok? <==> TryFromAccepts(|items|, w)
    ensures BuildPlan(items, Some(w), None) == Err(TooWide(items)) <==> w > |items|
    ensures BuildPlan(items, Some(w), None) == Err(SizeNotMultipleOfWidth(items)) <==>
      w <= |items| && |items| % w != 0
  {
    if TryFromAccepts(|items|, w) {
      DivisorAtMost(|items|, w);
    }
  }

  /** With the height alone, the mirror image: accepted exactly when the
      count is a non-zero multiple of the height, with width `len / h`; too
      tall a height is reported before divisibility. */
  lemma HeightOnly<T>(items: seq<T>, h: NonZeroUsize)
    requires |items| <= USIZE_MAX
    ensures BuildPlan(items, None, Some(h)).Ok? <==> TryFromAccepts(|items|, h)
    ensures BuildPlan(items, None, Some(h)).Ok? ==> BuildPlan(items, None, Some(h)).value == |items| / h
    ensures BuildPlan(items, None, Some(h)) == Err(TooTall(items)) <==> h > |items|
    ensures BuildPlan(items, None, Some(h)) == Err(SizeNotMultipleOfHeight(items)) <==>
      h <= |items| && |items| % h != 0
  {
    if TryFromAccepts(|items|, h) {
      DivisorAtMost(|items|, h);
      var w := BuildPlan(items, None, Some(h)).value;
      DivModUnique(|items|, h, 0, w);
    }
  }

  /** Eight items with height 3 are now refused, since 3 does not divide 8. */
  lemma HeightOnlyEightByThree<T>(items: seq<T>)
    requires |items| == 8
    ensures BuildPlan(items, None, Some(3)) == Err(SizeNotMultipleOfHeight(items))
  {
  }

  /** Each error variant is produced only in the situation its
      documentation names. */
  lemma ErrorProvenance<T>(items: seq<T>, width: Option<NonZeroUsize>, height: Option<NonZeroUsize>)
    requires |items| <= USIZE_MAX
    ensures BuildPlan(items, width, height) == Err(NeitherWidthNotHeightSet(items)) <==>
      width.None? && height.None?
    ensures BuildPlan(items, width, height) == Err(TooWide(items)) ==>
      width.Some? && height.None? && width.value > |items|
    ensures BuildPlan(items, width, height) == Err(TooTall(items)) ==>
      width.None? && height.Some? && height.value > |items|
    ensures BuildPlan(items, width, height) == Err(SizeDoesNotMatch(items)) ==>
      width.Some? && height.Some? && width.value * height.value != |items|
    ensures BuildPlan(items, width, height) == Err(SizeNotMultipleOfWidth(items)) ==>
      width.Some? && height.None? && |items| % width.value != 0
    ensures BuildPlan(items, width, height) == Err(SizeNotMultipleOfHeight(items)) ==>
      width.None? && height.Some? && |items| % height.value != 0
  {
  }

  /** A builder: the items gathered so far and the two optional hints. */
  class GridBuilder<T> {
    var items: seq<T>
    var width: Option<NonZeroUsize>
    var height: Option<NonZeroUsize>

    /** A `Vec` never holds more than `usize::MAX` items. */
    predicate Valid()
      reads this
    {
      |items| <= USIZE_MAX
    }

    /** `new`: the given items and no hints. */
    constructor New(items: seq<T>)
      requires |items| <= USIZE_MAX
      ensures Valid()
      ensures this.items == items && width.None? && height.None?
    {
      this.items := items;
      width := None;
      height := None;
    }

    /** `width`: replaces the width hint; the last call wins. */
    method Width(w: NonZeroUsize)
      requires Valid()
      modifies this
      ensures Valid()
      ensures width == Some(w)
      ensures items == old(items) && height == old(height)
    {
      width := Some(w);
    }

    /** `height`: replaces the height hint; the last call wins. */
    method Height(h: NonZeroUsize)
      requires Valid()
      modifies this
      ensures Valid()
      ensures height == Some(h)
      ensures items == old(items) && width == old(width)
    {
      height := Some(h);
    }

    /** `with_item`: appends one item at the end. */
    method WithItem(item: T)
      requires |items| < USIZE_MAX
      modifies this
      ensures Valid()
      ensures items == old(items) + [item]
      ensures width == old(width) && height == old(height)
    {
      items := items + [item];
    }

    /** `extend`: appends the given items at the end, in order. */
    method Extend(more: seq<T>)
      requires |items| + |more| <= USIZE_MAX
      modifies this
      ensures Valid()
      ensures items == old(items) + more
      ensures width == old(width) && height == old(height)
    {
      items := items + more;
    }

    /** `build`: a grid of the planned width over the items, or the planned
        error, which carries the items back. */
    method Build() returns (r: Result<Grid<T>, BuildError<T>>)
      requires Valid()
      ensures BuildPlan(items, width, height).Ok? <==> r.Ok?
      ensures r.Ok? ==> fresh(r.value) && fresh(r.value.items) && r.value.Valid()
      ensures r.Ok? ==> r.value.width == BuildPlan(items, width, height).value
      ensures r.Ok? ==> r.value.items[..] == items
      ensures r.Err? ==> r == Err(BuildPlan(items, width, height).error)
      ensures r.Err? ==> r.error.IntoItems() == items
    {
      var plan := BuildPlan(items, width, height);
      if plan.Ok? {
        var g := new Grid<T>.NewUnchecked(plan.value, items);
        r := Ok(g);
      } else {
        r := Err(plan.error);
      }
    }
  }

  /** The outcomes listed in the documentation of `build`. */
  lemma BuildDocExamples()
    ensures BuildPlan([1, 2, 3, 4, 5, 6], Some(2), None) == Ok(2)
    ensures BuildPlan([1, 2, 3, 4, 5], None, None) == Err(NeitherWidthNotHeightSet([1, 2, 3, 4, 5]))
    ensures BuildPlan([1, 2, 3, 4, 5], Some(6), None) == Err(TooWide([1, 2, 3, 4, 5]))
    ensures BuildPlan([1, 2, 3, 4, 5], None, Some(6)) == Err(TooTall([1, 2, 3, 4, 5]))
    ensures BuildPlan([1, 2, 3, 4, 5, 6], Some(3), Some(3)) == Err(SizeDoesNotMatch([1, 2, 3, 4, 5, 6]))
    ensures BuildPlan([1, 2, 3, 4, 5], Some(3), None) == Err(SizeNotMultipleOfWidth([1, 2, 3, 4, 5]))
    ensures BuildPlan([1, 2, 3, 4, 5], None, Some(2)) == Err(SizeNotMultipleOfHeight([1, 2, 3, 4, 5]))
  {
    assert 5 / 2 == 2 && 5 % 2 == 1 && 5 % 3 == 2;
  }
}
