/** A position on a grid: a column `x` and a row `y`.

    The value type, its accessors, row-major index, tuple conversions and
    text parser follow src/coordinate.rs. `as_index`, `from_width_and_index`
    and `neighbors` of the newer `Coordinate` follow the index arithmetic
    and the neighbour generator of src/lib.rs. */
module Coordinates {
  import opened Options
  import opened Numbers
  import opened Seqs

  datatype CoordinateParseError = NotTwoNumbers | InvalidXValue | InvalidYValue

  datatype Coordinate = Coordinate(x: nat, y: nat) {

    /** The column; with the row it rebuilds this position. */
    function X(): (r: nat)
      ensures New(r, y) == this
    { x }

    /** The row; with the column it rebuilds this position. */
    function Y(): (r: nat)
      ensures New(x, r) == this
    { y }

    /** Row-major index of this position in a grid `width` cells wide. Within
        the row bound, the index maps back to this very position. */
    function ToIndex(width: nat): (i: nat)
      ensures x < width ==> FromWidthAndIndex(width, i) == this
    {
      var i := y * width + x;
      if x < width then DivModUnique(i, width, x, y); i else i
    }

    /** The index of this position, or nothing when the column is off the grid. */
    function AsIndex(width: NonZeroUsize): (r: Option<nat>)
      ensures r.Some? <==> x < width
      ensures r.Some? ==> FromWidthAndIndex(width, r.value) == this
      ensures r.Some? ==> r.value == ToIndex(width)
    {
      if x < width then Some(ToIndex(width)) else None
    }

    /** The position `d` away, or nothing if either axis would go negative. */
    function Shift(d: (int, int)): (r: Option<Coordinate>)
      ensures r.Some? ==> r.value.x == x + d.0 && r.value.y == y + d.1
      ensures r.None? ==> x + d.0 < 0 || y + d.1 < 0
    {
      if 0 <= x + d.0 && 0 <= y + d.1 then Some(Coordinate(x + d.0, y + d.1)) else None
    }

    /** `other` is one of the up to eight cells touching this one. */
    predicate Touches(other: Coordinate) {
      other != this && -1 <= other.x - x <= 1 && -1 <= other.y - y <= 1
    }

    /** Where `other` comes in the neighbour generator's order around this
        position: the column offset weighs three times the row offset, so
        the column offset varies slowest. */
    function Rank(other: Coordinate): int {
      3 * (other.x - x) + (other.y - y)
    }

    /** The Moore neighbourhood: every offset of the neighbour generator
        applied in order, dropping those that leave the non-negative quadrant. */
    function Neighbors(): (r: seq<Coordinate>)
      ensures |r| <= 8
      ensures forall n :: n in r <==> Touches(n)
      ensures Distinct(r)
      ensures this !in r
      ensures InGeneratorOrder(r, this)
    {
      NeighborsAreTouching();
      ShiftAll(NeighborOffsets())
    }

    lemma NeighborsAreTouching()
      ensures forall n :: n in ShiftAll(NeighborOffsets()) <==> Touches(n)
    {
      var offsets := NeighborOffsets();
      OnlyTouchingNeighbors(offsets);
      AllTouchingNeighbors(offsets);
    }

    lemma OnlyTouchingNeighbors(ds: seq<(int, int)>)
      requires forall d :: d in ds ==> -1 <= d.0 <= 1 && -1 <= d.1 <= 1 && d != (0, 0)
      ensures forall n :: n in ShiftAll(ds) ==> Touches(n)
    {
      forall n | n in ShiftAll(ds) ensures Touches(n) {
        var k :| 0 <= k < |ds| && Shift(ds[k]) == Some(n);
        ShiftTouches(ds[k], n);
      }
    }

    /** A small non-zero offset leads to a touching position. */
    lemma ShiftTouches(d: (int, int), n: Coordinate)
      requires -1 <= d.0 <= 1 && -1 <= d.1 <= 1 && d != (0, 0)
      requires Shift(d) == Some(n)
      ensures Touches(n)
    {
      assert n.x - x == d.0 && n.y - y == d.1;
    }

    lemma AllTouchingNeighbors(ds: seq<(int, int)>)
      requires forall d: (int, int) :: -1 <= d.0 <= 1 && -1 <= d.1 <= 1 && d != (0, 0) ==> d in ds
      ensures forall n :: Touches(n) ==> n in ShiftAll(ds)
    {
      forall n | Touches(n) ensures n in ShiftAll(ds) {
        var d := TouchingOffset(n);
        var k :| 0 <= k < |ds| && ds[k] == d;
      }
    }

    /** The offset from this position to a touching one: small, non-zero,
        and shifting by it leads there. */
    lemma TouchingOffset(n: Coordinate) returns (d: (int, int))
      requires Touches(n)
      ensures -1 <= d.0 <= 1 && -1 <= d.1 <= 1 && d != (0, 0)
      ensures Shift(d) == Some(n)
    {
      d := (n.x - x, n.y - y);
      assert n.x != x || n.y != y;
    }

    /** Every offset applied in turn, keeping the positions that exist, in
        the order of their offsets. */
    function ShiftAll(ds: seq<(int, int)>): (r: seq<Coordinate>)
      ensures |r| <= |ds|
      ensures forall n :: n in r ==> exists k :: 0 <= k < |ds| && Shift(ds[k]) == Some(n)
      ensures forall k :: 0 <= k < |ds| && Shift(ds[k]).Some? ==> Shift(ds[k]).value in r
      ensures Distinct(ds) ==> Distinct(r)
      ensures OffsetsInGeneratorOrder(ds) ==> InGeneratorOrder(r, this)
    {
      if ds == [] then []
      else
        var rest := ShiftAll(ds[1..]);
        var r := if Shift(ds[0]).Some? then [Shift(ds[0]).value] + rest else rest;
        ShiftedStep(ds, rest, r);
        r
    }

    /** One step of `ShiftAll`: putting the first offset's position, if any,
        before the positions of the other offsets keeps every property. */
    lemma ShiftedStep(ds: seq<(int, int)>, rest: seq<Coordinate>, r: seq<Coordinate>)
      requires 0 < |ds|
      requires r == if Shift(ds[0]).Some? then [Shift(ds[0]).value] + rest else rest
      requires |rest| <= |ds[1..]|
      requires forall m :: m in rest ==> exists k :: 0 <= k < |ds[1..]| && Shift(ds[1..][k]) == Some(m)
      requires forall k :: 0 <= k < |ds[1..]| && Shift(ds[1..][k]).Some? ==> Shift(ds[1..][k]).value in rest
      requires Distinct(ds[1..]) ==> Distinct(rest)
      requires OffsetsInGeneratorOrder(ds[1..]) ==> InGeneratorOrder(rest, this)
      ensures |r| <= |ds|
      ensures forall n :: n in r ==> exists k :: 0 <= k < |ds| && Shift(ds[k]) == Some(n)
      ensures forall k :: 0 <= k < |ds| && Shift(ds[k]).Some? ==> Shift(ds[k]).value in r
      ensures Distinct(ds) ==> Distinct(r)
      ensures OffsetsInGeneratorOrder(ds) ==> InGeneratorOrder(r, this)
    {
      ShiftedTailAbove(ds, rest);
      forall n | n in r ensures exists k :: 0 <= k < |ds| && Shift(ds[k]) == Some(n) {
        if Shift(ds[0]) != Some(n) {
          assert n in rest;
          var k :| 0 <= k < |ds[1..]| && Shift(ds[1..][k]) == Some(n);
          assert ds[1..][k] == ds[k + 1];
        }
      }
      forall k | 0 <= k < |ds| && Shift(ds[k]).Some? ensures Shift(ds[k]).value in r {
        if 0 < k {
          assert ds[k] == ds[1..][k - 1];
        }
      }
      if Distinct(ds) {
        ShiftedDistinct(ds, rest, r);
      }
    }

    /** Distinct offsets shift to distinct positions, so the first offset's
        position is not among the others'. */
    lemma ShiftedDistinct(ds: seq<(int, int)>, rest: seq<Coordinate>, r: seq<Coordinate>)
      requires 0 < |ds| && Distinct(ds)
      requires r == if Shift(ds[0]).Some? then [Shift(ds[0]).value] + rest else rest
      requires forall m :: m in rest ==> exists k :: 0 <= k < |ds[1..]| && Shift(ds[1..][k]) == Some(m)
      requires Distinct(ds[1..]) ==> Distinct(rest)
      ensures Distinct(r)
    {
      assert Distinct(ds[1..]) by {
        forall i, j | 0 <= i < j < |ds[1..]| ensures ds[1..][i] != ds[1..][j] {
          assert ds[1..][i] == ds[i + 1] && ds[1..][j] == ds[j + 1];
        }
      }
      if Shift(ds[0]).Some? {
        var n := Shift(ds[0]).value;
        forall m | m in rest ensures m != n {
          var k :| 0 <= k < |ds[1..]| && Shift(ds[1..][k]) == Some(m);
          assert ds[1..][k] == ds[k + 1] && ds[k + 1] != ds[0];
        }
        forall i, j | 0 <= i < j < |r| ensures r[i] != r[j] {
          assert r[j] == rest[j - 1] && r[j] in rest;
          if 0 < i {
            assert r[i] == rest[i - 1];
          }
        }
      }
    }

    /** Shifting an ordered list of offsets keeps the positions in order: the
        positions from the later offsets all rank above the first one. */
    lemma ShiftedTailAbove(ds: seq<(int, int)>, rest: seq<Coordinate>)
      requires 0 < |ds|
      requires forall m :: m in rest ==> exists k :: 0 <= k < |ds[1..]| && Shift(ds[1..][k]) == Some(m)
      requires OffsetsInGeneratorOrder(ds[1..]) ==> InGeneratorOrder(rest, this)
      ensures OffsetsInGeneratorOrder(ds) ==> InGeneratorOrder(rest, this)
      ensures OffsetsInGeneratorOrder(ds) && Shift(ds[0]).Some? ==>
        InGeneratorOrder([Shift(ds[0]).value] + rest, this)
    {
      if OffsetsInGeneratorOrder(ds) {
        assert OffsetsInGeneratorOrder(ds[1..]);
        forall m | m in rest ensures 3 * ds[0].0 + ds[0].1 < Rank(m) {
          var k :| 0 <= k < |ds[1..]| && Shift(ds[1..][k]) == Some(m);
          assert ds[1..][k] == ds[k + 1];
        }
        if Shift(ds[0]).Some? {
          var t := [Shift(ds[0]).value] + rest;
          assert Rank(t[0]) == 3 * ds[0].0 + ds[0].1;
          forall i, j | 0 <= i < j < |t| ensures Rank(t[i]) < Rank(t[j]) {
            assert t[j] == rest[j - 1] && t[j] in rest;
            if 0 < i {
              assert t[i] == rest[i - 1];
            }
          }
        }
      }
    }

    /** Conversion to an `(x, y)` tuple, from which `new` rebuilds it. */
    function ToTuple(): (t: (nat, nat))
      ensures New(t.0, t.1) == this
    {
      (x, y)
    }
  }

  /** Offsets listed in strictly increasing `3 * dx + dy`, the order the
      neighbour generator produces them in. */
  predicate OffsetsInGeneratorOrder(ds: seq<(int, int)>) {
    forall i, j :: 0 <= i < j < |ds| ==> 3 * ds[i].0 + ds[i].1 < 3 * ds[j].0 + ds[j].1
  }

  /** Positions listed in strictly increasing rank around `c`. */
  predicate InGeneratorOrder(s: seq<Coordinate>, c: Coordinate) {
    forall i, j :: 0 <= i < j < |s| ==> c.Rank(s[i]) < c.Rank(s[j])
  }

  /** Counterpart of `Coordinate::new`. */
  function New(x: nat, y: nat): (c: Coordinate)
    ensures c.x == x && c.y == y
  {
    Coordinate(x, y)
  }

  /** Conversion from an `(x, y)` tuple. */
  function FromTuple(t: (nat, nat)): (c: Coordinate)
    ensures c.ToTuple() == t
  {
    Coordinate(t.0, t.1)
  }

  lemma TupleRoundTrip(c: Coordinate, t: (nat, nat))
    ensures FromTuple(c.ToTuple()) == c
    ensures FromTuple(t).ToTuple() == t
  {
  }

  /** The inverse of the row-major index: column `index % width`, row the quotient. */
  function FromWidthAndIndex(width: nat, index: nat): (c: Coordinate)
    requires 0 < width
    ensures c.x < width && c.y * width + c.x == index
  {
    var x := index % width;
    var y := (index - x) / width;
    assert index - x == (index / width) * width;
    DivModUnique(index - x, width, 0, index / width);
    Coordinate(x, y)
  }

  /** The three values of each component of a neighbour offset. */
  const NEIGHBOR_OFFSETS: seq<int> := [-1, 0, 1]

  /** `i` paired with each of `ys`, in their order. */
  function PairWith(i: int, ys: seq<int>): (r: seq<(int, int)>)
    ensures |r| == |ys|
    ensures forall k :: 0 <= k < |ys| ==> r[k] == (i, ys[k])
  {
    if ys == [] then [] else [(i, ys[0])] + PairWith(i, ys[1..])
  }

  /** Each of `xs` paired with every one of `ys`, the first component varying slowest. */
  function FlatPairs(xs: seq<int>, ys: seq<int>): seq<(int, int)> {
    if xs == [] then [] else PairWith(xs[0], ys) + FlatPairs(xs[1..], ys)
  }

  /** The offset pairs other than `(0, 0)`, in their order. */
  function WithoutOrigin(s: seq<(int, int)>): seq<(int, int)> {
    if s == [] then [] else KeptOffset(s[0]) + WithoutOrigin(s[1..])
  }

  /** One offset as a list, or nothing for `(0, 0)`. */
  function KeptOffset(d: (int, int)): seq<(int, int)> {
    if d.0 == 0 && d.1 == 0 then [] else [d]
  }

  lemma {:induction false} WithoutOriginAppend(a: seq<(int, int)>, b: seq<(int, int)>)
    ensures WithoutOrigin(a + b) == WithoutOrigin(a) + WithoutOrigin(b)
  {
    if a == [] {
      assert a + b == b;
    } else {
      var ab := a + b;
      assert ab != [] && ab[0] == a[0] && ab[1..] == a[1..] + b;
      WithoutOriginAppend(a[1..], b);
      calc {
        WithoutOrigin(ab);
        KeptOffset(a[0]) + WithoutOrigin(a[1..] + b);
        KeptOffset(a[0]) + (WithoutOrigin(a[1..]) + WithoutOrigin(b));
        (KeptOffset(a[0]) + WithoutOrigin(a[1..])) + WithoutOrigin(b);
        WithoutOrigin(a) + WithoutOrigin(b);
      }
    }
  }

  lemma {:induction false} WithoutOriginKeeps(s: seq<(int, int)>)
    requires forall k :: 0 <= k < |s| ==> s[k] != (0, 0)
    ensures WithoutOrigin(s) == s
  {
    if s != [] {
      WithoutOriginKeeps(s[1..]);
      assert s == [s[0]] + s[1..];
    }
  }

  /** The neighbour generator: all pairs over {-1, 0, 1} except (0, 0), the
      first component varying slowest. */
  function NeighborOffsets(): (r: seq<(int, int)>)
    ensures r == [(-1, -1), (-1, 0), (-1, 1), (0, -1), (0, 1), (1, -1), (1, 0), (1, 1)]
    ensures forall d :: d in r <==> -1 <= d.0 <= 1 && -1 <= d.1 <= 1 && d != (0, 0)
    ensures Distinct(r)
    ensures forall i, j :: 0 <= i < j < |r| ==> r[i].0 <= r[j].0
    ensures OffsetsInGeneratorOrder(r)
  {
    OffsetsInOrder();
    var r := WithoutOrigin(FlatPairs(NEIGHBOR_OFFSETS, NEIGHBOR_OFFSETS));
    MooreOffsets(r);
    r
  }

  /** The eight offsets listed in generator order: exactly the non-zero
      pairs over {-1, 0, 1}, none twice, the first component never decreasing
      and `3 * dx + dy` strictly increasing. */
  lemma MooreOffsets(r: seq<(int, int)>)
    requires r == [(-1, -1), (-1, 0), (-1, 1), (0, -1), (0, 1), (1, -1), (1, 0), (1, 1)]
    ensures forall d :: d in r <==> -1 <= d.0 <= 1 && -1 <= d.1 <= 1 && d != (0, 0)
    ensures Distinct(r)
    ensures forall i, j :: 0 <= i < j < |r| ==> r[i].0 <= r[j].0
    ensures OffsetsInGeneratorOrder(r)
  {
    OffsetRank(r);
    RankedOffsets(r);
  }

  /** Reading the offsets as base-3 numerals `(d.0 + 1, d.1 + 1)` gives 0..8
      without 4, in increasing order. */
  lemma OffsetRank(r: seq<(int, int)>)
    requires r == [(-1, -1), (-1, 0), (-1, 1), (0, -1), (0, 1), (1, -1), (1, 0), (1, 1)]
    ensures |r| == 8
    ensures forall i :: 0 <= i < |r| ==> -1 <= r[i].0 <= 1 && -1 <= r[i].1 <= 1
    ensures forall i :: 0 <= i < |r| ==> 3 * r[i].0 + r[i].1 + 4 == (if i < 4 then i else i + 1)
  {
    forall i | 0 <= i < |r|
      ensures -1 <= r[i].0 <= 1 && -1 <= r[i].1 <= 1
      ensures 3 * r[i].0 + r[i].1 + 4 == (if i < 4 then i else i + 1)
    {
      if i == 0 {} else if i == 1 {} else if i == 2 {} else if i == 3 {}
      else if i == 4 {} else if i == 5 {} else if i == 6 {} else {}
    }
  }

  /** Eight small offsets whose base-3 ranks are 0..8 without 4, in order,
      are the Moore offsets, each once, in generator order. */
  lemma RankedOffsets(r: seq<(int, int)>)
    requires |r| == 8
    requires forall i :: 0 <= i < |r| ==> -1 <= r[i].0 <= 1 && -1 <= r[i].1 <= 1
    requires forall i :: 0 <= i < |r| ==> 3 * r[i].0 + r[i].1 + 4 == (if i < 4 then i else i + 1)
    ensures forall d :: d in r <==> -1 <= d.0 <= 1 && -1 <= d.1 <= 1 && d != (0, 0)
    ensures Distinct(r)
    ensures forall i, j :: 0 <= i < j < |r| ==> r[i].0 <= r[j].0
    ensures OffsetsInGeneratorOrder(r)
  {
    RankedOrder(r);
    RankedMembers(r);
    RankedCover(r);
  }

  /** Strictly increasing ranks order the offsets and keep them apart. */
  lemma RankedOrder(r: seq<(int, int)>)
    requires forall i :: 0 <= i < |r| ==> -1 <= r[i].1 <= 1
    requires forall i :: 0 <= i < |r| ==> 3 * r[i].0 + r[i].1 + 4 == (if i < 4 then i else i + 1)
    ensures Distinct(r)
    ensures forall i, j :: 0 <= i < j < |r| ==> r[i].0 <= r[j].0
    ensures OffsetsInGeneratorOrder(r)
  {
    forall i, j | 0 <= i < j < |r|
      ensures 3 * r[i].0 + r[i].1 < 3 * r[j].0 + r[j].1
      ensures r[i].0 <= r[j].0 && r[i] != r[j]
    {
      assert 3 * r[i].0 + r[i].1 + 4 < 3 * r[j].0 + r[j].1 + 4;
    }
  }

  /** No ranked offset is the origin, whose rank 4 is skipped. */
  lemma RankedMembers(r: seq<(int, int)>)
    requires forall i :: 0 <= i < |r| ==> -1 <= r[i].0 <= 1 && -1 <= r[i].1 <= 1
    requires forall i :: 0 <= i < |r| ==> 3 * r[i].0 + r[i].1 + 4 == (if i < 4 then i else i + 1)
    ensures forall d :: d in r ==> -1 <= d.0 <= 1 && -1 <= d.1 <= 1 && d != (0, 0)
  {
    forall d | d in r ensures -1 <= d.0 <= 1 && -1 <= d.1 <= 1 && d != (0, 0) {
      var i :| 0 <= i < |r| && r[i] == d;
      assert 3 * d.0 + d.1 + 4 != 4;
    }
  }

  /** Every non-zero small offset has its rank, so it is listed. */
  lemma RankedCover(r: seq<(int, int)>)
    requires |r| == 8
    requires forall i :: 0 <= i < |r| ==> -1 <= r[i].0 <= 1 && -1 <= r[i].1 <= 1
    requires forall i :: 0 <= i < |r| ==> 3 * r[i].0 + r[i].1 + 4 == (if i < 4 then i else i + 1)
    ensures forall d: (int, int) :: -1 <= d.0 <= 1 && -1 <= d.1 <= 1 && d != (0, 0) ==> d in r
  {
    forall d: (int, int) | -1 <= d.0 <= 1 && -1 <= d.1 <= 1 && d != (0, 0) ensures d in r {
      var k := 3 * d.0 + d.1 + 4;
      assert 0 <= k <= 8 && k != 4;
      var i := if k < 4 then k else k - 1;
      assert 3 * r[i].0 + r[i].1 == 3 * d.0 + d.1;
      assert r[i].0 == d.0 && r[i].1 == d.1;
    }
  }

  lemma OffsetsInOrder()
    ensures WithoutOrigin(FlatPairs(NEIGHBOR_OFFSETS, NEIGHBOR_OFFSETS))
         == [(-1, -1), (-1, 0), (-1, 1), (0, -1), (0, 1), (1, -1), (1, 0), (1, 1)]
  {
    var all := FlatPairs(NEIGHBOR_OFFSETS, NEIGHBOR_OFFSETS);
    AllOffsetPairs();
    var before: seq<(int, int)> := [(-1, -1), (-1, 0), (-1, 1), (0, -1)];
    var after: seq<(int, int)> := [(0, 1), (1, -1), (1, 0), (1, 1)];
    assert all == before + [(0, 0)] + after;
    DropOrigin(all, before, after);
    assert before + after == [(-1, -1), (-1, 0), (-1, 1), (0, -1), (0, 1), (1, -1), (1, 0), (1, 1)];
  }

  lemma AllOffsetPairs()
    ensures FlatPairs(NEIGHBOR_OFFSETS, NEIGHBOR_OFFSETS)
         == [(-1, -1), (-1, 0), (-1, 1), (0, -1), (0, 0), (0, 1), (1, -1), (1, 0), (1, 1)]
  {
    var o := NEIGHBOR_OFFSETS;
    assert PairWith(-1, o) == [(-1, -1), (-1, 0), (-1, 1)];
    assert PairWith(0, o) == [(0, -1), (0, 0), (0, 1)];
    assert PairWith(1, o) == [(1, -1), (1, 0), (1, 1)];
    assert o[1..][1..][1..] == [];
    assert FlatPairs(o[1..][1..], o) == PairWith(1, o);
    assert FlatPairs(o[1..], o) == PairWith(0, o) + PairWith(1, o);
  }

  /** Removing the one `(0, 0)` between two origin-free runs joins the runs. */
  lemma DropOrigin(all: seq<(int, int)>, before: seq<(int, int)>, after: seq<(int, int)>)
    requires all == before + [(0, 0)] + after
    requires forall k :: 0 <= k < |before| ==> before[k] != (0, 0)
    requires forall k :: 0 <= k < |after| ==> after[k] != (0, 0)
    ensures WithoutOrigin(all) == before + after
  {
    var origin: seq<(int, int)> := [(0, 0)];
    assert origin[1..] == [];
    assert WithoutOrigin(origin) == [];
    WithoutOriginAppend(before + origin, after);
    WithoutOriginAppend(before, origin);
    WithoutOriginKeeps(before);
    WithoutOriginKeeps(after);
    calc {
      WithoutOrigin(all);
      WithoutOrigin(before + origin) + WithoutOrigin(after);
      (WithoutOrigin(before) + WithoutOrigin(origin)) + WithoutOrigin(after);
      before + [] + after;
    }
    assert before + [] == before;
  }

  /** The neighbours of `c` that lie on a `width` by `height` grid. */
  function NeighborsWithin(c: Coordinate, width: nat, height: nat): (r: seq<Coordinate>)
    ensures |r| <= 8
    ensures forall n :: n in r <==> n.x < width && n.y < height && c.Touches(n)
    ensures Distinct(r)
    ensures c !in r
    ensures InGeneratorOrder(r, c)
  {
    KeepWithin(c.Neighbors(), width, height)
  }

  /** The positions that lie on a `width` by `height` grid, in their order. */
  function KeepWithin(s: seq<Coordinate>, width: nat, height: nat): (r: seq<Coordinate>)
    ensures |r| <= |s|
    ensures forall n :: n in r <==> n in s && n.x < width && n.y < height
    ensures Distinct(s) ==> Distinct(r)
    ensures forall c :: InGeneratorOrder(s, c) ==> InGeneratorOrder(r, c)
  {
    if s == [] then []
    else
      var rest := KeepWithin(s[1..], width, height);
      assert forall n :: n in s <==> n == s[0] || n in s[1..];
      KeptTailAbove(s, rest);
      if s[0].x < width && s[0].y < height then
        assert Distinct(s) ==> s[0] !in s[1..] && Distinct(s[1..]);
        [s[0]] + rest
      else rest
  }

  /** Dropping positions from an ordered list keeps it ordered. */
  lemma KeptTailAbove(s: seq<Coordinate>, rest: seq<Coordinate>)
    requires 0 < |s|
    requires forall n :: n in rest ==> n in s[1..]
    requires forall c :: InGeneratorOrder(s[1..], c) ==> InGeneratorOrder(rest, c)
    ensures forall c :: InGeneratorOrder(s, c) ==> InGeneratorOrder(rest, c)
    ensures forall c :: InGeneratorOrder(s, c) ==> InGeneratorOrder([s[0]] + rest, c)
  {
    forall c | InGeneratorOrder(s, c)
      ensures InGeneratorOrder(rest, c) && InGeneratorOrder([s[0]] + rest, c)
    {
      assert InGeneratorOrder(s[1..], c);
      forall n | n in rest ensures c.Rank(s[0]) < c.Rank(n) {
        var j :| 0 <= j < |s[1..]| && s[1..][j] == n;
        assert s[j + 1] == n;
      }
      var t := [s[0]] + rest;
      forall i, j | 0 <= i < j < |t| ensures c.Rank(t[i]) < c.Rank(t[j]) {
        assert t[j] == rest[j - 1] && t[j] in rest;
        if 0 < i {
          assert t[i] == rest[i - 1];
        }
      }
    }
  }

  /** How many of `v - 1`, `v`, `v + 1` lie in `[0, n)`, for `v < n`. */
  function Span(v: nat, n: nat): nat {
    (if 0 < v then 1 else 0) + 1 + (if v + 1 < n then 1 else 0)
  }

  /** Those of `v - 1`, `v`, `v + 1` that lie in `[0, n)`. */
  ghost function Around(v: nat, n: nat): (r: seq<nat>)
    requires v < n
    ensures |r| == Span(v, n) && Distinct(r)
    ensures forall u: nat :: u in r <==> u < n && -1 <= u - v <= 1
  {
    var left := if 0 < v then [v - 1] else [];
    var right := if v + 1 < n then [v + 1] else [];
    var r := left + [v] + right;
    forall u: nat ensures u in r <==> u < n && -1 <= u - v <= 1 {
      assert u in r <==> u in left || u == v || u in right;
    }
    r
  }

  /** Every position with a column from `xs` and a row from `ys`. */
  ghost function Block(xs: seq<nat>, ys: seq<nat>): (r: seq<Coordinate>)
    ensures |r| == |xs| * |ys|
    ensures forall n :: n in r <==> n.x in xs && n.y in ys
    ensures Distinct(xs) && Distinct(ys) ==> Distinct(r)
  {
    if xs == [] then []
    else
      var column := seq(|ys|, k requires 0 <= k < |ys| => Coordinate(xs[0], ys[k]));
      var rest := Block(xs[1..], ys);
      forall n ensures n in column <==> n.x == xs[0] && n.y in ys {
        if n.x == xs[0] && n.y in ys {
          var k :| 0 <= k < |ys| && ys[k] == n.y;
          assert column[k] == n;
        }
      }
      assert forall u :: u in xs <==> u == xs[0] || u in xs[1..];
      assert Distinct(xs) && Distinct(ys) ==> Distinct(column + rest) by {
        if Distinct(xs) && Distinct(ys) {
          assert xs[0] !in xs[1..];
          assert Distinct(xs[1..]);
          DistinctConcat(column, rest);
        }
      }
      column + rest
  }

  lemma DistinctConcat<T>(a: seq<T>, b: seq<T>)
    requires Distinct(a) && Distinct(b)
    requires forall x :: x in a ==> x !in b
    ensures Distinct(a + b)
  {
    var s := a + b;
    forall i, j | 0 <= i < j < |s| ensures s[i] != s[j] {
      if i < |a| && |a| <= j {
        assert s[i] in a && s[j] == b[j - |a|];
      }
    }
  }

  lemma InNeighborhood(c: Coordinate, width: nat, height: nat, r: seq<Coordinate>, n: Coordinate)
    requires c.x < width && c.y < height
    requires forall m :: m in r <==> m.x < width && m.y < height && c.Touches(m)
    ensures n in r || n == c <==> n in Block(Around(c.x, width), Around(c.y, height))
  {
    var xs, ys := Around(c.x, width), Around(c.y, height);
    assert n in Block(xs, ys) <==> n.x in xs && n.y in ys;
    assert n.x in xs <==> n.x < width && -1 <= n.x - c.x <= 1;
    assert n.y in ys <==> n.y < height && -1 <= n.y - c.y <= 1;
  }

  /** On a grid of `width` by `height` cells, a cell has `Span(x) * Span(y) - 1`
      neighbours: 3 in a corner, 5 on an edge and 8 inside, once both
      dimensions are at least 3. */
  lemma NeighborsWithinCount(c: Coordinate, width: nat, height: nat)
    requires c.x < width && c.y < height
    ensures |NeighborsWithin(c, width, height)| == Span(c.x, width) * Span(c.y, height) - 1
  {
    BlockCount(c, width, height, NeighborsWithin(c, width, height));
  }

  /** A repeat-free list of exactly the on-grid neighbours of `c`, with `c`
      added, covers the block around `c` once. */
  lemma BlockCount(c: Coordinate, width: nat, height: nat, r: seq<Coordinate>)
    requires c.x < width && c.y < height
    requires Distinct(r) && c !in r
    requires forall m :: m in r <==> m.x < width && m.y < height && c.Touches(m)
    ensures |r| == Span(c.x, width) * Span(c.y, height) - 1
  {
    var xs, ys := Around(c.x, width), Around(c.y, height);
    var block := Block(xs, ys);
    var all := r + [c];
    DistinctConcat(r, [c]);
    forall n ensures n in all <==> n in block {
      assert n in all <==> n in r || n == c;
      InNeighborhood(c, width, height, r, n);
    }
    SameElementsSameLength(all, block);
  }

  /** On a 3 by 4 grid: 3 neighbours in each corner, 8 for the two interior
      cells and 5 on every other edge cell. */
  lemma NeighborCountsThreeByFour(c: Coordinate)
    requires c.x < 3 && c.y < 4
    ensures |NeighborsWithin(c, 3, 4)| ==
      if (c.x == 0 || c.x == 2) && (c.y == 0 || c.y == 3) then 3
      else if c.x == 1 && (c.y == 1 || c.y == 2) then 8
      else 5
  {
    NeighborsWithinCount(c, 3, 4);
  }

  // Parsing a coordinate from text.

  predicate IsDigit(ch: char) { '0' <= ch <= '9' }

  /** Value of a string of decimal digits, most significant first. */
  function DigitsValue(s: string): nat
    requires forall i :: 0 <= i < |s| ==> IsDigit(s[i])
  {
    if s == [] then 0
    else
      assert IsDigit(s[|s| - 1]);
      DigitsValue(s[..|s| - 1]) * 10 + (s[|s| - 1] as int - '0' as int)
  }

  /** `str::parse::<usize>`: an optional `+` followed by one or more decimal
      digits whose value fits into a `usize`. */
  function ParseUsize(s: string): (r: Option<nat>)
    ensures r.Some? ==> r.value <= USIZE_MAX
    ensures r.Some? ==> 0 < |s| && forall i :: 0 <= i < |s| ==> IsDigit(s[i]) || (i == 0 && s[i] == '+')
  {
    var digits := if 0 < |s| && s[0] == '+' then s[1..] else s;
    if 0 < |digits| && (forall i :: 0 <= i < |digits| ==> IsDigit(digits[i])) && DigitsValue(digits) <= USIZE_MAX
    then Some(DigitsValue(digits))
    else None
  }

  /** Decimal rendering of a number, without leading zeros. */
  function DecimalString(n: nat): (s: string)
    ensures 0 < |s| && forall i :: 0 <= i < |s| ==> IsDigit(s[i])
    ensures DigitsValue(s) == n
  {
    var last := ['0' + ((n % 10) as char)];
    if n < 10 then
      assert DigitsValue(last) == DigitsValue([]) * 10 + n;
      last
    else
      var s := DecimalString(n / 10) + last;
      assert s[..|s| - 1] == DecimalString(n / 10);
      s
  }

  /** Every `usize` value is read back from its decimal rendering. */
  lemma ParseDecimal(n: nat)
    requires n <= USIZE_MAX
    ensures ParseUsize(DecimalString(n)) == Some(n)
  {
  }

  /** `str::split_once`: the text before and after the first `sep`. */
  function SplitOnce(s: string, sep: char): (r: Option<(string, string)>)
    ensures r.None? <==> sep !in s
    ensures r.Some? ==> s == r.value.0 + [sep] + r.value.1 && sep !in r.value.0
  {
    if s == [] then None
    else if s[0] == sep then Some(([], s[1..]))
    else
      match SplitOnce(s[1..], sep)
      case None => None
      case Some(parts) => Some(([s[0]] + parts.0, parts.1))
  }

  /** `Coordinate::from_str_pair`: `x` is parsed first and its failure wins;
      `y` is looked at only once `x` parsed. */
  function FromStrPair(pair: (string, string)): (r: Result<Coordinate, CoordinateParseError>)
    ensures r.Ok? <==> ParseUsize(pair.0).Some? && ParseUsize(pair.1).Some?
    ensures r.Ok? ==> r.value == Coordinate(ParseUsize(pair.0).value, ParseUsize(pair.1).value)
    ensures ParseUsize(pair.0).None? ==> r == Err(InvalidXValue)
    ensures r == Err(InvalidYValue) <==> ParseUsize(pair.0).Some? && ParseUsize(pair.1).None?
    ensures r != Err(NotTwoNumbers)
  {
    match ParseUsize(pair.0)
    case Some(x) =>
      (match ParseUsize(pair.1)
       case Some(y) => Ok(New(x, y))
       case None => Err(InvalidYValue))
    case None => Err(InvalidXValue)
  }

  /** `Coordinate::from_str`: split at the first space and parse both halves. */
  function FromStr(s: string): (r: Result<Coordinate, CoordinateParseError>)
    ensures ' ' !in s <==> r == Err(NotTwoNumbers)
    ensures ' ' in s ==> exists a, b :: s == a + " " + b && ' ' !in a && r == FromStrPair((a, b))
  {
    match SplitOnce(s, ' ')
    case Some(parts) => FromStrPair(parts)
    case None => Err(NotTwoNumbers)
  }

  /** The split is at the first separator, whatever follows it. */
  lemma {:induction false} SplitOnceAtFirst(a: string, b: string, sep: char)
    requires sep !in a
    ensures SplitOnce(a + [sep] + b, sep) == Some((a, b))
  {
    if a != [] {
      assert (a + [sep] + b)[1..] == a[1..] + [sep] + b;
      SplitOnceAtFirst(a[1..], b, sep);
      assert [a[0]] + a[1..] == a;
    } else {
      assert a + [sep] + b == [sep] + b;
    }
  }

  /** Splitting happens at the first space only, so a third number makes the
      `y` text invalid. */
  lemma FromStrThreeNumbers()
    ensures FromStr("1 2 3") == Err(InvalidYValue)
  {
    FromStrAtFirstSpace("1", "2 3");
    assert "1" + " " + "2 3" == "1 2 3";
    ParseOne();
    ParseSpaced();
  }

  lemma ParseOne()
    ensures ParseUsize("1") == Some(1)
  {
    var x := "1";
    assert x[0] != '+' && IsDigit(x[0]) && x[..0] == [];
    assert DigitsValue(x) == 1;
  }

  lemma ParseSpaced()
    ensures ParseUsize("2 3") == None
  {
    var y := "2 3";
    assert !IsDigit(y[1]);
  }

  /** Text with a first space parses as the pair of its two sides. */
  lemma FromStrAtFirstSpace(a: string, b: string)
    requires ' ' !in a
    ensures FromStr(a + " " + b) == FromStrPair((a, b))
  {
    SplitOnceAtFirst(a, b, ' ');
  }

  /** Text without a space is not two numbers. */
  lemma FromStrOneNumber()
    ensures FromStr("42") == Err(NotTwoNumbers)
  {
  }

  lemma FromStrTwoNumbers()
    ensures FromStr("32 1337") == Ok(Coordinate(32, 1337))
  {
    SplitOnceAtFirst("32", "1337", ' ');
    assert "32" + " " + "1337" == "32 1337";
    ParseThirtyTwo();
    ParseThirteenThirtySeven();
  }

  lemma ParseThirtyTwo()
    ensures ParseUsize("32") == Some(32)
  {
    var x := "32";
    assert x[0] != '+' && forall i :: 0 <= i < |x| ==> IsDigit(x[i]);
    assert x[..1] == "3" && "3"[..0] == [];
    assert DigitsValue("3") == 3;
    assert DigitsValue(x) == 32;
  }

  lemma ParseThirteenThirtySeven()
    ensures ParseUsize("1337") == Some(1337)
  {
    var y := "1337";
    assert y[0] != '+' && forall i :: 0 <= i < |y| ==> IsDigit(y[i]);
    assert y[..3] == "133" && "133"[..2] == "13" && "13"[..1] == "1" && "1"[..0] == [];
    assert DigitsValue("1") == 1;
    assert DigitsValue("13") == 13;
    assert DigitsValue("133") == 133;
    assert DigitsValue(y) == 1337;
  }
}
