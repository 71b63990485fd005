/** The older grid of src/lib.rs: `width` and `height` stored as plain
    `usize` values, either of which may be zero, over a row-major vector. */
module LegacyGrids {
  import opened Options
  import opened Numbers
  import opened Seqs
  import opened Coordinates

  class Grid<T> {
    const width: nat
    const height: nat
    const items: array<T>

    /** The vector holds one cell per column of every row. */
    predicate Valid() {
      items.Length == width * height
    }

    /** `new`: `height` rows of `width` cells, each produced by the initializer. */
    constructor New(width: nat, height: nat, init: T)
      ensures Valid()
      ensures this.width == width && this.height == height
      ensures forall i :: 0 <= i < items.Length ==> items[i] == init
      ensures fresh(items)
    {
      var cells := Concat(seq(height, _ => seq(width, _ => init)));
      UniformRows(seq(height, _ => seq(width, _ => init)), width, init);
      this.width := width;
      this.height := height;
      this.items := new T[|cells|](i requires 0 <= i < |cells| => cells[i]);
    }

    /** `size`: the product of the dimensions, which is the number of cells. */
    function Size(): (s: nat)
      requires Valid()
      ensures s == items.Length
    {
      width * height
    }

    /** `coordinate_to_index`: an in-bounds position has an index inside
        the vector. */
    function CoordinateToIndex(x: nat, y: nat): (i: nat)
      ensures x < width && y < height ==> i < width * height
    {
      if x < width && y < height then RowMajorBound(x, y, width, height); y * width + x
      else y * width + x
    }

    /** `index_to_coordinate`; dividing by a zero width would panic. */
    function IndexToCoordinate(index: nat): (c: (nat, nat))
      requires 0 < width
      ensures c.0 < width
    {
      var x := index % width;
      RemainderAtMost(index, width);
      var y := (index - x) / width;
      (x, y)
    }

    /** Within the row bound, a coordinate survives the trip through its index. */
    lemma CoordinateRoundTrip(x: nat, y: nat)
      requires x < width
      ensures IndexToCoordinate(CoordinateToIndex(x, y)) == (x, y)
    {
      var i := CoordinateToIndex(x, y);
      DivModUnique(i, width, x, y);
      DivModUnique(i - x, width, 0, y);
    }

    /** Every index survives the trip through its coordinate. */
    lemma IndexRoundTrip(index: nat)
      requires 0 < width
      ensures CoordinateToIndex(IndexToCoordinate(index).0, IndexToCoordinate(index).1) == index
    {
      var x := index % width;
      assert index - x == (index / width) * width;
      DivModUnique(index - x, width, 0, index / width);
    }

    /** `get`: the cell at `(x, y)` when both lie below the dimensions. */
    function Get(x: nat, y: nat): (r: Option<T>)
      requires Valid()
      reads items
      ensures r.Some? <==> x < width && y < height
      ensures r.Some? ==> y * width + x < items.Length && r.value == items[y * width + x]
    {
      if x < width && y < height then
        RowMajorBound(x, y, width, height);
        Some(items[CoordinateToIndex(x, y)])
      else None
    }

    /** `get_mut` followed by a write through the returned reference: only
        the addressed cell changes, and nothing changes out of bounds. */
    method GetMut(x: nat, y: nat, f: T -> T) returns (found: bool)
      requires Valid()
      modifies items
      ensures found <==> x < width && y < height
      ensures found ==> y * width + x < items.Length
      ensures found ==> items[..] == old(items[..])[y * width + x := f(old(items[y * width + x]))]
      ensures !found ==> items[..] == old(items[..])
    {
      if x < width && y < height {
        RowMajorBound(x, y, width, height);
        var index := CoordinateToIndex(x, y);
        items[index] := f(items[index]);
        found := true;
      } else {
        found := false;
      }
    }

    /** `neighbor_indices`: the neighbour generator shifted to `(x, y)` and
        cut to the grid, as `(x, y)` pairs. */
    function NeighborIndices(x: nat, y: nat): (r: seq<(nat, nat)>)
      ensures |r| <= 8
      ensures forall p: (nat, nat) :: p in r <==>
        p.0 < width && p.1 < height && Coordinate(x, y).Touches(FromTuple(p))
      ensures Distinct(r)
      ensures (x, y) !in r
      ensures forall k :: 0 <= k < |r| ==> r[k].0 < width && r[k].1 < height
      ensures forall i, j :: 0 <= i < j < |r| ==>
        Coordinate(x, y).Rank(FromTuple(r[i])) < Coordinate(x, y).Rank(FromTuple(r[j]))
    {
      PairsAround(Coordinate(x, y), width, height)
    }

    /** `neighbors`: each neighbour index with its cell. The `unwrap` on
        `get` never fails, since every index is in bounds. */
    function Neighbors(x: nat, y: nat): (r: seq<(nat, nat, T)>)
      requires Valid()
      reads items
      ensures |r| == |NeighborIndices(x, y)|
      ensures forall k :: 0 <= k < |r| ==>
        (r[k].0, r[k].1) == NeighborIndices(x, y)[k] && Get(r[k].0, r[k].1) == Some(r[k].2)
    {
      CellsAt(NeighborIndices(x, y))
    }

    /** Each in-bounds pair with the cell `get` finds there, in order. */
    function CellsAt(ps: seq<(nat, nat)>): (r: seq<(nat, nat, T)>)
      requires Valid()
      requires forall k :: 0 <= k < |ps| ==> ps[k].0 < width && ps[k].1 < height
      reads items
      ensures |r| == |ps|
      ensures forall k :: 0 <= k < |r| ==>
        (r[k].0, r[k].1) == ps[k] && Get(r[k].0, r[k].1) == Some(r[k].2)
    {
      seq(|ps|, k requires 0 <= k < |ps| reads items =>
        (ps[k].0, ps[k].1, Get(ps[k].0, ps[k].1).value))
    }
  }

  /** Flattening the rows of `new`, each `width` copies of `init`, gives
      `width * height` elements, all equal to `init`. */
  lemma {:induction false} UniformRows<T>(rows: seq<seq<T>>, width: nat, init: T)
    requires forall k :: 0 <= k < |rows| ==> rows[k] == seq(width, _ => init)
    ensures |Concat(rows)| == |rows| * width
    ensures forall i :: 0 <= i < |Concat(rows)| ==> Concat(rows)[i] == init
  {
    if rows != [] {
      UniformRows(rows[1..], width, init);
      assert Concat(rows) == rows[0] + Concat(rows[1..]);
      assert |rows| * width == width + (|rows| - 1) * width;
    }
  }

  /** `(x, y)` tuples of a sequence of coordinates. */
  function ToTuples(cs: seq<Coordinate>): (r: seq<(nat, nat)>)
    ensures |r| == |cs|
    ensures forall k :: 0 <= k < |cs| ==> r[k] == cs[k].ToTuple()
  {
    seq(|cs|, k requires 0 <= k < |cs| => cs[k].ToTuple())
  }

  /** The on-grid neighbours of `c` as tuples. */
  function PairsAround(c: Coordinate, width: nat, height: nat): (r: seq<(nat, nat)>)
    ensures |r| <= 8
    ensures forall p: (nat, nat) :: p in r <==> p.0 < width && p.1 < height && c.Touches(FromTuple(p))
    ensures Distinct(r)
    ensures (c.x, c.y) !in r
    ensures forall k :: 0 <= k < |r| ==> r[k].0 < width && r[k].1 < height
    ensures forall i, j :: 0 <= i < j < |r| ==> c.Rank(FromTuple(r[i])) < c.Rank(FromTuple(r[j]))
  {
    var cs := NeighborsWithin(c, width, height);
    NeighborTuples(cs, c, width, height);
    TuplesInOrder(cs, c);
    ToTuples(cs)
  }

  /** Turning coordinates into tuples keeps their order around `c`. */
  lemma TuplesInOrder(cs: seq<Coordinate>, c: Coordinate)
    requires InGeneratorOrder(cs, c)
    ensures forall i, j :: 0 <= i < j < |ToTuples(cs)| ==>
      c.Rank(FromTuple(ToTuples(cs)[i])) < c.Rank(FromTuple(ToTuples(cs)[j]))
  {
    var r := ToTuples(cs);
    forall k | 0 <= k < |r| ensures FromTuple(r[k]) == cs[k] {
      assert r[k] == cs[k].ToTuple();
    }
  }

  /** Turning coordinates into tuples keeps membership and distinctness. */
  lemma Tuples(cs: seq<Coordinate>)
    ensures forall p: (nat, nat) :: p in ToTuples(cs) <==> FromTuple(p) in cs
    ensures Distinct(cs) ==> Distinct(ToTuples(cs))
  {
    var r := ToTuples(cs);
    forall p: (nat, nat) ensures p in r <==> FromTuple(p) in cs {
      if p in r {
        var k :| 0 <= k < |r| && r[k] == p;
        assert cs[k] == FromTuple(p);
      }
      if FromTuple(p) in cs {
        var k :| 0 <= k < |cs| && cs[k] == FromTuple(p);
        assert r[k] == p;
      }
    }
  }

  /** The tuples of any repetition-free list of the on-grid neighbours of
      `c` are the on-grid neighbour pairs of `c`, each once. */
  lemma NeighborTuples(cs: seq<Coordinate>, c: Coordinate, width: nat, height: nat)
    requires |cs| <= 8 && Distinct(cs) && c !in cs
    requires forall n :: n in cs <==> n.x < width && n.y < height && c.Touches(n)
    ensures |ToTuples(cs)| <= 8
    ensures forall p: (nat, nat) :: p in ToTuples(cs) <==>
      p.0 < width && p.1 < height && c.Touches(FromTuple(p))
    ensures Distinct(ToTuples(cs))
    ensures c.ToTuple() !in ToTuples(cs)
    ensures forall k :: 0 <= k < |ToTuples(cs)| ==>
      ToTuples(cs)[k].0 < width && ToTuples(cs)[k].1 < height
  {
    Tuples(cs);
    forall k | 0 <= k < |cs| ensures cs[k].x < width && cs[k].y < height {
      assert cs[k] in cs;
    }
  }

  /** On a 3 by 4 grid, `neighbors` yields 3 cells in a corner, 8 for the
      two interior cells and 5 on every other edge cell. */
  lemma NeighborCountsThreeByFour<T>(g: Grid<T>, x: nat, y: nat)
    requires g.Valid() && g.width == 3 && g.height == 4 && x < 3 && y < 4
    ensures |g.Neighbors(x, y)| ==
      if (x == 0 || x == 2) && (y == 0 || y == 3) then 3
      else if x == 1 && (y == 1 || y == 2) then 8
      else 5
  {
    Coordinates.NeighborCountsThreeByFour(Coordinate(x, y));
  }

  /** With a zero dimension the grid has no cells, and `get` finds nothing,
      though the dimensions themselves are kept as given. */
  lemma ZeroDimension<T>(g: Grid<T>)
    requires g.Valid() && (g.width == 0 || g.height == 0)
    ensures g.items.Length == 0 && g.Size() == 0
    ensures forall x: nat, y: nat :: g.Get(x, y).None?
  {
  }
}
