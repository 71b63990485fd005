/** The two-dimensional grid of src/grid.rs: a non-zero `width` and one flat,
    row-major buffer of cells. The height is never stored; it is the buffer
    length divided by the width. */
module Grids {
  import opened Options
  import opened Numbers
  import opened Seqs
  import opened Coordinates

  /** What `new_unchecked` demands of its caller: the buffer holds a non-zero
      multiple of `width` cells. */
  predicate GridInvariant(len: nat, width: nat) {
    0 < width && 0 < len && len % width == 0
  }

  class Grid<T> {
    const width: NonZeroUsize
    const items: array<T>

    /** The buffer length is a non-zero multiple of the width, and, being
        the length of a boxed slice, a `usize`. */
    predicate Valid() {
      GridInvariant(items.Length, width) && items.Length <= USIZE_MAX
    }

    /** `new_unchecked`: takes the buffer as it is. */
    constructor NewUnchecked(width: NonZeroUsize, items: seq<T>)
      requires GridInvariant(|items|, width) && |items| <= USIZE_MAX
      ensures Valid()
      ensures this.width == width && this.items[..] == items
      ensures fresh(this.items)
    {
      this.width := width;
      this.items := new T[|items|](i requires 0 <= i < |items| => items[i]);
    }

    /** The number of rows: a positive number which, times the width, is the
        number of cells. */
    function Height(): (h: nat)
      requires Valid()
      ensures 0 < h && h * width == items.Length
    {
      items.Length / width
    }

    /** The number of cells, which is the width times the height. */
    function Size(): (s: nat)
      requires Valid()
      ensures 0 < s && s == Height() * width
    {
      items.Length
    }

    /** `is_empty`: never true of a grid that keeps its invariant. */
    function IsEmpty(): (r: bool)
      ensures r <==> items.Length == 0
      ensures Valid() ==> !r
    {
      items.Length == 0
    }

    /** `encompasses`: the coordinate lies on the grid, which is the same as
        its column being in range and its row-major index inside the buffer. */
    predicate Encompasses(c: Coordinate)
      requires Valid()
      ensures Encompasses(c) <==> c.x < width && c.ToIndex(width) < items.Length
    {
      if c.x < width then
        RowMajorBound(c.x, c.y, width, Height());
        c.y < Height()
      else false
    }

    /** `get`: `as_index` turns the column bound into `None`, the slice
        lookup does the same for the row bound. */
    function Get(c: Coordinate): (r: Option<T>)
      requires Valid()
      reads items
      ensures r.Some? <==> Encompasses(c)
      ensures r.Some? ==> r.value == items[c.y * width + c.x]
    {
      match c.AsIndex(width)
      case None => None
      case Some(i) => if i < items.Length then Some(items[i]) else None
    }

    /** `get_mut` followed by a write through the returned reference: only
        the addressed cell changes, and nothing changes off the grid. */
    method GetMut(c: Coordinate, f: T -> T) returns (found: bool)
      requires Valid()
      modifies items
      ensures found <==> Encompasses(c)
      ensures found ==> items[..] == old(items[..])[c.ToIndex(width) := f(old(items[c.ToIndex(width)]))]
      ensures !found ==> items[..] == old(items[..])
    {
      match c.AsIndex(width)
      case None =>
        found := false;
      case Some(i) =>
        if i < items.Length {
          items[i] := f(items[i]);
          found := true;
        } else {
          found := false;
        }
    }

    /** `iter_mut().enumerate()`, writing `f(index, old value)` into every cell. */
    method IterMut(f: (nat, T) -> T)
      requires Valid()
      modifies items
      ensures forall i :: 0 <= i < items.Length ==> items[i] == f(i, old(items[i]))
    {
      var k := 0;
      while k < items.Length
        invariant 0 <= k <= items.Length
        invariant forall i :: 0 <= i < k ==> items[i] == f(i, old(items[i]))
        invariant forall i :: k <= i < items.Length ==> items[i] == old(items[i])
      {
        items[k] := f(k, items[k]);
        k := k + 1;
      }
    }

    /** `enumerate_mut`, writing `f(coordinate, old value)` into every cell. */
    method EnumerateMut(f: (Coordinate, T) -> T)
      requires Valid()
      modifies items
      ensures forall i :: 0 <= i < items.Length ==>
        items[i] == f(FromWidthAndIndex(width, i), old(items[i]))
    {
      var k := 0;
      while k < items.Length
        invariant 0 <= k <= items.Length
        invariant forall i :: 0 <= i < k ==> items[i] == f(FromWidthAndIndex(width, i), old(items[i]))
        invariant forall i :: k <= i < items.Length ==> items[i] == old(items[i])
      {
        items[k] := f(FromWidthAndIndex(width, k), items[k]);
        k := k + 1;
      }
    }

    /** `neighbors_mut`: `f(coordinate, old value)` is written into every
        neighbour of `c`; every other cell keeps its value. */
    method NeighborsMut(c: Coordinate, f: (Coordinate, T) -> T)
      requires Valid()
      modifies items
      ensures forall i :: 0 <= i < items.Length ==>
        items[i] == WriteIfListed(NeighborCoordinates(c), f, i, old(items[i]))
    {
      NeighborsMutInternal(NeighborCoordinates(c), f);
    }

    /** `neighbors_mut_internal`: `enumerate_mut` restricted to the listed
        coordinates, writing through each reference it yields. */
    method NeighborsMutInternal(neighbors: seq<Coordinate>, f: (Coordinate, T) -> T)
      requires Valid()
      modifies items
      ensures forall i :: 0 <= i < items.Length ==>
        items[i] == WriteIfListed(neighbors, f, i, old(items[i]))
    {
      var k := 0;
      while k < items.Length
        invariant 0 <= k <= items.Length
        invariant forall i :: 0 <= i < k ==> items[i] == WriteIfListed(neighbors, f, i, old(items[i]))
        invariant forall i :: k <= i < items.Length ==> items[i] == old(items[i])
      {
        items[k] := WriteIfListed(neighbors, f, k, items[k]);
        k := k + 1;
      }
    }

    /** The new value of cell `i` holding `v`: `f` applied when the cell's
        coordinate is listed, `v` itself otherwise. */
    function WriteIfListed(neighbors: seq<Coordinate>, f: (Coordinate, T) -> T, i: nat, v: T): T
      requires Valid()
    {
      var position := FromWidthAndIndex(width, i);
      if position in neighbors then f(position, v) else v
    }

    /** `enumerate`: every cell in buffer order, paired with the coordinate
        whose row-major index is its position. */
    function Enumerate(): (r: seq<(Coordinate, T)>)
      requires Valid()
      reads items
      ensures |r| == items.Length
      ensures forall i :: 0 <= i < |r| ==>
        r[i].0.x < width && r[i].0.ToIndex(width) == i && r[i].1 == items[i]
    {
      seq(items.Length, i requires 0 <= i < items.Length reads items =>
        (FromWidthAndIndex(width, i), items[i]))
    }

    /** A pair is enumerated exactly when `get` finds its value at its coordinate. */
    lemma EnumerateAgreesWithGet(p: (Coordinate, T))
      requires Valid()
      ensures p in Enumerate() <==> Get(p.0) == Some(p.1)
    {
      var e := Enumerate();
      if p in e {
        var i :| 0 <= i < |e| && e[i] == p;
        assert Encompasses(p.0);
      }
      if Get(p.0) == Some(p.1) {
        var i := p.0.ToIndex(width);
        assert e[i].0 == FromWidthAndIndex(width, i) == p.0;
      }
    }

    /** No coordinate is enumerated twice. */
    lemma EnumerateDistinct()
      requires Valid()
      ensures Distinct(Keys(Enumerate()))
    {
      var ks := Keys(Enumerate());
      forall i, j | 0 <= i < j < |ks| ensures ks[i] != ks[j] {
        assert ks[i].ToIndex(width) == i && ks[j].ToIndex(width) == j;
      }
    }

    /** Row `y`: the columns `0 .. width` looked up through `as_index`. */
    function Row(y: nat): (row: seq<T>)
      requires Valid() && y < Height()
      reads items
      ensures (y + 1) * width <= items.Length && row == items[y * width .. (y + 1) * width]
    {
      RowEndBound(y, width, Height());
      var start := y * width;
      assert (y + 1) * width == start + width;
      seq(width, x requires 0 <= x < width reads items =>
        items[Coordinate(x, y).AsIndex(width).value])
    }

    /** `rows`: one row per unit of height, each the matching slice of the buffer. */
    function Rows(): (r: seq<seq<T>>)
      requires Valid()
      reads items
      ensures |r| == Height()
      ensures forall y :: 0 <= y < |r| ==> r[y] == items[y * width .. (y + 1) * width]
    {
      seq(Height(), y requires 0 <= y < Height() reads items => Row(y))
    }

    /** Reading the rows one after the other gives back the whole buffer. */
    lemma RowsFlatten()
      requires Valid()
      ensures Concat(Rows()) == items[..]
    {
      var rows := Rows();
      var k := 0;
      while k < |rows|
        invariant 0 <= k <= |rows|
        invariant k * width <= items.Length
        invariant Concat(rows[..k]) == items[..k * width]
      {
        RowEndBound(k, width, Height());
        assert rows[..k + 1] == rows[..k] + [rows[k]];
        ConcatAppend(rows[..k], rows[k]);
        assert items[..(k + 1) * width] == items[..k * width] + items[k * width .. (k + 1) * width];
        k := k + 1;
      }
      assert rows[..|rows|] == rows;
    }

    /** `neighbor_coordinates`: the touching cells that lie on the grid,
        each once, never `c` itself. */
    function NeighborCoordinates(c: Coordinate): (r: seq<Coordinate>)
      requires Valid()
      ensures |r| <= 8
      ensures forall n :: n in r <==> Encompasses(n) && c.Touches(n)
      ensures Distinct(r)
      ensures c !in r
      ensures InGeneratorOrder(r, c)
    {
      NeighborsWithin(c, width, Height())
    }

    /** A cell on the grid has `Span(x) * Span(y) - 1` neighbours. */
    lemma NeighborCoordinatesCount(c: Coordinate)
      requires Valid() && Encompasses(c)
      ensures |NeighborCoordinates(c)| == Span(c.x, width) * Span(c.y, Height()) - 1
    {
      NeighborsWithinCount(c, width, Height());
    }

    /** `neighbors`: the enumeration restricted to the neighbour coordinates.
        Every neighbour coordinate appears once, in buffer order, paired with
        the value `get` returns for it. */
    function Neighbors(c: Coordinate): (r: seq<(Coordinate, T)>)
      requires Valid()
      reads items
      ensures forall k :: 0 <= k < |r| ==> Get(r[k].0) == Some(r[k].1)
      ensures forall n :: n in Keys(r) <==> n in NeighborCoordinates(c)
      ensures InBufferOrder(r, width)
    {
      NeighborsInternal(NeighborCoordinates(c))
    }

    /** `neighbors_internal`: the enumeration restricted to the listed
        coordinates that lie on the grid. */
    function NeighborsInternal(neighbors: seq<Coordinate>): (r: seq<(Coordinate, T)>)
      requires Valid()
      reads items
      ensures forall k :: 0 <= k < |r| ==> Get(r[k].0) == Some(r[k].1)
      ensures forall n :: n in Keys(r) <==> n in neighbors && Encompasses(n)
      ensures InBufferOrder(r, width)
    {
      var e := Enumerate();
      EnumerateSelection(neighbors);
      KeepAtOrder(e, neighbors, width);
      KeepAt(e, neighbors)
    }

    lemma EnumerateSelection(neighbors: seq<Coordinate>)
      requires Valid()
      ensures forall k :: 0 <= k < |KeepAt(Enumerate(), neighbors)| ==>
        Get(KeepAt(Enumerate(), neighbors)[k].0) == Some(KeepAt(Enumerate(), neighbors)[k].1)
      ensures forall n :: n in Keys(KeepAt(Enumerate(), neighbors)) <==> n in neighbors && Encompasses(n)
    {
      var e := Enumerate();
      var r := KeepAt(e, neighbors);
      forall k | 0 <= k < |r| ensures Get(r[k].0) == Some(r[k].1) {
        EnumerateAgreesWithGet(r[k]);
      }
      forall n ensures n in Keys(r) <==> n in neighbors && Encompasses(n) {
        KeepAtKeys(e, neighbors, n);
        if n in Keys(e) {
          var i :| 0 <= i < |e| && Keys(e)[i] == n;
        }
        if Encompasses(n) {
          var i := n.ToIndex(width);
          assert e[i].0 == n;
          KeysMember(e, i);
        }
      }
    }

    /** There are exactly as many neighbour pairs as neighbour coordinates. */
    lemma NeighborsCount(c: Coordinate)
      requires Valid()
      ensures |Neighbors(c)| == |NeighborCoordinates(c)|
    {
      var r := Neighbors(c);
      OrderedDistinct(r, width);
      SameElementsSameLength(Keys(r), NeighborCoordinates(c));
    }
  }

  /** The coordinates of a sequence of (coordinate, value) pairs. */
  function Keys<T>(s: seq<(Coordinate, T)>): (r: seq<Coordinate>)
    ensures |r| == |s|
    ensures forall i :: 0 <= i < |s| ==> r[i] == s[i].0
  {
    if s == [] then [] else [s[0].0] + Keys(s[1..])
  }

  lemma KeysMember<T>(s: seq<(Coordinate, T)>, i: nat)
    requires i < |s|
    ensures s[i].0 in Keys(s)
  {
    assert Keys(s)[i] == s[i].0;
  }

  /** The pairs come in strictly increasing row-major order of their coordinates. */
  ghost predicate InBufferOrder<T>(s: seq<(Coordinate, T)>, width: nat) {
    forall i, j :: 0 <= i < j < |s| ==> s[i].0.ToIndex(width) < s[j].0.ToIndex(width)
  }

  lemma OrderedDistinct<T>(s: seq<(Coordinate, T)>, width: nat)
    requires InBufferOrder(s, width)
    ensures Distinct(Keys(s))
  {
    var ks := Keys(s);
    forall i, j | 0 <= i < j < |ks| ensures ks[i] != ks[j] {
      assert s[i].0.ToIndex(width) < s[j].0.ToIndex(width);
    }
  }

  /** The pairs whose position is one of `keys`, in their order. */
  function KeepAt<T>(s: seq<(Coordinate, T)>, keys: seq<Coordinate>): (r: seq<(Coordinate, T)>)
    ensures |r| <= |s|
    ensures forall k :: 0 <= k < |r| ==> r[k] in s && r[k].0 in keys
  {
    if s == [] then []
    else
      var rest := KeepAt(s[1..], keys);
      assert forall k :: 0 <= k < |rest| ==> rest[k] in s;
      if s[0].0 in keys then [s[0]] + rest else rest
  }

  lemma {:induction false} KeepAtKeys<T>(s: seq<(Coordinate, T)>, keys: seq<Coordinate>, n: Coordinate)
    ensures n in Keys(KeepAt(s, keys)) <==> n in Keys(s) && n in keys
  {
    if s != [] {
      KeepAtKeys(s[1..], keys, n);
      assert Keys(s) == [s[0].0] + Keys(s[1..]);
      var rest := KeepAt(s[1..], keys);
      if s[0].0 in keys {
        assert KeepAt(s, keys) == [s[0]] + rest;
        assert Keys([s[0]] + rest) == [s[0].0] + Keys(rest);
      }
    }
  }

  lemma {:induction false} KeepAtOrder<T>(s: seq<(Coordinate, T)>, keys: seq<Coordinate>, width: nat)
    requires InBufferOrder(s, width)
    ensures InBufferOrder(KeepAt(s, keys), width)
  {
    if s != [] {
      var tail := s[1..];
      InBufferOrderTail(s, width);
      KeepAtOrder(tail, keys, width);
      if s[0].0 in keys {
        KeepAtAbove(tail, keys, width, s[0].0.ToIndex(width));
        InBufferOrderCons(s[0], KeepAt(tail, keys), width);
      }
    }
  }

  /** The tail of a list in buffer order is in buffer order, above its head. */
  lemma InBufferOrderTail<T>(s: seq<(Coordinate, T)>, width: nat)
    requires 0 < |s| && InBufferOrder(s, width)
    ensures InBufferOrder(s[1..], width)
    ensures forall k :: 0 <= k < |s[1..]| ==> s[0].0.ToIndex(width) < s[1..][k].0.ToIndex(width)
  {
    var tail := s[1..];
    forall i, j | 0 <= i < j < |tail|
      ensures tail[i].0.ToIndex(width) < tail[j].0.ToIndex(width)
    {
      assert tail[i] == s[i + 1] && tail[j] == s[j + 1];
    }
    forall k | 0 <= k < |tail| ensures s[0].0.ToIndex(width) < tail[k].0.ToIndex(width) {
      assert tail[k] == s[k + 1];
    }
  }

  /** A head below every element of a list in buffer order extends it. */
  lemma InBufferOrderCons<T>(h: (Coordinate, T), rest: seq<(Coordinate, T)>, width: nat)
    requires InBufferOrder(rest, width)
    requires forall k :: 0 <= k < |rest| ==> h.0.ToIndex(width) < rest[k].0.ToIndex(width)
    ensures InBufferOrder([h] + rest, width)
  {
    var r := [h] + rest;
    forall i, j | 0 <= i < j < |r| ensures r[i].0.ToIndex(width) < r[j].0.ToIndex(width) {
      assert r[j] == rest[j - 1];
      if 0 < i {
        assert r[i] == rest[i - 1];
      }
    }
  }

  lemma KeepAtAbove<T>(s: seq<(Coordinate, T)>, keys: seq<Coordinate>, width: nat, bound: nat)
    requires forall k :: 0 <= k < |s| ==> bound < s[k].0.ToIndex(width)
    ensures forall k :: 0 <= k < |KeepAt(s, keys)| ==> bound < KeepAt(s, keys)[k].0.ToIndex(width)
  {
    var r := KeepAt(s, keys);
    forall k | 0 <= k < |r| ensures bound < r[k].0.ToIndex(width) {
      assert r[k] in s;
      var m :| 0 <= m < |s| && s[m] == r[k];
    }
  }

  /** `contains`: some coordinate of the grid holds the element. */
  function Contains<T(==)>(g: Grid<T>, e: T): (r: bool)
    requires g.Valid()
    reads g.items
    ensures r <==> exists c :: g.Get(c) == Some(e)
  {
    ContainsAt(g, e);
    e in g.items[..]
  }

  lemma ContainsAt<T>(g: Grid<T>, e: T)
    requires g.Valid()
    ensures e in g.items[..] <==> exists c :: g.Get(c) == Some(e)
  {
    if e in g.items[..] {
      var i :| 0 <= i < g.items.Length && g.items[i] == e;
      var c := FromWidthAndIndex(g.width, i);
      assert g.Get(c) == Some(e);
    }
    if exists c :: g.Get(c) == Some(e) {
      var c :| g.Get(c) == Some(e);
      assert g.items[c.y * g.width + c.x] == e;
    }
  }

  /** `try_new`: a `width` by `height` grid with every cell set to `init`,
      or nothing when the size does not fit in a `usize`. */
  method TryNew<T>(width: NonZeroUsize, height: NonZeroUsize, init: T) returns (r: Option<Grid<T>>)
    ensures r.None? <==> width * height > USIZE_MAX
    ensures r.Some? ==> fresh(r.value) && fresh(r.value.items) && r.value.Valid()
    ensures r.Some? ==> r.value.width == width && r.value.Height() == height
    ensures r.Some? ==> r.value.Size() == width * height
    ensures r.Some? ==> forall i :: 0 <= i < r.value.items.Length ==> r.value.items[i] == init
  {
    var product := CheckedMul(width, height);
    if product.None? {
      r := None;
    } else {
      var size := product.value;
      var items: seq<T> := [];
      var k := 0;
      while k < size
        invariant 0 <= k <= size
        invariant |items| == k
        invariant forall i :: 0 <= i < k ==> items[i] == init
      {
        items := items + [init];
        k := k + 1;
      }
      DivModUnique(size, width, 0, height);
      var g := new Grid<T>.NewUnchecked(width, items);
      r := Some(g);
    }
  }

  /** `new`: `try_new` for callers that guarantee the size fits. */
  method New<T>(width: NonZeroUsize, height: NonZeroUsize, init: T) returns (g: Grid<T>)
    requires width * height <= USIZE_MAX
    ensures fresh(g) && fresh(g.items) && g.Valid()
    ensures g.width == width && g.Height() == height && g.Size() == width * height
    ensures forall i :: 0 <= i < g.items.Length ==> g.items[i] == init
  {
    var r := TryNew(width, height, init);
    g := r.value;
  }

  /** The test `TryFrom` performs, as written: only divisibility. */
  predicate TryFromAcceptsAsWritten(len: nat, width: NonZeroUsize)
    ensures TryFromAcceptsAsWritten(len, width) ==> (len / width) * width == len
  {
    len % width == 0
  }

  /** The written test lets an empty buffer through, which is not a
      non-zero multiple of the width. */
  lemma TryFromAsWrittenAcceptsEmpty(width: NonZeroUsize)
    ensures TryFromAcceptsAsWritten(0, width) && !GridInvariant(0, width)
  {
    assert 0 % width == 0;
  }

  /** The test `TryFrom` needs: a non-empty buffer whose length the width divides. */
  predicate TryFromAccepts(len: nat, width: NonZeroUsize) {
    0 < len && len % width == 0
  }

  /** The corrected test accepts exactly the buffers `new_unchecked` allows,
      and differs from the written one only on the empty buffer. */
  lemma TryFromAcceptsIsInvariant(len: nat, width: NonZeroUsize)
    ensures TryFromAccepts(len, width) <==> GridInvariant(len, width)
    ensures TryFromAccepts(len, width) <==> TryFromAcceptsAsWritten(len, width) && len != 0
  {
  }

  /** `TryFrom<(items, width)>`: a grid holding `items` in order when the
      corrected test accepts them, `Err(())` otherwise. */
  method TryFrom<T>(items: seq<T>, width: NonZeroUsize) returns (r: Result<Grid<T>, ()>)
    requires |items| <= USIZE_MAX
    ensures r.Ok? <==> TryFromAccepts(|items|, width)
    ensures r.Ok? ==> fresh(r.value) && fresh(r.value.items) && r.value.Valid()
    ensures r.Ok? ==> r.value.width == width && r.value.items[..] == items
  {
    if |items| > 0 && |items| % width == 0 {
      var g := new Grid<T>.NewUnchecked(width, items);
      r := Ok(g);
    } else {
      r := Err(());
    }
  }

  /** Eight items form a grid four wide, but not three wide. */
  lemma TryFromEightItems()
    ensures TryFromAccepts(8, 4) && !TryFromAccepts(8, 3)
  {
    assert 8 % 4 == 0 && 8 % 3 == 2;
  }

  /** "Hello world!" four cells wide: three rows, and `get` answers with the
      character at `y * 4 + x` on the grid and `None` off it. */
  lemma GetHelloWorld(g: Grid<char>, c: Coordinate)
    requires g.Valid() && g.width == 4 && g.items[..] == "Hello world!"
    ensures g.Height() == 3
    ensures g.Get(c) == if c.x < 4 && c.y < 3 then Some("Hello world!"[c.y * 4 + c.x]) else None
  {
    assert g.items.Length == 12;
  }
}
