/** The spatial prefetch of sfc.cpp: a box of cells is turned into Hilbert indexes, these
    are widened, and what is fetched is a box around the cells they stand for. */
module SpatialFetch {
  import opened Words
  import opened Digits
  import opened HilbertCurve
  import opened HilbertPoints
  import H = Hilbert
  import opened Basics
  import opened Intervals

  const NDIM: nat := 3

  // The cell at an index, and the index of a cell.
  function Cell(bits: nat, index: nat): seq<nat>
  {
    PointFrom(NDIM, Start, index, bits)
  }

  function IndexOf(bits: nat, c: seq<nat>): nat
    requires |c| == NDIM
  {
    IndexFrom(NDIM, Start, c, bits)
  }

  predicate Inside(c: seq<nat>, l: seq<nat>, u: seq<nat>)
    requires |l| == |u| == NDIM
  {
    |c| == NDIM && forall d :: 0 <= d < NDIM ==> l[d] <= c[d] < u[d]
  }

  predicate ValidBox(l: seq<nat>, u: seq<nat>)
    requires |l| == |u| == NDIM
  {
    forall d :: 0 <= d < NDIM ==> l[d] < u[d]
  }

  // ceil(log2(n))
  function NumBits(n: nat): (b: nat)
    requires 1 <= n
    ensures n <= Pow2(b) && (0 < b ==> Pow2(b - 1) < n)
  {
    if n == 1 then 0 else NumBits((n + 1) / 2) + 1
  }

  lemma Pow31()
    ensures Pow2(31) == TWO_31
  {
    assert Pow2(10) == 1024 && Pow2(1) == 2;
    Pow2Add(10, 10);
    Pow2Add(20, 10);
    Pow2Add(30, 1);
  }

  lemma SizeOf(bits: nat)
    requires 1 <= bits && NDIM * bits <= 31
    ensures Span(NDIM, bits) == Pow2(NDIM * bits) && NDIM * bits <= WIDTH && Valid(NDIM, Start)
    ensures 1 <= Pow2(NDIM * bits) <= TWO_31
  {
    hide Pow2, Span;
    H.SizeFits(NDIM, bits);
    Pow31();
    Pow2Monotone(NDIM * bits, 31);
    StartValid();
  }

  lemma StartValid()
    ensures Valid(NDIM, Start)
  {
  }

  // Indexes below the size and cells of the grid are in one-to-one correspondence.
  lemma CellOfIndex(bits: nat, index: nat)
    requires 1 <= bits && NDIM * bits <= 31 && index < Pow2(NDIM * bits)
    ensures |Cell(bits, index)| == NDIM && OnGrid(Cell(bits, index), bits) && IndexOf(bits, Cell(bits, index)) == index
  {
    hide Pow2, Span, OnGrid, IndexFrom;
    SizeOf(bits);
    IndexOfPoint(NDIM, Start, index, bits);
  }

  lemma IndexOfCell(bits: nat, c: seq<nat>)
    requires 1 <= bits && NDIM * bits <= 31 && |c| == NDIM && OnGrid(c, bits)
    ensures IndexOf(bits, c) < Pow2(NDIM * bits) && Cell(bits, IndexOf(bits, c)) == c
  {
    hide Pow2, Span, OnGrid, IndexFrom, PointFrom;
    SizeOf(bits);
    PointOfIndex(NDIM, Start, c, bits);
  }

  // The cells of the box that the loops over it have passed when they come to (d0, d1, d2).
  predicate Passed(c: seq<nat>, d0: nat, d1: nat, d2: nat)
    requires |c| == NDIM
  {
    c[0] < d0 || (c[0] == d0 && (c[1] < d1 || (c[1] == d1 && c[2] < d2)))
  }

  // The indexes of the cells passed.
  ghost predicate Holds(ii: seq<Interval>, bits: nat, l: seq<nat>, u: seq<nat>, d0: nat, d1: nat, d2: nat)
    requires |l| == |u| == NDIM
  {
    Normal(ii) && forall x: nat :: InSet(ii, x) <==> Walked(bits, l, u, d0, d1, d2, x)
  }

  ghost predicate Walked(bits: nat, l: seq<nat>, u: seq<nat>, d0: nat, d1: nat, d2: nat, x: nat)
    requires |l| == |u| == NDIM
  {
    x < Pow2(NDIM * bits) && Inside(Cell(bits, x), l, u) && Passed(Cell(bits, x), d0, d1, d2)
  }

  class HsAlgo {
    const numBits: nat
    const maxIndex: nat
    const sexpandLength: nat

    ghost predicate Valid()
    {
      1 <= numBits && NDIM * numBits <= 31 && maxIndex + 1 == Pow2(NDIM * numBits) && sexpandLength < TWO_64
    }

    // The grid is as wide as the longest side of the space, which needs a bit at least
    // and ten at most. A space at the origin lies on it.
    constructor (l: seq<nat>, u: seq<nat>, sexpandLength: nat)
      requires |l| == |u| == NDIM && ValidBox(l, u) && (forall d :: 0 <= d < NDIM ==> u[d] - l[d] <= 1024)
      requires (exists d :: 0 <= d < NDIM && 2 <= u[d] - l[d]) && sexpandLength < TWO_64
      ensures Valid() && this.sexpandLength == sexpandLength
      ensures forall d :: 0 <= d < NDIM ==> u[d] - l[d] <= Pow2(numBits)
      ensures exists d :: 0 <= d < NDIM && Pow2(numBits - 1) < u[d] - l[d]
      ensures OnGridWhole(numBits, l, u) <==> forall d :: 0 <= d < NDIM ==> u[d] <= Pow2(numBits)
      ensures l == [0, 0, 0] ==> OnGridWhole(numBits, l, u)
    {
      var longest := u[0] - l[0];
      for d := 1 to NDIM
        invariant forall e :: 0 <= e < d ==> u[e] - l[e] <= longest
        invariant exists e :: 0 <= e < d && u[e] - l[e] == longest
      {
        if u[d] - l[d] > longest {
          longest := u[d] - l[d];
        }
      }
      numBits := NumBits(longest);
      maxIndex := Pow2(NDIM * NumBits(longest)) - 1;
      this.sexpandLength := sexpandLength;
      BitsFit(longest);
      SpaceOnGrid(NumBits(longest), l, u);
    }

    // Adds the index of one cell.
    method InsertCell(ii: seq<Interval>, d0: nat, d1: nat, d2: nat) returns (r: seq<Interval>)
      requires Valid() && Normal(ii) && OnGrid([d0, d1, d2], numBits)
      ensures Normal(r) && forall x: nat :: InSet(r, x) <==> InSet(ii, x) || (x <= maxIndex && Cell(numBits, x) == [d0, d1, d2])
    {
      hide OnGrid, IndexFrom, PointFrom, InSet, Insert, Pow2;
      var coor := new nat[NDIM];
      coor[0], coor[1], coor[2] := d0, d1, d2;
      ghost var c := [d0, d1, d2];
      assert coor[..] == c;
      SizeOf(numBits);
      var index := H.C2I(NDIM, numBits, coor);
      IndexOfCell(numBits, c);
      InsertFacts(ii, Interval(index, index));
      r := Insert(ii, Interval(index, index));
      forall x: nat ensures Has(Interval(index, index), x) <==> x <= maxIndex && Cell(numBits, x) == c {
        if x <= maxIndex {
          CellOfIndex(numBits, x);
        }
      }
    }

    // coor_to_index_interval_set_: the indexes of all cells of the box.
    method BoxToIntervals(l: seq<nat>, u: seq<nat>) returns (ii: seq<Interval>)
      requires Valid() && |l| == |u| == NDIM && ValidBox(l, u) && forall d :: 0 <= d < NDIM ==> u[d] <= Pow2(numBits)
      ensures Normal(ii)
      ensures forall x: nat :: InSet(ii, x) <==> x <= maxIndex && Inside(Cell(numBits, x), l, u)
    {
      hide PointFrom, InSet, Pow2;
      ii := [];
      Nothing(numBits, l, u);
      for d0 := l[0] to u[0]
        invariant Holds(ii, numBits, l, u, d0, l[1], l[2])
      {
        for d1 := l[1] to u[1]
          invariant Holds(ii, numBits, l, u, d0, d1, l[2])
        {
          for d2 := l[2] to u[2]
            invariant Holds(ii, numBits, l, u, d0, d1, d2)
          {
            ghost var before := ii;
            ii := InsertCell(ii, d0, d1, d2);
            OneMore(before, ii, numBits, l, u, d0, d1, d2);
          }
          SamePassed(ii, numBits, l, u, d0, d1, u[2], d0, d1 + 1, l[2]);
        }
        SamePassed(ii, numBits, l, u, d0, u[1], l[2], d0 + 1, l[1], l[2]);
      }
      AllPassed(ii, numBits, l, u);
    }

    // expand_interval_set
    method Expand(ii: seq<Interval>) returns (r: seq<Interval>)
      requires Valid() && Normal(ii) && forall k :: 0 <= k < |ii| ==> ii[k].upper <= maxIndex
      ensures r == Expanded(ii, sexpandLength, maxIndex)
    {
      hide Insert, Normal;
      r := [];
      for k := 0 to |ii|
        invariant r == Expanded(ii[..k], sexpandLength, maxIndex)
      {
        assert ii[..k + 1][..k] == ii[..k];
        var lower := (ii[k].lower + TWO_64 - sexpandLength) % TWO_64;
        if ii[k].lower < sexpandLength {
          lower := 0;
        }
        var iv := Interval(lower, Min(maxIndex, (ii[k].upper + sexpandLength) % TWO_64));
        SizeOf(numBits);
        NormalAt(ii, k);
        LowerEnd(ii[k].lower, sexpandLength);
        if iv.lower <= iv.upper {
          r := Insert(r, iv);
        }
      }
      assert ii[..|ii|] == ii;
    }

    // index_interval_set_to_coor_v: the cells of the indexes, in ascending order.
    method IntervalsToCells(ii: seq<Interval>) returns (cells: seq<seq<nat>>)
      requires Valid() && Normal(ii) && forall k :: 0 <= k < |ii| ==> ii[k].upper <= maxIndex
      ensures forall i :: 0 <= i < |cells| ==> |cells[i]| == NDIM && OnGrid(cells[i], numBits)
      ensures forall i, j :: 0 <= i < j < |cells| ==> IndexOf(numBits, cells[i]) < IndexOf(numBits, cells[j])
      ensures forall x: nat :: InSet(ii, x) <==> x <= maxIndex && Cell(numBits, x) in cells
    {
      hide OnGrid, IndexFrom, PointFrom, Pow2, InSet;
      cells := [];
      ghost var indexes: seq<nat> := [];
      for k := 0 to |ii|
        invariant Listed(indexes, cells, numBits)
        invariant forall i :: 0 <= i < |indexes| ==> exists j :: 0 <= j < k && Has(ii[j], indexes[i])
        invariant forall x: nat :: x in indexes <==> exists j :: 0 <= j < k && Has(ii[j], x)
      {
        var index := ii[k].lower;
        while index <= ii[k].upper
          invariant ii[k].lower <= index <= ii[k].upper + 1
          invariant Listed(indexes, cells, numBits)
          invariant forall i :: 0 <= i < |indexes| ==> indexes[i] < index && exists j :: 0 <= j <= k && Has(ii[j], indexes[i])
          invariant forall x: nat :: x in indexes <==> (exists j :: 0 <= j < k && Has(ii[j], x)) || ii[k].lower <= x < index
        {
          var coor := new nat[NDIM];
          SizeOf(numBits);
          H.I2C(NDIM, numBits, index, coor);
          ListedMore(indexes, cells, numBits, index);
          cells := cells + [coor[..]];
          indexes := indexes + [index];
          index := index + 1;
        }
      }
      forall x: nat ensures InSet(ii, x) <==> x <= maxIndex && Cell(numBits, x) in cells {
        InSome(ii, x);
        if x <= maxIndex {
          CellListed(indexes, cells, numBits, x);
        }
      }
    }

    // The bounds of the cells, each of which is a box of side one.
    static method Bounds(cells: seq<seq<nat>>) returns (lower: seq<nat>, upper: seq<nat>)
      requires cells != [] && forall i :: 0 <= i < |cells| ==> |cells[i]| == NDIM
      ensures Bound(cells, lower, upper)
    {
      hide Bound;
      lower, upper := cells[0], [cells[0][0] + 1, cells[0][1] + 1, cells[0][2] + 1];
      BoundOne(cells[0]);
      assert cells[..1] == [cells[0]];
      for i := 1 to |cells|
        invariant Bound(cells[..i], lower, upper)
      {
        var c := cells[i];
        BoundSizes(cells[..i], lower, upper);
        BoundMore(cells[..i], lower, upper, c);
        assert cells[..i + 1] == cells[..i] + [c];
        lower := [Min(lower[0], c[0]), Min(lower[1], c[1]), Min(lower[2], c[2])];
        upper := [Max(upper[0], c[0] + 1), Max(upper[1], c[1] + 1), Max(upper[2], c[2] + 1)];
      }
      assert cells[..|cells|] == cells;
    }

    // The smallest box around the cells fetched. These are the ones near the requested
    // cells on the curve exactly when the end of the request's first run of indexes can be
    // moved in 64 bits, and then the box contains the request.
    method GetToFetch(l: seq<nat>, u: seq<nat>)
      returns (err: int, lower: seq<nat>, upper: seq<nat>, ghost ii: seq<Interval>, ghost cells: seq<seq<nat>>)
      requires Valid() && |l| == |u| == NDIM && forall d :: 0 <= d < NDIM ==> u[d] <= Pow2(numBits)
      ensures err == if ValidBox(l, u) then 0 else 1
      ensures err == 0 ==> IsRequest(numBits, l, u, ii) && Bound(cells, lower, upper)
      ensures err == 0 ==>
        (AreNear(numBits, l, u, sexpandLength, cells) <==> ii[0].upper + sexpandLength < 0x1_0000_0000_0000_0000)
      ensures err == 0 && ii[0].upper + sexpandLength < 0x1_0000_0000_0000_0000 ==>
        && |lower| == |upper| == NDIM
        && (forall d :: 0 <= d < NDIM ==> lower[d] <= l[d] && u[d] <= upper[d])
        && (forall d :: 0 <= d < NDIM ==>
            Touches(numBits, l, u, sexpandLength, lower, d, 0) && Touches(numBits, l, u, sexpandLength, upper, d, 1))
    {
      hide OnGrid, Pow2, InSet, Normal, Expanded, NearBox, AreNear, Bound, Inside, Touches, Cell, IndexOf;
      lower, upper, ii, cells := [], [], [], [];
      for d := 0 to NDIM
        invariant forall e :: 0 <= e < d ==> l[e] < u[e]
      {
        if u[d] <= l[d] {
          err := 1;
          return;
        }
      }
      var request := BoxToIntervals(l, u);
      SizeOf(numBits);
      BoxInSet(request, numBits, l, u);
      UppersBelow(request, maxIndex);
      var wide := Expand(request);
      ExpandedNonEmpty(request, sexpandLength, maxIndex);
      UppersBelow(wide, maxIndex);
      var fetched := IntervalsToCells(wide);
      FirstIn(wide);
      lower, upper := Bounds(fetched);
      BoundSizes(fetched, lower, upper);
      ii, cells := request, fetched;
      NearExactly(numBits, l, u, sexpandLength, ii, wide, cells);
      if ii[0].upper + sexpandLength < TWO_64 {
        Fetched(numBits, l, u, sexpandLength, cells, lower, upper);
      }
      err := 0;
    }
  }

  // ii is the set of the box's indexes.
  // Every box within the space is a box of the grid.
  ghost predicate OnGridWhole(bits: nat, l: seq<nat>, u: seq<nat>)
    requires |l| == |u| == NDIM
  {
    forall a: seq<nat>, b: seq<nat> :: |a| == |b| == NDIM && Within(a, b, l, u) ==>
      forall d :: 0 <= d < NDIM ==> b[d] <= Pow2(bits)
  }

  ghost predicate Within(a: seq<nat>, b: seq<nat>, l: seq<nat>, u: seq<nat>)
    requires |a| == |b| == |l| == |u| == NDIM
  {
    forall d :: 0 <= d < NDIM ==> l[d] <= a[d] < b[d] <= u[d]
  }

  lemma SpaceOnGrid(bits: nat, l: seq<nat>, u: seq<nat>)
    requires |l| == |u| == NDIM && ValidBox(l, u)
    ensures OnGridWhole(bits, l, u) <==> forall d :: 0 <= d < NDIM ==> u[d] <= Pow2(bits)
  {
    hide Pow2;
    assert Within(l, u, l, u);
  }

  // A space of two cells a side that starts at 8 has a grid of two cells a side.
  lemma SpaceOffGrid()
    ensures !OnGridWhole(NumBits(2), [8, 8, 8], [10, 10, 10])
  {
    assert NumBits(2) == 1 && Pow2(1) == 2;
    SpaceOnGrid(1, [8, 8, 8], [10, 10, 10]);
    assert [10, 10, 10][0] == 10;
  }

  ghost predicate IsRequest(bits: nat, l: seq<nat>, u: seq<nat>, ii: seq<Interval>)
    requires |l| == |u| == NDIM
  {
    && Normal(ii) && ii != []
    && forall x: nat :: InSet(ii, x) <==> x < Pow2(NDIM * bits) && Inside(Cell(bits, x), l, u)
  }

  // The cells are those of the grid that are near the box.
  ghost predicate AreNear(bits: nat, l: seq<nat>, u: seq<nat>, length: nat, cells: seq<seq<nat>>)
    requires |l| == |u| == NDIM
  {
    && (forall i :: 0 <= i < |cells| ==> |cells[i]| == NDIM && OnGrid(cells[i], bits))
    && forall c: seq<nat> :: |c| == NDIM && OnGrid(c, bits) ==> (c in cells <==> NearBox(bits, l, u, length, c))
  }

  // The box has a face at bound[d], made by a cell near the requested ones.
  ghost predicate Touches(bits: nat, l: seq<nat>, u: seq<nat>, length: nat, bound: seq<nat>, d: nat, side: nat)
    requires |l| == |u| == |bound| == NDIM && d < NDIM
  {
    exists c: seq<nat> :: |c| == NDIM && OnGrid(c, bits) && NearBox(bits, l, u, length, c) && c[d] + side == bound[d]
  }

  ghost predicate Bound(cells: seq<seq<nat>>, lower: seq<nat>, upper: seq<nat>)
  {
    && |lower| == |upper| == NDIM
    && (forall i :: 0 <= i < |cells| ==> Inside(cells[i], lower, upper))
    && (forall d :: 0 <= d < NDIM ==> AtSide(cells, d, 0, lower[d]) && AtSide(cells, d, 1, upper[d]))
  }

  ghost predicate AtSide(cells: seq<seq<nat>>, d: nat, side: nat, v: nat)
    requires d < NDIM
  {
    exists i :: 0 <= i < |cells| && |cells[i]| == NDIM && cells[i][d] + side == v
  }

  lemma AtSideMore(cells: seq<seq<nat>>, c: seq<nat>, d: nat, side: nat)
    requires |c| == NDIM && d < NDIM
    ensures forall v: nat :: AtSide(cells, d, side, v) || v == c[d] + side ==> AtSide(cells + [c], d, side, v)
  {
    var more := cells + [c];
    assert more[|cells|] == c;
    forall v: nat | AtSide(cells, d, side, v) ensures AtSide(more, d, side, v) {
      var i :| 0 <= i < |cells| && |cells[i]| == NDIM && cells[i][d] + side == v;
      assert more[i] == cells[i];
    }
  }

  lemma BoundOne(c: seq<nat>)
    requires |c| == NDIM
    ensures Bound([c], c, [c[0] + 1, c[1] + 1, c[2] + 1])
  {
    AtSideMore([], c, 0, 0);
    AtSideMore([], c, 1, 0);
    AtSideMore([], c, 2, 0);
    AtSideMore([], c, 0, 1);
    AtSideMore([], c, 1, 1);
    AtSideMore([], c, 2, 1);
    assert [] + [c] == [c];
  }

  lemma BoundMore(cells: seq<seq<nat>>, lower: seq<nat>, upper: seq<nat>, c: seq<nat>)
    requires Bound(cells, lower, upper) && |c| == NDIM
    ensures Bound(cells + [c], [Min(lower[0], c[0]), Min(lower[1], c[1]), Min(lower[2], c[2])],
                  [Max(upper[0], c[0] + 1), Max(upper[1], c[1] + 1), Max(upper[2], c[2] + 1)])
  {
    hide AtSide;
    forall d | 0 <= d < NDIM
      ensures forall v: nat :: AtSide(cells, d, 0, v) || v == c[d] ==> AtSide(cells + [c], d, 0, v)
      ensures forall v: nat :: AtSide(cells, d, 1, v) || v == c[d] + 1 ==> AtSide(cells + [c], d, 1, v)
    {
      AtSideMore(cells, c, d, 0);
      AtSideMore(cells, c, d, 1);
    }
  }

  lemma NormalAt(ii: seq<Interval>, k: nat)
    requires Normal(ii) && k < |ii|
    ensures ii[k].lower <= ii[k].upper
  {
  }

  lemma InSome(ii: seq<Interval>, x: nat)
    ensures InSet(ii, x) <==> exists j :: 0 <= j < |ii| && Has(ii[j], x)
  {
  }

  lemma CellListed(indexes: seq<nat>, cells: seq<seq<nat>>, bits: nat, x: nat)
    requires 1 <= bits && NDIM * bits <= 31 && x < Pow2(NDIM * bits) && Listed(indexes, cells, bits)
    ensures Cell(bits, x) in cells <==> x in indexes
  {
    hide OnGrid, Pow2, IndexFrom, PointFrom;
    CellOfIndex(bits, x);
    if Cell(bits, x) in cells {
      var i :| 0 <= i < |cells| && cells[i] == Cell(bits, x);
      assert indexes[i] == x;
    }
    if x in indexes {
      var i :| 0 <= i < |indexes| && indexes[i] == x;
      assert cells[i] == Cell(bits, x);
    }
  }

  // cells lists the cells of indexes, which ascend.
  ghost predicate Listed(indexes: seq<nat>, cells: seq<seq<nat>>, bits: nat)
  {
    && |indexes| == |cells|
    && (forall i :: 0 <= i < |cells| ==>
        indexes[i] < Pow2(NDIM * bits) && cells[i] == Cell(bits, indexes[i]) && |cells[i]| == NDIM && OnGrid(cells[i], bits) &&
        IndexOf(bits, cells[i]) == indexes[i])
    && (forall i, j :: 0 <= i < j < |indexes| ==> indexes[i] < indexes[j])
  }

  lemma LowerEnd(lower: nat, length: nat)
    requires lower < TWO_64 && length < TWO_64
    ensures length <= lower ==> (lower + TWO_64 - length) % TWO_64 == lower - length
  {
  }

  lemma ListedMore(indexes: seq<nat>, cells: seq<seq<nat>>, bits: nat, index: nat)
    requires 1 <= bits && NDIM * bits <= 31 && index < Pow2(NDIM * bits)
    requires Listed(indexes, cells, bits) && forall i :: 0 <= i < |indexes| ==> indexes[i] < index
    ensures Listed(indexes + [index], cells + [Cell(bits, index)], bits)
  {
    hide OnGrid, Pow2, IndexFrom, PointFrom;
    CellOfIndex(bits, index);
  }

  // The cell's index is no further than length from that of a cell of the box.
  ghost predicate NearBox(bits: nat, l: seq<nat>, u: seq<nat>, length: nat, c: seq<nat>)
    requires |l| == |u| == NDIM && |c| == NDIM
  {
    exists b: seq<nat> :: |b| == NDIM && Inside(b, l, u) && Close(IndexOf(bits, b), IndexOf(bits, c), length)
  }

  predicate Close(x: nat, y: nat, length: nat)
  {
    x <= y + length && y <= x + length
  }

  lemma BitsFit(longest: nat)
    requires 2 <= longest <= 1024
    ensures 1 <= NumBits(longest) && NDIM * NumBits(longest) <= 31
    ensures longest <= Pow2(NumBits(longest)) && 1 <= Pow2(NDIM * NumBits(longest))
  {
    var b := NumBits(longest);
    assert Pow2(10) == 1024;
    if b > 10 {
      Pow2Monotone(10, b - 1);
    }
  }

  lemma Nothing(bits: nat, l: seq<nat>, u: seq<nat>)
    requires |l| == |u| == NDIM
    ensures Holds([], bits, l, u, l[0], l[1], l[2])
  {
    hide PointFrom;
    forall x: nat ensures !InSet([], x) && !Walked(bits, l, u, l[0], l[1], l[2], x) {
    }
  }

  lemma OneMore(before: seq<Interval>, after: seq<Interval>, bits: nat, l: seq<nat>, u: seq<nat>, d0: nat, d1: nat, d2: nat)
    requires |l| == |u| == NDIM && Holds(before, bits, l, u, d0, d1, d2) && Inside([d0, d1, d2], l, u) && Normal(after)
    requires forall x: nat :: InSet(after, x) <==> InSet(before, x) || (x < Pow2(NDIM * bits) && Cell(bits, x) == [d0, d1, d2])
    ensures Holds(after, bits, l, u, d0, d1, d2 + 1)
  {
    hide InSet, Normal, Pow2, Cell;
    forall x: nat ensures InSet(after, x) <==> Walked(bits, l, u, d0, d1, d2 + 1, x) {
      var c := Cell(bits, x);
      if |c| == NDIM {
        assert c == [c[0], c[1], c[2]];
      }
    }
  }

  // At the end of a row or of a plane, the loops go on with the next one.
  lemma SamePassed(ii: seq<Interval>, bits: nat, l: seq<nat>, u: seq<nat>,
                   d0: nat, d1: nat, d2: nat, e0: nat, e1: nat, e2: nat)
    requires |l| == |u| == NDIM && Holds(ii, bits, l, u, d0, d1, d2)
    requires (d0 == e0 && d1 + 1 == e1 && d2 == u[2] && e2 == l[2]) ||
             (d0 + 1 == e0 && d1 == u[1] && e1 == l[1] && d2 == e2 == l[2])
    ensures Holds(ii, bits, l, u, e0, e1, e2)
  {
    hide InSet, Normal, Pow2, Cell;
    forall x: nat ensures Walked(bits, l, u, d0, d1, d2, x) <==> Walked(bits, l, u, e0, e1, e2, x) {
    }
  }

  lemma AllPassed(ii: seq<Interval>, bits: nat, l: seq<nat>, u: seq<nat>)
    requires |l| == |u| == NDIM && Holds(ii, bits, l, u, u[0], l[1], l[2])
    ensures Normal(ii) && forall x: nat :: InSet(ii, x) <==> x < Pow2(NDIM * bits) && Inside(Cell(bits, x), l, u)
  {
    hide InSet, Normal, Pow2, Cell;
    forall x: nat ensures Walked(bits, l, u, u[0], l[1], l[2], x) <==> x < Pow2(NDIM * bits) && Inside(Cell(bits, x), l, u) {
    }
  }

  lemma BoxInSet(ii: seq<Interval>, bits: nat, l: seq<nat>, u: seq<nat>)
    requires 1 <= bits && NDIM * bits <= 31 && |l| == |u| == NDIM && ValidBox(l, u)
    requires forall d :: 0 <= d < NDIM ==> u[d] <= Pow2(bits)
    requires forall x: nat :: InSet(ii, x) <==> x < Pow2(NDIM * bits) && Inside(Cell(bits, x), l, u)
    ensures forall c: seq<nat> :: |c| == NDIM && Inside(c, l, u) ==> OnGrid(c, bits) && InSet(ii, IndexOf(bits, c))
    ensures Inside(l, l, u) && ii != []
  {
    hide InSet, PointFrom, IndexFrom, Pow2;
    forall c: seq<nat> | |c| == NDIM && Inside(c, l, u) ensures OnGrid(c, bits) && InSet(ii, IndexOf(bits, c)) {
      IndexOfCell(bits, c);
    }
    assert Inside(l, l, u);
    InNone(IndexOf(bits, l));
  }

  lemma UppersBelow(ii: seq<Interval>, max: nat)
    requires Normal(ii) && forall x: nat :: InSet(ii, x) ==> x <= max
    ensures forall k :: 0 <= k < |ii| ==> ii[k].upper <= max
  {
    forall k | 0 <= k < |ii| ensures ii[k].upper <= max {
      assert Has(ii[k], ii[k].upper);
      assert InSet(ii, ii[k].upper);
    }
  }

  lemma FirstIn(ii: seq<Interval>)
    requires Normal(ii) && ii != []
    ensures InSet(ii, ii[0].lower)
  {
    assert Has(ii[0], ii[0].lower);
  }

  lemma ExpandedNonEmpty(ii: seq<Interval>, length: nat, max: nat)
    requires Normal(ii) && ii != [] && (forall k :: 0 <= k < |ii| ==> ii[k].upper <= max) && max < TWO_31 && length < TWO_64
    ensures Normal(Expanded(ii, length, max)) && Expanded(ii, length, max) != []
    ensures forall x: nat :: InSet(Expanded(ii, length, max), x) ==> x <= max
  {
    hide InSet, Expanded, Normal;
    forall x: nat ensures InSet(Expanded(ii, length, max), x) ==> x <= max {
      ExpandedIs(ii, length, max, x);
    }
    NormalAt(ii, 0);
    var x := Widened(ii[0], length, max).lower;
    ExpandedIs(ii, length, max, x);
    assert Has(Widened(ii[0], length, max), x);
    InNone(x);
  }

  lemma BoundSizes(cells: seq<seq<nat>>, lower: seq<nat>, upper: seq<nat>)
    requires Bound(cells, lower, upper)
    ensures |lower| == |upper| == NDIM
  {
  }

  // A cell is fetched, or near the request, as its index is in the widened set, or near
  // the request's.
  lemma {:induction false} CellsNear(bits: nat, l: seq<nat>, u: seq<nat>, length: nat, ii: seq<Interval>,
                                     wide: seq<Interval>, cells: seq<seq<nat>>, c: seq<nat>)
    requires 1 <= bits && NDIM * bits <= 31 && |l| == |u| == NDIM && |c| == NDIM && OnGrid(c, bits)
    requires forall x: nat :: InSet(ii, x) <==> x < Pow2(NDIM * bits) && Inside(Cell(bits, x), l, u)
    requires forall b: seq<nat> :: |b| == NDIM && Inside(b, l, u) ==> OnGrid(b, bits) && InSet(ii, IndexOf(bits, b))
    requires forall x: nat :: InSet(wide, x) <==> x < Pow2(NDIM * bits) && Cell(bits, x) in cells
    ensures c in cells <==> InSet(wide, IndexOf(bits, c))
    ensures NearBox(bits, l, u, length, c) <==> Near(ii, length, IndexOf(bits, c))
    ensures IndexOf(bits, c) < Pow2(NDIM * bits)
  {
    hide Pow2, Cell, IndexOf, InSet, Inside, OnGrid;
    var x := IndexOf(bits, c);
    SizeOf(bits);
    IndexOfCell(bits, c);
    if y: nat :| InSet(ii, y) && x <= y + length && y <= x + length {
      CellOfIndex(bits, y);
      assert Inside(Cell(bits, y), l, u) && Close(IndexOf(bits, Cell(bits, y)), x, length);
    }
    if b: seq<nat> :| |b| == NDIM && Inside(b, l, u) && Close(IndexOf(bits, b), x, length) {
      assert InSet(ii, IndexOf(bits, b));
    }
  }

  // The cells fetched are exactly those near the request if and only if widening the
  // request's indexes is right.
  lemma {:induction false} NearExactly(bits: nat, l: seq<nat>, u: seq<nat>, length: nat, ii: seq<Interval>,
                                       wide: seq<Interval>, cells: seq<seq<nat>>)
    requires 1 <= bits && NDIM * bits <= 31 && |l| == |u| == NDIM && IsRequest(bits, l, u, ii) && length < TWO_64
    requires forall k :: 0 <= k < |ii| ==> ii[k].upper <= Pow2(NDIM * bits) - 1
    requires forall b: seq<nat> :: |b| == NDIM && Inside(b, l, u) ==> OnGrid(b, bits) && InSet(ii, IndexOf(bits, b))
    requires wide == Expanded(ii, length, Pow2(NDIM * bits) - 1)
    requires forall x: nat :: InSet(wide, x) <==> x < Pow2(NDIM * bits) && Cell(bits, x) in cells
    requires forall i :: 0 <= i < |cells| ==> |cells[i]| == NDIM && OnGrid(cells[i], bits)
    ensures AreNear(bits, l, u, length, cells) <==> ii[0].upper + length < TWO_64
  {
    hide Pow2, Cell, IndexOf, Expanded, InSet, Normal, Inside, OnGrid, Near, NearBox;
    var max := Pow2(NDIM * bits) - 1;
    SizeOf(bits);
    ExpansionExact(ii, length, max);
    if ii[0].upper + length < TWO_64 {
      forall c: seq<nat> | |c| == NDIM && OnGrid(c, bits) ensures c in cells <==> NearBox(bits, l, u, length, c) {
        CellsNear(bits, l, u, length, ii, wide, cells, c);
        assert InSet(wide, IndexOf(bits, c)) <==> IndexOf(bits, c) <= max && Near(ii, length, IndexOf(bits, c));
      }
    } else {
      var x: nat :| !(InSet(wide, x) <==> x <= max && Near(ii, length, x));
      CellOfIndex(bits, x);
      CellsNear(bits, l, u, length, ii, wide, cells, Cell(bits, x));
    }
  }

  lemma Fetched(bits: nat, l: seq<nat>, u: seq<nat>, length: nat, cells: seq<seq<nat>>, lower: seq<nat>, upper: seq<nat>)
    requires |l| == |u| == NDIM && ValidBox(l, u) && (forall d :: 0 <= d < NDIM ==> u[d] <= Pow2(bits))
    requires AreNear(bits, l, u, length, cells) && Bound(cells, lower, upper)
    ensures |lower| == |upper| == NDIM
    ensures forall d :: 0 <= d < NDIM ==> lower[d] <= l[d] && u[d] <= upper[d]
    ensures forall d :: 0 <= d < NDIM ==> Touches(bits, l, u, length, lower, d, 0) && Touches(bits, l, u, length, upper, d, 1)
  {
    hide Pow2, Cell, IndexOf, OnGrid, NearBox, Inside, Bound, Touches;
    BoundSizes(cells, lower, upper);
    NearInside(bits, l, u, length, cells, lower, upper);
    Corners(l, u);
    CornersOnGrid(bits, l, u);
    InBoxNear(bits, l, u, length, l);
    InBoxNear(bits, l, u, length, Last(u));
    InsideBelow(l, u, lower, upper);
    forall d | 0 <= d < NDIM ensures Touches(bits, l, u, length, lower, d, 0) && Touches(bits, l, u, length, upper, d, 1) {
      BoundTouches(bits, l, u, length, cells, lower, upper, d);
    }
  }

  lemma CornersOnGrid(bits: nat, l: seq<nat>, u: seq<nat>)
    requires |l| == |u| == NDIM && ValidBox(l, u) && forall d :: 0 <= d < NDIM ==> u[d] <= Pow2(bits)
    ensures OnGrid(l, bits) && OnGrid(Last(u), bits)
  {
    hide Pow2;
  }

  // The last cell of a box.
  function Last(u: seq<nat>): (c: seq<nat>)
    requires |u| == NDIM && forall d :: 0 <= d < NDIM ==> 0 < u[d]
  {
    [u[0] - 1, u[1] - 1, u[2] - 1]
  }

  lemma Corners(l: seq<nat>, u: seq<nat>)
    requires |l| == |u| == NDIM && ValidBox(l, u)
    ensures Inside(l, l, u) && Inside(Last(u), l, u)
  {
  }

  lemma InsideBelow(l: seq<nat>, u: seq<nat>, lower: seq<nat>, upper: seq<nat>)
    requires |l| == |u| == |lower| == |upper| == NDIM && ValidBox(l, u) && Inside(l, lower, upper) && Inside(Last(u), lower, upper)
    ensures forall d :: 0 <= d < NDIM ==> lower[d] <= l[d] && u[d] <= upper[d]
  {
  }

  lemma NearInside(bits: nat, l: seq<nat>, u: seq<nat>, length: nat, cells: seq<seq<nat>>, lower: seq<nat>, upper: seq<nat>)
    requires |l| == |u| == NDIM && Bound(cells, lower, upper)
    requires forall c: seq<nat> :: |c| == NDIM && OnGrid(c, bits) ==> (c in cells <==> NearBox(bits, l, u, length, c))
    ensures forall c: seq<nat> :: |c| == NDIM && OnGrid(c, bits) && NearBox(bits, l, u, length, c) ==> Inside(c, lower, upper)
  {
    hide OnGrid, NearBox, Inside, AtSide;
  }

  lemma BoundTouches(bits: nat, l: seq<nat>, u: seq<nat>, length: nat, cells: seq<seq<nat>>, lower: seq<nat>, upper: seq<nat>, d: nat)
    requires |l| == |u| == NDIM && Bound(cells, lower, upper) && d < NDIM
    requires forall i :: 0 <= i < |cells| ==> |cells[i]| == NDIM && OnGrid(cells[i], bits)
    requires forall c: seq<nat> :: |c| == NDIM && OnGrid(c, bits) ==> (c in cells <==> NearBox(bits, l, u, length, c))
    ensures Touches(bits, l, u, length, lower, d, 0) && Touches(bits, l, u, length, upper, d, 1)
  {
    hide OnGrid, NearBox, Inside;
    assert AtSide(cells, d, 0, lower[d]) && AtSide(cells, d, 1, upper[d]);
    var i :| 0 <= i < |cells| && |cells[i]| == NDIM && cells[i][d] + 0 == lower[d];
    var j :| 0 <= j < |cells| && |cells[j]| == NDIM && cells[j][d] + 1 == upper[d];
    assert cells[i] in cells && cells[j] in cells;
    assert NearBox(bits, l, u, length, cells[i]) && NearBox(bits, l, u, length, cells[j]);
  }

  lemma InBoxNear(bits: nat, l: seq<nat>, u: seq<nat>, length: nat, c: seq<nat>)
    requires |l| == |u| == |c| == NDIM && Inside(c, l, u)
    ensures NearBox(bits, l, u, length, c)
  {
    hide IndexOf;
    assert Close(IndexOf(bits, c), IndexOf(bits, c), length);
  }
}
