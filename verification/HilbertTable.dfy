/** The table-driven two-dimensional curve of hilbert.py, and its agreement with
    the word-level one. */
module HilbertTable {
  import opened Words
  import opened Digits
  import opened HilbertCurve
  import opened HilbertPoints

  datatype Square = A | B | C | D

  // hilbert_map: the position within a square of quadrant (x, y), and the square
  // to go on with there.
  function HilbertMap(square: Square, x: nat, y: nat): (r: (nat, Square))
    requires x < 2 && y < 2
  {
    match square
    case A => if x == 0 then (if y == 0 then (0, D) else (1, A)) else (if y == 0 then (3, B) else (2, A))
    case B => if x == 0 then (if y == 0 then (2, B) else (1, B)) else (if y == 0 then (3, A) else (0, C))
    case C => if x == 0 then (if y == 0 then (2, C) else (3, D)) else (if y == 0 then (1, C) else (0, B))
    case D => if x == 0 then (if y == 0 then (0, A) else (3, C)) else (if y == 0 then (1, D) else (2, D))
  }

  function Quad(v: nat, i: nat): (q: nat)
    ensures q < 2
  {
    if Bit(v, i) then 1 else 0
  }

  // The positions met on the way down, most significant first.
  function Path(square: Square, x: nat, y: nat, order: nat): (X: seq<nat>)
    ensures |X| == order
    decreases order
  {
    if order == 0 then []
    else
      var r := HilbertMap(square, Quad(x, order - 1), Quad(y, order - 1));
      [r.0] + Path(r.1, x, y, order - 1)
  }

  function TableIndex(square: Square, x: nat, y: nat, order: nat): nat
  {
    Val(Path(square, x, y, order), 2)
  }

  // The square reached after the first k levels.
  function SquareAfter(square: Square, x: nat, y: nat, order: nat, k: nat): Square
    requires k <= order
    decreases k
  {
    if k == 0 then square
    else SquareAfter(HilbertMap(square, Quad(x, order - 1), Quad(y, order - 1)).1, x, y, order - 1, k - 1)
  }

  lemma {:induction false} PathSplit(square: Square, x: nat, y: nat, order: nat, k: nat)
    requires k < order
    ensures Path(square, x, y, order)[k] ==
            HilbertMap(SquareAfter(square, x, y, order, k), Quad(x, order - 1 - k), Quad(y, order - 1 - k)).0
    ensures SquareAfter(square, x, y, order, k + 1) ==
            HilbertMap(SquareAfter(square, x, y, order, k), Quad(x, order - 1 - k), Quad(y, order - 1 - k)).1
    decreases k
  {
    hide Bit, HilbertMap;
    if k > 0 {
      PathSplit(HilbertMap(square, Quad(x, order - 1), Quad(y, order - 1)).1, x, y, order - 1, k - 1);
    }
  }

  method PointToHilbert(x: nat, y: nat, order: nat) returns (position: nat)
    ensures position == TableIndex(A, x, y, order)
  {
    hide Bit, HilbertMap, Val;
    ghost var X := Path(A, x, y, order);
    var currentSquare := A;
    position := 0;
    ValNone();
    var i: nat := order;
    while i > 0
      invariant i <= order && currentSquare == SquareAfter(A, x, y, order, order - i)
      invariant position == Val(X[..order - i], 2)
    {
      i := i - 1;
      ghost var k := order - 1 - i;
      PathSplit(A, x, y, order, k);
      ValAppend(X[..k], X[k], 2);
      assert X[..k + 1] == X[..k] + [X[k]];
      position := position * 4;
      var quadX := if Bit(x, i) then 1 else 0;
      var quadY := if Bit(y, i) then 1 else 0;
      var r := HilbertMap(currentSquare, quadX, quadY);
      currentSquare := r.1;
      position := position + r.0;
    }
    assert X[..order] == X;
  }

  lemma ValNone()
    ensures Val([], 2) == 0 && Pow2(2) == 4
  {
    assert Pow2(2) == 2 * Pow2(1);
  }

  /* The transducer of the two-dimensional curve collapses onto four squares. */

  ghost predicate Balanced(s: State)
  {
    Valid(2, s) && (Bit(s.edge, 0) != Bit(s.edge, 1)) == s.odd
  }

  ghost function SquareOf(s: State): Square
  {
    if s.rot == 0 then (if Bit(s.edge, 0) then C else A) else (if Bit(s.edge, 1) then B else D)
  }

  lemma TwoBits(v: nat)
    requires v < 4
    ensures v == (if Bit(v, 1) then 2 else 0) + (if Bit(v, 0) then 1 else 0)
  {
  }

  // The two Gray-coded bits of a plane.
  lemma TwistBits(s: State, p: nat)
    requires Balanced(s) && p < Pow2(2)
    ensures Bit(Twist(2, s, p), 0) == (if s.rot == 0 then Bit(p, 0) != Bit(s.edge, 0) else Bit(p, 1) != Bit(s.edge, 1))
    ensures Bit(Twist(2, s, p), 1) == (if s.rot == 0 then Bit(p, 1) != Bit(s.edge, 1) else Bit(p, 0) != Bit(s.edge, 0))
  {
    hide Bit, Xor, RotateRight;
  }

  lemma DigitBits(s: State, p: nat)
    requires Balanced(s) && p < Pow2(2)
    ensures EncodeDigit(2, s, p) < 4
    ensures Bit(EncodeDigit(2, s, p), 1) == (Bit(Twist(2, s, p), 1) != s.odd)
    ensures Bit(EncodeDigit(2, s, p), 0) == (Bit(p, 0) != Bit(p, 1))
  {
    hide Bit, Xor, Twist, Toggle;
    DecodeEncodeDigit(2, s, p);
    assert Pow2(2) == 2 * Pow2(1);
    TwistBits(s, p);
    var w := Xor(Twist(2, s, p), Toggle(2, s.odd));
    assert Parity(w, 2, 2) == false;
    assert Parity(w, 1, 2) == Bit(w, 1);
    assert Parity(w, 0, 2) == (Bit(w, 0) != Bit(w, 1));
  }

  lemma NextBits(s: State, p: nat)
    requires Balanced(s) && p < Pow2(2)
    ensures Balanced(Next(2, s, p))
    ensures Next(2, s, p).rot == if Bit(Twist(2, s, p), 0) then s.rot else 1 - s.rot
    ensures Bit(Next(2, s, p).edge, 0) == (if s.rot == 0 then !Bit(p, 0) else Bit(p, 0))
    ensures Bit(Next(2, s, p).edge, 1) == (if s.rot == 1 then !Bit(p, 1) else Bit(p, 1))
  {
    hide Bit, Xor, Twist, Unit, EncodeDigit;
    DigitBits(s, p);
    assert Lowest(Twist(2, s, p), 0) == 0;
  }

  lemma TableStep(s: State, p: nat)
    requires Balanced(s) && p < Pow2(2)
    ensures EncodeDigit(2, s, p) < 4 && Balanced(Next(2, s, p))
    ensures HilbertMap(SquareOf(s), Quad(p, 1), Quad(p, 0)) == (EncodeDigit(2, s, p), SquareOf(Next(2, s, p)))
  {
    hide Bit, Twist, EncodeDigit, Next;
    TwistBits(s, p);
    DigitBits(s, p);
    NextBits(s, p);
    TwoBits(EncodeDigit(2, s, p));
  }

  // Going down the table is encoding plane by plane.
  lemma {:induction false} PathIsEncode(s: State, x: nat, y: nat, order: nat)
    requires Valid(2, s) && Balanced(s)
    ensures Path(SquareOf(s), y, x, order) == Encode(2, s, Planes([x, y], order))
    decreases order
  {
    hide Bit, EncodeDigit, Next, HilbertMap, SquareOf, Balanced;
    var P := Planes([x, y], order);
    if order > 0 {
      var p := P[0];
      assert p == WordOf(PlaneOf([x, y], order - 1));
      assert Quad(p, 0) == Quad(x, order - 1) && Quad(p, 1) == Quad(y, order - 1);
      TableStep(s, p);
      PathIsEncode(Next(2, s, p), x, y, order - 1);
      assert P[1..] == Planes([x, y], order - 1);
    }
  }

  // A transducer state for every square.
  function StateOf(square: Square): (s: State)
    ensures Valid(2, s)
  {
    assert Pow2(2) == 2 * Pow2(1);
    match square
    case A => State(0, 0, false)
    case B => State(1, 3, false)
    case C => State(0, 3, false)
    case D => State(1, 0, false)
  }

  lemma StateOfSquare(square: Square)
    ensures Balanced(StateOf(square)) && SquareOf(StateOf(square)) == square
  {
  }

  // The two implementations compute one curve, from every square.
  lemma TableIsCurve(square: Square, x: nat, y: nat, order: nat)
    ensures TableIndex(square, y, x, order) == IndexFrom(2, StateOf(square), [x, y], order)
  {
    hide Encode, Planes, Val, Path;
    StateOfSquare(square);
    PathIsEncode(StateOf(square), x, y, order);
  }

  // In particular mfa_hilbert_c2i(2, order, {x, y}) is point_to_hilbert(y, x, order).
  lemma {:induction false} TablesAgree(x: nat, y: nat, order: nat)
    ensures IndexFrom(2, Start, [x, y], order) == TableIndex(A, y, x, order)
  {
    TableIsCurve(A, x, y, order);
  }

  lemma GridOfTwo(x: nat, y: nat, m: nat)
    requires x < Pow2(m) && y < Pow2(m)
    ensures OnGrid([x, y], m)
  {
  }

  // Every square is walked without gaps or repetitions.
  lemma {:induction false} TableBijection(square: Square, x: nat, y: nat, order: nat, index: nat)
    requires x < Pow2(order) && y < Pow2(order) && index < Span(2, order)
    ensures TableIndex(square, x, y, order) < Span(2, order)
    ensures
      var c := PointFrom(2, StateOf(square), index, order);
      && c[0] < Pow2(order) && c[1] < Pow2(order)
      && (TableIndex(square, x, y, order) == index <==> c == [y, x])
  {
    hide IndexFrom, PointFrom, TableIndex, Span, Pow2;
    TableIsCurve(square, y, x, order);
    GridOfTwo(y, x, order);
    PointOfIndex(2, StateOf(square), [y, x], order);
    IndexOfPoint(2, StateOf(square), index, order);
  }

  // Consecutive positions are grid neighbours.
  lemma {:induction false} TableContinuity(square: Square, x: nat, y: nat, x': nat, y': nat, order: nat)
    requires x < Pow2(order) && y < Pow2(order) && x' < Pow2(order) && y' < Pow2(order)
    requires TableIndex(square, x', y', order) == TableIndex(square, x, y, order) + 1
    ensures (x == x' && (y' == y + 1 || y == y' + 1)) || (y == y' && (x' == x + 1 || x == x' + 1))
  {
    hide IndexFrom, PointFrom, TableIndex, Span, Pow2, StepIn;
    var s, a, b := StateOf(square), [y, x], [y', x'];
    TableIsCurve(square, y, x, order);
    TableIsCurve(square, y', x', order);
    GridOfTwo(y, x, order);
    GridOfTwo(y', x', order);
    PointOfIndex(2, s, a, order);
    PointOfIndex(2, s, b, order);
    Continuity(2, s, IndexFrom(2, s, a, order), order);
    var d :| 0 <= d < 2 && StepIn(a, b, d);
    OneStep(a, b, d);
  }

  lemma OneStep(a: seq<nat>, b: seq<nat>, d: nat)
    requires |a| == |b| == 2 && d < 2 && StepIn(a, b, d)
    ensures (a[1] == b[1] && (b[0] == a[0] + 1 || a[0] == b[0] + 1)) || (a[0] == b[0] && (b[1] == a[1] + 1 || a[1] == b[1] + 1))
  {
    assert d == 0 || d == 1;
  }

  // The corners, as (x, y) of the table, where a square is entered and left.
  function Corners(square: Square, max: nat): (r: ((nat, nat), (nat, nat)))
  {
    match square
    case A => ((0, 0), (max, 0))
    case B => ((max, max), (max, 0))
    case C => ((max, max), (0, max))
    case D => ((0, 0), (0, max))
  }

  lemma {:induction false} TableCorners(square: Square, order: nat)
    ensures
      var r := Corners(square, Pow2(order) - 1);
      && TableIndex(square, r.0.0, r.0.1, order) == 0
      && TableIndex(square, r.1.0, r.1.1, order) == Span(2, order) - 1
  {
    hide IndexFrom, PointFrom, TableIndex, Span, Entry, Exit;
    var s := StateOf(square);
    CornerBits(square);
    IndexOfPoint(2, s, 0, order);
    IndexOfPoint(2, s, Span(2, order) - 1, order);
    var a, b := PointFrom(2, s, 0, order), PointFrom(2, s, Span(2, order) - 1, order);
    EndPoints(2, s, order, 0);
    EndPoints(2, s, order, 1);
    assert a == [a[0], a[1]] && b == [b[0], b[1]];
    TableIsCurve(square, a[0], a[1], order);
    TableIsCurve(square, b[0], b[1], order);
  }

  lemma CornerBits(square: Square)
    ensures
      var s := StateOf(square);
      && Bit(Entry(2, s), 0) == Bit(Entry(2, s), 1) == (square == B || square == C)
      && Bit(Exit(2, s), 1) == (square == A || square == B)
      && Bit(Exit(2, s), 0) == (square == C || square == D)
  {
  }
}
