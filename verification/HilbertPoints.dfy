/** What the curve promises, for any start state: a bijection between indexes and
    grid points, continuity, nested cubes, fixed end points, and its order. */
module HilbertPoints {
  import opened Words
  import opened Digits
  import opened HilbertCurve

  /* Points and planes. */

  // Coordinate d of the planes P, most significant bit first.
  function Column(P: seq<nat>, d: nat): (B: seq<nat>)
    ensures |B| == |P| && AreDigits(B, 1)
  {
    assert Pow2(1) == 2;
    seq(|P|, i requires 0 <= i < |P| => if Bit(P[i], d) then 1 else 0)
  }

  function Coords(P: seq<nat>, n: nat): (c: seq<nat>)
    ensures |c| == n
  {
    seq(n, (d: nat) => Val(Column(P, d), 1))
  }

  // The planes of point c, most significant first; plane y holds bit y of
  // every coordinate.
  function Planes(c: seq<nat>, m: nat): (P: seq<nat>)
    requires |c| <= WIDTH
    ensures |P| == m && AreDigits(P, |c|)
  {
    assert forall i: nat :: WordOf(PlaneOf(c, i)) < Pow2(|c|) by {
      forall i: nat ensures WordOf(PlaneOf(c, i)) < Pow2(|c|) {
        Below(WordOf(PlaneOf(c, i)), |c|);
      }
    }
    seq(m, i requires 0 <= i < m => WordOf(PlaneOf(c, m - 1 - i)))
  }

  // A point of the grid of side 2^m.
  ghost predicate OnGrid(c: seq<nat>, m: nat)
  {
    forall d :: 0 <= d < |c| ==> c[d] < Pow2(m)
  }

  function IndexFrom(n: nat, s: State, c: seq<nat>, m: nat): nat
    requires Valid(n, s) && |c| == n
  {
    Val(Encode(n, s, Planes(c, m)), n)
  }

  function PointFrom(n: nat, s: State, index: nat, m: nat): (c: seq<nat>)
    requires Valid(n, s)
    ensures |c| == n
  {
    Coords(Decode(n, s, ToDigits(index, n, m)), n)
  }

  lemma ColumnBit(P: seq<nat>, d: nat, i: nat)
    requires i < |P|
    ensures Bit(Val(Column(P, d), 1), |P| - 1 - i) == Bit(P[i], d)
  {
    ValBit(Column(P, d), 1, i, 0);
    OneBit(0);
    ZeroBit(0);
  }

  lemma {:induction false} Span1(m: nat)
    ensures Span(1, m) == Pow2(m)
  {
    assert Pow2(1) == 2;
    if m > 0 {
      Span1(m - 1);
    }
  }

  lemma CoordsOnGrid(P: seq<nat>, n: nat)
    ensures OnGrid(Coords(P, n), |P|)
  {
    forall d | 0 <= d < n ensures Coords(P, n)[d] < Pow2(|P|) {
      ValBound(Column(P, d), 1);
      Span1(|P|);
    }
  }

  lemma PlanesOfCoords(P: seq<nat>, n: nat)
    requires n <= WIDTH && AreDigits(P, n)
    ensures Planes(Coords(P, n), |P|) == P
  {
    var c, m := Coords(P, n), |P|;
    forall i | 0 <= i < m ensures Planes(c, m)[i] == P[i] {
      var w := Planes(c, m)[i];
      HighBits(P[i], n);
      HighBits(w, n);
      forall k: nat ensures Bit(w, k) == Bit(P[i], k) {
        if k < n {
          ColumnBit(P, k, i);
          assert Bit(w, k) == Bit(c[k], m - 1 - i);
        }
      }
      Same(w, P[i]);
    }
  }

  lemma CoordsOfPlanes(c: seq<nat>, m: nat)
    requires |c| <= WIDTH && OnGrid(c, m)
    ensures Coords(Planes(c, m), |c|) == c
  {
    var P := Planes(c, m);
    forall d: nat | d < |c| ensures Coords(P, |c|)[d] == c[d] {
      var v := Val(Column(P, d), 1);
      ValBound(Column(P, d), 1);
      Span1(m);
      HighBits(v, m);
      HighBits(c[d], m);
      forall k: nat ensures Bit(v, k) == Bit(c[d], k) {
        if k < m {
          ColumnBit(P, d, m - 1 - k);
        }
      }
      Same(v, c[d]);
    }
  }

  /* The bijection. */

  lemma {:induction false} IndexOfPoint(n: nat, s: State, index: nat, m: nat)
    requires Valid(n, s) && index < Span(n, m)
    ensures OnGrid(PointFrom(n, s, index, m), m)
    ensures IndexFrom(n, s, PointFrom(n, s, index, m), m) == index
  {
    hide Encode, Decode;
    var X := ToDigits(index, n, m);
    var P := Decode(n, s, X);
    CoordsOnGrid(P, n);
    PlanesOfCoords(P, n);
    EncodeDecode(n, s, X);
    ValToDigits(index, n, m);
  }

  lemma {:induction false} PointOfIndex(n: nat, s: State, c: seq<nat>, m: nat)
    requires Valid(n, s) && |c| == n && OnGrid(c, m)
    ensures IndexFrom(n, s, c, m) < Span(n, m)
    ensures PointFrom(n, s, IndexFrom(n, s, c, m), m) == c
  {
    hide Encode, Decode;
    var P := Planes(c, m);
    var X := Encode(n, s, P);
    ValBound(X, n);
    ToDigitsVal(X, n);
    DecodeEncode(n, s, P);
    CoordsOfPlanes(c, m);
  }

  /* Corners. */

  // The coordinate that tells the two ends of the curve from state s apart.
  function Axis(n: nat, s: State): (d: nat)
    requires Valid(n, s)
    ensures d < n
  {
    Turned(n - 1, s.rot, n)
  }

  function Entry(n: nat, s: State): nat
    requires Valid(n, s)
  {
    if s.odd then Xor(Unit(Axis(n, s)), s.edge) else s.edge
  }

  function Exit(n: nat, s: State): nat
    requires Valid(n, s)
  {
    if s.odd then s.edge else Xor(Unit(Axis(n, s)), s.edge)
  }

  lemma RotateTop(n: nat, r: nat)
    requires 1 <= n <= WIDTH && r < n
    ensures RotateLeft(Unit(n - 1), r, n) == Unit(Turned(n - 1, r, n))
    ensures RotateLeft(0, r, n) == 0
  {
    ZeroBits();
    Same(RotateLeft(Unit(n - 1), r, n), Unit(Turned(n - 1, r, n)));
    Same(RotateLeft(0, r, n), 0);
  }

  lemma GrayEnds(n: nat)
    requires 1 <= n <= WIDTH
    ensures Gray(0) == 0 && Gray(Mask(n)) == Unit(n - 1)
  {
    ZeroBits();
    Same(Gray(0), 0);
    Same(Gray(Mask(n)), Unit(n - 1));
  }

  lemma XorZero(a: nat, n: nat)
    requires a < Pow2(n) && n <= WIDTH
    ensures Xor(a, 0) == a && Xor(0, a) == a && Xor(a, a) == 0
  {
    ZeroBits();
    HighBits(a, n);
    Same(Xor(a, 0), a);
    Same(Xor(0, a), a);
    Same(Xor(a, a), 0);
  }

  lemma UnitBelow(d: nat, n: nat)
    requires d < n <= WIDTH
    ensures Unit(d) < Pow2(n)
  {
    Below(Unit(d), n);
  }

  // The least and the greatest digit decode to the two end corners.
  lemma DecodeEnds(n: nat, s: State)
    requires Valid(n, s)
    ensures DecodeDigit(n, s, 0) == Entry(n, s)
    ensures DecodeDigit(n, s, Mask(n)) == Exit(n, s)
  {
    GrayEnds(n);
    RotateTop(n, s.rot);
    UnitBelow(n - 1, n);
    XorZero(Unit(n - 1), n);
    XorZero(s.edge, n);
    XorZero(0, n);
  }

  // Once at the least (greatest) digit, every further least (greatest) digit
  // stays in the same corner.
  lemma NextAtEnd(n: nat, s: State, x: nat)
    requires Valid(n, s) && (x == 0 || x == Mask(n))
    ensures x < Pow2(n) && DecodeDigit(n, s, x) < Pow2(n)
    ensures x == 0 ==> Entry(n, Next(n, s, DecodeDigit(n, s, x))) == DecodeDigit(n, s, x)
    ensures x == Mask(n) ==> Exit(n, Next(n, s, DecodeDigit(n, s, x))) == DecodeDigit(n, s, x)
  {
    hide Bit, Gray, Xor, RotateLeft, RotateRight, Toggle;
    EncodeDecodeDigit(n, s, x);
    var p := DecodeDigit(n, s, x);
    var s' := Next(n, s, p);
    var g := Twist(n, s, p);
    GrayEnds(n);
    ZeroBits();
    assert Lowest(g, n - 1) == n - 1 by {
      assert forall k: nat :: k < n - 1 ==> !Bit(g, k);
    }
    assert Axis(n, s') == s.rot;
    HighBits(p, n);
    var u := Unit(s.rot);
    Same(Xor(u, Xor(p, u)), p);
  }

  function Repeat(x: nat, m: nat): (X: seq<nat>)
    ensures |X| == m && forall i :: 0 <= i < m ==> X[i] == x
  {
    seq(m, _ => x)
  }

  lemma {:induction false} DecodeRun(n: nat, s: State, x: nat, m: nat)
    requires Valid(n, s) && (x == 0 || x == Mask(n))
    ensures x < Pow2(n)
    ensures x == 0 ==> Decode(n, s, Repeat(x, m)) == Repeat(Entry(n, s), m)
    ensures x == Mask(n) ==> Decode(n, s, Repeat(x, m)) == Repeat(Exit(n, s), m)
    decreases m
  {
    hide Next, EncodeDigit, DecodeDigit, Entry, Exit;
    if m > 0 {
      DecodeEnds(n, s);
      NextAtEnd(n, s, x);
      DecodeRun(n, Next(n, s, DecodeDigit(n, s, x)), x, m - 1);
      assert Repeat(x, m)[1..] == Repeat(x, m - 1);
    }
  }

  /* Continuity. */

  // How many of the lowest bits of x are set.
  function TrailingOnes(x: nat): (t: nat)
  {
    if x % 2 == 0 then 0 else 1 + TrailingOnes(x / 2)
  }

  lemma {:induction false} IncrementBit(x: nat, k: nat)
    ensures Bit(x + 1, k) == if k < TrailingOnes(x) then false else k == TrailingOnes(x) || Bit(x, k)
    ensures k < TrailingOnes(x) ==> Bit(x, k)
    ensures !Bit(x, TrailingOnes(x))
  {
    if x % 2 == 0 {
      assert (x + 1) / 2 == x / 2;
    } else {
      assert (x + 1) / 2 == x / 2 + 1;
      IncrementBit(x / 2, if k == 0 then 0 else k - 1);
    }
  }

  lemma TrailingOnesBelow(x: nat, n: nat)
    requires x + 1 < Pow2(n)
    ensures TrailingOnes(x) < n
  {
    HighBits(x + 1, n);
    IncrementBit(x, TrailingOnes(x));
  }

  // y is x + 1, seen bit by bit.
  ghost predicate Incremented(x: nat, y: nat, t: nat)
  {
    && !Bit(x, t)
    && (forall k: nat {:trigger Bit(y, k)} :: Bit(y, k) == if k < t then false else k == t || Bit(x, k))
    && (forall k: nat {:trigger Bit(x, k)} :: k < t ==> Bit(x, k))
  }

  lemma IncrementBits(x: nat)
    ensures Incremented(x, x + 1, TrailingOnes(x))
  {
    hide TrailingOnes, Bit;
    forall k: nat
      ensures Bit(x + 1, k) == if k < TrailingOnes(x) then false else k == TrailingOnes(x) || Bit(x, k)
      ensures k < TrailingOnes(x) ==> Bit(x, k)
    {
      IncrementBit(x, k);
    }
    IncrementBit(x, TrailingOnes(x));
  }

  // Consecutive numbers have Gray codes that differ in one bit.
  lemma GrayStep(x: nat, y: nat, t: nat)
    requires t < WIDTH && Incremented(x, y, t)
    ensures Gray(y) == Xor(Gray(x), Unit(t))
    ensures forall k: nat {:trigger Bit(Gray(x), k)} :: k + 1 < t ==> !Bit(Gray(x), k)
    ensures forall k: nat {:trigger Bit(Gray(y), k)} :: k + 1 < t ==> !Bit(Gray(y), k)
    ensures t > 0 ==> Bit(Gray(x), t - 1) && Bit(Gray(y), t - 1)
  {
    hide Bit;
    Same(Gray(y), Xor(Gray(x), Unit(t)));
  }

  // The Gray-coded digits of x and x+1 differ in bit t, and have their lowest
  // set bit just below it.
  lemma TwistStep(n: nat, odd: bool, x: nat, y: nat, t: nat)
    requires 1 <= n <= WIDTH && t < n && Incremented(x, y, t)
    ensures Xor(Gray(y), Toggle(n, odd)) == Xor(Xor(Gray(x), Toggle(n, odd)), Unit(t))
    ensures t > 0 ==> Lowest(Xor(Gray(x), Toggle(n, odd)), n - 1) == t - 1
    ensures t > 0 ==> Lowest(Xor(Gray(y), Toggle(n, odd)), n - 1) == t - 1
  {
    hide Bit, Gray, Toggle, Xor, Unit, Incremented;
    GrayStep(x, y, t);
    XorRotate(Gray(x), Unit(t), Toggle(n, odd));
    if t > 0 {
      LowestOfTwist(n, odd, Gray(x), t - 1);
      LowestOfTwist(n, odd, Gray(y), t - 1);
    }
  }

  lemma LowestOfTwist(n: nat, odd: bool, g: nat, p: nat)
    requires 1 <= n <= WIDTH && p < n - 1
    requires Bit(g, p) && forall k: nat {:trigger Bit(g, k)} :: k < p ==> !Bit(g, k)
    ensures Lowest(Xor(g, Toggle(n, odd)), n - 1) == p
  {
    LowestIs(Xor(g, Toggle(n, odd)), n - 1, p);
  }

  lemma RotateFlip(x: nat, t: nat, r: nat, n: nat)
    requires 1 <= n <= WIDTH && r < n && t < n && x < Pow2(n)
    ensures RotateLeft(Xor(x, Unit(t)), r, n) == Xor(RotateLeft(x, r, n), Unit(Turned(t, r, n)))
  {
    hide Bit, RotateLeft, Xor, Unit;
    HighBits(x, n);
    Same(RotateLeft(Xor(x, Unit(t)), r, n), Xor(RotateLeft(x, r, n), Unit(Turned(t, r, n))));
  }

  lemma XorRotate(a: nat, b: nat, c: nat)
    ensures Xor(Xor(a, b), c) == Xor(Xor(a, c), b)
    ensures Xor(a, Xor(b, c)) == Xor(Xor(a, b), c)
    ensures Xor(a, b) == Xor(b, a)
  {
    Same(Xor(Xor(a, b), c), Xor(Xor(a, c), b));
    Same(Xor(a, Xor(b, c)), Xor(Xor(a, b), c));
    Same(Xor(a, b), Xor(b, a));
  }

  // The coordinate in which digits x and x+1 decode differently.
  function StepAxis(n: nat, s: State, x: nat): (d: nat)
    requires Valid(n, s) && x + 1 < Pow2(n)
    ensures d < n
  {
    TrailingOnesBelow(x, n);
    Turned(TrailingOnes(x), s.rot, n)
  }

  lemma DigitStep(n: nat, s: State, x: nat)
    requires Valid(n, s) && x + 1 < Pow2(n)
    ensures DecodeDigit(n, s, x) < Pow2(n) && DecodeDigit(n, s, x + 1) < Pow2(n)
    ensures DecodeDigit(n, s, x + 1) == Xor(DecodeDigit(n, s, x), Unit(StepAxis(n, s, x)))
  {
    var t, tog := TrailingOnes(x), Toggle(n, s.odd);
    var g := Xor(Gray(x), tog);
    hide Bit, Gray, Toggle, RotateLeft, Xor, Incremented, TrailingOnes;
    TrailingOnesBelow(x, n);
    IncrementBits(x);
    TwistStep(n, s.odd, x, x + 1, t);
    EncodeDecodeDigit(n, s, x);
    EncodeDecodeDigit(n, s, x + 1);
    UngrayGray(x, n);
    ToggleBelow(n, s.odd);
    XorBelow(Gray(x), tog, n);
    RotateFlip(g, t, s.rot, n);
    XorRotate(RotateLeft(g, s.rot, n), Unit(StepAxis(n, s, x)), s.edge);
  }

  // From digit x one leaves, and from x+1 one enters, through facing corners.
  lemma {:induction false} FacingCorners(n: nat, s: State, x: nat)
    requires Valid(n, s) && x + 1 < Pow2(n)
    ensures DecodeDigit(n, s, x) < Pow2(n) && DecodeDigit(n, s, x + 1) < Pow2(n)
    ensures
      var p, q, u := DecodeDigit(n, s, x), DecodeDigit(n, s, x + 1), Unit(StepAxis(n, s, x));
      var out, back := Exit(n, Next(n, s, p)), Entry(n, Next(n, s, q));
      back == Xor(out, u) && Bit(out, StepAxis(n, s, x)) != Bit(p, StepAxis(n, s, x))
  {
    hide Bit, Gray, Toggle, Xor, Unit, Incremented, TrailingOnes, DecodeDigit, Twist, Exit, Entry, Adjust, Turned;
    var p, q, t := DecodeDigit(n, s, x), DecodeDigit(n, s, x + 1), TrailingOnes(x);
    DigitStep(n, s, x);
    TrailingOnesBelow(x, n);
    IncrementBits(x);
    IncrementBit(x, 0);
    TwistStep(n, s.odd, x, x + 1, t);
    EncodeDecodeDigit(n, s, x);
    EncodeDecodeDigit(n, s, x + 1);
    AdjustPast(s.rot, Twist(n, s, p), n, t);
    AdjustPast(s.rot, Twist(n, s, q), n, t);
    CornersFace(n, s, Next(n, s, p), Next(n, s, q), p, q, StepAxis(n, s, x));
  }

  lemma AdjustPast(r: nat, g: nat, n: nat, t: nat)
    requires r < n && t < n && (t > 0 ==> Lowest(g, n - 1) == t - 1)
    ensures if t == 0 then Turned(t, r, n) == r else
      Turned(t, r, n) != r && Turned(n - 1, Adjust(r, g, n), n) == Turned(t, r, n)
  {
  }

  lemma CornersFace(n: nat, s: State, sp: State, sq: State, p: nat, q: nat, d: nat)
    requires Valid(n, s) && Valid(n, sp) && Valid(n, sq) && d < n
    requires q == Xor(p, Unit(d))
    requires sp.edge == Xor(p, Unit(s.rot)) && sq.edge == Xor(q, Unit(s.rot)) && sp.odd != sq.odd
    requires if sp.odd then d == s.rot else d != s.rot && Axis(n, sp) == d && Axis(n, sq) == d
    ensures Entry(n, sq) == Xor(Exit(n, sp), Unit(d))
    ensures Bit(Exit(n, sp), d) != Bit(p, d)
  {
    hide Bit, Axis, Xor;
    var u, v := Unit(d), Unit(s.rot);
    XorRotate(p, u, v);
    if !sp.odd {
      XorRotate(u, Xor(p, v), u);
    }
  }

  // Two points that differ by one in one coordinate.
  ghost predicate Adjacent(a: seq<nat>, b: seq<nat>)
  {
    |a| == |b| && exists d :: 0 <= d < |a| && StepIn(a, b, d)
  }

  ghost predicate StepIn(a: seq<nat>, b: seq<nat>, d: nat)
    requires |a| == |b| && d < |a|
  {
    (a[d] == b[d] + 1 || b[d] == a[d] + 1) && forall e :: 0 <= e < |a| && e != d ==> a[e] == b[e]
  }

  // The planes of two consecutive digit strings: a common beginning, then one
  // plane in which they differ by bit d, then the two facing corners.
  lemma PlanesStep(n: nat, s: State, X: seq<nat>, Y: seq<nat>, i: nat)
    returns (A: seq<nat>, p: nat, out: nat, d: nat)
    requires Valid(n, s) && AreDigits(X, n) && AreDigits(Y, n) && |X| == |Y| && i < |X|
    requires X[..i] == Y[..i] && Y[i] == X[i] + 1
    requires forall j :: i < j < |X| ==> X[j] == Mask(n) && Y[j] == 0
    ensures A == Decode(n, s, X[..i]) && d == StepAxis(n, After(n, s, A), X[i])
    ensures d < n && Bit(out, d) != Bit(p, d)
    ensures Decode(n, s, X) == A + [p] + Repeat(out, |X| - i - 1)
    ensures Decode(n, s, Y) == A + [Xor(p, Unit(d))] + Repeat(Xor(out, Unit(d)), |X| - i - 1)
  {
    hide Next, EncodeDigit, DecodeDigit, Entry, Exit, Mask, Xor, Unit, Bit;
    var x, k := X[i], |X| - i - 1;
    A := Decode(n, s, X[..i]);
    var s1 := After(n, s, A);
    DecodeSplit(n, s, X, i);
    DecodeSplit(n, s, Y, i);
    FacingCorners(n, s1, x);
    p, d := DecodeDigit(n, s1, x), StepAxis(n, s1, x);
    DigitStep(n, s1, x);
    var q := DecodeDigit(n, s1, x + 1);
    out := Exit(n, Next(n, s1, p));
    assert X[i..][1..] == Repeat(Mask(n), k);
    assert Y[i..][1..] == Repeat(0, k);
    DecodeRun(n, Next(n, s1, p), Mask(n), k);
    DecodeRun(n, Next(n, s1, q), 0, k);
    assert Decode(n, s1, X[i..]) == [p] + Repeat(out, k);
    assert Decode(n, s1, Y[i..]) == [q] + Repeat(Entry(n, Next(n, s1, q)), k);
  }

  // Planes of that shape belong to points one step apart.
  lemma PlanesToPoints(n: nat, A: seq<nat>, p: nat, out: nat, k: nat, d: nat)
    requires d < n <= WIDTH && Bit(out, d) != Bit(p, d)
    ensures
      var P := A + [p] + Repeat(out, k);
      var Q := A + [Xor(p, Unit(d))] + Repeat(Xor(out, Unit(d)), k);
      StepIn(Coords(P, n), Coords(Q, n), d)
  {
    hide Bit;
    assert Pow2(1) == 2;
    var P := A + [p] + Repeat(out, k);
    var Q := A + [Xor(p, Unit(d))] + Repeat(Xor(out, Unit(d)), k);
    forall e: nat | e < n && e != d ensures Coords(P, n)[e] == Coords(Q, n)[e] {
      SameColumn(P, Q, A, p, out, k, d, e);
    }
    var C, D := Column(P, d), Column(Q, d);
    assert C[..|A|] == D[..|A|] by {
      assert forall j :: 0 <= j < |A| ==> P[j] == Q[j];
    }
    assert forall j :: |A| < j < |P| ==> P[j] == out && Q[j] == Xor(out, Unit(d));
    if Bit(p, d) {
      ValSuccessor(D, C, 1, |A|);
    } else {
      ValSuccessor(C, D, 1, |A|);
    }
  }

  lemma SameColumn(P: seq<nat>, Q: seq<nat>, A: seq<nat>, p: nat, out: nat, k: nat, d: nat, e: nat)
    requires d < WIDTH && e < WIDTH && e != d
    requires P == A + [p] + Repeat(out, k) && Q == A + [Xor(p, Unit(d))] + Repeat(Xor(out, Unit(d)), k)
    ensures Column(P, e) == Column(Q, e)
  {
    forall j | 0 <= j < |P| ensures Column(P, e)[j] == Column(Q, e)[j] {
      assert P[j] == if j < |A| then A[j] else if j == |A| then p else out;
    }
  }

  lemma {:induction false} Continuity(n: nat, s: State, index: nat, m: nat)
    requires Valid(n, s) && index + 1 < Span(n, m)
    ensures Adjacent(PointFrom(n, s, index, m), PointFrom(n, s, index + 1, m))
  {
    hide Decode, Coords, Mask, StepIn, ToDigits, Repeat, Xor, Unit, Bit, Val;
    var X, Y := ToDigits(index, n, m), ToDigits(index + 1, n, m);
    ValToDigits(index, n, m);
    ValToDigits(index + 1, n, m);
    var i := SuccessorSplit(X, Y, n);
    var A, p, out, d := PlanesStep(n, s, X, Y, i);
    PlanesToPoints(n, A, p, out, |X| - i - 1, d);
  }

  /* Nested cubes. */

  function Halved(c: seq<nat>, j: nat): (h: seq<nat>)
    ensures |h| == |c|
  {
    seq(|c|, d requires 0 <= d < |c| => Quotient(c[d], Pow2(j)))
  }

  lemma PlanesHalved(c: seq<nat>, m: nat, j: nat)
    requires |c| <= WIDTH && j <= m
    ensures Planes(Halved(c, j), m - j) == Planes(c, m)[..m - j]
  {
    forall i | 0 <= i < m - j ensures Planes(Halved(c, j), m - j)[i] == Planes(c, m)[i] {
      var a, b := WordOf(PlaneOf(Halved(c, j), m - j - 1 - i)), WordOf(PlaneOf(c, m - 1 - i));
      forall k: nat ensures Bit(a, k) == Bit(b, k) {
        if k < |c| {
          DivBits(c[k], Halved(c, j)[k], Remainder(c[k], Pow2(j)), j, Pow2(j));
          assert Bit(Halved(c, j)[k], m - j - 1 - i) == Bit(c[k], m - 1 - i);
        }
      }
      Same(a, b);
    }
  }

  // Dropping j bits of every coordinate drops j digits of the index.
  lemma {:induction false} Scale(n: nat, s: State, c: seq<nat>, m: nat, j: nat)
    requires Valid(n, s) && |c| == n && j <= m
    ensures IndexFrom(n, s, Halved(c, j), m - j) == IndexFrom(n, s, c, m) / Span(n, j)
  {
    hide Encode, Planes, Halved, After;
    var P := Planes(c, m);
    PlanesHalved(c, m, j);
    EncodeSplit(n, s, P, m - j);
    var X := Encode(n, s, P);
    assert X[..m - j] == Encode(n, s, P[..m - j]);
    ValPrefix(X, n, j);
  }

  // Hence the points of one aligned cube of side 2^j are exactly those whose
  // indexes lie in one aligned run of Span(n, j) indexes.
  lemma {:induction false} CubeIsRun(n: nat, s: State, a: seq<nat>, b: seq<nat>, m: nat, j: nat)
    requires Valid(n, s) && |a| == |b| == n && OnGrid(a, m) && OnGrid(b, m) && j <= m
    ensures Halved(a, j) == Halved(b, j) <==>
      IndexFrom(n, s, a, m) / Span(n, j) == IndexFrom(n, s, b, m) / Span(n, j)
  {
    hide IndexFrom;
    Scale(n, s, a, m, j);
    Scale(n, s, b, m, j);
    HalvedOnGrid(a, m, j);
    HalvedOnGrid(b, m, j);
    PointOfIndex(n, s, Halved(a, j), m - j);
    PointOfIndex(n, s, Halved(b, j), m - j);
  }

  lemma HalvedOnGrid(c: seq<nat>, m: nat, j: nat)
    requires OnGrid(c, m) && j <= m
    ensures OnGrid(Halved(c, j), m - j)
  {
    Pow2Add(m - j, j);
    forall d | 0 <= d < |c| ensures Halved(c, j)[d] < Pow2(m - j) {
      DivBelow(c[d], Pow2(m - j), Pow2(j));
    }
  }

  lemma DivBelow(v: nat, p: nat, q: nat)
    requires 0 < q && v < p * q
    ensures v / q < p
  {
    QuotientBound(v, Quotient(v, q), Remainder(v, q), p, q);
  }

  /* End points. */

  lemma {:induction false} DigitsOfEnds(n: nat, m: nat)
    ensures Val(Repeat(0, m), n) == 0
    ensures Val(Repeat(Mask(n), m), n) == Span(n, m) - 1
  {
    if m > 0 {
      DigitsOfEnds(n, m - 1);
      assert Repeat(0, m)[..m - 1] == Repeat(0, m - 1);
      assert Repeat(Mask(n), m)[..m - 1] == Repeat(Mask(n), m - 1);
      assert (Span(n, m - 1) - 1) * Pow2(n) == Span(n, m - 1) * Pow2(n) - Pow2(n);
    }
  }

  // The curve enters and leaves the grid at two corners: each coordinate is
  // least or greatest there, according to one bit of the entry and exit planes.
  lemma {:induction false} EndPoints(n: nat, s: State, m: nat, d: nat)
    requires Valid(n, s) && d < n
    ensures PointFrom(n, s, 0, m)[d] == if Bit(Entry(n, s), d) then Mask(m) else 0
    ensures PointFrom(n, s, Span(n, m) - 1, m)[d] == if Bit(Exit(n, s), d) then Mask(m) else 0
  {
    hide Decode, Entry, Exit;
    DigitsOfEnds(n, m);
    ToDigitsVal(Repeat(0, m), n);
    ToDigitsVal(Repeat(Mask(n), m), n);
    DecodeRun(n, s, 0, m);
    DecodeRun(n, s, Mask(n), m);
    ConstantColumn(Entry(n, s), m, d);
    ConstantColumn(Exit(n, s), m, d);
  }

  lemma ConstantColumn(p: nat, m: nat, d: nat)
    ensures Val(Column(Repeat(p, m), d), 1) == if Bit(p, d) then Mask(m) else 0
  {
    DigitsOfEnds(1, m);
    Span1(m);
    assert Mask(1) == 1;
    assert Column(Repeat(p, m), d) == Repeat(if Bit(p, d) then Mask(1) else 0, m);
  }
}
