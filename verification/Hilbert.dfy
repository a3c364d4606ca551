/** The conversions of hilbert.c on machine words. */
module Hilbert {
  import opened Words
  import opened Digits
  import opened BitTricks
  import opened Transpose
  import opened TransposeFast
  import opened HilbertCurve
  import opened HilbertPoints
  import opened HilbertWords

  // The macros rotateRight and rotateLeft: shift both ways and mask.
  function ShiftRight(x: nat, r: nat, n: nat): (w: nat)
    requires 1 <= n < WIDTH && r < n && x < Pow2(n)
    ensures w == RotateRight(x, r, n)
  {
    RotateRightMacro(x, r, n);
    And(Or(Shr(x, r), Shl(x, n - r)), Mask(n))
  }

  function ShiftLeft(x: nat, r: nat, n: nat): (w: nat)
    requires 1 <= n < WIDTH && r < n && x < Pow2(n)
    ensures w == RotateLeft(x, r, n)
  {
    RotateLeftMacro(x, r, n);
    And(Or(Shl(x, r), Shr(x, n - r)), Mask(n))
  }

  /* One digit of the loops, seen through the transducer. */

  // The flip bit and the delta of the planes stand in for the transducer's edge.
  ghost predicate Tracks(s: State, rotation: nat, flipBit: nat, above: nat)
  {
    s.rot == rotation && s.edge == Xor(above, flipBit)
  }

  lemma DecodeStep(n: nat, s: State, x: nat, rotation: nat, flipBit: nat, above: nat)
    requires Valid(n, s) && x < Pow2(n) && Tracks(s, rotation, flipBit, above) && above < Pow2(n) && flipBit < Pow2(n)
    ensures
      var bits := Xor(Gray(x), Toggle(n, s.odd));
      var p := DecodeDigit(n, s, x);
      && bits < Pow2(n) && p < Pow2(n) && Unit(rotation) < Pow2(n)
      && Xor(RotateLeft(bits, rotation, n), flipBit) == Xor(p, above) < Pow2(n)
      && Tracks(Next(n, s, p), Adjust(rotation, bits, n), Unit(rotation), p)
      && Next(n, s, p).odd == !Bit(x, 0)
  {
    hide Bit, Gray, Toggle, Xor, Unit, RotateLeft, Adjust, Twist, EncodeDigit;
    var bits := Xor(Gray(x), Toggle(n, s.odd));
    EncodeDecodeDigit(n, s, x);
    UngrayGray(x, n);
    ToggleBelow(n, s.odd);
    XorBelow(Gray(x), Toggle(n, s.odd), n);
    UnitBelow(rotation, n);
    var a := RotateLeft(bits, rotation, n);
    RotateBack(bits, rotation, n);
    XorBelow(DecodeDigit(n, s, x), above, n);
    XorBelow(a, flipBit, n);
    XorTwice(Xor(a, flipBit), above, n);
    XorRotate(a, above, flipBit);
    XorRotate(Xor(a, flipBit), above, above);
  }

  lemma EncodeStep(n: nat, s: State, p: nat, rotation: nat, flipBit: nat, above: nat)
    requires Valid(n, s) && p < Pow2(n) && Tracks(s, rotation, flipBit, above) && above < Pow2(n) && flipBit < Pow2(n)
    ensures
      var x := EncodeDigit(n, s, p);
      var delta := Xor(p, above);
      && delta < Pow2(n) && Xor(flipBit, delta) < Pow2(n) && Unit(rotation) < Pow2(n) && x < Pow2(n)
      && RotateRight(Xor(flipBit, delta), rotation, n) == Xor(Gray(x), Toggle(n, s.odd))
      && Xor(Gray(x), Toggle(n, s.odd)) < Pow2(n)
      && Tracks(Next(n, s, p), Adjust(rotation, Xor(Gray(x), Toggle(n, s.odd)), n), Unit(rotation), p)
      && Next(n, s, p).odd == !Bit(x, 0)
  {
    hide Bit, Gray, Toggle, Xor, Unit, RotateRight, Adjust, EncodeDigit;
    DecodeEncodeDigit(n, s, p);
    XorBelow(p, above, n);
    XorBelow(flipBit, Xor(p, above), n);
    UnitBelow(rotation, n);
    XorRotate(p, above, flipBit);
    XorRotate(flipBit, Xor(p, above), flipBit);
  }

  /* Index to point. */

  // The points of a one-bit grid, and of a one-dimensional one.
  lemma OneBitPoint(n: nat, index: nat)
    requires 1 <= n <= WIDTH && index < Span(n, 1)
    ensures Gray(index) < Pow2(n)
    ensures PointFrom(n, Start, index, 1) == Coords([Gray(index)], n)
    ensures index == EncodeDigit(n, Start, Gray(index))
  {
    hide Pow2, Gray, Coords, Span, ToDigits, Decode, DecodeDigit, EncodeDigit;
    OneDigit(index, n);
    StartDecodes(index, n);
    DecodeOne(n, Start, index);
  }

  lemma OneDigit(v: nat, n: nat)
    requires v < Span(n, 1)
    ensures v < Pow2(n) && ToDigits(v, n, 1) == [v]
  {
    hide Pow2, Quotient, Remainder, ToDigits;
    assert Span(n, 1) == Pow2(n) by {
      SpanOne(n);
    }
    ValToDigits(v, n, 1);
    ValSingle(ToDigits(v, n, 1)[0], n);
    assert ToDigits(v, n, 1) == [ToDigits(v, n, 1)[0]];
  }

  lemma SpanOne(n: nat)
    ensures Span(n, 1) == Pow2(n)
  {
    assert Span(n, 0) == 1;
  }

  lemma DecodeOne(n: nat, s: State, x: nat)
    requires Valid(n, s) && x < Pow2(n)
    ensures Decode(n, s, [x]) == [DecodeDigit(n, s, x)]
  {
    hide DecodeDigit, Next, Pow2;
    EncodeDecodeDigit(n, s, x);
    assert [x][1..] == [];
  }

  lemma EncodeOne(n: nat, s: State, p: nat)
    requires Valid(n, s) && p < Pow2(n)
    ensures Encode(n, s, [p]) == [EncodeDigit(n, s, p)]
  {
    hide EncodeDigit, Next, Pow2;
    DecodeEncodeDigit(n, s, p);
    assert [p][1..] == [];
  }

  // In the first state digits are plain Gray code.
  lemma StartDecodes(x: nat, n: nat)
    requires 1 <= n <= WIDTH && x < Pow2(n)
    ensures Gray(x) < Pow2(n) && DecodeDigit(n, Start, x) == Gray(x) && x == EncodeDigit(n, Start, Gray(x))
  {
    hide Bit, Gray, Xor, RotateLeft, EncodeDigit, Pow2;
    UngrayGray(x, n);
    XorZero(Gray(x), n);
    assert Toggle(n, false) == 0;
    RotateNone(Gray(x), n);
    EncodeDecodeDigit(n, Start, x);
  }

  lemma StartEncodes(p: nat, n: nat)
    requires 1 <= n <= WIDTH && p < Pow2(n)
    ensures EncodeDigit(n, Start, p) == Ungray(p, n)
  {
    hide Bit, Ungray, Xor, RotateRight, Pow2;
    XorZero(p, n);
    RotateNoneRight(p, n);
    assert Toggle(n, false) == 0;
  }

  lemma RotateNone(x: nat, n: nat)
    requires 1 <= n <= WIDTH && x < Pow2(n)
    ensures RotateLeft(x, 0, n) == x
  {
    hide Bit, RotateLeft;
    HighBits(x, n);
    Same(RotateLeft(x, 0, n), x);
  }

  // In one dimension the state only ever flips the digit twice.
  lemma {:induction false} OneDimension(s: State, X: seq<nat>)
    requires Valid(1, s) && AreDigits(X, 1) && s.edge == if s.odd then 1 else 0
    ensures Decode(1, s, X) == X
    decreases X
  {
    hide Next, DecodeDigit, EncodeDigit;
    if X != [] {
      OneDimensionDigit(s, X[0]);
      OneDimension(Next(1, s, X[0]), X[1..]);
    }
  }

  lemma OneDimensionDigit(s: State, x: nat)
    requires Valid(1, s) && x < Pow2(1) && s.edge == if s.odd then 1 else 0
    ensures DecodeDigit(1, s, x) == x
    ensures Next(1, s, x).edge == if Next(1, s, x).odd then 1 else 0
  {
    assert Pow2(1) == 2;
    ZeroBits();
    HighBits(x, 1);
    var g := Gray(x);
    var t := Toggle(1, s.odd);
    EncodeDecodeDigit(1, s, x);
    forall k: nat ensures Bit(1, k) <==> k == 0 {
      OneBit(k);
    }
    OneDimensionBits(s, x);
  }

  lemma OneDimensionBits(s: State, x: nat)
    requires Valid(1, s) && x < 2 && s.edge == if s.odd then 1 else 0
    requires forall k: nat {:trigger Bit(1, k)} :: Bit(1, k) <==> k == 0
    requires forall k: nat {:trigger Bit(0, k)} :: !Bit(0, k)
    ensures DecodeDigit(1, s, x) == x
    ensures Xor(x, Unit(0)) == if Bit(x, 0) then 0 else 1
  {
    hide Bit, Xor, RotateLeft, Toggle, Unit;
    Same(DecodeDigit(1, s, x), x);
    Same(Xor(x, Unit(0)), if Bit(x, 0) then 0 else 1);
  }

  lemma OneDimensionPoint(index: nat, m: nat)
    requires index < Span(1, m)
    ensures PointFrom(1, Start, index, m) == [index]
    ensures IndexFrom(1, Start, [index], m) == index
  {
    hide Decode, Bit;
    var X := ToDigits(index, 1, m);
    OneDimension(Start, X);
    ValToDigits(index, 1, m);
    forall i | 0 <= i < m ensures Column(X, 0)[i] == X[i] {
      assert Pow2(1) == 2;
      OneBit(0);
      ZeroBit(0);
    }
    assert Column(X, 0) == X;
    IndexOfPoint(1, Start, index, m);
  }

  // Field d of v, m bits wide, holds coordinate d of the planes P.
  ghost predicate IsColumns(v: nat, P: seq<nat>, n: nat)
  {
    forall d: nat, j: nat {:trigger At(d, |P|, j)} :: d < n && j < |P| ==>
      Bit(v, At(d, |P|, j)) == Bit(P[|P| - 1 - j], d)
  }

  lemma TransposeToColumns(v: nat, P: seq<nat>, n: nat)
    requires AreDigits(P, n) && IsTranspose(v, Val(P, n), |P|, n)
    ensures IsColumns(v, P, n)
  {
    hide Bit, Val;
    forall d: nat, j: nat {:trigger At(d, |P|, j)} | d < n && j < |P|
      ensures Bit(v, At(d, |P|, j)) == Bit(P[|P| - 1 - j], d)
    {
      DigitBit(P, n, j, d);
    }
  }

  lemma OneBitColumns(p: nat, n: nat)
    ensures IsColumns(p, [p], n)
  {
  }

  // Masking the lowest field out of the word.
  lemma ColumnField(rest: nat, v: nat, P: seq<nat>, n: nat, d: nat)
    requires IsColumns(v, P, n) && IsRest(rest, v, d, |P|) && d < n && |P| <= WIDTH
    ensures And(rest, Mask(|P|)) == Coords(P, n)[d]
  {
    hide Bit, And, Val, Column, Mask;
    var m := |P|;
    var w, c := And(rest, Mask(m)), Val(Column(P, d), 1);
    ValBound(Column(P, d), 1);
    Span1(m);
    HighBits(c, m);
    forall k: nat ensures Bit(w, k) == Bit(c, k) {
      if k < m {
        ColumnBit(P, d, m - 1 - k);
        assert Bit(rest, k) == Bit(v, At(d, m, k));
      }
    }
    Same(w, c);
  }

  lemma SizeFits(n: nat, m: nat)
    requires 1 <= n && 1 <= m && n * m <= WIDTH
    ensures At(m, n, 0) == n * m && At(n, m, 0) == n * m && n <= WIDTH && m <= WIDTH
    ensures 1 < n ==> m < WIDTH
    ensures 1 < m ==> n < WIDTH
    ensures Span(n, m) == Pow2(n * m)
  {
    hide Pow2, Span;
    assert n * m == m * n;
    SpanIsPow2(n, m);
    SizeBound(n, m);
    SizeBound(m, n);
  }

  lemma SizeBound(n: nat, m: nat)
    requires 1 <= n && 1 <= m && n * m <= WIDTH
    ensures m <= WIDTH && (1 < n ==> m < WIDTH)
  {
  }

  method I2C(nDims: nat, nBits: nat, index: nat, coord: array<nat>)
    requires 1 <= nDims && 1 <= nBits && nDims * nBits <= 64
    requires coord.Length == nDims && index < Pow2(nDims * nBits)
    modifies coord
    ensures coord[..] == PointFrom(nDims, Start, index, nBits)
  {
    hide Bit, Xor, Shr, Span, Val, Coords, Decode, DecodeDigit, ToDigits, IsColumns, At;
    SizeFits(nDims, nBits);
    if nDims > 1 {
      var coords;
      ghost var P;
      if nBits > 1 {
        coords, P := Unravel(nDims, nBits, nDims * nBits, index);
        coords := TransposePlanes(nDims, nBits, coords, P);
      } else {
        coords := Xor(index, Shr(index, 1));
        P := [Gray(index)];
        OneBitPoint(nDims, index);
        OneBitColumns(Gray(index), nDims);
      }
      StoreFields(nDims, nBits, coords, coord, P);
    } else {
      OneDimensionPoint(index, nBits);
      coord[0] := index;
    }
  }

  // The transpose that turns planes into columns.
  method TransposePlanes(nDims: nat, nBits: nat, w: nat, ghost P: seq<nat>) returns (coords: nat)
    requires 1 <= nDims < WIDTH && 1 <= nBits < WIDTH && nDims * nBits <= WIDTH
    requires |P| == nBits && AreDigits(P, nDims) && w == Val(P, nDims)
    ensures IsColumns(coords, P, nDims) && IsWord(coords)
  {
    hide Val, Bit, IsColumns, IsTranspose;
    ValHigh(P, nDims);
    SizeFits(nDims, nBits);
    coords := BitTranspose(nBits, nDims, w);
    TransposeToColumns(coords, P, nDims);
    TransposeWord(coords, w, nBits, nDims);
  }

  lemma TransposeWord(v: nat, w: nat, nDims: nat, nBits: nat)
    requires IsTranspose(v, w, nDims, nBits) && At(nBits, nDims, 0) <= WIDTH
    ensures IsWord(v)
  {
  }

  // Takes the coordinates out of the word, the lowest field first.
  method StoreFields(nDims: nat, nBits: nat, w: nat, coord: array<nat>, ghost P: seq<nat>)
    requires 1 <= nDims && 1 <= nBits < WIDTH && coord.Length == nDims
    requires |P| == nBits && IsColumns(w, P, nDims) && IsWord(w)
    modifies coord
    ensures coord[..] == Coords(P, nDims)
  {
    hide Bit, And, Shr, Mask, Coords, IsColumns, IsRest, IsWord;
    var nbOnes := Mask(nBits);
    var coords := w;
    RestStart(w, nBits);
    for d := 0 to nDims
      invariant IsRest(coords, w, d, nBits)
      invariant forall e :: 0 <= e < d ==> coord[e] == Coords(P, nDims)[e]
    {
      ColumnField(coords, w, P, nDims, d);
      coord[d] := And(coords, nbOnes);
      RestStep(coords, w, d, nBits);
      coords := Shr(coords, nBits);
    }
  }

  lemma RestStart(w: nat, nBits: nat)
    ensures IsRest(w, w, 0, nBits)
  {
  }

  // The digit loop and the stride-nDims prefix XOR of mfa_hilbert_i2c.
  method Unravel(nDims: nat, nBits: nat, nDimsBits: nat, index: nat) returns (coords: nat, ghost P: seq<nat>)
    requires 1 < nDims < WIDTH && 1 < nBits < WIDTH && nDimsBits == At(nBits, nDims, 0) <= WIDTH
    requires index < Span(nDims, nBits)
    ensures AreDigits(P, nDims) && P == Decode(nDims, Start, ToDigits(index, nDims, nBits)) && coords == Val(P, nDims)
  {
    hide Bit, And, Xor, Shr, Shl, Or, Mask, Unit, Gray, Toggle, Val, Span, At, IsFold, Adjust, RotateLeft;
    hide DecodeDigit, EncodeDigit, Next, Decode, Deltas, IsWord, Twists, ToDigits, Pow2;
    var ndOnes := Mask(nDims);
    NthBits(nDims, nBits);
    var nthbits := Mask(nDimsBits) / ndOnes;
    ghost var X := ToDigits(index, nDims, nBits);
    ValToDigits(index, nDims, nBits);
    GrayWord(X, nDims, nthbits);
    ghost var W := Twists(nDims, false, X);
    var i := Xor(index, Shr(Xor(index, nthbits), 1));

    coords, P := 0, [];
    var b, rotation: nat, flipBit: nat := nDimsBits, 0, 0;
    ghost var s, above: nat := Start, 0;
    StartTracks(nDims);
    while b > 0
      invariant |P| <= nBits && b == At(nBits - |P|, nDims, 0)
      invariant AreDigits(P, nDims) && AreDigits(Deltas(P), nDims) && coords == Val(Deltas(P), nDims)
      invariant Valid(nDims, s) && above < Pow2(nDims) && flipBit < Pow2(nDims) && Tracks(s, rotation, flipBit, above)
      invariant above == if P == [] then 0 else P[|P| - 1]
      invariant s.odd == if P == [] then false else !Bit(X[|P| - 1], 0)
      invariant Decode(nDims, Start, X) == P + Decode(nDims, s, X[|P|..])
      decreases b
    {
      ghost var k := |P|;
      AtOnlyZero(nBits - k, nDims);
      ghost var x := X[k];
      AtNext(nBits - k - 1, nDims, 0);
      b := b - nDims;
      DigitOf(W, nDims, nBits - k - 1);
      TwistAt(nDims, false, X, k);
      var bits := And(Shr(i, b), ndOnes);
      DecodeStep(nDims, s, x, rotation, flipBit, above);
      DecodeHead(nDims, s, X, k);
      ghost var p := DecodeDigit(nDims, s, x);
      var digit := Xor(ShiftLeft(bits, rotation, nDims), flipBit);
      DeltasAppend(P, p);
      AppendDigit(Deltas(P), digit, nDims, nBits);
      coords := Or(Shl(coords, nDims), digit);
      flipBit := Unit(rotation);
      rotation := AdjustRotation(rotation, nDims, bits);
      s, above, P := Next(nDims, s, p), p, P + [p];
    }
    AtOnlyZero(nBits - |P|, nDims);
    coords := FoldPlanes(nDims, nBits, nDimsBits, coords, P);
  }

  // Folds the planes: each becomes the XOR of itself and all planes above it.
  method FoldPlanes(nDims: nat, nBits: nat, nDimsBits: nat, w: nat, ghost P: seq<nat>) returns (coords: nat)
    requires 1 <= nDims < WIDTH && nDimsBits == At(nBits, nDims, 0) <= WIDTH
    requires |P| == nBits && AreDigits(P, nDims) && AreDigits(Deltas(P), nDims) && w == Val(Deltas(P), nDims)
    ensures coords == Val(P, nDims)
  {
    hide Bit, Xor, Shr, Val, At, IsFold, Deltas, IsWord;
    ghost var c := 1;
    ValHigh(Deltas(P), nDims);
    FitsWord(w, nDimsBits);
    FoldStart(w, nDims);
    coords := w;
    var b := nDims;
    while b < nDimsBits
      invariant 1 <= c && b == c * nDims && IsFold(coords, w, nDims, c)
      decreases nDimsBits - b
    {
      FoldDouble(coords, w, nDims, c, b);
      coords := Xor(coords, Shr(coords, b));
      b, c := b * 2, c * 2;
    }
    RowsCovered(nBits, nDims, c);
    FoldedDeltas(coords, P, nDims, c);
  }

  lemma AtOnlyZero(r: nat, n: nat)
    requires 1 <= n
    ensures At(r, n, 0) == 0 <==> r == 0
  {
  }

  lemma RowsCovered(m: nat, n: nat, c: nat)
    requires At(m, n, 0) <= c * n && 1 <= n
    ensures m <= c
  {
    var gap: int := c - m;
    assert gap * n >= 0;
  }

  lemma StartTracks(n: nat)
    ensures Tracks(Start, 0, 0, 0)
    ensures Deltas([]) == [] && Val([], n) == 0
  {
    ZeroBits();
    XorZero(0, 0);
  }

  /* Point to index. */

  function Reversed(c: seq<nat>): (r: seq<nat>)
    ensures |r| == |c|
  {
    seq(|c|, i requires 0 <= i < |c| => c[|c| - 1 - i])
  }

  // Packs the coordinates into one word, the last one on top.
  method LoadFields(nDims: nat, nBits: nat, coord: array<nat>) returns (coords: nat)
    requires 1 <= nDims && 1 <= nBits < WIDTH && At(nDims, nBits, 0) <= WIDTH
    requires coord.Length == nDims && OnGrid(coord[..], nBits)
    ensures AreDigits(Reversed(coord[..]), nBits) && coords == Val(Reversed(coord[..]), nBits)
  {
    hide Bit, Or, Shl, Val, At;
    ghost var c := coord[..];
    ghost var R: seq<nat> := [];
    coords := 0;
    StartTracks(nBits);
    var d := nDims;
    while d > 0
      invariant d <= nDims && |R| == nDims - d && AreDigits(R, nBits) && coords == Val(R, nBits)
      invariant forall i :: 0 <= i < |R| ==> R[i] == c[nDims - 1 - i]
    {
      d := d - 1;
      AppendDigit(R, coord[d], nBits, nDims);
      coords := Or(Shl(coords, nBits), coord[d]);
      R := R + [coord[d]];
    }
    assert R == Reversed(c);
  }

  // The transpose that turns coordinates into planes.
  lemma TransposeToPlanes(v: nat, c: seq<nat>, m: nat)
    requires 1 <= |c| <= WIDTH && AreDigits(Reversed(c), m)
    requires IsTranspose(v, Val(Reversed(c), m), |c|, m)
    ensures v == Val(Planes(c, m), |c|)
  {
    hide Bit, Val;
    var n, P := |c|, Planes(c, m);
    forall r: nat, k: nat {:trigger At(r, n, k)} | r < m && k < n
      ensures Bit(v, At(r, n, k)) == Bit(P[m - 1 - r], k)
    {
      DigitBit(Reversed(c), m, k, r);
      assert P[m - 1 - r] == WordOf(PlaneOf(c, r));
    }
    IsVal(v, P, n);
  }

  lemma OneBitPlanes(c: seq<nat>)
    requires 1 <= |c| <= WIDTH && AreDigits(Reversed(c), 1)
    ensures Val(Reversed(c), 1) == Planes(c, 1)[0]
  {
    hide Bit, Val;
    var n, w, p := |c|, Val(Reversed(c), 1), Planes(c, 1)[0];
    ValHigh(Reversed(c), 1);
    forall k: nat ensures Bit(w, k) == Bit(p, k) {
      if k < n {
        DigitBit(Reversed(c), 1, k, 0);
        assert At(k, 1, 0) == k;
      }
    }
    Same(w, p);
  }

  lemma OneBitIndex(n: nat, c: seq<nat>)
    requires 1 <= n <= WIDTH && |c| == n
    ensures Planes(c, 1)[0] < Pow2(n)
    ensures IndexFrom(n, Start, c, 1) == Ungray(Planes(c, 1)[0], n)
  {
    hide Planes, Encode, EncodeDigit, Ungray, Val, Pow2;
    var P := Planes(c, 1);
    assert P == [P[0]];
    StartEncodes(P[0], n);
    EncodeOne(n, Start, P[0]);
    ValSingle(Ungray(P[0], n), n);
  }

  lemma ValSingle(x: nat, n: nat)
    ensures Val([x], n) == x
  {
    assert [x][..0] == [];
  }

  lemma RotateNoneRight(x: nat, n: nat)
    requires 1 <= n <= WIDTH && x < Pow2(n)
    ensures RotateRight(x, 0, n) == x
  {
    hide Bit, RotateRight;
    HighBits(x, n);
    Same(RotateRight(x, 0, n), x);
  }

  method C2I(nDims: nat, nBits: nat, coord: array<nat>) returns (index: nat)
    requires 1 <= nDims && 1 <= nBits && nDims * nBits <= 64
    requires coord.Length == nDims && OnGrid(coord[..], nBits)
    ensures index == IndexFrom(nDims, Start, coord[..], nBits)
  {
    hide Bit, Planes, Reversed, Val, Encode, Ungray, At, Span, Pow2, IsTranspose;
    SizeFits(nDims, nBits);
    if nDims > 1 {
      var coords := LoadFields(nDims, nBits, coord);
      if nBits > 1 {
        ghost var c := coord[..];
        ValHigh(Reversed(c), nBits);
        coords := BitTranspose(nDims, nBits, coords);
        TransposeToPlanes(coords, c, nBits);
        index := Ravel(nDims, nBits, nDims * nBits, coords, Planes(c, nBits));
      } else {
        OneBitPlanes(coord[..]);
        OneBitIndex(nDims, coord[..]);
        index := PrefixXor(coords, nDims * nBits);
      }
    } else {
      Span1(nBits);
      OneDimensionPoint(coord[0], nBits);
      assert coord[..] == [coord[0]];
      index := coord[0];
    }
  }

  // The digit loop and the prefix XOR of mfa_hilbert_c2i.
  method Ravel(nDims: nat, nBits: nat, nDimsBits: nat, w: nat, ghost P: seq<nat>) returns (index: nat)
    requires 1 < nDims < WIDTH && 1 < nBits < WIDTH && nDimsBits == At(nBits, nDims, 0) <= WIDTH
    requires |P| == nBits && AreDigits(P, nDims) && w == Val(P, nDims)
    ensures index == Val(Encode(nDims, Start, P), nDims)
  {
    hide Bit, And, Xor, Shr, Shl, Or, Mask, Unit, Gray, Toggle, Val, Span, At, Adjust, RotateRight;
    hide DecodeDigit, EncodeDigit, Next, Encode, Deltas, IsWord, Twists, Pow2;
    var ndOnes := Mask(nDims);
    NthBits(nDims, nBits);
    var nthbits := Mask(nDimsBits) / ndOnes;
    DeltaWord(P, nDims);
    var coords := Xor(w, Shr(w, nDims));

    ghost var X: seq<nat> := [];
    index := 0;
    var b, rotation: nat, flipBit: nat := nDimsBits, 0, 0;
    ghost var s, above: nat := Start, 0;
    StartTracks(nDims);
    StartTwists(nDims);
    while b > 0
      invariant |X| <= nBits && b == At(nBits - |X|, nDims, 0)
      invariant AreDigits(X, nDims) && AreDigits(Twists(nDims, false, X), nDims)
      invariant index == Val(Twists(nDims, false, X), nDims)
      invariant Valid(nDims, s) && above < Pow2(nDims) && flipBit < Pow2(nDims) && Tracks(s, rotation, flipBit, above)
      invariant above == if X == [] then 0 else P[|X| - 1]
      invariant s.odd == if X == [] then false else !Bit(X[|X| - 1], 0)
      invariant Encode(nDims, Start, P) == X + Encode(nDims, s, P[|X|..])
      decreases b
    {
      ghost var k := |X|;
      AtOnlyZero(nBits - k, nDims);
      ghost var p := P[k];
      AtNext(nBits - k - 1, nDims, 0);
      b := b - nDims;
      DigitOf(Deltas(P), nDims, nBits - k - 1);
      DeltaAt(P, k);
      EncodeStep(nDims, s, p, rotation, flipBit, above);
      EncodeHead(nDims, s, P, k);
      var bits := And(Shr(coords, b), ndOnes);
      bits := ShiftRight(Xor(flipBit, bits), rotation, nDims);
      ghost var x := EncodeDigit(nDims, s, p);
      TwistsAppend(nDims, false, X, x);
      AppendDigit(Twists(nDims, false, X), bits, nDims, nBits);
      index := Or(Shl(index, nDims), bits);
      flipBit := Unit(rotation);
      rotation := AdjustRotation(rotation, nDims, bits);
      s, above, X := Next(nDims, s, p), p, X + [x];
    }
    AtOnlyZero(nBits - |X|, nDims);
    assert X == Encode(nDims, Start, P);
    DigitsToIndex(X, nDims, nBits, nDimsBits, nthbits);
    index := Xor(index, Shr(nthbits, 1));
    index := PrefixXor(index, nDimsBits);
  }

  // Removing the toggles leaves the Gray code of the index.
  lemma DigitsToIndex(X: seq<nat>, n: nat, m: nat, size: nat, nth: nat)
    requires 1 <= n < WIDTH && 1 <= m == |X| && AreDigits(X, n) && size == At(m, n, 0) <= WIDTH
    requires nth == Val(Ones(m), n)
    ensures 1 <= size
    ensures Xor(Val(Twists(n, false, X), n), Shr(nth, 1)) == Gray(Val(X, n)) < Pow2(size)
    ensures Ungray(Gray(Val(X, n)), size) == Val(X, n)
  {
    hide Bit, Xor, Shr, Val, At, Pow2, Gray, Ungray, Span, IsWord, Twists;
    GrayWord(X, n, nth);
    ValHigh(X, n);
    FitsWord(Val(X, n), size);
    OnesDigits(n, m);
    ValHigh(Ones(m), n);
    FitsWord(nth, size);
    ToggleOff(Val(X, n), nth);
    ValBound(X, n);
    SpanIsPow2(n, m);
    IndexBound(m, n);
    UngrayGray(Val(X, n), size);
  }

  lemma IndexBound(m: nat, n: nat)
    requires 1 <= m && 1 <= n
    ensures 1 <= At(m, n, 0) == m * n
  {
  }

  // Toggling the top bit of every digit but the first.
  lemma ToggleOff(v: nat, nth: nat)
    requires IsWord(v) && IsWord(nth)
    ensures Xor(Xor(v, Shr(Xor(v, nth), 1)), Shr(nth, 1)) == Gray(v)
  {
    hide Bit, Xor, Shr;
    Same(Xor(Xor(v, Shr(Xor(v, nth), 1)), Shr(nth, 1)), Gray(v));
  }

  lemma StartTwists(n: nat)
    requires 1 <= n <= WIDTH
    ensures Twists(n, false, []) == []
  {
  }

  lemma DeltaAt(P: seq<nat>, i: nat)
    requires i < |P|
    ensures Deltas(P)[i] == Xor(P[i], if i == 0 then 0 else P[i - 1])
  {
  }
}
