/** Comparing points, and advancing a point, along the curve without ever
    computing an index. */
module HilbertOrder {
  import opened Words
  import opened Digits
  import opened BitTricks
  import opened Transpose
  import opened HilbertCurve
  import opened HilbertPoints
  import opened HilbertWords
  import opened Hilbert

  /* Reading one plane. */

  // One more axis of the plane is read.
  lemma PlaneStep(c: seq<nat>, y: nat, d: nat, bits: nat)
    requires d < |c| <= WIDTH && y < WIDTH && bits == WordOf(PlaneOf(c[..d], y))
    ensures Or(bits, Shl(ReadBit(c[d], y), d)) == WordOf(PlaneOf(c[..d + 1], y))
  {
    hide Bit, Or, Shl, ReadBit;
    Same(Or(bits, Shl(ReadBit(c[d], y), d)), WordOf(PlaneOf(c[..d + 1], y)));
  }

  lemma PlaneStart(c: seq<nat>, y: nat)
    ensures WordOf(PlaneOf(c[..0], y)) == 0
  {
    ZeroBits();
    Same(WordOf(PlaneOf(c[..0], y)), 0);
  }

  // Gathers bit y of every coordinate, axis 0 lowest.
  method ReadPlane(nDims: nat, coord: array<nat>, y: nat) returns (bits: nat)
    requires nDims == coord.Length <= WIDTH && y < WIDTH
    ensures bits == WordOf(PlaneOf(coord[..], y))
  {
    hide Or, Shl, ReadBit, WordOf, Bit;
    bits := 0;
    ghost var c := coord[..];
    PlaneStart(c, y);
    for d := 0 to nDims
      invariant bits == WordOf(PlaneOf(c[..d], y))
    {
      PlaneStep(c, y, d, bits);
      bits := Or(bits, Shl(ReadBit(coord[d], y), d));
    }
    assert c[..nDims] == c;
  }

  // The bytes of coordinate d, most significant first; in memory the least
  // significant byte comes first.
  function BytesOf(c: seq<nat>, nBytes: nat, d: nat): (B: seq<nat>)
    requires At(d, nBytes, nBytes) <= |c|
    ensures |B| == nBytes
  {
    seq(nBytes, i requires 0 <= i < nBytes => c[At(d, nBytes, nBytes - 1 - i)])
  }

  function ByteCoords(c: seq<nat>, nBytes: nat, n: nat): (v: seq<nat>)
    requires |c| == At(n, nBytes, 0)
    ensures |v| == n
  {
    assert forall d: nat :: d < n ==> At(d, nBytes, nBytes) <= |c| by {
      forall d: nat | d < n ensures At(d, nBytes, nBytes) <= |c| {
        RowFits(d, n, nBytes);
      }
    }
    seq(n, (d: nat) requires d < n && At(d, nBytes, nBytes) <= |c| => Val(BytesOf(c, nBytes, d), 8))
  }

  // The number whose bytes these are, the lowest first.
  ghost function LittleEndian(bytes: seq<nat>): nat
  {
    if bytes == [] then 0 else bytes[0] + 256 * LittleEndian(bytes[1..])
  }

  lemma ByteCoordsAre(c: seq<nat>, nBytes: nat, n: nat, d: nat)
    requires |c| == At(n, nBytes, 0) && d < n
    ensures d * nBytes + nBytes <= |c|
    ensures ByteCoords(c, nBytes, n)[d] == LittleEndian(c[d * nBytes..d * nBytes + nBytes])
  {
    hide Val, LittleEndian;
    RowFits(d, n, nBytes);
    var B, row := BytesOf(c, nBytes, d), c[d * nBytes..d * nBytes + nBytes];
    forall i | 0 <= i < nBytes ensures B[i] == row[nBytes - 1 - i] {
      assert B[i] == c[At(d, nBytes, nBytes - 1 - i)];
    }
    LowestFirst(B, row);
  }

  lemma {:induction false} LowestFirst(B: seq<nat>, row: seq<nat>)
    requires |B| == |row| && forall i :: 0 <= i < |B| ==> B[i] == row[|row| - 1 - i]
    ensures Val(B, 8) == LittleEndian(row)
  {
    if B != [] {
      LowestFirst(B[..|B| - 1], row[1..]);
      assert Pow2(8) == 256;
    }
  }

  lemma RowFits(d: nat, n: nat, w: nat)
    requires d < n
    ensures At(d, w, w) <= At(n, w, 0)
  {
    assert (d + 1) * w <= n * w;
  }

  lemma ByteBit(c: seq<nat>, nBytes: nat, n: nat, d: nat, y: nat)
    requires |c| == At(n, nBytes, 0) && d < n && y < 8 * nBytes
    requires forall i :: 0 <= i < |c| ==> c[i] < 256
    ensures At(d, nBytes, y / 8) < |c|
    ensures Bit(c[At(d, nBytes, y / 8)], y % 8) == Bit(ByteCoords(c, nBytes, n)[d], y)
  {
    hide Bit, Val;
    RowFits(d, n, nBytes);
    var B := BytesOf(c, nBytes, d);
    assert Pow2(8) == 256;
    forall i | 0 <= i < |B| ensures B[i] < Pow2(8) {
      assert B[i] == c[At(d, nBytes, nBytes - 1 - i)];
    }
    DigitBit(B, 8, y / 8, y % 8);
    assert At(y / 8, 8, y % 8) == y;
  }

  // Little-endian getIntBits of hilbert.c.
  method GetIntBits(nDims: nat, nBytes: nat, c: seq<nat>, y: nat) returns (bits: nat)
    requires nDims <= WIDTH && y < 8 * nBytes
    requires |c| == At(nDims, nBytes, 0) && forall i :: 0 <= i < |c| ==> c[i] < 256
    ensures bits == WordOf(PlaneOf(ByteCoords(c, nBytes, nDims), y))
  {
    hide Or, Shl, ReadBit, WordOf, Bit, Val;
    var bit := y % 8;
    var offs := y / 8;
    ghost var v := ByteCoords(c, nBytes, nDims);
    bits := 0;
    PlaneStart(v, y);
    for d := 0 to nDims
      invariant offs == At(d, nBytes, y / 8)
      invariant bits == WordOf(PlaneOf(v[..d], y))
    {
      ByteBit(c, nBytes, nDims, d, y);
      BytePlaneStep(v, y, d, bits, c[offs], bit);
      bits := Or(bits, Shl(ReadBit(c[offs], bit), d));
      offs := offs + nBytes;
    }
    assert v[..nDims] == v;
  }

  lemma BytePlaneStep(c: seq<nat>, y: nat, d: nat, bits: nat, byte: nat, k: nat)
    requires d < |c| <= WIDTH && k < WIDTH && bits == WordOf(PlaneOf(c[..d], y)) && Bit(byte, k) == Bit(c[d], y)
    ensures Or(bits, Shl(ReadBit(byte, k), d)) == WordOf(PlaneOf(c[..d + 1], y))
  {
    hide Bit, Or, Shl, ReadBit;
    Same(Or(bits, Shl(ReadBit(byte, k), d)), WordOf(PlaneOf(c[..d + 1], y)));
  }

  /* The comparator. */

  // `Ungray` of two digits that differ in their lowest bits only by the flipped
  // top bit are complements of each other.
  lemma {:induction false} FlippedParity(g: nat, k: nat, n: nat)
    requires k < n <= WIDTH
    ensures Parity(Xor(g, Unit(n - 1)), k, n) != Parity(g, k, n)
    decreases n - k
  {
    if k + 1 < n {
      FlippedParity(g, k + 1, n);
    } else {
      NoParity(g, n, n);
      NoParity(Xor(g, Unit(n - 1)), n, n);
    }
  }

  lemma FlippedUngray(g: nat, n: nat)
    requires 1 <= n <= WIDTH && g < Pow2(n)
    ensures Xor(g, Unit(n - 1)) < Pow2(n)
    ensures Ungray(Xor(g, Unit(n - 1)), n) + Ungray(g, n) == Mask(n)
  {
    hide Bit, Xor, Unit, Parity, Mask;
    var a, b := Ungray(Xor(g, Unit(n - 1)), n), Ungray(g, n);
    UnitBelow(n - 1, n);
    XorBelow(g, Unit(n - 1), n);
    forall k: nat ensures Bit(a, k) == (k < n && !Bit(b, k)) {
      if k < n {
        FlippedParity(g, k, n);
      } else {
        NoParity(Xor(g, Unit(n - 1)), k, n);
      }
    }
    GrayUngray(g, n);
    Complement(a, b, n);
  }

  lemma Complement(a: nat, b: nat, n: nat)
    requires b < Pow2(n) && forall k: nat {:trigger Bit(a, k)} :: Bit(a, k) == (k < n && !Bit(b, k))
    ensures a + b == Mask(n)
  {
    hide Bit, Mask;
    forall k: nat ensures Bit(a, k) == Bit(Mask(n) - b, k) {
      if k < n {
        ComplementBit(b, n, k);
      } else {
        HighBits(Mask(n) - b, n);
      }
    }
    Same(a, Mask(n) - b);
  }

  // Prefix XOR distributes over XOR.
  lemma {:induction false} ParityXor(a: nat, b: nat, k: nat, n: nat)
    requires n <= WIDTH
    ensures Parity(Xor(a, b), k, n) == (Parity(a, k, n) != Parity(b, k, n))
    decreases n - k
  {
    if k < n {
      ParityXor(a, b, k + 1, n);
    }
  }

  lemma UngrayXor(a: nat, b: nat, n: nat)
    requires n <= WIDTH
    ensures Ungray(Xor(a, b), n) == Xor(Ungray(a, n), Ungray(b, n))
  {
    hide Bit, Xor, Parity;
    forall k: nat ensures Bit(Ungray(Xor(a, b), n), k) == Bit(Xor(Ungray(a, n), Ungray(b, n)), k) {
      ParityXor(a, b, k, n);
    }
    Same(Ungray(Xor(a, b), n), Xor(Ungray(a, n), Ungray(b, n)));
  }

  // bits and index of the comparator after i planes, against the transducer.
  ghost predicate Compares(n: nat, s: State, i: nat, rotation: nat, bits: nat, index: nat)
    requires Valid(n, s)
  {
    && s.rot == rotation
    && bits == (if i == 0 then Unit(n - 1) else s.edge)
    && (i == 0 ==> s == Start)
    && index < Pow2(n) && bits < Pow2(n)
    && Parity(index, 0, n) == (if i == 0 then true else s.odd != (i % 2 == 1))
  }

  lemma CompareStart(n: nat)
    requires 1 <= n <= WIDTH
    ensures After(n, Start, []) == Start
    ensures Compares(n, Start, 0, 0, Unit(n - 1), Unit(n - 1))
  {
    hide Bit, Unit;
    UnitBelow(n - 1, n);
    TopParity(n, 0);
  }

  lemma {:induction false} TopParity(n: nat, k: nat)
    requires k < n <= WIDTH
    ensures Parity(Unit(n - 1), k, n)
    decreases n - k
  {
    if k + 1 < n {
      TopParity(n, k + 1);
    }
  }

  // The rotated bits are the transducer's Gray digit; at the first plane its top
  // bit is flipped.
  lemma CompareTwist(n: nat, s: State, i: nat, rotation: nat, bits: nat, index: nat, p: nat)
    requires Valid(n, s) && Compares(n, s, i, rotation, bits, index) && p < Pow2(n)
    ensures Xor(bits, p) < Pow2(n) && Twist(n, s, p) < Pow2(n)
    ensures RotateRight(Xor(bits, p), rotation, n) ==
            if i == 0 then Xor(Twist(n, s, p), Unit(n - 1)) else Twist(n, s, p)
  {
    hide Bit, Xor, Unit, RotateRight, Parity;
    XorBelow(bits, p, n);
    XorBelow(p, s.edge, n);
    RotateBack(Xor(p, s.edge), rotation, n);
    XorRotate(bits, p, 0);
    if i == 0 {
      UnitBelow(n - 1, n);
      XorZero(p, n);
      XorBelow(p, Unit(n - 1), n);
      RotateNoneRight(p, n);
      RotateNoneRight(Xor(p, Unit(n - 1)), n);
    }
  }

  lemma AdjustIgnoresTop(g: nat, r: nat, n: nat)
    requires 1 <= n <= WIDTH && r < n && g < Pow2(n)
    ensures Adjust(r, Xor(g, Unit(n - 1)), n) == Adjust(r, g, n)
  {
    hide Bit, Xor, Unit, Lowest;
    LowestSame(Xor(g, Unit(n - 1)), g, n - 1);
  }

  // The index digit of plane p, from the Gray digit without the toggled top bit.
  lemma DigitOfTwist(n: nat, s: State, p: nat)
    requires Valid(n, s) && p < Pow2(n)
    ensures Twist(n, s, p) < Pow2(n)
    ensures Ungray(Twist(n, s, p), n) <= Mask(n)
    ensures EncodeDigit(n, s, p) ==
            if s.odd then Mask(n) - Ungray(Twist(n, s, p), n) else Ungray(Twist(n, s, p), n)
    ensures Bit(EncodeDigit(n, s, p), 0) == (Parity(Twist(n, s, p), 0, n) != s.odd)
  {
    hide Bit, Xor, Unit, Twist, Ungray, Parity, Mask;
    DecodeEncodeDigit(n, s, p);
    var g := Twist(n, s, p);
    GrayUngray(g, n);
    if s.odd {
      FlippedUngray(g, n);
      FlippedParity(g, 0, n);
      Same(Toggle(n, true), Unit(n - 1));
    } else {
      Same(Toggle(n, false), 0);
      XorZero(g, n);
    }
  }

  lemma CompareNext(n: nat, s: State, i: nat, rotation: nat, bits: nat, index: nat, p: nat)
    requires Valid(n, s) && Compares(n, s, i, rotation, bits, index) && p < Pow2(n)
    ensures Xor(bits, p) < Pow2(n) && RotateRight(Xor(bits, p), rotation, n) < Pow2(n)
    ensures
      var g := RotateRight(Xor(bits, p), rotation, n);
      Compares(n, Next(n, s, p), i + 1, Adjust(rotation, g, n), Xor(p, Unit(rotation)), Xor(index, g))
  {
    hide Bit, Xor, Unit, RotateRight, Parity, Twist, EncodeDigit, Adjust;
    CompareTwist(n, s, i, rotation, bits, index, p);
    var t := Twist(n, s, p);
    var g := RotateRight(Xor(bits, p), rotation, n);
    RotateBack(Xor(bits, p), rotation, n);
    XorBelow(index, g, n);
    if i == 0 {
      AdjustIgnoresTop(t, rotation, n);
    }
    CompareParity(n, s, i, index, p, g);
  }

  lemma CompareParity(n: nat, s: State, i: nat, index: nat, p: nat, g: nat)
    requires Valid(n, s) && p < Pow2(n)
    requires i == 0 ==> !s.odd
    requires Parity(index, 0, n) == (if i == 0 then true else s.odd != (i % 2 == 1))
    requires g == if i == 0 then Xor(Twist(n, s, p), Unit(n - 1)) else Twist(n, s, p)
    ensures Parity(Xor(index, g), 0, n) == (!Bit(EncodeDigit(n, s, p), 0) != ((i + 1) % 2 == 1))
  {
    hide Bit, Xor, Unit, Parity, Twist, EncodeDigit;
    ParityXor(index, g, 0, n);
    DigitOfTwist(n, s, p);
    if i == 0 {
      FlippedParity(Twist(n, s, p), 0, n);
    }
  }

  lemma RotateXor(a: nat, b: nat, r: nat, n: nat)
    requires 1 <= n <= WIDTH && r < n && a < Pow2(n) && b < Pow2(n)
    ensures Xor(RotateRight(a, r, n), RotateRight(b, r, n)) == RotateRight(Xor(a, b), r, n)
  {
    hide Bit, Xor, RotateRight, Turned;
    Same(Xor(RotateRight(a, r, n), RotateRight(b, r, n)), RotateRight(Xor(a, b), r, n));
  }

  // The comparison made at the first plane in which the points differ.
  lemma {:induction false} CompareDecides(n: nat, s: State, i: nat, rotation: nat, bits: nat, index: nat, p: nat, q: nat)
    requires Valid(n, s) && Compares(n, s, i, rotation, bits, index) && p < Pow2(n) && q < Pow2(n) && p != q
    ensures Xor(bits, p) < Pow2(n) && Xor(p, q) < Pow2(n)
    ensures
      var u := Ungray(RotateRight(Xor(bits, p), rotation, n), n);
      var d := Ungray(RotateRight(Xor(p, q), rotation, n), n);
      (Parity(index, 0, n) != (i % 2 == 0)) == (u < Xor(u, d)) <==> EncodeDigit(n, s, p) < EncodeDigit(n, s, q)
    ensures EncodeDigit(n, s, p) != EncodeDigit(n, s, q)
  {
    hide Bit, Xor, Unit, RotateRight, Parity, Twist, EncodeDigit, Ungray, Mask;
    CompareTwist(n, s, i, rotation, bits, index, p);
    CompareTwist(n, s, i, rotation, bits, index, q);
    XorBelow(p, q, n);
    RotateXor(Xor(bits, p), Xor(p, q), rotation, n);
    XorRotate(Xor(bits, p), p, q);
    XorRotate(bits, p, p);
    XorTwice(bits, p, n);
    UngrayXor(RotateRight(Xor(bits, p), rotation, n), RotateRight(Xor(p, q), rotation, n), n);
    DigitOfTwist(n, s, p);
    DigitOfTwist(n, s, q);
    DecodeEncodeDigit(n, s, p);
    DecodeEncodeDigit(n, s, q);
    if i == 0 {
      FlippedUngray(Twist(n, s, p), n);
      FlippedUngray(Twist(n, s, q), n);
    }
  }

  // Points that first differ in plane i compare as their digits do there.
  lemma FirstDifference(n: nat, P: seq<nat>, Q: seq<nat>, i: nat)
    requires 1 <= n <= WIDTH && AreDigits(P, n) && AreDigits(Q, n) && |P| == |Q| && i < |P| && P[..i] == Q[..i]
    requires EncodeDigit(n, After(n, Start, P[..i]), P[i]) < EncodeDigit(n, After(n, Start, P[..i]), Q[i])
    ensures Val(Encode(n, Start, P), n) < Val(Encode(n, Start, Q), n)
  {
    hide EncodeDigit, DecodeDigit, Next, Encode, After;
    var X, Y := Encode(n, Start, P), Encode(n, Start, Q);
    EncodeSplit(n, Start, P, i);
    EncodeSplit(n, Start, Q, i);
    EncodeHead(n, After(n, Start, P[..i]), P, i);
    EncodeHead(n, After(n, Start, Q[..i]), Q, i);
    assert X[..i] == Y[..i];
    ValOrder(X, Y, n, i);
  }

  lemma {:induction false} AfterAppend(n: nat, s: State, P: seq<nat>, p: nat)
    requires Valid(n, s) && AreDigits(P, n) && p < Pow2(n)
    ensures After(n, s, P + [p]) == Next(n, After(n, s, P), p)
    decreases P
  {
    hide Next;
    if P == [] {
      assert (P + [p])[1..] == [];
    } else {
      AfterAppend(n, Next(n, s, P[0]), P[1..], p);
      assert (P + [p])[1..] == P[1..] + [p];
    }
  }

  lemma PlaneAt(c: seq<nat>, m: nat, i: nat)
    requires |c| <= WIDTH && i < m
    ensures Planes(c, m)[i] == WordOf(PlaneOf(c, m - 1 - i))
  {
  }

  // Whether (index ^ y ^ nBits) & 1 is set, after i planes and the prefix XOR.
  lemma OddnessBit(index: nat, i: nat, y: nat, nBits: nat, n: nat)
    requires 1 <= n <= WIDTH && y + i + 1 == nBits
    ensures (And(Xor(Xor(Ungray(index, n), y), nBits), 1) == 1) == (Parity(index, 0, n) != (i % 2 == 0))
    ensures And(Xor(Xor(Ungray(index, n), y), nBits), 1) <= 1
  {
    hide Xor, And, Ungray, Parity;
    var w := And(Xor(Xor(Ungray(index, n), y), nBits), 1);
    forall k: nat ensures Bit(1, k) <==> k == 0 {
      OneBit(k);
    }
    assert Bit(w, 0) == (Parity(index, 0, n) != (i % 2 == 0)) by {
      assert Bit(y, 0) == (y % 2 == 1) && Bit(nBits, 0) == (nBits % 2 == 1);
    }
    OnlyLow(w);
  }

  lemma OnlyLow(w: nat)
    requires forall k: nat {:trigger Bit(w, k)} :: 0 < k ==> !Bit(w, k)
    ensures w == if Bit(w, 0) then 1 else 0
  {
    Below(w, 1);
    assert Pow2(1) == 2;
  }

  // mfa_hilbert_cmp and its work loop, reading integer coordinates; ByteCoordsAre says
  // which numbers their bytes stand for.
  method Cmp(nDims: nat, nBytes: nat, nBits: nat, c1: seq<nat>, c2: seq<nat>) returns (r: int)
    requires 1 <= nDims <= 31 && nBits <= 8 * nBytes
    requires |c1| == At(nDims, nBytes, 0) && forall i :: 0 <= i < |c1| ==> c1[i] < 256
    requires |c2| == At(nDims, nBytes, 0) && forall i :: 0 <= i < |c2| ==> c2[i] < 256
    ensures
      var a := IndexFrom(nDims, Start, ByteCoords(c1, nBytes, nDims), nBits);
      var b := IndexFrom(nDims, Start, ByteCoords(c2, nBytes, nDims), nBits);
      r == if a < b then -1 else if a == b then 0 else 1
  {
    hide Bit, Xor, And, Unit, RotateRight, Adjust, EncodeDigit, Next, After, Parity, Ungray, Planes, ByteCoords, Val, Encode, Compares, Mask, WordOf, Pow2, Twist;
    ghost var P := Planes(ByteCoords(c1, nBytes, nDims), nBits);
    ghost var Q := Planes(ByteCoords(c2, nBytes, nDims), nBits);
    ghost var s := Start;
    var bits: nat := Unit(nDims - 1);
    var index: nat := bits;
    var rotation: nat := 0;
    CompareStart(nDims);
    var y: nat := nBits;
    assert P[..0] == Q[..0] == [];
    while y > 0
      invariant y <= nBits && P[..nBits - y] == Q[..nBits - y]
      invariant s == After(nDims, Start, P[..nBits - y])
      invariant Compares(nDims, s, nBits - y, rotation, bits, index)
    {
      y := y - 1;
      ghost var i := nBits - 1 - y;
      PlaneAt(ByteCoords(c1, nBytes, nDims), nBits, i);
      PlaneAt(ByteCoords(c2, nBytes, nDims), nBits, i);
      var reflection := GetIntBits(nDims, nBytes, c1, y);
      var other := GetIntBits(nDims, nBytes, c2, y);
      var diff := Xor(reflection, other);
      CompareStep(nDims, s, i, rotation, bits, index, reflection, other);
      bits := Xor(bits, reflection);
      bits := ShiftRight(bits, rotation, nDims);
      if diff != 0 {
        diff := ShiftRight(diff, rotation, nDims);
        var low := index;
        low, bits, diff := FoldThree(nDims, index, bits, diff);
        OddnessBit(index, i, y, nBits, nDims);
        Decided(nDims, P, Q, i);
        var less := if bits < Xor(bits, diff) then 1 else 0;
        return if And(Xor(Xor(low, y), nBits), 1) == less then -1 else 1;
      }
      index := Xor(index, bits);
      AfterAppend(nDims, Start, P[..i], P[i]);
      assert P[..i + 1] == P[..i] + [P[i]] && Q[..i + 1] == Q[..i] + [Q[i]];
      s := Next(nDims, s, P[i]);
      reflection := Xor(reflection, Unit(rotation));
      rotation := AdjustRotation(rotation, nDims, bits);
      bits := reflection;
    }
    assert P[..nBits] == P && Q[..nBits] == Q;
    r := 0;
  }

  // The prefix XOR of three words in one loop.
  method FoldThree(nDims: nat, a: nat, b: nat, c: nat) returns (x: nat, y: nat, z: nat)
    requires 1 <= nDims < WIDTH && a < Pow2(nDims) && b < Pow2(nDims) && c < Pow2(nDims)
    ensures x == Ungray(a, nDims) && y == Ungray(b, nDims) && z == Ungray(c, nDims)
  {
    hide Bit, Xor, Shr, Ungray, IsFold;
    x, y, z := a, b, c;
    HighBits(a, nDims);
    HighBits(b, nDims);
    HighBits(c, nDims);
    FoldStart(a, 1);
    FoldStart(b, 1);
    FoldStart(c, 1);
    var d := 1;
    while d < nDims
      invariant 1 <= d && IsFold(x, a, 1, d) && IsFold(y, b, 1, d) && IsFold(z, c, 1, d)
      decreases nDims - d
    {
      FoldDouble(x, a, 1, d, d);
      FoldDouble(y, b, 1, d, d);
      FoldDouble(z, c, 1, d, d);
      x := Xor(x, Shr(x, d));
      y := Xor(y, Shr(y, d));
      z := Xor(z, Shr(z, d));
      d := d * 2;
    }
    FoldIsUngray(x, a, d, nDims);
    FoldIsUngray(y, b, d, nDims);
    FoldIsUngray(z, c, d, nDims);
  }

  // One round of the comparator, whichever way it goes.
  lemma CompareStep(n: nat, s: State, i: nat, rotation: nat, bits: nat, index: nat, p: nat, q: nat)
    requires Valid(n, s) && Compares(n, s, i, rotation, bits, index) && p < Pow2(n) && q < Pow2(n)
    ensures rotation < n && Xor(bits, p) < Pow2(n) && Xor(p, q) < Pow2(n) && index < Pow2(n)
    ensures RotateRight(Xor(bits, p), rotation, n) < Pow2(n) && RotateRight(Xor(p, q), rotation, n) < Pow2(n)
    ensures
      var g := RotateRight(Xor(bits, p), rotation, n);
      Compares(n, Next(n, s, p), i + 1, Adjust(rotation, g, n), Xor(p, Unit(rotation)), Xor(index, g))
    ensures Xor(p, q) == 0 <==> p == q
    ensures p != q ==>
      var u := Ungray(RotateRight(Xor(bits, p), rotation, n), n);
      var d := Ungray(RotateRight(Xor(p, q), rotation, n), n);
      && ((Parity(index, 0, n) != (i % 2 == 0)) == (u < Xor(u, d)) <==> EncodeDigit(n, s, p) < EncodeDigit(n, s, q))
      && EncodeDigit(n, s, p) != EncodeDigit(n, s, q)
  {
    hide Bit, Xor, Unit, RotateRight, Parity, EncodeDigit, Ungray, Adjust, Next;
    CompareNext(n, s, i, rotation, bits, index, p);
    XorBelow(p, q, n);
    RotateBack(Xor(p, q), rotation, n);
    XorZero(p, n);
    XorZero(q, n);
    if Xor(p, q) == 0 {
      XorTwice(p, q, n);
    }
    if p != q {
      CompareDecides(n, s, i, rotation, bits, index, p, q);
    }
  }

  lemma Decided(n: nat, P: seq<nat>, Q: seq<nat>, i: nat)
    requires 1 <= n <= WIDTH && AreDigits(P, n) && AreDigits(Q, n) && |P| == |Q| && i < |P| && P[..i] == Q[..i]
    requires EncodeDigit(n, After(n, Start, P[..i]), P[i]) != EncodeDigit(n, After(n, Start, P[..i]), Q[i])
    ensures EncodeDigit(n, After(n, Start, P[..i]), P[i]) < EncodeDigit(n, After(n, Start, P[..i]), Q[i]) <==>
            Val(Encode(n, Start, P), n) < Val(Encode(n, Start, Q), n)
    ensures Val(Encode(n, Start, P), n) != Val(Encode(n, Start, Q), n)
  {
    hide EncodeDigit, After, Encode, Val;
    if EncodeDigit(n, After(n, Start, P[..i]), P[i]) < EncodeDigit(n, After(n, Start, P[..i]), Q[i]) {
      FirstDifference(n, P, Q, i);
    } else {
      FirstDifference(n, Q, P, i);
    }
  }

  /* The successor. */

  // The index word of mfa_hilbert_incr carries the toggle of the next digit.
  lemma SuccessorDigit(n: nat, s: State, p: nat, x: nat)
    requires Valid(n, s) && p < Pow2(n) && x == EncodeDigit(n, s, p)
    ensures x < Pow2(n) && Xor(s.edge, p) < Pow2(n)
    ensures RotateRight(Xor(s.edge, p), s.rot, n) == Twist(n, s, p) < Pow2(n)
    ensures Xor(Toggle(n, s.odd), Twist(n, s, p)) < Pow2(n)
    ensures Ungray(Xor(Toggle(n, s.odd), Twist(n, s, p)), n) == x
    ensures Next(n, s, p) == State(Adjust(s.rot, Twist(n, s, p), n), Xor(p, Unit(s.rot)), !Bit(x, 0))
  {
    hide Bit, Xor, RotateRight, Toggle, Ungray, Unit, Adjust;
    DecodeEncodeDigit(n, s, p);
    XorRotate(s.edge, p, 0);
    XorRotate(Toggle(n, s.odd), Twist(n, s, p), 0);
    XorBelow(s.edge, p, n);
    ToggleBelow(n, s.odd);
    XorBelow(Toggle(n, s.odd), Twist(n, s, p), n);
  }

  // Only the parity of the digit is kept, as the next toggle.
  lemma CarryToggle(n: nat, x: nat)
    requires 1 <= n < WIDTH
    ensures Shl(And(x + 1, 1), n - 1) == Toggle(n, !Bit(x, 0))
  {
    hide And, Shl, Toggle;
    forall k: nat ensures Bit(1, k) <==> k == 0 {
      OneBit(k);
    }
    Same(Shl(And(x + 1, 1), n - 1), Toggle(n, !Bit(x, 0)));
  }

  // The lowest bit that the successor sets, turned to its axis.
  lemma StepUnit(n: nat, s: State, x: nat, width: nat)
    requires Valid(n, s) && n < WIDTH == width && x + 1 < Pow2(n)
    ensures x + 1 < Pow2(width) && Isolate(x + 1, width) < Pow2(n)
    ensures RotateLeft(Isolate(x + 1, width), s.rot, n) == Unit(StepAxis(n, s, x))
  {
    hide Bit, Isolate, RotateLeft, Unit;
    var t := TrailingOnes(x);
    Pow2Monotone(n, width);
    TrailingOnesBelow(x, n);
    IsolateIs(x + 1, width);
    IncrementBits(x);
    LowestIs(x + 1, width, t);
    UnitBelow(t, n);
    Same(RotateLeft(Unit(t), s.rot, n), Unit(StepAxis(n, s, x)));
  }

  // Which digit the successor increments, and which coordinate moves: the last
  // digit of the first k that is not greatest, if there is one.
  ghost predicate Steps(n: nat, X: seq<nat>, P: seq<nat>, k: nat, last: int, rb: nat, rd: nat)
    requires 1 <= n <= WIDTH && AreDigits(X, n) && AreDigits(P, n) && |X| == |P|
  {
    && k <= |X| && -1 <= last < k
    && (forall j :: last < j < k ==> X[j] == Mask(n))
    && (if last < 0 then rb == |X| - 1 && rd == Mask(n)
        else X[last] < Mask(n) && rb == |X| - 1 - last &&
             rd == Unit(StepAxis(n, After(n, Start, P[..last]), X[last])))
  }

  lemma LowestOfUnit(d: nat, n: nat)
    requires d < n <= WIDTH
    ensures Lowest(Unit(d), n) == d
  {
    hide Bit;
    LowestIs(Unit(d), n, d);
  }

  // Flipping coordinate d's low bits is a flip of bit d in the low planes.
  lemma FlipColumn(P: seq<nat>, Q: seq<nat>, n: nat, i: nat, d: nat)
    requires |P| == |Q| <= WIDTH && i < |P| && d < n <= WIDTH
    requires forall j :: 0 <= j < |P| ==> Q[j] == if j < i then P[j] else Xor(P[j], Unit(d))
    ensures Coords(Q, n) == Coords(P, n)[d := Xor(Coords(P, n)[d], Mask(|P| - i))]
  {
    hide Bit, Xor, Unit, Val, Column, Mask;
    var m, c, e := |P|, Coords(P, n), Coords(Q, n);
    forall f: nat | f < n ensures e[f] == if f == d then Xor(c[d], Mask(m - i)) else c[f] {
      var a, b := e[f], if f == d then Xor(c[d], Mask(m - i)) else c[f];
      CoordsOnGrid(P, n);
      CoordsOnGrid(Q, n);
      HighBits(c[f], m);
      HighBits(a, m);
      forall k: nat ensures Bit(a, k) == Bit(b, k) {
        if k < m {
          ColumnBit(P, f, m - 1 - k);
          ColumnBit(Q, f, m - 1 - k);
        }
      }
      Same(a, b);
    }
  }

  // The mask of the bits that the step flips.
  lemma FlipMask(rb: nat)
    requires rb + 1 < WIDTH
    ensures Shl(2, rb) == Pow2(rb + 1) && Shl(2, rb) - 1 == Mask(rb + 1)
  {
    assert Pow2(1) == 2;
    Pow2Bits(1);
    Pow2Bits(rb + 1);
    Same(Shl(2, rb), Pow2(rb + 1));
  }

  // What the recorded digit says about the next index.
  lemma Advance(n: nat, c: seq<nat>, m: nat, last: int, rb: nat, rd: nat) returns (d: nat)
    requires 1 <= n < WIDTH && |c| == n && 1 <= m <= WIDTH && OnGrid(c, m)
    requires Steps(n, Encode(n, Start, Planes(c, m)), Planes(c, m), m, last, rb, rd)
    ensures d < n && rd != 0 && Lowest(rd, n) == d && rb < m
    ensures IndexFrom(n, Start, c, m) + 1 == Span(n, m) <==> last < 0
    ensures last < 0 ==> d == 0 && rb == m - 1
    ensures last >= 0 ==> PointFrom(n, Start, IndexFrom(n, Start, c, m) + 1, m) == c[d := Xor(c[d], Mask(rb + 1))]
  {
    hide Encode, Decode, After, Bit, Unit, Mask, StepAxis, Lowest, Xor, Val, Span;
    var P := Planes(c, m);
    var X := Encode(n, Start, P);
    if last < 0 {
      assert X == Repeat(Mask(n), m);
      DigitsOfEnds(n, m);
      d := 0;
      LowestIs(Mask(n), n, 0);
    } else {
      d := StepAxis(n, After(n, Start, P[..last]), X[last]);
      LowestOfUnit(d, n);
      AdvanceDigit(n, c, m, last, d);
    }
    ZeroBits();
  }

  // The point after c, from the digits that write the next number.
  lemma PointOfNext(n: nat, c: seq<nat>, m: nat, Y: seq<nat>)
    requires 1 <= n < WIDTH && |c| == n && |Y| == m && AreDigits(Y, n)
    requires Val(Y, n) == IndexFrom(n, Start, c, m) + 1
    ensures IndexFrom(n, Start, c, m) + 1 < Span(n, m)
    ensures PointFrom(n, Start, IndexFrom(n, Start, c, m) + 1, m) == Coords(Decode(n, Start, Y), n)
  {
    hide Val, IndexFrom, Coords, Decode, Span, ToDigits, Pow2;
    ValBound(Y, n);
    ToDigitsVal(Y, n);
  }

  lemma {:induction false} AdvanceDigit(n: nat, c: seq<nat>, m: nat, i: nat, d: nat)
    requires 1 <= n < WIDTH && |c| == n && 1 <= m <= WIDTH && OnGrid(c, m) && i < m
    requires
      var P := Planes(c, m);
      var X := Encode(n, Start, P);
      X[i] < Mask(n) && d == StepAxis(n, After(n, Start, P[..i]), X[i]) && forall j :: i < j < m ==> X[j] == Mask(n)
    ensures IndexFrom(n, Start, c, m) + 1 < Span(n, m)
    ensures PointFrom(n, Start, IndexFrom(n, Start, c, m) + 1, m) == c[d := Xor(c[d], Mask(m - i))]
  {
    hide Encode, Decode, After, Bit, Unit, Mask, StepAxis, Xor, Val, Span, Coords, Planes, PointFrom, Pow2;
    var P := Planes(c, m);
    var X := Encode(n, Start, P);
    var Y := X[..i] + [X[i] + 1] + Repeat(0, m - i - 1);
    assert X[..i] == Y[..i];
    ValSuccessor(X, Y, n, i);
    ValBound(Y, n);
    PointOfNext(n, c, m, Y);
    DecodeEncode(n, Start, P);
    DecodeSplit(n, Start, X, i);
    assert Decode(n, Start, X[..i]) == P[..i];
    var A, p, out, e := PlanesStep(n, Start, X, Y, i);
    var Q := Decode(n, Start, Y);
    assert forall j :: 0 <= j < m ==> Q[j] == if j < i then P[j] else Xor(P[j], Unit(d));
    CoordsOfPlanes(c, m);
    FlipColumn(P, Q, n, i, d);
  }

  lemma ReadBitIs(w: nat, k: nat)
    requires k < WIDTH
    ensures ReadBit(w, k) == 0 <==> !Bit(w, k)
  {
    hide ReadBit;
    ZeroBits();
    OnlyLow(ReadBit(w, k));
  }

  method Incr(nDims: nat, nBits: nat, coord: array<nat>)
    requires 1 <= nDims < WIDTH && 1 <= nBits <= 30 && coord.Length == nDims && OnGrid(coord[..], nBits)
    modifies coord
    ensures
      var index := IndexFrom(nDims, Start, old(coord[..]), nBits);
      coord[..] == if index + 1 != Span(nDims, nBits) then PointFrom(nDims, Start, index + 1, nBits)
                   else old(coord[..])[0 := Xor(old(coord[0]), Mask(nBits))]
  {
    hide Bit, Xor, Shl, Mask, Planes, Encode, Lowest, Span, Pow2, IndexFrom, PointFrom, ReadBit, OnGrid, Steps;
    ghost var c := coord[..];
    var rb, rd, last := FindStep(nDims, nBits, coord);
    assert coord[..] == c;
    ghost var e := Advance(nDims, c, nBits, last, rb, rd);
    var d := 0;
    ReadBitIs(rd, 0);
    while ReadBit(rd, d) == 0
      invariant coord[..] == c && d <= e < WIDTH && (ReadBit(rd, d) == 0 <==> !Bit(rd, d)) && Bit(rd, e)
      decreases e - d
    {
      ReadBitIs(rd, d + 1);
      d := d + 1;
    }
    SearchEnds(rd, nDims, d, e);
    FlipMask(rb);
    coord[d] := Xor(coord[d], Shl(2, rb) - 1);
    assert coord[..] == c[e := Xor(c[e], Mask(rb + 1))];
  }

  lemma SearchEnds(rd: nat, n: nat, d: nat, e: nat)
    requires e < n && Lowest(rd, n) == e && d <= e && (d < e ==> Bit(rd, d))
    ensures d == e
  {
  }

  // After i planes the sweep is in state s, and the digits from there on are those of
  // the planes to come.
  ghost predicate Sweep(n: nat, X: seq<nat>, P: seq<nat>, s: State, i: nat)
    requires 1 <= n <= WIDTH && AreDigits(P, n)
  {
    i <= |P| == |X| && s == After(n, Start, P[..i]) && X[i..] == Encode(n, s, P[i..])
  }

  lemma SweepStart(n: nat, P: seq<nat>)
    requires 1 <= n <= WIDTH && AreDigits(P, n)
    ensures Sweep(n, Encode(n, Start, P), P, Start, 0) && Toggle(n, false) == 0
  {
    hide Encode;
    IncrStart(n);
    assert P[0..] == P && P[..0] == [];
    assert Encode(n, Start, P)[0..] == Encode(n, Start, P);
  }

  lemma SweepStep(n: nat, X: seq<nat>, P: seq<nat>, s: State, i: nat)
    requires 1 <= n <= WIDTH && AreDigits(P, n) && Sweep(n, X, P, s, i) && i < |P|
    ensures Valid(n, s) && X[i] == EncodeDigit(n, s, P[i]) && Sweep(n, X, P, Next(n, s, P[i]), i + 1)
  {
    hide Encode, After, Next, EncodeDigit;
    EncodeHead(n, s, P, i);
    AfterAppend(n, Start, P[..i], P[i]);
    assert P[..i + 1] == P[..i] + [P[i]];
    assert X[i..][1..] == X[i + 1..] && X[i] == X[i..][0];
  }

  lemma StepsNone(n: nat, X: seq<nat>, P: seq<nat>)
    requires 1 <= n <= WIDTH && AreDigits(X, n) && AreDigits(P, n) && 1 <= |X| == |P|
    ensures Steps(n, X, P, 0, -1, |X| - 1, Mask(n))
  {
  }

  // A digit that is all ones is passed over; any other is the last to step so far.
  lemma StepsMore(n: nat, X: seq<nat>, P: seq<nat>, s: State, i: nat, last: int, rb: nat, rd: nat)
    requires 1 <= n <= WIDTH && AreDigits(X, n) && AreDigits(P, n) && |X| == |P|
    requires Steps(n, X, P, i, last, rb, rd) && Sweep(n, X, P, s, i) && i < |P|
    ensures Valid(n, s)
    ensures X[i] == Mask(n) ==> Steps(n, X, P, i + 1, last, rb, rd)
    ensures X[i] != Mask(n) ==> X[i] + 1 < Pow2(n) && Steps(n, X, P, i + 1, i, |X| - 1 - i, Unit(StepAxis(n, s, X[i])))
  {
    hide Encode, After, StepAxis, Unit, Pow2;
    assert X[i] < Pow2(n);
  }

  // The plane loop of mfa_hilbert_incr.
  method FindStep(nDims: nat, nBits: nat, coord: array<nat>) returns (rb: nat, rd: nat, ghost last: int)
    requires 1 <= nDims < WIDTH && 1 <= nBits < WIDTH && coord.Length == nDims
    ensures Steps(nDims, Encode(nDims, Start, Planes(coord[..], nBits)), Planes(coord[..], nBits), nBits, last, rb, rd)
  {
    hide Bit, And, Xor, Shl, Unit, Mask, RotateRight, RotateLeft, Adjust, EncodeDigit, Next, After, Toggle, Ungray, Planes, Encode, Isolate, Pow2, Twist, StepAxis, Steps, Sweep;
    ghost var c := coord[..];
    ghost var P := Planes(c, nBits);
    ghost var X := Encode(nDims, Start, P);
    ghost var s := Start;
    last := -1;
    var ndOnes := Mask(nDims);
    var rotation: nat, reflection: nat, index: nat := 0, 0, 0;
    rb, rd := nBits - 1, ndOnes;
    SweepStart(nDims, P);
    StepsNone(nDims, X, P);
    var b: nat := nBits;
    while b > 0
      invariant b <= nBits && Sweep(nDims, X, P, s, nBits - b)
      invariant s.rot == rotation && s.edge == reflection && index == Toggle(nDims, s.odd)
      invariant Steps(nDims, X, P, nBits - b, last, rb, rd)
    {
      b := b - 1;
      ghost var i := nBits - 1 - b;
      ghost var x := X[i];
      PlaneAt(c, nBits, i);
      SweepStep(nDims, X, P, s, i);
      StepsMore(nDims, X, P, s, i, last, rb, rd);
      SuccessorDigit(nDims, s, P[i], x);
      var bits := reflection;
      reflection := ReadPlane(nDims, coord, b);
      bits := Xor(bits, reflection);
      bits := ShiftRight(bits, rotation, nDims);
      index := Xor(index, bits);
      index := PrefixXor(index, nDims);
      index := index + 1;
      if index - 1 != ndOnes {
        StepUnit(nDims, s, x, WIDTH);
        rb := b;
        rd := Isolate(index, WIDTH);
        rd := ShiftLeft(rd, rotation, nDims);
        last := i;
      }
      CarryToggle(nDims, x);
      index := And(index, 1);
      index := Shl(index, nDims - 1);
      s := Next(nDims, s, P[i]);
      reflection := Xor(reflection, Unit(rotation));
      rotation := AdjustRotation(rotation, nDims, bits);
    }
  }

  lemma IncrStart(n: nat)
    requires 1 <= n <= WIDTH
    ensures After(n, Start, []) == Start && Toggle(n, false) == 0
  {
  }
}
