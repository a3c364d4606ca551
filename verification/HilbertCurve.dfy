/** The n-dimensional Hilbert curve as a transducer over n-bit digits.

    A point is a sequence of `planes`, most significant first: bit d of plane j
    is a bit of coordinate d. An index is a sequence of n-bit digits. One state
    is carried from digit to digit, whichever way one converts. */
module HilbertCurve {
  import opened Words
  import opened Digits

  /* Rotations, Gray codes and the rotation update on one digit. */

  // Where rotating left by r sends bit k.
  function Turned(k: nat, r: nat, n: nat): (t: nat)
    requires k < n && r < n
    ensures t < n
  {
    if k + r < n then k + r else k + r - n
  }

  function RotateRight(x: nat, r: nat, n: nat): (w: nat)
    requires 1 <= n <= WIDTH && r < n
    ensures forall k: nat {:trigger Bit(w, k)} :: Bit(w, k) <==> k < n && Bit(x, Turned(k, r, n))
  {
    WordOf(RotationOf(x, r, n))
  }

  function RotateLeft(x: nat, r: nat, n: nat): (w: nat)
    requires 1 <= n <= WIDTH && r < n
    ensures forall k: nat {:trigger Bit(w, k)} :: Bit(w, k) <==> k < n && Bit(x, if r <= k then k - r else k + n - r)
  {
    WordOf(RotationOf(x, if r == 0 then 0 else n - r, n))
  }

  // The macros of hilbert.c compute these by shifting and masking.
  lemma RotateRightMacro(x: nat, r: nat, n: nat)
    requires 1 <= n < WIDTH && r < n && x < Pow2(n)
    ensures And(Or(Shr(x, r), Shl(x, n - r)), Mask(n)) == RotateRight(x, r, n)
  {
    HighBits(x, n);
    Same(And(Or(Shr(x, r), Shl(x, n - r)), Mask(n)), RotateRight(x, r, n));
  }

  lemma RotateLeftMacro(x: nat, r: nat, n: nat)
    requires 1 <= n < WIDTH && r < n && x < Pow2(n)
    ensures And(Or(Shl(x, r), Shr(x, n - r)), Mask(n)) == RotateLeft(x, r, n)
  {
    HighBits(x, n);
    Same(And(Or(Shl(x, r), Shr(x, n - r)), Mask(n)), RotateLeft(x, r, n));
  }

  lemma RotateBack(x: nat, r: nat, n: nat)
    requires 1 <= n <= WIDTH && r < n && x < Pow2(n)
    ensures RotateLeft(x, r, n) < Pow2(n) && RotateRight(x, r, n) < Pow2(n)
    ensures RotateRight(RotateLeft(x, r, n), r, n) == x
    ensures RotateLeft(RotateRight(x, r, n), r, n) == x
  {
    hide Bit, RotateLeft, RotateRight;
    Below(RotateLeft(x, r, n), n);
    Below(RotateRight(x, r, n), n);
    HighBits(x, n);
    RightOfLeft(x, r, n);
    LeftOfRight(x, r, n);
  }

  lemma RightOfLeft(x: nat, r: nat, n: nat)
    requires 1 <= n <= WIDTH && r < n && forall k: nat {:trigger Bit(x, k)} :: n <= k ==> !Bit(x, k)
    ensures RotateRight(RotateLeft(x, r, n), r, n) == x
  {
    hide Bit, RotateLeft, RotateRight;
    Same(RotateRight(RotateLeft(x, r, n), r, n), x);
  }

  lemma LeftOfRight(x: nat, r: nat, n: nat)
    requires 1 <= n <= WIDTH && r < n && forall k: nat {:trigger Bit(x, k)} :: n <= k ==> !Bit(x, k)
    ensures RotateLeft(RotateRight(x, r, n), r, n) == x
  {
    hide Bit, RotateLeft, RotateRight;
    Same(RotateLeft(RotateRight(x, r, n), r, n), x);
  }

  function Gray(x: nat): (w: nat)
  {
    Xor(x, Shr(x, 1))
  }

  function Ungray(x: nat, n: nat): (w: nat)
    ensures forall k: nat {:trigger Bit(w, k)} :: Bit(w, k) <==> k < WIDTH && Parity(x, k, n)
  {
    WordOf(ParityOf(x, n))
  }

  lemma {:induction false} GrayParity(x: nat, k: nat, n: nat)
    requires n <= WIDTH && k <= n && x < Pow2(n)
    ensures Parity(Gray(x), k, n) == Bit(x, k)
    decreases n - k
  {
    HighBits(x, n);
    if k < n {
      GrayParity(x, k + 1, n);
    }
  }

  lemma UngrayGray(x: nat, n: nat)
    requires n <= WIDTH && x < Pow2(n)
    ensures Gray(x) < Pow2(n) && Ungray(Gray(x), n) == x
  {
    HighBits(x, n);
    Below(Gray(x), n);
    forall k: nat ensures Bit(Ungray(Gray(x), n), k) == Bit(x, k) {
      if k <= n {
        GrayParity(x, k, n);
      }
    }
    Same(Ungray(Gray(x), n), x);
  }

  lemma GrayUngray(x: nat, n: nat)
    requires n <= WIDTH && x < Pow2(n)
    ensures Ungray(x, n) < Pow2(n) && Gray(Ungray(x, n)) == x
  {
    HighBits(x, n);
    var w := Ungray(x, n);
    Below(w, n);
    forall k: nat ensures Bit(Gray(w), k) == Bit(x, k) {
      assert Parity(x, k, n) == (k < n && Bit(x, k) != Parity(x, k + 1, n));
    }
    Same(Gray(w), x);
  }

  // The lowest bit of x that is set, if it lies below n; otherwise n.
  function Lowest(x: nat, n: nat): (p: nat)
    ensures p <= n
    ensures forall k: nat :: k < p ==> !Bit(x, k)
    ensures p < n ==> Bit(x, p)
  {
    if n == 0 then 0
    else
      var q := Lowest(x, n - 1);
      if q < n - 1 || Bit(x, n - 1) then q else n
  }

  lemma LowestIs(x: nat, n: nat, p: nat)
    requires p < n && Bit(x, p) && forall k: nat {:trigger Bit(x, k)} :: k < p ==> !Bit(x, k)
    ensures Lowest(x, n) == p
  {
  }

  lemma {:induction false} LowestSame(x: nat, y: nat, n: nat)
    requires forall k: nat :: k < n ==> Bit(x, k) == Bit(y, k)
    ensures Lowest(x, n) == Lowest(y, n)
  {
    if n > 0 {
      LowestSame(x, y, n - 1);
    }
  }

  // The macro adjust_rotation of hilbert.c: turn past the lowest bit of x that
  // is set, unless that is the top bit.
  function Adjust(r: nat, x: nat, n: nat): (r': nat)
    requires 1 <= n && r < n
    ensures r' < n
  {
    var p := Lowest(x, n - 1);
    var t := r + 1 + if p < n - 1 then p + 1 else 0;
    if t >= n then t - n else t
  }

  /* The transducer. */

  // rot: the current rotation; edge: the plane just read with one bit flipped;
  // odd: whether the top bit of the Gray-coded digit is to be flipped.
  datatype State = State(rot: nat, edge: nat, odd: bool)

  const Start := State(0, 0, false)

  predicate Valid(n: nat, s: State)
  {
    1 <= n <= WIDTH && s.rot < n && s.edge < Pow2(n)
  }

  function Toggle(n: nat, odd: bool): (w: nat)
    requires 1 <= n <= WIDTH
    ensures forall k: nat {:trigger Bit(w, k)} :: Bit(w, k) <==> odd && k == n - 1
  {
    ZeroBits();
    if odd then Unit(n - 1) else 0
  }

  // The Gray-coded digit of plane p, still carrying the flipped top bit.
  function Twist(n: nat, s: State, p: nat): nat
    requires Valid(n, s)
  {
    RotateRight(Xor(p, s.edge), s.rot, n)
  }

  function EncodeDigit(n: nat, s: State, p: nat): nat
    requires Valid(n, s)
  {
    Ungray(Xor(Twist(n, s, p), Toggle(n, s.odd)), n)
  }

  function DecodeDigit(n: nat, s: State, x: nat): nat
    requires Valid(n, s)
  {
    Xor(RotateLeft(Xor(Gray(x), Toggle(n, s.odd)), s.rot, n), s.edge)
  }

  function Next(n: nat, s: State, p: nat): (s': State)
    requires Valid(n, s) && p < Pow2(n)
    ensures Valid(n, s')
  {
    var edge := Xor(p, Unit(s.rot));
    assert edge < Pow2(n) by {
      HighBits(p, n);
      Below(edge, n);
    }
    State(Adjust(s.rot, Twist(n, s, p), n), edge, !Bit(EncodeDigit(n, s, p), 0))
  }

  lemma XorBelow(a: nat, b: nat, n: nat)
    requires a < Pow2(n) && b < Pow2(n)
    ensures Xor(a, b) < Pow2(n)
  {
    HighBits(a, n);
    HighBits(b, n);
    Below(Xor(a, b), n);
  }

  lemma XorTwice(a: nat, b: nat, n: nat)
    requires n <= WIDTH && a < Pow2(n)
    ensures Xor(Xor(a, b), b) == a
  {
    HighBits(a, n);
    Same(Xor(Xor(a, b), b), a);
  }

  lemma ToggleBelow(n: nat, odd: bool)
    requires 1 <= n <= WIDTH
    ensures Toggle(n, odd) < Pow2(n)
  {
    Below(Toggle(n, odd), n);
  }

  lemma DecodeEncodeDigit(n: nat, s: State, p: nat)
    requires Valid(n, s) && p < Pow2(n)
    ensures EncodeDigit(n, s, p) < Pow2(n)
    ensures DecodeDigit(n, s, EncodeDigit(n, s, p)) == p
    ensures Twist(n, s, p) < Pow2(n)
    ensures Twist(n, s, p) == Xor(Gray(EncodeDigit(n, s, p)), Toggle(n, s.odd))
  {
    var a := Xor(p, s.edge);
    XorBelow(p, s.edge, n);
    RotateBack(a, s.rot, n);
    var g, t := Twist(n, s, p), Toggle(n, s.odd);
    ToggleBelow(n, s.odd);
    XorBelow(g, t, n);
    GrayUngray(Xor(g, t), n);
    XorTwice(g, t, n);
    XorTwice(p, s.edge, n);
  }

  lemma EncodeDecodeDigit(n: nat, s: State, x: nat)
    requires Valid(n, s) && x < Pow2(n)
    ensures DecodeDigit(n, s, x) < Pow2(n)
    ensures EncodeDigit(n, s, DecodeDigit(n, s, x)) == x
    ensures Twist(n, s, DecodeDigit(n, s, x)) == Xor(Gray(x), Toggle(n, s.odd))
  {
    var g, t := Gray(x), Toggle(n, s.odd);
    UngrayGray(x, n);
    ToggleBelow(n, s.odd);
    XorBelow(g, t, n);
    RotateBack(Xor(g, t), s.rot, n);
    var a := RotateLeft(Xor(g, t), s.rot, n);
    XorBelow(a, s.edge, n);
    XorTwice(a, s.edge, n);
    XorTwice(g, t, n);
  }

  function Encode(n: nat, s: State, P: seq<nat>): (X: seq<nat>)
    requires Valid(n, s) && AreDigits(P, n)
    ensures |X| == |P| && AreDigits(X, n)
    decreases P
  {
    hide Next, EncodeDigit, DecodeDigit;
    if P == [] then []
    else
      DecodeEncodeDigit(n, s, P[0]);
      [EncodeDigit(n, s, P[0])] + Encode(n, Next(n, s, P[0]), P[1..])
  }

  function Decode(n: nat, s: State, X: seq<nat>): (P: seq<nat>)
    requires Valid(n, s) && AreDigits(X, n)
    ensures |P| == |X| && AreDigits(P, n)
    decreases X
  {
    hide Next, EncodeDigit, DecodeDigit;
    if X == [] then []
    else
      EncodeDecodeDigit(n, s, X[0]);
      var p := DecodeDigit(n, s, X[0]);
      [p] + Decode(n, Next(n, s, p), X[1..])
  }

  lemma DecodeHead(n: nat, s: State, X: seq<nat>, i: nat)
    requires Valid(n, s) && AreDigits(X, n) && i < |X|
    ensures DecodeDigit(n, s, X[i]) < Pow2(n)
    ensures Decode(n, s, X[i..]) ==
            [DecodeDigit(n, s, X[i])] + Decode(n, Next(n, s, DecodeDigit(n, s, X[i])), X[i + 1..])
  {
    hide Next, EncodeDigit, DecodeDigit;
    EncodeDecodeDigit(n, s, X[i]);
    assert X[i..][1..] == X[i + 1..];
  }

  lemma EncodeHead(n: nat, s: State, P: seq<nat>, i: nat)
    requires Valid(n, s) && AreDigits(P, n) && i < |P|
    ensures Encode(n, s, P[i..]) == [EncodeDigit(n, s, P[i])] + Encode(n, Next(n, s, P[i]), P[i + 1..])
  {
    hide Next, EncodeDigit, DecodeDigit;
    assert P[i..][1..] == P[i + 1..];
  }

  // The state reached after reading the planes P.
  function After(n: nat, s: State, P: seq<nat>): (s': State)
    requires Valid(n, s) && AreDigits(P, n)
    ensures Valid(n, s')
    decreases P
  {
    if P == [] then s else After(n, Next(n, s, P[0]), P[1..])
  }

  lemma {:induction false} EncodeDecode(n: nat, s: State, X: seq<nat>)
    requires Valid(n, s) && AreDigits(X, n)
    ensures Encode(n, s, Decode(n, s, X)) == X
    decreases X
  {
    hide Next, EncodeDigit, DecodeDigit;
    if X != [] {
      EncodeDecodeDigit(n, s, X[0]);
      var p := DecodeDigit(n, s, X[0]);
      EncodeDecode(n, Next(n, s, p), X[1..]);
      assert Decode(n, s, X)[1..] == Decode(n, Next(n, s, p), X[1..]);
    }
  }

  lemma {:induction false} DecodeEncode(n: nat, s: State, P: seq<nat>)
    requires Valid(n, s) && AreDigits(P, n)
    ensures Decode(n, s, Encode(n, s, P)) == P
    decreases P
  {
    hide Next, EncodeDigit, DecodeDigit;
    if P != [] {
      DecodeEncodeDigit(n, s, P[0]);
      DecodeEncode(n, Next(n, s, P[0]), P[1..]);
      assert Encode(n, s, P)[1..] == Encode(n, Next(n, s, P[0]), P[1..]);
    }
  }

  // Conversion reads the digits one by one, so it splits at any point.
  lemma {:induction false} EncodeSplit(n: nat, s: State, P: seq<nat>, i: nat)
    requires Valid(n, s) && AreDigits(P, n) && i <= |P|
    ensures Encode(n, s, P) == Encode(n, s, P[..i]) + Encode(n, After(n, s, P[..i]), P[i..])
    decreases i
  {
    hide Next, EncodeDigit, DecodeDigit;
    if i > 0 {
      EncodeSplit(n, Next(n, s, P[0]), P[1..], i - 1);
      assert P[..i][1..] == P[1..][..i - 1] && P[1..][i - 1..] == P[i..];
    } else {
      assert P[0..] == P;
    }
  }

  lemma {:induction false} DecodeSplit(n: nat, s: State, X: seq<nat>, i: nat)
    requires Valid(n, s) && AreDigits(X, n) && i <= |X|
    ensures Decode(n, s, X) == Decode(n, s, X[..i]) + Decode(n, After(n, s, Decode(n, s, X[..i])), X[i..])
    decreases i
  {
    hide Next, EncodeDigit, DecodeDigit;
    if i > 0 {
      EncodeDecodeDigit(n, s, X[0]);
      var p := DecodeDigit(n, s, X[0]);
      DecodeSplit(n, Next(n, s, p), X[1..], i - 1);
      assert X[..i][1..] == X[1..][..i - 1] && X[1..][i - 1..] == X[i..];
      assert Decode(n, s, X[..i])[1..] == Decode(n, Next(n, s, p), X[1..][..i - 1]);
    } else {
      assert X[0..] == X;
    }
  }
}
