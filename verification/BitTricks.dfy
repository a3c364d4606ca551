/** The word-level idioms of hilbert.c: prefix XOR by doubling shifts, isolating
    the lowest set bit, and the rotation update. */
module BitTricks {
  import opened Words
  import opened HilbertCurve

  /* Prefix XOR: `for (d = s; d < n; d *= 2) w ^= w >> d`. */

  // The parity of the c bits k, k+s, k+2s, .. of x.
  predicate Strided(x: nat, k: nat, s: nat, c: nat)
    decreases c
  {
    c > 0 && Bit(x, k) != Strided(x, k + s, s, c - 1)
  }

  lemma {:induction false} StridedAdd(x: nat, k: nat, s: nat, a: nat, b: nat)
    ensures 0 <= a * s && Strided(x, k, s, a + b) == (Strided(x, k, s, a) != Strided(x, k + a * s, s, b))
    decreases a
  {
    if a > 0 {
      StridedAdd(x, k + s, s, a - 1, b);
      assert a * s == (a - 1) * s + s;
    }
  }

  lemma {:induction false} StridedHigh(x: nat, k: nat, s: nat, c: nat, n: nat)
    requires n <= k && forall i: nat {:trigger Bit(x, i)} :: n <= i ==> !Bit(x, i)
    ensures !Strided(x, k, s, c)
    decreases c
  {
    if c > 0 {
      StridedHigh(x, k + s, s, c - 1, n);
    }
  }

  ghost predicate IsFold(y: nat, x: nat, s: nat, c: nat)
  {
    forall k: nat {:trigger Bit(y, k)} :: Bit(y, k) <==> k < WIDTH && Strided(x, k, s, c)
  }

  lemma FoldStart(x: nat, s: nat)
    requires IsWord(x)
    ensures IsFold(x, x, s, 1)
  {
    forall k: nat ensures Bit(x, k) <==> k < WIDTH && Strided(x, k, s, 1) {
      assert !Strided(x, k + s, s, 0);
    }
  }

  lemma FoldDouble(y: nat, x: nat, s: nat, c: nat, d: nat)
    requires IsWord(x) && IsFold(y, x, s, c) && d == c * s < WIDTH
    ensures IsFold(Xor(y, Shr(y, d)), x, s, 2 * c)
  {
    hide Bit, Strided, Xor, Shr;
    var z := Xor(y, Shr(y, d));
    forall k: nat ensures Bit(z, k) <==> k < WIDTH && Strided(x, k, s, 2 * c) {
      StridedAdd(x, k, s, c, c);
      if k + d >= WIDTH {
        StridedHigh(x, k + d, s, c, WIDTH);
      }
    }
  }

  lemma {:induction false} StridedIsParity(x: nat, k: nat, c: nat, n: nat)
    requires k <= n <= k + c && forall i: nat {:trigger Bit(x, i)} :: n <= i ==> !Bit(x, i)
    ensures Strided(x, k, 1, c) == Parity(x, k, n)
    decreases c
  {
    if c > 0 {
      if k < n {
        StridedIsParity(x, k + 1, c - 1, n);
      } else {
        StridedHigh(x, k, 1, c, n);
      }
    }
  }

  lemma FoldIsUngray(y: nat, x: nat, c: nat, n: nat)
    requires x < Pow2(n) && n <= WIDTH && n <= c && IsFold(y, x, 1, c)
    ensures y == Ungray(x, n)
  {
    hide Bit, Strided, Ungray, Parity;
    HighBits(x, n);
    forall k: nat ensures Bit(y, k) == Bit(Ungray(x, n), k) {
      if k <= n {
        StridedIsParity(x, k, c, n);
      } else {
        StridedHigh(x, k, 1, c, n);
        assert !Parity(x, k, n) by {
          NoParity(x, k, n);
        }
      }
    }
    Same(y, Ungray(x, n));
  }

  lemma NoParity(x: nat, k: nat, n: nat)
    requires n <= k
    ensures !Parity(x, k, n)
  {
  }

  // Undoes the Gray code of an n-bit number.
  method PrefixXor(x: nat, n: nat) returns (y: nat)
    requires 1 <= n <= WIDTH && x < Pow2(n)
    ensures y == Ungray(x, n)
  {
    hide Bit, Xor, Shr, Strided, Ungray;
    y := x;
    HighBits(x, n);
    FoldStart(x, 1);
    var d := 1;
    while d < n
      invariant 1 <= d && IsFold(y, x, 1, d)
      decreases n - d
    {
      FoldDouble(y, x, 1, d, d);
      y := Xor(y, Shr(y, d));
      d := d * 2;
    }
    FoldIsUngray(y, x, d, n);
  }

  /* The lowest set bit: x & -x. */

  lemma {:induction false} ComplementBit(x: nat, n: nat, k: nat)
    requires x < Pow2(n) && k < n
    ensures Bit(Pow2(n) - 1 - x, k) == !Bit(x, k)
  {
    assert (Pow2(n) - 1 - x) / 2 == Pow2(n - 1) - 1 - x / 2;
    if k > 0 {
      ComplementBit(x / 2, n - 1, k - 1);
    }
  }

  lemma {:induction false} NegatedBit(x: nat, n: nat, k: nat)
    requires 0 < x < Pow2(n) && k < n
    ensures Bit(x, k) ==> (Bit(Pow2(n) - x, k) <==> Lowest(x, n) == k)
  {
    if x % 2 == 1 {
      LowestIs(x, n, 0);
      if k > 0 {
        assert (Pow2(n) - x) / 2 == Pow2(n - 1) - 1 - x / 2;
        ComplementBit(x / 2, n - 1, k - 1);
      }
    } else if k > 0 {
      assert (Pow2(n) - x) / 2 == Pow2(n - 1) - x / 2;
      NegatedBit(x / 2, n - 1, k - 1);
      if Bit(x, k) {
        LowestHalf(x, n);
      }
    }
  }

  lemma LowestHalf(x: nat, n: nat)
    requires n > 0 && x % 2 == 0
    ensures Lowest(x, n) == Lowest(x / 2, n - 1) + 1
  {
    var q := Lowest(x / 2, n - 1);
    forall k: nat | k < q + 1 ensures !Bit(x, k) {
      assert k > 0 ==> !Bit(x / 2, k - 1);
    }
    if q < n - 1 {
      LowestIs(x, n, q + 1);
    }
  }

  lemma LowestBit(x: nat, n: nat)
    requires 0 < x < Pow2(n)
    ensures Lowest(x, n) < n
    ensures forall k: nat :: k < n && Bit(x, k) && Bit(Pow2(n) - x, k) ==> k == Lowest(x, n)
    ensures Bit(x, Lowest(x, n)) && Bit(Pow2(n) - x, Lowest(x, n))
  {
    HighBits(x, n);
    if Lowest(x, n) == n {
      Below(x, 0);
    }
    forall k: nat | k < n ensures Bit(x, k) ==> (Bit(Pow2(n) - x, k) <==> Lowest(x, n) == k) {
      NegatedBit(x, n, k);
    }
  }

  // `x & -x` on a machine word of the given width.
  function Isolate(x: nat, width: nat): (w: nat)
    requires x < Pow2(width)
  {
    And(x, MinusMod(0, x, width))
  }

  lemma IsolateIs(x: nat, width: nat)
    requires 0 < x < Pow2(width) && width <= WIDTH
    ensures Lowest(x, width) < width && Isolate(x, width) == Unit(Lowest(x, width))
  {
    hide Bit, And, Lowest, Unit, MinusMod;
    MinusModWraps(x, width);
    LowestBit(x, width);
    HighBits(x, width);
    Same(Isolate(x, width), Unit(Lowest(x, width)));
  }

  lemma IsolateZero(width: nat)
    ensures Isolate(0, width) == 0
  {
    ZeroBits();
    Same(Isolate(0, width), 0);
  }

  // The macro adjust_rotation.
  method AdjustRotation(rotation: nat, nDims: nat, bits: nat) returns (r: nat)
    requires 1 <= nDims <= WIDTH && rotation < nDims && bits < Pow2(nDims)
    ensures r == Adjust(rotation, bits, nDims)
  {
    hide Bit, And, Shr, Unit, Isolate, Lowest;
    var nd1Ones := Shr(Mask(nDims), 1);
    Pow2Monotone(nDims, WIDTH);
    var b := And(Isolate(bits, WIDTH), nd1Ones);
    ghost var p := Lowest(bits, nDims - 1);
    MaskedIsolate(bits, nDims, nd1Ones, b, p);
    r := rotation;
    while b != 0
      invariant rotation <= r
      invariant if p < nDims - 1 then
        (b == 0 && r == rotation + p + 1) || (r <= rotation + p && b == Unit(p - (r - rotation)))
        else b == 0 && r == rotation
      decreases rotation + p + 1 - r
    {
      HalveUnit(p - (r - rotation));
      b := Shr(b, 1);
      r := r + 1;
    }
    r := r + 1;
    if r >= nDims {
      r := r - nDims;
    }
  }

  lemma HalveUnit(j: nat)
    requires j < WIDTH
    ensures Unit(j) != 0 && Shr(Unit(j), 1) == if j == 0 then 0 else Unit(j - 1)
  {
    ZeroBits();
    Same(Shr(Unit(j), 1), if j == 0 then 0 else Unit(j - 1));
  }

  lemma MaskedIsolate(bits: nat, n: nat, ones: nat, b: nat, p: nat)
    requires 1 <= n <= WIDTH && bits < Pow2(WIDTH) && p == Lowest(bits, n - 1)
    requires forall k: nat {:trigger Bit(ones, k)} :: Bit(ones, k) <==> k < n - 1
    requires b == And(Isolate(bits, WIDTH), ones)
    ensures b == if p < n - 1 then Unit(p) else 0
  {
    hide Bit, And, Unit, Isolate;
    ZeroBits();
    if bits == 0 {
      IsolateZero(WIDTH);
      Same(b, 0);
    } else {
      IsolateIs(bits, WIDTH);
      var q := Lowest(bits, WIDTH);
      if p < n - 1 {
        LowestIs(bits, WIDTH, p);
        Same(b, Unit(p));
      } else {
        Same(b, 0);
      }
    }
  }

  /* Field masks: (ends << u) - ends. */

  lemma {:induction false} AddDisjoint(a: nat, b: nat, k: nat)
    requires forall i: nat {:trigger Bit(a, i)} :: !(Bit(a, i) && Bit(b, i))
    ensures Bit(a + b, k) <==> Bit(a, k) || Bit(b, k)
    decreases k
  {
    assert !(Bit(a, 0) && Bit(b, 0));
    if k > 0 {
      assert (a + b) / 2 == a / 2 + b / 2;
      forall i: nat ensures !(Bit(a / 2, i) && Bit(b / 2, i)) {
        assert !(Bit(a, i + 1) && Bit(b, i + 1));
      }
      AddDisjoint(a / 2, b / 2, k - 1);
    }
  }

  // A set bit of f lies less than u positions below k, or at k.
  predicate Near(f: nat, k: nat, u: nat)
  {
    u > 0 && ((u - 1 <= k && Bit(f, k - (u - 1))) || Near(f, k, u - 1))
  }

  ghost predicate Spaced(f: nat, u: nat)
  {
    forall j: nat, k: nat {:trigger Bit(f, j), Bit(f, k)} :: j < k && Bit(f, j) && Bit(f, k) ==> u <= k - j
  }

  lemma {:induction false} NearBy(f: nat, k: nat, u: nat) returns (j: nat)
    requires Near(f, k, u)
    ensures j < u && j <= k && Bit(f, k - j)
  {
    if u - 1 <= k && Bit(f, k - (u - 1)) {
      j := u - 1;
    } else {
      j := NearBy(f, k, u - 1);
    }
  }

  lemma {:induction false} NearFrom(f: nat, k: nat, u: nat, j: nat)
    requires j < u && j <= k && Bit(f, k - j)
    ensures Near(f, k, u)
  {
    if j < u - 1 {
      NearFrom(f, k, u - 1, j);
    }
  }

  lemma {:induction false} FieldMaskBits(f: nat, u: nat, width: nat, k: nat)
    requires u <= width && Spaced(f, width)
    ensures Bit(f * (Pow2(u) - 1), k) <==> Near(f, k, u)
    decreases u
  {
    if u == 0 {
      assert f * (Pow2(0) - 1) == 0;
      ZeroBits();
    } else {
      var low, high := f * (Pow2(u - 1) - 1), f * Pow2(u - 1);
      assert f * (Pow2(u) - 1) == low + high;
      AppendBits(high, f, 0, u - 1);
      ZeroBits();
      forall i: nat ensures !(Bit(low, i) && Bit(high, i)) {
        FieldMaskBits(f, u - 1, width, i);
        if Near(f, i, u - 1) {
          var j := NearBy(f, i, u - 1);
          if u - 1 <= i {
            assert i - (u - 1) < i - j;
          }
        }
      }
      AddDisjoint(low, high, k);
      FieldMaskBits(f, u - 1, width, k);
    }
  }

  lemma ShlExact(f: nat, u: nat, high: nat)
    requires u < WIDTH && high == f * Pow2(u)
    requires forall k: nat {:trigger Bit(f, k)} :: Bit(f, k) ==> k + u < WIDTH
    ensures IsWord(high) && Shl(f, u) == high
  {
    AppendBits(high, f, 0, u);
    ZeroBits();
    ShlIsTimes(f, u);
  }

  lemma {:induction false} FieldMask(f: nat, u: nat, width: nat)
    requires u < WIDTH == width && Spaced(f, u)
    requires forall k: nat {:trigger Bit(f, k)} :: Bit(f, k) ==> k + u < WIDTH
    ensures f <= Pow2(width)
    ensures forall k: nat {:trigger Bit(MinusMod(Shl(f, u), f, width), k)} ::
      Bit(MinusMod(Shl(f, u), f, width), k) <==> Near(f, k, u)
  {
    hide Bit, Shl, Near, MinusMod, Spaced;
    var p := Pow2(u);
    var high := f * p;
    ShlExact(f, u, high);
    Below(high, width);
    Below(f, width);
    TimesAtLeast(f, p, high);
    MinusModSmall(high, f, width);
    forall k: nat ensures Bit(high - f, k) <==> Near(f, k, u) {
      FieldMaskBits(f, u, u, k);
    }
  }

  lemma TimesAtLeast(f: nat, p: nat, high: nat)
    requires 1 <= p && high == f * p
    ensures f <= high && high - f == f * (p - 1)
  {
  }
}
