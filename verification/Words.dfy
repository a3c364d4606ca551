/** Machine words as natural numbers, read bit by bit.

    The bitwise operators are defined by the bits of their result and always
    yield a word below 2^64; `Minus` wraps around, as subtraction of the 64-bit
    `bitmask_t` does. */
module Words {

  const WIDTH: nat := 64

  function Pow2(k: nat): (p: nat)
    ensures p >= 1
  {
    if k == 0 then 1 else 2 * Pow2(k - 1)
  }

  predicate Bit(w: nat, k: nat)
  {
    if k == 0 then w % 2 == 1 else Bit(w / 2, k - 1)
  }

  // The parity of bits k..n-1 of x.
  predicate Parity(x: nat, k: nat, n: nat)
    decreases n - k
  {
    k < n && Bit(x, k) != Parity(x, k + 1, n)
  }

  /* The operators of the original, each described by the bits of its result. */

  datatype Pattern =
    | XorOf(a: nat, b: nat)
    | AndOf(a: nat, b: nat)
    | OrOf(a: nat, b: nat)
    | NotOf(a: nat)
    | ShlOf(a: nat, s: nat)
    | ShrOf(a: nat, s: nat)
    | ParityOf(x: nat, n: nat)
    | RotationOf(x: nat, r: nat, n: nat)
    | PlaneOf(c: seq<nat>, y: nat)
  {
    predicate Has(k: nat)
    {
      match this
      case XorOf(a, b) => Bit(a, k) != Bit(b, k)
      case AndOf(a, b) => Bit(a, k) && Bit(b, k)
      case OrOf(a, b) => Bit(a, k) || Bit(b, k)
      case NotOf(a) => !Bit(a, k)
      case ShlOf(a, s) => s <= k && Bit(a, k - s)
      case ShrOf(a, s) => Bit(a, k + s)
      case ParityOf(x, n) => Parity(x, k, n)
      case RotationOf(x, r, n) => k < n && Bit(x, if k + r < n then k + r else k + r - n)
      case PlaneOf(c, y) => k < |c| && Bit(c[k], y)
    }

    // The word made of the bits i.. of the pattern.
    function From(i: nat): (w: nat)
      requires i <= WIDTH
      ensures forall k: nat {:trigger Bit(w, k)} :: Bit(w, k) <==> i + k < WIDTH && Has(i + k)
      decreases WIDTH - i, this
    {
      if i == WIDTH then
        ZeroBits();
        0
      else
        var rest := From(i + 1);
        var w := 2 * rest + if Has(i) then 1 else 0;
        assert w / 2 == rest;
        assert forall k: nat | k > 0 :: Bit(w, k) == Bit(rest, k - 1);
        w
    }
  }

  function WordOf(p: Pattern): (w: nat)
    ensures forall k: nat {:trigger Bit(w, k)} :: Bit(w, k) <==> k < WIDTH && p.Has(k)
  {
    p.From(0)
  }

  function Xor(a: nat, b: nat): (w: nat)
    ensures forall k: nat {:trigger Bit(w, k)} :: Bit(w, k) <==> k < WIDTH && Bit(a, k) != Bit(b, k)
  {
    WordOf(XorOf(a, b))
  }

  function And(a: nat, b: nat): (w: nat)
    ensures forall k: nat {:trigger Bit(w, k)} :: Bit(w, k) <==> k < WIDTH && Bit(a, k) && Bit(b, k)
  {
    WordOf(AndOf(a, b))
  }

  function Or(a: nat, b: nat): (w: nat)
    ensures forall k: nat {:trigger Bit(w, k)} :: Bit(w, k) <==> k < WIDTH && (Bit(a, k) || Bit(b, k))
  {
    WordOf(OrOf(a, b))
  }

  function Not(a: nat): (w: nat)
    ensures forall k: nat {:trigger Bit(w, k)} :: Bit(w, k) <==> k < WIDTH && !Bit(a, k)
  {
    WordOf(NotOf(a))
  }

  // Shifting by the width or more is undefined in the original, hence the bound.
  function Shl(a: nat, s: nat): (w: nat)
    requires s < WIDTH
    ensures forall k: nat {:trigger Bit(w, k)} :: Bit(w, k) <==> k < WIDTH && s <= k && Bit(a, k - s)
  {
    WordOf(ShlOf(a, s))
  }

  function Shr(a: nat, s: nat): (w: nat)
    requires s < WIDTH
    ensures forall k: nat {:trigger Bit(w, k)} :: Bit(w, k) <==> k < WIDTH && Bit(a, k + s)
  {
    WordOf(ShrOf(a, s))
  }

  // Subtraction modulo 2^n.
  function MinusMod(a: nat, b: nat, n: nat): (w: nat)
    requires b <= Pow2(n)
  {
    (a + Pow2(n) - b) % Pow2(n)
  }

  ghost predicate IsWord(w: nat)
  {
    forall k: nat :: WIDTH <= k ==> !Bit(w, k)
  }

  /* Facts about bits. */

  lemma ZeroBits()
    ensures forall k: nat :: !Bit(0, k)
  {
    forall k: nat ensures !Bit(0, k) {
      ZeroBit(k);
    }
  }

  lemma ZeroBit(k: nat)
    ensures !Bit(0, k)
  {
  }

  lemma {:induction false} Same(a: nat, b: nat)
    requires forall k: nat :: Bit(a, k) == Bit(b, k)
    ensures a == b
  {
    if a != 0 || b != 0 {
      assert Bit(a, 0) == Bit(b, 0);
      forall k: nat ensures Bit(a / 2, k) == Bit(b / 2, k) {
        assert Bit(a, k + 1) == Bit(b, k + 1);
      }
      Same(a / 2, b / 2);
    }
  }

  lemma {:induction false} HighBits(w: nat, n: nat)
    requires w < Pow2(n)
    ensures forall k: nat :: n <= k ==> !Bit(w, k)
  {
    if n == 0 {
      ZeroBits();
    } else {
      HighBits(w / 2, n - 1);
      forall k: nat | n <= k ensures !Bit(w, k) {
        assert !Bit(w / 2, k - 1);
      }
    }
  }

  lemma {:induction false} Below(w: nat, n: nat)
    requires forall k: nat :: n <= k ==> !Bit(w, k)
    ensures w < Pow2(n)
  {
    if n == 0 {
      ZeroBits();
      Same(w, 0);
    } else {
      forall k: nat | n - 1 <= k ensures !Bit(w / 2, k) {
        assert !Bit(w, k + 1);
      }
      Below(w / 2, n - 1);
    }
  }

  lemma MinusModSmall(a: nat, b: nat, n: nat)
    requires b <= a < Pow2(n)
    ensures MinusMod(a, b, n) == a - b
  {
    assert (a - b + Pow2(n)) % Pow2(n) == a - b by {
      DivModUnique(a - b + Pow2(n), 1, a - b, Pow2(n));
    }
  }

  lemma MinusModWraps(b: nat, n: nat)
    requires 0 < b <= Pow2(n)
    ensures MinusMod(0, b, n) == Pow2(n) - b
  {
    DivModUnique(Pow2(n) - b, 0, Pow2(n) - b, Pow2(n));
  }

  lemma DivModUnique(x: nat, q: nat, r: nat, m: nat)
    requires x == q * m + r && r < m
    ensures x / m == q && x % m == r
  {
    var d: int := x / m - q;
    assert d * m == (x / m) * m - q * m;
    assert d >= 1 ==> d * m >= m;
    assert d <= -1 ==> d * m + m <= 0;
  }

  lemma {:induction false} Pow2Add(a: nat, b: nat)
    ensures Pow2(a + b) == Pow2(a) * Pow2(b)
  {
    if a > 0 {
      Pow2Add(a - 1, b);
      assert a + b - 1 == a - 1 + b;
    }
  }

  lemma {:induction false} Pow2Monotone(a: nat, b: nat)
    requires a <= b
    ensures Pow2(a) <= Pow2(b)
  {
    if a < b {
      Pow2Monotone(a, b - 1);
    }
  }

  // The bits of w, followed below by the n bits of x.
  lemma {:induction false} AppendBit(w: nat, x: nat, n: nat, k: nat)
    requires x < Pow2(n)
    ensures Bit(w * Pow2(n) + x, k) == if k < n then Bit(x, k) else Bit(w, k - n)
  {
    if n > 0 {
      var v := w * Pow2(n) + x;
      assert w * Pow2(n) == 2 * (w * Pow2(n - 1));
      assert v / 2 == w * Pow2(n - 1) + x / 2;
      if k > 0 {
        AppendBit(w, x / 2, n - 1, k - 1);
      }
    }
  }

  lemma AppendBits(v: nat, w: nat, x: nat, n: nat)
    requires x < Pow2(n) && v == w * Pow2(n) + x
    ensures forall k: nat {:trigger Bit(v, k)} :: Bit(v, k) == if k < n then Bit(x, k) else Bit(w, k - n)
  {
    forall k: nat ensures Bit(v, k) == if k < n then Bit(x, k) else Bit(w, k - n) {
      AppendBit(w, x, n, k);
    }
  }

  lemma Pow2Bits(j: nat)
    ensures forall k: nat :: Bit(Pow2(j), k) <==> k == j
  {
    AppendBits(Pow2(j), 1, 0, j);
    ZeroBits();
    forall k: nat ensures Bit(Pow2(j), k) <==> k == j {
      OneBit(if k < j then 0 else k - j);
    }
  }

  lemma OneBit(k: nat)
    ensures Bit(1, k) <==> k == 0
  {
    if k > 0 {
      ZeroBit(k - 1);
    }
  }

  lemma {:induction false} MaskBit(n: nat, k: nat)
    ensures Bit(Pow2(n) - 1, k) <==> k < n
  {
    if n == 0 {
      ZeroBit(k);
    } else {
      assert (Pow2(n) - 1) / 2 == Pow2(n - 1) - 1;
      if k > 0 {
        MaskBit(n - 1, k - 1);
      }
    }
  }

  lemma ShlIsTimes(a: nat, s: nat)
    requires s < WIDTH && IsWord(a * Pow2(s))
    ensures Shl(a, s) == a * Pow2(s)
  {
    ZeroBits();
    ShlOrIs(a * Pow2(s), a, 0, s);
    Same(Or(Shl(a, s), 0), Shl(a, s));
  }

  lemma ShlOrIs(v: nat, w: nat, x: nat, n: nat)
    requires n < WIDTH && x < Pow2(n) && v == w * Pow2(n) + x && IsWord(v)
    ensures Or(Shl(w, n), x) == v
  {
    HighBits(x, n);
    AppendBits(v, w, x, n);
    SameAppend(v, w, x, n);
  }

  lemma SameAppend(v: nat, w: nat, x: nat, n: nat)
    requires n < WIDTH && IsWord(v)
    requires forall k: nat :: n <= k ==> !Bit(x, k)
    requires forall k: nat {:trigger Bit(v, k)} :: Bit(v, k) == if k < n then Bit(x, k) else Bit(w, k - n)
    ensures Or(Shl(w, n), x) == v
  {
    Same(Or(Shl(w, n), x), v);
  }

  lemma DivBits(v: nat, w: nat, x: nat, n: nat, p: nat)
    requires p == Pow2(n) && w == v / p && x == v % p
    ensures x < p && v == w * p + x
    ensures forall k: nat {:trigger Bit(v, k)} :: Bit(v, k) == if k < n then Bit(x, k) else Bit(w, k - n)
  {
    AppendBits(v, w, x, n);
  }

  // The value of `ones(T,k)` of hilbert.c.
  function Mask(k: nat): (w: nat)
    ensures w + 1 == Pow2(k)
    ensures forall i: nat {:trigger Bit(w, i)} :: Bit(w, i) <==> i < k
  {
    MaskBits(Pow2(k) - 1, k);
    Pow2(k) - 1
  }

  lemma MaskBits(w: nat, k: nat)
    requires w + 1 == Pow2(k)
    ensures forall i: nat {:trigger Bit(w, i)} :: Bit(w, i) <==> i < k
  {
    forall i: nat ensures Bit(w, i) <==> i < k {
      MaskBit(k, i);
    }
  }

  // The macro ones gets the mask by shifting and subtracting, also at k = 64, where the
  // shift leaves 0 and the subtraction wraps around.
  lemma OnesIsMask(k: nat, width: nat)
    requires 1 <= k <= 64 && width == WIDTH
    ensures WIDTH == 64 && MinusMod(Shl(2, k - 1), 1, width) == Mask(k)
  {
    var top := Shl(2, k - 1);
    Pow2Bits(1);
    assert Pow2(1) == 2;
    if k < width {
      Pow2Bits(k);
      Same(top, Pow2(k));
      Pow2Monotone(k + 1, width);
      MinusModSmall(Pow2(k), 1, width);
    } else {
      ZeroBits();
      Same(top, 0);
      MinusModWraps(1, width);
    }
  }

  // The word with bit j alone.
  function Unit(j: nat): (w: nat)
    requires j < WIDTH
    ensures w == Pow2(j)
    ensures forall k: nat {:trigger Bit(w, k)} :: Bit(w, k) <==> k == j
  {
    Pow2Bits(j);
    ShlIsTimes(1, j);
    Shl(1, j)
  }
}
