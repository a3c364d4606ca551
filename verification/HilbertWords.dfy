/** What single words hold while hilbert.c converts: digit strings read as words. */
module HilbertWords {
  import opened Words
  import opened Digits
  import opened BitTricks
  import opened Transpose
  import opened HilbertCurve

  // Each plane XOR the plane above it.
  function Deltas(P: seq<nat>): (C: seq<nat>)
    ensures |C| == |P|
  {
    seq(|P|, i requires 0 <= i < |P| => Xor(P[i], if i == 0 then 0 else P[i - 1]))
  }

  lemma DeltasDigits(P: seq<nat>, n: nat)
    requires AreDigits(P, n)
    ensures AreDigits(Deltas(P), n)
  {
    forall i | 0 <= i < |P| ensures Deltas(P)[i] < Pow2(n) {
      XorBelow(P[i], if i == 0 then 0 else P[i - 1], n);
    }
  }

  lemma DeltasAppend(P: seq<nat>, p: nat)
    ensures Deltas(P + [p]) == Deltas(P) + [Xor(p, if P == [] then 0 else P[|P| - 1])]
  {
    hide Xor;
  }

  // Gray-coded digits, with the top bits toggled as the transducer does.
  function Twists(n: nat, odd: bool, X: seq<nat>): (W: seq<nat>)
    requires 1 <= n <= WIDTH
    ensures |W| == |X|
  {
    seq(|X|, i requires 0 <= i < |X| =>
      Xor(Gray(X[i]), Toggle(n, if i == 0 then odd else !Bit(X[i - 1], 0))))
  }

  lemma TwistsAppend(n: nat, odd: bool, X: seq<nat>, x: nat)
    requires 1 <= n <= WIDTH
    ensures Twists(n, odd, X + [x]) ==
            Twists(n, odd, X) + [Xor(Gray(x), Toggle(n, if X == [] then odd else !Bit(X[|X| - 1], 0)))]
  {
    hide Xor, Gray, Toggle, Bit;
  }

  lemma TwistAt(n: nat, odd: bool, X: seq<nat>, i: nat)
    requires 1 <= n <= WIDTH && i < |X|
    ensures Twists(n, odd, X)[i] == Xor(Gray(X[i]), Toggle(n, if i == 0 then odd else !Bit(X[i - 1], 0)))
  {
  }

  lemma TwistsDigits(n: nat, odd: bool, X: seq<nat>)
    requires 1 <= n <= WIDTH && AreDigits(X, n)
    ensures AreDigits(Twists(n, odd, X), n)
  {
    hide Gray, Toggle, Xor, Bit, Pow2;
    forall i | 0 <= i < |X| ensures Twists(n, odd, X)[i] < Pow2(n) {
      var o := if i == 0 then odd else !Bit(X[i - 1], 0);
      UngrayGray(X[i], n);
      ToggleBelow(n, o);
      XorBelow(Gray(X[i]), Toggle(n, o), n);
    }
  }

  /* Words of n-bit digits, bit by bit: position k of row r. */

  lemma DigitBit(X: seq<nat>, n: nat, r: nat, k: nat)
    requires AreDigits(X, n) && r < |X| && k < n
    ensures Bit(Val(X, n), At(r, n, k)) == Bit(X[|X| - 1 - r], k)
  {
    ValBit(X, n, |X| - 1 - r, k);
  }

  lemma ValHigh(X: seq<nat>, n: nat)
    requires AreDigits(X, n)
    ensures forall k: nat {:trigger Bit(Val(X, n), k)} :: At(|X|, n, 0) <= k ==> !Bit(Val(X, n), k)
  {
    ValBound(X, n);
    SpanIsPow2(n, |X|);
    HighBits(Val(X, n), At(|X|, n, 0));
  }

  // A word is Val(X, n) when every digit position agrees.
  lemma IsVal(w: nat, X: seq<nat>, n: nat)
    requires AreDigits(X, n)
    requires forall r: nat, k: nat {:trigger At(r, n, k)} :: r < |X| && k < n ==> Bit(w, At(r, n, k)) == Bit(X[|X| - 1 - r], k)
    requires forall k: nat {:trigger Bit(w, k)} :: At(|X|, n, 0) <= k ==> !Bit(w, k)
    ensures w == Val(X, n)
  {
    hide Bit;
    ValHigh(X, n);
    forall j: nat ensures Bit(w, j) == Bit(Val(X, n), j) {
      if j < At(|X|, n, 0) {
        var r, k := Split(j, |X|, n);
        DigitBit(X, n, r, k);
      }
    }
    Same(w, Val(X, n));
  }

  // Shifting and masking takes out one digit.
  lemma DigitOf(X: seq<nat>, n: nat, r: nat)
    requires AreDigits(X, n) && 1 <= n && r < |X| && At(|X|, n, 0) <= WIDTH
    ensures At(r, n, 0) < WIDTH && n <= WIDTH
    ensures And(Shr(Val(X, n), At(r, n, 0)), Mask(n)) == X[|X| - 1 - r]
  {
    hide Bit, And, Shr, Val, Mask;
    AtBelow(r, |X|, n, 0);
    var b := At(r, n, 0);
    var v := And(Shr(Val(X, n), b), Mask(n));
    HighBits(X[|X| - 1 - r], n);
    forall k: nat ensures Bit(v, k) == Bit(X[|X| - 1 - r], k) {
      if k < n {
        DigitBit(X, n, r, k);
        assert At(r, n, k) == b + k;
      }
    }
    Same(v, X[|X| - 1 - r]);
  }

  // A word of digits takes one more at its low end.
  lemma AppendDigit(X: seq<nat>, x: nat, n: nat, rows: nat)
    requires AreDigits(X, n) && x < Pow2(n) && |X| < rows && 1 <= n < WIDTH && At(rows, n, 0) <= WIDTH
    ensures AreDigits(X + [x], n)
    ensures Or(Shl(Val(X, n), n), x) == Val(X + [x], n)
  {
    hide Bit, Val, Shl, Or, At;
    var Y := X + [x];
    ValAppend(X, x, n);
    ValHigh(Y, n);
    AtBelow(|X|, rows, n, 0);
    AtNext(|X|, n, 0);
    var v, p := Val(X, n), Pow2(n);
    assert Val(Y, n) == v * p + x;
    FitsWord(Val(Y, n), At(|Y|, n, 0));
    ShlOrIs(Val(Y, n), v, x, n);
  }

  lemma FitsWord(v: nat, bits: nat)
    requires bits <= WIDTH && forall k: nat {:trigger Bit(v, k)} :: bits <= k ==> !Bit(v, k)
    ensures IsWord(v)
  {
  }

  lemma AtNext(r: nat, n: nat, k: nat)
    ensures At(r + 1, n, k) == At(r, n, k) + n
    ensures At(r, n, 0) + k == At(r, n, k)
  {
  }

  /* nthbits: one bit at the bottom of every digit. */

  function Ones(m: nat): (X: seq<nat>)
    ensures |X| == m && forall i :: 0 <= i < m ==> X[i] == 1
  {
    seq(m, _ => 1)
  }

  lemma {:induction false} RepunitTimes(n: nat, m: nat)
    ensures Val(Ones(m), n) * Mask(n) == Span(n, m) - 1
  {
    if m > 0 {
      RepunitTimes(n, m - 1);
      assert Ones(m)[..m - 1] == Ones(m - 1);
      RepunitStep(Val(Ones(m - 1), n), Mask(n), Pow2(n), Span(n, m - 1));
    }
  }

  lemma RepunitStep(v: nat, q: nat, p: nat, s: nat)
    requires p == q + 1 && v * q == s - 1
    ensures (v * p + 1) * q == s * p - 1
  {
    assert (v * p + 1) * q == (v * q) * p + q;
    assert (s - 1) * p == s * p - p;
  }

  // The mask of all digits over the mask of one: the lowest bit of every digit.
  lemma NthBits(n: nat, m: nat)
    requires 1 <= n
    ensures 0 < Mask(n) && Mask(At(m, n, 0)) / Mask(n) == Val(Ones(m), n)
  {
    RepunitTimes(n, m);
    SpanIsPow2(n, m);
    DivModUnique(Mask(At(m, n, 0)), Val(Ones(m), n), 0, Mask(n));
  }

  lemma OnesDigits(n: nat, m: nat)
    requires 1 <= n
    ensures AreDigits(Ones(m), n)
  {
    Pow2Monotone(1, n);
  }

  // The Gray code of all digits in one step.
  lemma {:induction false} GrayWord(X: seq<nat>, n: nat, nth: nat)
    requires AreDigits(X, n) && 1 <= n <= WIDTH && At(|X|, n, 0) <= WIDTH && nth == Val(Ones(|X|), n)
    ensures AreDigits(Twists(n, false, X), n)
    ensures Xor(Val(X, n), Shr(Xor(Val(X, n), nth), 1)) == Val(Twists(n, false, X), n)
  {
    hide Bit, Xor, Shr, Val, Twists, At;
    var v, W, m := Val(X, n), Twists(n, false, X), |X|;
    var w := Xor(v, Shr(Xor(v, nth), 1));
    TwistsDigits(n, false, X);
    ValHigh(X, n);
    OnesDigits(n, m);
    ValHigh(Ones(m), n);
    forall r: nat, k: nat {:trigger At(r, n, k)} | r < m && k < n
      ensures Bit(w, At(r, n, k)) == Bit(W[m - 1 - r], k)
    {
      AtBelow(r, m, n, k);
      GrayWordAt(X, n, nth, r, k);
    }
    IsVal(w, W, n);
  }

  lemma AtBit(r: nat, n: nat, k: nat)
    ensures At(r, n, k + 1) == At(r, n, k) + 1 && (k + 1 == n ==> At(r + 1, n, 0) == At(r, n, k) + 1)
  {
  }

  // The top bit of a twisted digit depends on the digit before.
  lemma TwistBit(X: seq<nat>, n: nat, i: nat, k: nat)
    requires AreDigits(X, n) && 1 <= n <= WIDTH && i < |X| && k < n
    ensures Bit(Twists(n, false, X)[i], k) ==
            (Bit(X[i], k) != if k + 1 < n then Bit(X[i], k + 1) else i > 0 && !Bit(X[i - 1], 0))
  {
    hide Bit, Xor;
    HighBits(X[i], n);
  }

  lemma GrayWordAt(X: seq<nat>, n: nat, nth: nat, r: nat, k: nat)
    requires AreDigits(X, n) && 1 <= n <= WIDTH && nth == Val(Ones(|X|), n) && r < |X| && k < n
    ensures Bit(Twists(n, false, X)[|X| - 1 - r], k) ==
            (Bit(Val(X, n), At(r, n, k)) != (Bit(Val(X, n), At(r, n, k) + 1) != Bit(nth, At(r, n, k) + 1)))
  {
    hide Bit, Val, Xor, Shr, At, Twists;
    TwistBit(X, n, |X| - 1 - r, k);
    AtBit(r, n, k);
    DigitBit(X, n, r, k);
    OnesDigits(n, |X|);
    OneBit(k + 1);
    OneBit(0);
    if k + 1 < n {
      DigitBit(X, n, r, k + 1);
      DigitBit(Ones(|X|), n, r, k + 1);
    } else {
      DigitAbove(X, n, r, 0);
      DigitAbove(Ones(|X|), n, r, 0);
    }
  }

  /* The stride-n prefix XOR undoes Deltas. */

  // The difference of neighbouring planes in one step.
  lemma {:induction false} DeltaWord(P: seq<nat>, n: nat)
    requires AreDigits(P, n) && 1 <= n < WIDTH && At(|P|, n, 0) <= WIDTH
    ensures AreDigits(Deltas(P), n)
    ensures Xor(Val(P, n), Shr(Val(P, n), n)) == Val(Deltas(P), n)
  {
    hide Bit, Xor, Shr, Val, Deltas, At;
    var v, C, m := Val(P, n), Deltas(P), |P|;
    var w := Xor(v, Shr(v, n));
    DeltasDigits(P, n);
    ValHigh(P, n);
    forall r: nat, k: nat {:trigger At(r, n, k)} | r < m && k < n
      ensures Bit(w, At(r, n, k)) == Bit(C[m - 1 - r], k)
    {
      AtBelow(r, m, n, k);
      DeltaWordAt(P, n, r, k);
    }
    IsVal(w, C, n);
  }

  lemma DeltaWordAt(P: seq<nat>, n: nat, r: nat, k: nat)
    requires AreDigits(P, n) && r < |P| && k < n <= WIDTH
    ensures Bit(Deltas(P)[|P| - 1 - r], k) == (Bit(Val(P, n), At(r, n, k)) != Bit(Val(P, n), At(r, n, k) + n))
  {
    hide Bit, Val, Xor, At, Deltas;
    DeltasAt(P, |P| - 1 - r);
    DigitBit(P, n, r, k);
    AtNext(r, n, k);
    DigitAbove(P, n, r, k);
    ZeroBits();
  }

  lemma DeltasAt(P: seq<nat>, i: nat)
    requires i < |P|
    ensures Deltas(P)[i] == Xor(P[i], if i == 0 then 0 else P[i - 1])
  {
  }

  // The digit after digit r, none after the last.
  lemma DigitAbove(X: seq<nat>, n: nat, r: nat, k: nat)
    requires AreDigits(X, n) && r < |X| && k < n
    ensures Bit(Val(X, n), At(r + 1, n, k)) == (r + 1 < |X| && Bit(X[|X| - 1 - r - 1], k))
  {
    hide Bit, Val;
    if r + 1 < |X| {
      DigitBit(X, n, r + 1, k);
    } else {
      ValHigh(X, n);
    }
  }

  lemma {:induction false} DeltaFold(P: seq<nat>, n: nat, r: nat, k: nat, c: nat)
    requires AreDigits(P, n) && AreDigits(Deltas(P), n) && r < |P| && k < n <= WIDTH && |P| <= r + c
    ensures Strided(Val(Deltas(P), n), At(r, n, k), n, c) == Bit(P[|P| - 1 - r], k)
    decreases c
  {
    hide Bit, Val, Xor;
    var v, m := Val(Deltas(P), n), |P|;
    DigitBit(Deltas(P), n, r, k);
    assert At(r + 1, n, k) == At(r, n, k) + n;
    if r + 1 < m {
      DeltaFold(P, n, r + 1, k, c - 1);
    } else {
      ValHigh(Deltas(P), n);
      StridedHigh(v, At(r + 1, n, k), n, c - 1, At(m, n, 0));
      ZeroBits();
    }
  }

  // After the doubling loop the word holds the planes themselves.
  lemma FoldedDeltas(w: nat, P: seq<nat>, n: nat, c: nat)
    requires AreDigits(P, n) && AreDigits(Deltas(P), n) && 1 <= n <= WIDTH && At(|P|, n, 0) <= WIDTH && |P| <= c
    requires IsFold(w, Val(Deltas(P), n), n, c)
    ensures w == Val(P, n)
  {
    hide Bit, Val, Strided, Deltas;
    var m := |P|;
    ValHigh(Deltas(P), n);
    forall r: nat, k: nat {:trigger At(r, n, k)} | r < m && k < n
      ensures Bit(w, At(r, n, k)) == Bit(P[m - 1 - r], k)
    {
      AtBelow(r, m, n, k);
      DeltaFold(P, n, r, k, c);
    }
    forall k: nat | At(m, n, 0) <= k ensures !Bit(w, k) {
      StridedHigh(Val(Deltas(P), n), k, n, c, At(m, n, 0));
    }
    IsVal(w, P, n);
  }
}
