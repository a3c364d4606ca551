/** Numbers as sequences of n-bit digits, most significant digit first. */
module Digits {
  import opened Words

  ghost predicate AreDigits(X: seq<nat>, n: nat)
  {
    forall i :: 0 <= i < |X| ==> X[i] < Pow2(n)
  }

  function Val(X: seq<nat>, n: nat): (v: nat)
  {
    if X == [] then 0 else Val(X[..|X| - 1], n) * Pow2(n) + X[|X| - 1]
  }

  function ToDigits(v: nat, n: nat, m: nat): (X: seq<nat>)
    ensures |X| == m && AreDigits(X, n)
  {
    if m == 0 then [] else ToDigits(Quotient(v, Pow2(n)), n, m - 1) + [Remainder(v, Pow2(n))]
  }

  function Quotient(v: nat, p: nat): nat
    requires 0 < p
  {
    v / p
  }

  function Remainder(v: nat, p: nat): (r: nat)
    requires 0 < p
    ensures r < p && v == Quotient(v, p) * p + r
  {
    v % p
  }

  // How many numbers m digits can write: 2^(m*n).
  function Span(n: nat, m: nat): (p: nat)
    ensures p >= 1
  {
    if m == 0 then 1 else Span(n, m - 1) * Pow2(n)
  }

  lemma {:induction false} SpanIsPow2(n: nat, m: nat)
    ensures 0 <= m * n && Span(n, m) == Pow2(m * n)
  {
    if m > 0 {
      SpanIsPow2(n, m - 1);
      assert m * n == (m - 1) * n + n;
      Pow2Add((m - 1) * n, n);
    }
  }

  lemma ValAppend(X: seq<nat>, x: nat, n: nat)
    ensures Val(X + [x], n) == Val(X, n) * Pow2(n) + x
  {
    assert (X + [x])[..|X|] == X;
  }

  lemma {:induction false} ValBound(X: seq<nat>, n: nat)
    requires AreDigits(X, n)
    ensures Val(X, n) < Span(n, |X|)
  {
    if X != [] {
      var Y, x := X[..|X| - 1], X[|X| - 1];
      ValBound(Y, n);
      AppendBound(Val(Y, n), x, Span(n, |Y|), Pow2(n));
    }
  }

  lemma AppendBound(w: nat, x: nat, p: nat, q: nat)
    requires w < p && x < q
    ensures w * q + x < p * q
  {
    assert (w + 1) * q <= p * q;
  }

  // Cutting a number into digits and reading them back changes nothing.
  lemma {:induction false} ValToDigits(v: nat, n: nat, m: nat)
    requires v < Span(n, m)
    ensures Val(ToDigits(v, n, m), n) == v
  {
    hide Pow2, Quotient, Remainder;
    if m > 0 {
      var p := Pow2(n);
      var q, r := Quotient(v, p), Remainder(v, p);
      QuotientBound(v, q, r, Span(n, m - 1), p);
      ValToDigits(q, n, m - 1);
      ValAppend(ToDigits(q, n, m - 1), r, n);
    }
  }

  lemma QuotientBound(v: nat, q: nat, r: nat, p: nat, m: nat)
    requires v == q * m + r && v < p * m && 0 < m
    ensures q < p
  {
    assert q >= p ==> q * m >= p * m;
  }

  lemma {:induction false} ToDigitsVal(X: seq<nat>, n: nat)
    requires AreDigits(X, n)
    ensures ToDigits(Val(X, n), n, |X|) == X
  {
    if X != [] {
      var Y, x := X[..|X| - 1], X[|X| - 1];
      DivModUnique(Val(X, n), Val(Y, n), x, Pow2(n));
      ToDigitsVal(Y, n);
    }
  }

  // Digit i of X, counted from the most significant, sits at bits (|X|-1-i)*n up.
  lemma {:induction false} ValBit(X: seq<nat>, n: nat, i: nat, k: nat)
    requires AreDigits(X, n) && i < |X| && k < n
    ensures 0 <= (|X| - 1 - i) * n
    ensures Bit(Val(X, n), (|X| - 1 - i) * n + k) == Bit(X[i], k)
  {
    var Y, x := X[..|X| - 1], X[|X| - 1];
    ValStep(X, n);
    Multiple(|X| - 1 - i, n);
    hide Bit, Val, Pow2;
    AppendBit(Val(Y, n), x, n, (|X| - 1 - i) * n + k);
    if i < |Y| {
      ValBit(Y, n, i, k);
    }
  }

  lemma ValStep(X: seq<nat>, n: nat)
    requires X != []
    ensures Val(X, n) == Val(X[..|X| - 1], n) * Pow2(n) + X[|X| - 1]
  {
  }

  lemma Multiple(q: nat, n: nat)
    ensures 0 <= q * n && (q == 0 ==> q * n == 0) && (q > 0 ==> q * n == (q - 1) * n + n)
  {
  }

  // The order of numbers is the lexicographic order of their digits.
  lemma {:induction false} ValOrder(X: seq<nat>, Y: seq<nat>, n: nat, i: nat)
    requires AreDigits(X, n) && AreDigits(Y, n) && |X| == |Y| && i < |X|
    requires X[..i] == Y[..i] && X[i] < Y[i]
    ensures Val(X, n) < Val(Y, n)
  {
    var m := |X| - 1;
    if i == m {
      assert X[..m] == Y[..m];
    } else {
      assert X[..m][..i] == X[..i] && Y[..m][..i] == Y[..i];
      ValOrder(X[..m], Y[..m], n, i);
      AppendBound(Val(X[..m], n), X[m], Val(Y[..m], n), Pow2(n));
    }
  }

  // Incrementing a digit that is followed by maximal ones, which become 0.
  lemma {:induction false} ValSuccessor(X: seq<nat>, Y: seq<nat>, n: nat, i: nat)
    requires |X| == |Y| && i < |X|
    requires X[..i] == Y[..i] && Y[i] == X[i] + 1
    requires forall j :: i < j < |X| ==> X[j] == Pow2(n) - 1 && Y[j] == 0
    ensures Val(Y, n) == Val(X, n) + 1
  {
    var m := |X| - 1;
    if i == m {
      assert X[..m] == Y[..m];
    } else {
      assert X[..m][..i] == X[..i] && Y[..m][..i] == Y[..i];
      ValSuccessor(X[..m], Y[..m], n, i);
      assert (Val(X[..m], n) + 1) * Pow2(n) == Val(X[..m], n) * Pow2(n) + Pow2(n);
    }
  }

  // Two digit strings whose values differ by one split at such a digit.
  lemma {:induction false} SuccessorSplit(X: seq<nat>, Y: seq<nat>, n: nat) returns (i: nat)
    requires AreDigits(X, n) && AreDigits(Y, n) && |X| == |Y|
    requires Val(Y, n) == Val(X, n) + 1
    ensures i < |X|
    ensures X[..i] == Y[..i] && Y[i] == X[i] + 1
    ensures forall j :: i < j < |X| ==> X[j] == Pow2(n) - 1 && Y[j] == 0
  {
    hide Pow2, ToDigits;
    var m := |X| - 1;
    var p := Pow2(n);
    Carry(Val(X[..m], n), Val(Y[..m], n), X[m], Y[m], p);
    if X[m] + 1 < p {
      i := m;
      ToDigitsVal(X[..m], n);
      ToDigitsVal(Y[..m], n);
    } else {
      i := SuccessorSplit(X[..m], Y[..m], n);
      assert X[..m][..i] == X[..i] && Y[..m][..i] == Y[..i];
    }
  }

  lemma Carry(vx: nat, vy: nat, x: nat, y: nat, p: nat)
    requires x < p && y < p && vy * p + y == vx * p + x + 1
    ensures if x + 1 < p then vy == vx && y == x + 1 else vy == vx + 1 && y == 0
  {
    if x + 1 < p {
      DivModUnique(vy * p + y, vx, x + 1, p);
    } else {
      assert (vx + 1) * p == vx * p + p;
      DivModUnique(vy * p + y, vx + 1, 0, p);
    }
    DivModUnique(vy * p + y, vy, y, p);
  }

  // A prefix of the digits is the number shifted right.
  lemma {:induction false} ValPrefix(X: seq<nat>, n: nat, j: nat)
    requires AreDigits(X, n) && j <= |X|
    ensures Val(X, n) / Span(n, j) == Val(X[..|X| - j], n)
  {
    if j == 0 {
      assert X[..|X|] == X;
    } else {
      var Y, x, p, v := X[..|X| - 1], X[|X| - 1], Pow2(n), Val(X, n);
      ValPrefix(Y, n, j - 1);
      assert Y[..|Y| - (j - 1)] == X[..|X| - j];
      DivModUnique(v, Val(Y, n), x, p);
      DivTwice(v, p, Span(n, j - 1));
    }
  }

  lemma DivTwice(v: nat, p: nat, q: nat)
    requires 0 < p && 0 < q
    ensures 0 < q * p && v / (q * p) == v / p / q
  {
    var a, r := v / p, v % p;
    var b, s := a / q, a % q;
    assert a == b * q + s && v == a * p + r;
    assert (b * q + s) * p == b * (q * p) + s * p;
    AppendBound(s, r, q, p);
    DivModUnique(v, b, s * p + r, q * p);
  }
}
