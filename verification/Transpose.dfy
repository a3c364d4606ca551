/** The bit transpose of hilbert.c, as plain loops and in logarithmic form. */
module Transpose {
  import opened Words
  import opened Digits

  // Position of column c in row r, for rows of the given width.
  function At(r: nat, width: nat, c: nat): (k: nat)
  {
    r * width + c
  }

  // w holds nDims fields of nBits bits; v holds the same bits as nBits fields
  // of nDims bits.
  ghost predicate IsTranspose(v: nat, w: nat, nDims: nat, nBits: nat)
  {
    && (forall b: nat, d: nat {:trigger At(b, nDims, d)} :: b < nBits && d < nDims ==>
        Bit(v, At(b, nDims, d)) == Bit(w, At(d, nBits, b)))
    && (forall k: nat {:trigger Bit(v, k)} :: At(nBits, nDims, 0) <= k ==> !Bit(v, k))
  }

  lemma Split(k: nat, rows: nat, width: nat) returns (r: nat, c: nat)
    requires k < At(rows, width, 0)
    ensures r < rows && c < width && k == At(r, width, c)
  {
    assert width == 0 ==> rows * width == 0;
    r, c := Quotient(k, width), Remainder(k, width);
    assert r >= rows ==> r * width >= rows * width;
  }

  lemma AtBelow(r: nat, rows: nat, width: nat, c: nat)
    requires r < rows && c < width
    ensures At(r, width, c) < At(rows, width, 0)
    ensures At(r, width, 0) + width <= At(rows, width, 0)
  {
    assert (r + 1) * width <= rows * width;
  }

  lemma AtGrows(n: nat, width: nat)
    requires 1 <= width
    ensures n <= At(n, width, 0) && (2 <= width ==> 2 * n <= At(n, width, 0))
  {
  }

  lemma AtOrder(a: nat, b: nat, width: nat)
    requires At(a, width, 0) < At(b, width, 0)
    ensures a < b
  {
    var gap: int := b - a;
    assert gap * width > 0;
  }

  // There is only one transpose, and transposing back gives the word itself.
  lemma TransposeUnique(u: nat, v: nat, w: nat, nDims: nat, nBits: nat)
    requires IsTranspose(u, w, nDims, nBits) && IsTranspose(v, w, nDims, nBits)
    ensures u == v
  {
    forall k: nat ensures Bit(u, k) == Bit(v, k) {
      if k < At(nBits, nDims, 0) {
        var b, d := Split(k, nBits, nDims);
      }
    }
    Same(u, v);
  }

  lemma TransposeBack(v: nat, w: nat, nDims: nat, nBits: nat)
    requires IsTranspose(v, w, nDims, nBits)
    requires forall k: nat {:trigger Bit(w, k)} :: At(nBits, nDims, 0) <= k ==> !Bit(w, k)
    ensures IsTranspose(w, v, nBits, nDims)
  {
    forall d: nat, b: nat {:trigger At(d, nBits, b)} | d < nDims && b < nBits
      ensures Bit(w, At(d, nBits, b)) == Bit(v, At(b, nDims, d))
    {
    }
    assert At(nBits, nDims, 0) == At(nDims, nBits, 0);
  }

  /* The plain double loop. */

  // The macro rdbit: bit k as a number.
  function ReadBit(w: nat, k: nat): (v: nat)
    requires k < WIDTH
    ensures forall i: nat {:trigger Bit(v, i)} :: Bit(v, i) <==> i == 0 && Bit(w, k)
  {
    forall i: nat ensures Bit(1, i) <==> i == 0 {
      OneBit(i);
    }
    And(Shr(w, k), 1)
  }

  // The bits of `field` from b on, spread out nDims apart.
  ghost predicate IsSpread(out: nat, field: nat, b: nat, nDims: nat, nBits: nat)
  {
    forall q: nat, c: nat {:trigger At(q, nDims, c)} :: c < nDims ==>
      (Bit(out, At(q, nDims, c)) <==> c == 0 && b + q < nBits && Bit(field, b + q))
  }

  // Fields 0..d-1 of w, each spread out.
  ghost predicate IsPartial(coords: nat, w: nat, d: nat, nDims: nat, nBits: nat)
  {
    forall q: nat, c: nat {:trigger At(q, nDims, c)} :: c < nDims ==>
      (Bit(coords, At(q, nDims, c)) <==> c < d && q < nBits && Bit(w, At(c, nBits, q)))
  }

  lemma SpreadStep(out: nat, field: nat, b: nat, nDims: nat, nBits: nat)
    requires 1 <= nDims < WIDTH && b < nBits < WIDTH && At(nBits, nDims, 0) <= WIDTH
    requires IsSpread(out, field, b + 1, nDims, nBits)
    ensures IsSpread(Or(Shl(out, nDims), ReadBit(field, b)), field, b, nDims, nBits)
  {
    hide Bit, Or, Shl, ReadBit;
    forall q: nat, c: nat {:trigger At(q, nDims, c)} | c < nDims
      ensures Bit(Or(Shl(out, nDims), ReadBit(field, b)), At(q, nDims, c)) <==>
        c == 0 && b + q < nBits && Bit(field, b + q)
    {
      if q > 0 {
        assert At(q, nDims, c) == At(q - 1, nDims, c) + nDims;
        if b + q < nBits {
          AtBelow(q, nBits, nDims, c);
        }
      }
    }
  }

  lemma PartialStep(coords: nat, out: nat, field: nat, w: nat, d: nat, nDims: nat, nBits: nat)
    requires d < nDims < WIDTH && nBits < WIDTH && At(nBits, nDims, 0) <= WIDTH
    requires IsPartial(coords, w, d, nDims, nBits) && IsSpread(out, field, 0, nDims, nBits)
    requires forall q: nat :: q < nBits ==> Bit(field, q) == Bit(w, At(d, nBits, q))
    ensures IsPartial(Or(coords, Shl(out, d)), w, d + 1, nDims, nBits)
  {
    hide Bit, Or, Shl, IsSpread;
    forall q: nat, c: nat {:trigger At(q, nDims, c)} | c < nDims
      ensures Bit(Or(coords, Shl(out, d)), At(q, nDims, c)) <==> c < d + 1 && q < nBits && Bit(w, At(c, nBits, q))
    {
      if q < nBits {
        AtBelow(q, nBits, nDims, c);
      }
      SpreadShifted(out, field, d, nDims, nBits, q, c);
    }
  }

  lemma SpreadShifted(out: nat, field: nat, d: nat, nDims: nat, nBits: nat, q: nat, c: nat)
    requires d < nDims && c < nDims && IsSpread(out, field, 0, nDims, nBits)
    ensures d <= At(q, nDims, c) ==> (Bit(out, At(q, nDims, c) - d) <==> c == d && q < nBits && Bit(field, q))
  {
    hide Bit;
    if d <= c {
      assert At(q, nDims, c) - d == At(q, nDims, c - d);
    } else if q > 0 {
      assert At(q, nDims, c) - d == At(q - 1, nDims, nDims + c - d);
    }
  }

  lemma PartialIsTranspose(coords: nat, w: nat, nDims: nat, nBits: nat)
    requires 1 <= nDims && IsPartial(coords, w, nDims, nDims, nBits)
    ensures IsTranspose(coords, w, nDims, nBits)
  {
    forall k: nat | At(nBits, nDims, 0) <= k ensures !Bit(coords, k) {
      var q, c := Quotient(k, nDims), Remainder(k, nDims);
      assert k == At(q, nDims, c);
      if q < nBits {
        AtBelow(q, nBits, nDims, c);
      }
    }
  }

  // What is left of w after its first d fields were shifted out.
  ghost predicate IsRest(rest: nat, w: nat, d: nat, nBits: nat)
  {
    forall k: nat {:trigger Bit(rest, k)} :: Bit(rest, k) <==> Bit(w, At(d, nBits, k))
  }

  lemma RestStep(rest: nat, w: nat, d: nat, nBits: nat)
    requires nBits < WIDTH && IsWord(w) && IsRest(rest, w, d, nBits)
    ensures IsRest(Shr(rest, nBits), w, d + 1, nBits)
  {
    hide Bit, Shr;
    forall k: nat ensures Bit(Shr(rest, nBits), k) <==> Bit(w, At(d + 1, nBits, k)) {
      assert At(d + 1, nBits, k) == At(d, nBits, k + nBits);
      assert At(d, nBits, k) >= k;
    }
  }

  method BitTransposePlain(nDims: nat, nBits: nat, w: nat) returns (coords: nat)
    requires 1 <= nDims < 64 && 1 <= nBits < 64 && nDims * nBits <= 64 && IsWord(w)
    ensures IsTranspose(coords, w, nDims, nBits)
  {
    hide Bit, Or, Shl, Shr, And, ReadBit, IsSpread, IsPartial, IsTranspose, IsWord;
    coords := 0;
    NothingYet(w, nDims, nBits);
    var inCoords := w;
    for d := 0 to nDims
      invariant IsRest(inCoords, w, d, nBits)
      invariant IsPartial(coords, w, d, nDims, nBits)
    {
      var field := And(inCoords, Mask(nBits));
      var out := 0;
      RestStep(inCoords, w, d, nBits);
      inCoords := Shr(inCoords, nBits);
      var b := nBits;
      NothingYet(field, nDims, nBits);
      while b > 0
        invariant b <= nBits && IsSpread(out, field, b, nDims, nBits)
      {
        b := b - 1;
        SpreadStep(out, field, b, nDims, nBits);
        out := Or(Shl(out, nDims), ReadBit(field, b));
      }
      PartialStep(coords, out, field, w, d, nDims, nBits);
      coords := Or(coords, Shl(out, d));
    }
    PartialIsTranspose(coords, w, nDims, nBits);
  }

  lemma NothingYet(w: nat, nDims: nat, nBits: nat)
    ensures IsPartial(0, w, 0, nDims, nBits) && IsSpread(0, w, nBits, nDims, nBits)
    ensures IsRest(w, w, 0, nBits)
  {
    ZeroBits();
  }
}
