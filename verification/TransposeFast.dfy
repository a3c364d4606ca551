/** The logarithmic bit transpose of hilbert.c (DLOGB_BIT_TRANSPOSE).

    The rows of the result are grouped in chunks of `len` consecutive rows. The
    working word holds, chunk by chunk, `len` bits of every field side by side.
    Each round halves the chunks; the odd row out goes straight to its place. */
module TransposeFast {
  import opened Words
  import opened Digits
  import opened Transpose
  import opened BitTricks

  function Times(a: nat, b: nat): nat
  {
    a * b
  }

  // The word w of nDims fields of |start| bits; start[b] is the first row of the
  // chunk that row b belongs to, or -1 when row b is already in place.
  datatype Layout = Layout(w: nat, nDims: nat, start: seq<int>, len: nat)
  {
    ghost predicate Ok()
    {
      && 1 <= nDims && 1 <= len <= |start|
      && At(|start|, nDims, 0) <= WIDTH
      && forall b :: 0 <= b < |start| && 0 <= start[b] ==> ChunkOk(b)
    }

    ghost predicate ChunkOk(b: nat)
      requires b < |start|
    {
      && 0 <= start[b] <= b < start[b] + len <= |start|
      && forall c :: start[b] <= c < start[b] + len ==> start[c] == start[b]
    }

    // Position k lies at offset x of the chunk that starts at row b.
    ghost predicate Lies(k: nat, b: nat, x: nat)
    {
      b < |start| && start[b] == b && k == At(b, nDims, x) && x < At(len, nDims, 0)
    }

    function Row(k: nat): (r: nat)
      requires 1 <= nDims
    {
      Quotient(k, nDims)
    }

    lemma RowIs(k: nat, r: nat, c: nat)
      requires c < nDims && k == At(r, nDims, c)
      ensures Row(k) == r && Remainder(k, nDims) == c
    {
      DivModUnique(k, r, c, nDims);
    }

    ghost predicate Inside(k: nat)
    {
      1 <= nDims && Row(k) < |start| && 0 <= start[Row(k)]
    }

    ghost function Chunk(k: nat): nat
      requires Inside(k)
    {
      start[Row(k)]
    }

    ghost function Off(k: nat): int
      requires Inside(k)
    {
      k - At(Chunk(k), nDims, 0)
    }

    lemma Locate(k: nat)
      requires Ok() && Inside(k)
      ensures 0 <= Off(k) && Lies(k, Chunk(k), Off(k))
    {
      var r, b := Row(k), Chunk(k);
      assert ChunkOk(r);
      var c := Remainder(k, nDims);
      assert k == At(r, nDims, c);
      assert (r - b) * nDims + c == Off(k);
      AtBelow(r - b, len, nDims, c);
    }

    lemma Located(k: nat, b: nat, x: nat)
      requires Ok() && Lies(k, b, x)
      ensures Inside(k) && Chunk(k) == b && Off(k) == x
      ensures k < At(|start|, nDims, 0)
    {
      assert ChunkOk(b);
      var r, c := Split(x, len, nDims);
      assert k == At(b + r, nDims, c);
      DivModUnique(k, b + r, c, nDims);
      AtBelow(b + r, |start|, nDims, c);
    }

    // The bit of field d that belongs to row b.
    ghost predicate Source(d: nat, b: nat)
    {
      Bit(w, At(d, |start|, b))
    }

    /* What the variables of one round hold. */

    ghost predicate IsEnds(v: nat)
    {
      forall k: nat {:trigger Bit(v, k)} :: Bit(v, k) <==> Inside(k) && Off(k) == 0
    }

    // The first n positions of every chunk.
    ghost predicate IsMask(v: nat, n: nat)
    {
      forall k: nat {:trigger Bit(v, k)} :: Bit(v, k) <==> Inside(k) && Off(k) < n
    }

    // Fields 0..d-1 of the data, len bits each within every chunk.
    ghost predicate IsData(v: nat, d: nat)
    {
      forall k: nat {:trigger Bit(v, k)} :: Bit(v, k) <==> HasData(k, d)
    }

    ghost predicate HasData(k: nat, d: nat)
    {
      1 <= len && Inside(k) && 0 <= Off(k) && Quotient(Off(k), len) < d &&
      Source(Quotient(Off(k), len), Chunk(k) + Remainder(Off(k), len))
    }

    // The first n bits of field d at the beginning of every chunk.
    ghost predicate IsField(v: nat, d: nat, n: nat)
    {
      forall k: nat {:trigger Bit(v, k)} :: Bit(v, k) <==> HasField(k, d, n)
    }

    ghost predicate HasField(k: nat, d: nat, n: nat)
    {
      Inside(k) && 0 <= Off(k) < n && Source(d, Chunk(k) + Off(k))
    }

    // The rows in place, and in the rows at offset `odd` of a chunk the bits of
    // the first d fields.
    ghost predicate IsPlaced(v: nat, odd: nat, d: nat)
    {
      forall k: nat {:trigger Bit(v, k)} :: Bit(v, k) <==> HasPlaced(k, odd, d)
    }

    ghost predicate HasPlaced(k: nat, odd: nat, d: nat)
    {
      && 1 <= nDims && Row(k) < |start| && Source(Remainder(k, nDims), Row(k))
      && (start[Row(k)] < 0 || (Row(k) - start[Row(k)] == odd && Remainder(k, nDims) < d))
    }

    /* One round. */

    function Halve(): (l: Layout)
      ensures |l.start| == |start|
    {
      var u := len / 2;
      Layout(w, nDims,
             seq(|start|, b requires 0 <= b < |start| =>
               if start[b] < 0 then -1
               else if b - start[b] < u then start[b]
               else if b - start[b] < 2 * u then start[b] + u
               else -1),
             u)
    }

    lemma HalveSame()
      ensures Halve().w == w && Halve().nDims == nDims && Halve().len == len / 2
    {
    }

    lemma HalveOk()
      requires Ok() && 2 <= len
      ensures Halve().Ok()
    {
      var l := Halve();
      forall b | 0 <= b < |l.start| && 0 <= l.start[b] ensures l.ChunkOk(b) {
        assert ChunkOk(b);
      }
    }

    lemma HalveRows(b: nat)
      requires Ok() && 2 <= len && b < |start|
      ensures Halve().start[b] == b <==> start[b] == b || (len / 2 <= b && start[b - len / 2] == b - len / 2)
    {
      if start[b] >= 0 {
        assert ChunkOk(b);
      }
      if len / 2 <= b && start[b - len / 2] >= 0 {
        assert ChunkOk(b - len / 2);
      }
    }

    lemma HalveWidth(x: nat)
      requires 2 <= len && 1 <= nDims && x < At(len / 2, nDims, 0)
      ensures x < At(len, nDims, 0)
      ensures At(len / 2, nDims, x) < At(len, nDims, 0)
    {
      assert At(2 * (len / 2), nDims, 0) == At(len / 2, nDims, 0) + At(len / 2, nDims, 0);
      assert len == 2 * (len / 2) || len == 2 * (len / 2) + 1;
      assert At(2 * (len / 2) + 1, nDims, 0) == At(2 * (len / 2), nDims, 0) + nDims;
    }

    // A chunk becomes two: x lies in its first half, or in its second.
    lemma HalveLies(k: nat, b: nat, x: nat)
      requires Ok() && 2 <= len && Halve().Lies(k, b, x)
      ensures Lies(k, b, x) || (len / 2 <= b && Lies(k, b - len / 2, At(len / 2, nDims, x)))
    {
      HalveRows(b);
      HalveWidth(x);
      assert len / 2 <= b ==> At(b, nDims, x) == At(b - len / 2, nDims, At(len / 2, nDims, x));
    }

    lemma HalvesLie(k: nat, b: nat, x: nat)
      requires Ok() && 2 <= len && x < At(len / 2, nDims, 0)
      ensures Lies(k, b, x) ==> Halve().Lies(k, b, x)
      ensures Lies(k, b, At(len / 2, nDims, x)) ==> Halve().Lies(k, b + len / 2, x)
    {
      if b < |start| && start[b] == b {
        assert ChunkOk(b);
        HalveRows(b);
        HalveRows(b + len / 2);
      }
      assert At(b, nDims, At(len / 2, nDims, x)) == At(b + len / 2, nDims, x);
    }

    lemma WidthOf(b: nat, n: nat)
      requires Ok() && b <= |start| && n <= |start| - b
      ensures At(b, nDims, 0) + At(n, nDims, 0) == At(b + n, nDims, 0) <= WIDTH
    {
      assert At(b + n, nDims, 0) + At(|start| - b - n, nDims, 0) == At(|start|, nDims, 0);
    }

    lemma HalfFits()
      requires Ok() && 2 <= len
      ensures len / 2 <= At(len / 2, nDims, 0) < WIDTH
    {
      WidthOf(len / 2, len / 2);
      assert At(len / 2, nDims, 0) >= len / 2;
    }

    // Each chunk gets a second end half way.
    lemma EndsStep(ends: nat)
      requires Ok() && 2 <= len && IsEnds(ends)
      ensures Halve().Ok() && At(len / 2, nDims, 0) < WIDTH
      ensures Halve().IsEnds(Or(ends, Shl(ends, At(len / 2, nDims, 0))))
    {
      hide Bit, Or, Shl, Ok, ChunkOk, Halve, Inside, Off;
      HalfFits();
      HalveOk();
      var l, step := Halve(), At(len / 2, nDims, 0);
      var v := Or(ends, Shl(ends, step));
      forall k: nat ensures Bit(v, k) <==> l.Inside(k) && l.Off(k) == 0 {
        if Bit(v, k) {
          EndsGiven(ends, k);
        }
        if l.Inside(k) && l.Off(k) == 0 {
          EndsFound(ends, k);
        }
      }
    }

    lemma EndsGiven(ends: nat, k: nat)
      requires Ok() && 2 <= len && IsEnds(ends) && Halve().Ok()
      requires Bit(ends, k) || (At(len / 2, nDims, 0) <= k && Bit(ends, k - At(len / 2, nDims, 0)))
      ensures Halve().Inside(k) && Halve().Off(k) == 0
    {
      hide Bit, Ok, ChunkOk, Halve, Inside, Off;
      var u := len / 2;
      HalfFits();
      HalveWidth(0);
      if Bit(ends, k) {
        Locate(k);
        HalvesLie(k, Chunk(k), 0);
        Halve().Located(k, Chunk(k), 0);
      } else {
        var j := k - At(u, nDims, 0);
        Locate(j);
        HalvesLie(k, Chunk(j), 0);
        Halve().Located(k, Chunk(j) + u, 0);
      }
    }

    lemma EndsFound(ends: nat, k: nat)
      requires Ok() && 2 <= len && IsEnds(ends) && Halve().Ok() && At(len / 2, nDims, 0) < WIDTH
      requires Halve().Inside(k) && Halve().Off(k) == 0
      ensures Bit(Or(ends, Shl(ends, At(len / 2, nDims, 0))), k)
    {
      hide Bit, Or, Shl, ChunkOk, Halve, Inside, Off, At;
      var l, step := Halve(), At(len / 2, nDims, 0);
      l.Locate(k);
      var b := l.Chunk(k);
      l.Located(k, b, 0);
      HalveLies(k, b, 0);
      if Lies(k, b, 0) {
        Located(k, b, 0);
      } else {
        AtSum(b - len / 2, 0, step, 0, nDims);
        assert Lies(k - step, b - len / 2, 0);
        Located(k - step, b - len / 2, 0);
      }
    }

    // The mask of the low bits of every chunk, from the chunk ends.
    lemma MaskStep(ends: nat, width: nat)
      requires Ok() && len < WIDTH == width && IsEnds(ends)
      requires At(|start|, nDims, 0) < WIDTH || 2 <= nDims
      ensures ends <= Pow2(width)
      ensures IsMask(MinusMod(Shl(ends, len), ends, width), len)
    {
      hide Bit, Shl, Near, MinusMod, Inside, Off, Ok, ChunkOk;
      forall k: nat {:trigger Bit(ends, k)} | Bit(ends, k) ensures k + len < WIDTH {
        EndRoom(ends, k);
      }
      assert Spaced(ends, len) by {
        forall j: nat, k: nat | j < k && Bit(ends, j) && Bit(ends, k) ensures len <= k - j {
          EndsApart(ends, j, k);
        }
      }
      FieldMask(ends, len, width);
      forall k: nat ensures Near(ends, k, len) <==> Inside(k) && Off(k) < len {
        MaskAt(ends, k);
      }
    }

    lemma EndRoom(ends: nat, k: nat)
      requires Ok() && IsEnds(ends) && Bit(ends, k)
      requires At(|start|, nDims, 0) < WIDTH || 2 <= nDims
      ensures k + len < WIDTH
    {
      hide At, Bit, Inside, Off;
      Locate(k);
      var b := Chunk(k);
      assert ChunkOk(b);
      WidthOf(b, len);
      WidthOf(b + len, |start| - b - len);
      AtGrows(len, nDims);
      AtZero(b);
    }

    lemma AtZero(b: nat)
      ensures forall k: nat :: Lies(k, b, 0) ==> k == At(b, nDims, 0)
    {
    }

    lemma EndsApart(ends: nat, j: nat, k: nat)
      requires Ok() && IsEnds(ends) && j < k && Bit(ends, j) && Bit(ends, k)
      ensures len <= k - j
    {
      hide At, Bit, Inside, Off, Ok;
      Locate(j);
      Locate(k);
      AtZero(Chunk(j));
      AtZero(Chunk(k));
      ChunksApart(Chunk(j), Chunk(k));
      EndsOk();
      AtGrows(len, nDims);
    }

    lemma ChunksApart(a: nat, b: nat)
      requires Ok() && a < |start| && b < |start| && start[a] == a && start[b] == b
      requires At(a, nDims, 0) < At(b, nDims, 0)
      ensures a + len <= b && At(a, nDims, 0) + At(len, nDims, 0) <= At(b, nDims, 0)
    {
      assert ChunkOk(a) && ChunkOk(b);
      AtOrder(a, b, nDims);
      assert At(a + len, nDims, 0) + At(b - a - len, nDims, 0) == At(b, nDims, 0);
    }

    lemma MaskAt(ends: nat, k: nat)
      requires Ok() && IsEnds(ends)
      ensures Near(ends, k, len) <==> Inside(k) && Off(k) < len
    {
      hide Bit, Inside, Off, Ok, ChunkOk, Near;
      assert At(len, nDims, 0) >= len by {
        assert 1 <= nDims by {
          EndsOk();
        }
      }
      if Near(ends, k, len) {
        var j := NearBy(ends, k, len);
        Locate(k - j);
        Located(k, Chunk(k - j), j);
      }
      if Inside(k) && Off(k) < len {
        Locate(k);
        Located(k - Off(k), Chunk(k), 0);
        NearFrom(ends, k, len, Off(k));
      }
    }

    lemma EndsOk()
      requires Ok()
      ensures 1 <= nDims && 1 <= len
    {
    }

    // The mask takes out field d, once the d fields before it are shifted out.
    lemma FieldStep(data: nat, rest: nat, mask: nat, d: nat)
      requires Ok() && d < nDims && IsData(data, nDims) && IsRest(rest, data, d, len) && IsMask(mask, len)
      ensures IsField(And(rest, mask), d, len)
    {
      hide Bit, And, Ok, ChunkOk, Inside, Off, Source;
      var v := And(rest, mask);
      forall k: nat ensures Bit(v, k) <==> HasField(k, d, len) {
        if Inside(k) && Off(k) < len {
          FieldAt(k, d);
        }
      }
    }

    lemma FieldAt(k: nat, d: nat)
      requires Ok() && d < nDims && Inside(k) && Off(k) < len
      ensures 0 <= Off(k) && k < WIDTH
      ensures HasData(At(d, len, k), nDims) <==> Source(d, Chunk(k) + Off(k))
    {
      hide Bit, ChunkOk, Inside, Off, Source;
      Locate(k);
      var b, x := Chunk(k), Off(k);
      Located(k, b, x);
      assert At(d, len, x) < At(len, nDims, 0) by {
        AtBelow(d, nDims, len, x);
        assert At(nDims, len, 0) == At(len, nDims, 0);
      }
      assert At(d, len, k) == At(b, nDims, At(d, len, x));
      Located(At(d, len, k), b, At(d, len, x));
      DivModUnique(At(d, len, x), d, x, len);
    }

    // For an odd chunk length the top bit of the field goes to its place.
    lemma OddStep(placed: nat, field: nat, ends: nat, d: nat, shift: nat)
      requires Ok() && len % 2 == 1 && d < nDims && len - 1 < WIDTH
      requires shift == 2 * ((nDims - 1) * (len / 2)) + d < WIDTH
      requires IsPlaced(placed, len - 1, d) && IsField(field, d, len) && IsEnds(ends)
      ensures IsPlaced(Or(placed, Shl(And(field, Shl(ends, len - 1)), shift)), len - 1, d + 1)
    {
      hide Bit, And, Or, Shl, Ok, ChunkOk, Inside, Off, Source;
      var v := Or(placed, Shl(And(field, Shl(ends, len - 1)), shift));
      forall k: nat ensures Bit(v, k) <==> HasPlaced(k, len - 1, d + 1) {
        OddAt(placed, field, ends, d, shift, k);
      }
    }

    lemma OddAt(placed: nat, field: nat, ends: nat, d: nat, shift: nat, k: nat)
      requires Ok() && len % 2 == 1 && d < nDims && len - 1 < WIDTH
      requires shift == 2 * ((nDims - 1) * (len / 2)) + d < WIDTH
      requires IsPlaced(placed, len - 1, d) && IsField(field, d, len) && IsEnds(ends)
      ensures HasPlaced(k, len - 1, d + 1) <==>
        k < WIDTH && (HasPlaced(k, len - 1, d) || (shift + len - 1 <= k && Bit(field, k - shift) && Bit(ends, k - shift - (len - 1))))
    {
      hide Bit, Ok, ChunkOk, Inside, Off, Source;
      EndsOk();
      OddShift(d, shift);
      if shift + len - 1 <= k && Bit(ends, k - shift - (len - 1)) {
        OddFound(k, d, shift);
      }
      if HasPlaced(k, len - 1, d + 1) {
        PlacedRoom(k, len - 1, d + 1);
        if !HasPlaced(k, len - 1, d) {
          OddMade(k, d, shift);
        }
      }
    }

    lemma OddShift(d: nat, shift: nat)
      requires 1 <= nDims && len % 2 == 1 && shift == 2 * ((nDims - 1) * (len / 2)) + d
      ensures len - 1 + shift == At(len - 1, nDims, d)
    {
      var u := len / 2;
      assert (nDims - 1) * u == nDims * u - u;
      assert (2 * u) * nDims == 2 * (nDims * u);
    }

    lemma PlacedRoom(k: nat, odd: nat, d: nat)
      requires Ok() && HasPlaced(k, odd, d)
      ensures k < WIDTH
    {
      assert k == At(Row(k), nDims, Remainder(k, nDims));
      AtBelow(Row(k), |start|, nDims, Remainder(k, nDims));
    }

    // A chunk's head bit lands in the chunk's last row, column d.
    lemma OddFound(k: nat, d: nat, shift: nat)
      requires Ok() && d < nDims && shift + len - 1 <= k && len - 1 + shift == At(len - 1, nDims, d)
      requires Inside(k - shift - (len - 1)) && Off(k - shift - (len - 1)) == 0
      ensures Inside(k - shift) && Off(k - shift) == len - 1
      ensures HasPlaced(k, len - 1, d + 1) <==> Source(d, Chunk(k - shift) + len - 1)
      ensures k < WIDTH
    {
      hide Bit, Inside, Off, Source, Row, Remainder, At;
      var j := k - shift - (len - 1);
      Locate(j);
      var b := Chunk(j);
      assert ChunkOk(b);
      AtGrows(len, nDims);
      AtSum(b, len - 1, d, 0, nDims);
      AtSum(b, 0, len - 1, 0, nDims);
      Located(k - shift, b, len - 1);
      RowIs(k, b + len - 1, d);
      AtBelow(b + len - 1, |start|, nDims, d);
    }

    lemma AtSum(a: nat, b: nat, x: nat, y: nat, width: nat)
      ensures At(a, width, y) + At(b, width, x) == At(a + b, width, x + y)
      ensures At(0, width, x) == x
    {
    }

    lemma RowSplit(k: nat)
      requires 1 <= nDims
      ensures k == At(Row(k), nDims, Remainder(k, nDims))
    {
    }

    lemma OddMade(k: nat, d: nat, shift: nat)
      requires Ok() && d < nDims && len - 1 + shift == At(len - 1, nDims, d)
      requires HasPlaced(k, len - 1, d + 1) && !HasPlaced(k, len - 1, d)
      ensures shift + len - 1 <= k
      ensures Inside(k - shift - (len - 1)) && Off(k - shift - (len - 1)) == 0
      ensures Inside(k - shift) && Off(k - shift) == len - 1 && Source(d, Chunk(k - shift) + len - 1)
    {
      hide Bit, Inside, Off, Source, At;
      var r := Row(k);
      var b: nat := start[r];
      assert ChunkOk(r);
      RowSplit(k);
      AtSum(b, len - 1, d, 0, nDims);
      AtGrows(len, nDims);
      Located(At(b, nDims, 0), b, 0);
      OddFound(k, d, shift);
    }

    // The field is doubled and masked, which spreads its halves apart.
    lemma SpreadStep(field: nat, mask: nat, d: nat, shift: nat)
      requires Ok() && 2 <= len && d < nDims && shift == (nDims - 1) * (len / 2) < WIDTH
      requires IsField(field, d, 2 * (len / 2)) && Halve().Ok() && Halve().IsMask(mask, len / 2)
      ensures Halve().IsField(And(Or(field, Shl(field, shift)), mask), d, len / 2)
    {
      hide Bit, And, Or, Shl, Ok, ChunkOk, Halve, Inside, Off, At;
      HalveSame();
      var l := Halve();
      var v := And(Or(field, Shl(field, shift)), mask);
      forall k: nat ensures Bit(v, k) <==> l.HasField(k, d, len / 2) {
        if l.Inside(k) && l.Off(k) < len / 2 {
          SpreadAt(field, d, shift, k);
        }
      }
    }

    lemma SpreadAt(field: nat, d: nat, shift: nat, k: nat)
      requires Ok() && 2 <= len && d < nDims && shift == (nDims - 1) * (len / 2)
      requires IsField(field, d, 2 * (len / 2)) && Halve().Ok()
      requires Halve().Inside(k) && Halve().Off(k) < len / 2
      ensures 0 <= Halve().Off(k) && k < WIDTH
      ensures Bit(field, k) || (shift <= k && Bit(field, k - shift)) <==> Source(d, Halve().Chunk(k) + Halve().Off(k))
    {
      hide Bit, Ok, Halve, Inside, Off, Source, At, IsField;
      SpreadShift(shift);
      SpreadCase(field, d, shift, k, len / 2);
    }

    lemma SpreadCase(field: nat, d: nat, shift: nat, k: nat, u: nat)
      requires Ok() && 2 <= len && d < nDims && u == len / 2
      requires At(u, nDims, 0) == shift + u && (nDims >= 2 ==> shift >= u) && (nDims == 1 ==> shift == 0)
      requires IsField(field, d, 2 * u) && Halve().Ok()
      requires Halve().Inside(k) && Halve().Off(k) < u
      ensures 0 <= Halve().Off(k) && k < WIDTH
      ensures Bit(field, k) || (shift <= k && Bit(field, k - shift)) <==> Source(d, Halve().Chunk(k) + Halve().Off(k))
    {
      hide Bit, Ok, ChunkOk, Halve, Inside, Off, Source, At, IsField;
      var l := Halve();
      l.Locate(k);
      var b, x := l.Chunk(k), l.Off(k);
      l.Located(k, b, x);
      HalveLies(k, b, x);
      if Lies(k, b, x) {
        SpreadFirst(field, d, shift, k, u, b, x);
      } else {
        SpreadSecond(field, d, shift, k, u, b, x);
      }
    }

    lemma FieldBit(field: nat, d: nat, n: nat, k: nat)
      requires IsField(field, d, n)
      ensures Bit(field, k) <==> HasField(k, d, n)
    {
      hide Bit;
    }

    // In the first half of a chunk the field stays where it is.
    lemma SpreadFirst(field: nat, d: nat, shift: nat, k: nat, u: nat, b: nat, x: nat)
      requires Ok() && 2 <= len && d < nDims && u == len / 2 && x < u && Lies(k, b, x)
      requires At(u, nDims, 0) == shift + u && (nDims >= 2 ==> shift >= u) && (nDims == 1 ==> shift == 0)
      requires IsField(field, d, 2 * u)
      ensures k < WIDTH
      ensures Bit(field, k) || (shift <= k && Bit(field, k - shift)) <==> Source(d, b + x)
    {
      hide Bit, ChunkOk, Inside, Off, Source, At, IsField;
      Located(k, b, x);
      FieldBit(field, d, 2 * u, k);
      if shift <= k {
        NothingBelow(field, d, shift, k, b, x);
      }
    }

    // In the second half it comes from the end of the first.
    lemma SpreadSecond(field: nat, d: nat, shift: nat, k: nat, u: nat, b: nat, x: nat)
      requires Ok() && 2 <= len && d < nDims && u == len / 2 <= b && x < u && Lies(k, b - u, At(u, nDims, x))
      requires At(u, nDims, 0) == shift + u && (nDims >= 2 ==> shift >= u) && (nDims == 1 ==> shift == 0)
      requires IsField(field, d, 2 * u)
      ensures k < WIDTH
      ensures Bit(field, k) || (shift <= k && Bit(field, k - shift)) <==> Source(d, b + x)
    {
      hide Bit, ChunkOk, Inside, Off, Source, At, IsField;
      AtGrows(len, nDims);
      AtSum(u, 0, x, 0, nDims);
      Located(k, b - u, At(u, nDims, x));
      AtSum(b - u, 0, u + x, 0, nDims);
      AtSum(b - u, 0, At(u, nDims, x), 0, nDims);
      Located(k - shift, b - u, u + x);
      FieldBit(field, d, 2 * u, k);
      FieldBit(field, d, 2 * u, k - shift);
    }

    lemma SpreadShift(shift: nat)
      requires Ok() && shift == (nDims - 1) * (len / 2)
      ensures At(len / 2, nDims, 0) == shift + len / 2
      ensures nDims == 1 ==> shift == 0
      ensures nDims >= 2 ==> shift >= len / 2
    {
      var u := len / 2;
      assert u * nDims == (nDims - 1) * u + u;
    }

    // The shifted field has nothing in the first half of a chunk's rows.
    lemma NothingBelow(field: nat, d: nat, shift: nat, k: nat, b: nat, x: nat)
      requires Ok() && 2 <= len && shift <= k && x < len / 2 && Lies(k, b, x)
      requires At(len / 2, nDims, 0) == shift + len / 2 && (nDims >= 2 ==> shift >= len / 2) && (nDims == 1 ==> shift == 0)
      requires IsField(field, d, 2 * (len / 2))
      ensures Bit(field, k - shift) ==> shift == 0
    {
      hide Bit, ChunkOk, Inside, Off, Source, At;
      var u := len / 2;
      if Bit(field, k - shift) && shift > 0 {
        Locate(k - shift);
        var a, y := Chunk(k - shift), Off(k - shift);
        AtSum(a, 0, y, 0, nDims);
        AtSum(b, 0, x, 0, nDims);
        assert At(a, nDims, y) < At(b, nDims, 0);
        ChunksApart(a, b);
        AtSum(u, u, 0, 0, nDims);
        AtSum(2 * u, len - 2 * u, 0, 0, nDims);
        assert false;
      }
    }

    // The spread field joins those before it.
    lemma GatherStep(data: nat, field: nat, d: nat)
      requires Ok() && d < nDims && IsData(data, d) && IsField(field, d, len)
      ensures At(d, len, 0) < WIDTH
      ensures IsData(Or(data, Shl(field, At(d, len, 0))), d + 1)
    {
      hide Bit, Or, Shl, Ok, ChunkOk, Inside, Off, Source, At;
      GatherRoom(d);
      var v, shift := Or(data, Shl(field, At(d, len, 0))), At(d, len, 0);
      forall k: nat ensures Bit(v, k) <==> HasData(k, d + 1) {
        GatherAt(k, d);
      }
    }

    lemma GatherRoom(d: nat)
      requires Ok() && d < nDims
      ensures At(d, len, 0) < WIDTH
    {
      AtBelow(d, nDims, len, 0);
      assert At(nDims, len, 0) == At(len, nDims, 0);
      WidthOf(0, len);
      assert At(|start|, nDims, 0) >= At(len, nDims, 0) by {
        WidthOf(len, |start| - len);
      }
    }

    lemma GatherAt(k: nat, d: nat)
      requires Ok() && d < nDims
      ensures HasData(k, d + 1) ==> k < WIDTH
      ensures HasData(k, d + 1) <==>
        HasData(k, d) || (At(d, len, 0) <= k && HasField(k - At(d, len, 0), d, len))
    {
      hide Bit, ChunkOk, Inside, Off, Source;
      var shift := At(d, len, 0);
      if HasData(k, d + 1) {
        Locate(k);
        var b, x := Chunk(k), Off(k);
        Located(k, b, x);
        if Quotient(x, len) == d {
          assert At(b, nDims, x - shift) + shift == At(b, nDims, x);
          Located(k - shift, b, x - shift);
        }
      }
      if shift <= k && HasField(k - shift, d, len) {
        var j := k - shift;
        Locate(j);
        var b, y := Chunk(j), Off(j);
        AtBelow(d, nDims, len, y);
        assert At(nDims, len, 0) == At(len, nDims, 0);
        assert At(b, nDims, y + shift) == At(b, nDims, y) + shift;
        Located(k, b, y + shift);
        DivModUnique(y + shift, d, y, len);
      }
    }

    // The top bit is dropped from the field.
    lemma DropHeads(field: nat, ends: nat, d: nat)
      requires Ok() && 1 <= len <= WIDTH && IsField(field, d, len) && IsEnds(ends)
      ensures IsField(And(field, Not(Shl(ends, len - 1))), d, len - 1)
    {
      hide Bit, And, Not, Shl, Ok, ChunkOk, Inside, Off, Source;
      EndsOk();
      var v := And(field, Not(Shl(ends, len - 1)));
      forall k: nat ensures Bit(v, k) <==> HasField(k, d, len - 1) {
        if len - 1 <= k && Bit(ends, k - (len - 1)) {
          HeadAt(k);
        }
        if HasField(k, d, len) {
          FieldRoom(k);
        }
      }
    }

    lemma HeadAt(k: nat)
      requires Ok() && len - 1 <= k && Inside(k - (len - 1)) && Off(k - (len - 1)) == 0
      ensures Inside(k) && Off(k) == len - 1
    {
      hide Inside, Off;
      Locate(k - (len - 1));
      AtGrows(len, nDims);
      Located(k, Chunk(k - (len - 1)), len - 1);
    }

    lemma FieldRoom(k: nat)
      requires Ok() && Inside(k) && Off(k) < len
      ensures k < WIDTH
      ensures Off(k) == len - 1 ==> len - 1 <= k && Inside(k - (len - 1)) && Off(k - (len - 1)) == 0
    {
      hide Inside, Off;
      Locate(k);
      var b, x := Chunk(k), Off(k);
      Located(k, b, x);
      if x == len - 1 {
        Located(k - x, b, 0);
      }
    }

    // A finished round leaves the next layout's rows in place.
    lemma PlacedHalve(placed: nat)
      requires Ok() && 2 <= len && IsPlaced(placed, len - 1, if len % 2 == 1 then nDims else 0)
      ensures Halve().IsPlaced(placed, Halve().len - 1, 0)
    {
      hide Bit, Ok, Source;
      var l, d := Halve(), if len % 2 == 1 then nDims else 0;
      var odd, odd' := len - 1, l.len - 1;
      forall k: nat ensures HasPlaced(k, odd, d) <==> l.HasPlaced(k, odd', 0) {
        if 1 <= nDims && Row(k) < |start| {
          assert l.Source(Remainder(k, nDims), Row(k)) == Source(Remainder(k, nDims), Row(k)) by {
            SameSource(l, Remainder(k, nDims), Row(k));
          }
          HalveGone(Row(k));
        }
      }
    }

    lemma SameSource(l: Layout, d: nat, b: nat)
      requires l.w == w && |l.start| == |start|
      ensures l.Source(d, b) == Source(d, b)
    {
    }

    lemma HalveGone(b: nat)
      requires Ok() && 2 <= len && b < |start|
      ensures Halve().start[b] < 0 <==> start[b] < 0 || (len % 2 == 1 && b - start[b] == len - 1)
    {
      if start[b] >= 0 {
        assert ChunkOk(b);
      }
    }

    // The shifts of one round stay below the word width.
    lemma RoundFits(shiftAmt: nat)
      requires Ok() && 2 <= len && |start| < WIDTH && shiftAmt == Times(nDims - 1, len / 2)
      ensures shiftAmt + len / 2 == At(len / 2, nDims, 0) < WIDTH
      ensures Halve().Ok() && Halve().w == w && Halve().nDims == nDims && Halve().len == len / 2
      ensures At(|start|, nDims, 0) < WIDTH || 2 <= nDims
    {
      hide Bit, ChunkOk, Halve;
      HalfFits();
      HalveOk();
      HalveSame();
      SpreadShift(shiftAmt);
    }

    lemma OddFits(d: nat, shiftAmt: nat)
      requires Ok() && 1 <= len && d < nDims && len % 2 == 1 && shiftAmt == (nDims - 1) * (len / 2)
      ensures 2 * shiftAmt + d < WIDTH && len - 1 < WIDTH
    {
      hide ChunkOk;
      OddShift(d, 2 * shiftAmt + d);
      WidthOf(0, len);
      WidthOf(0, |start|);
      AtBelow(len - 1, |start|, nDims, d);
    }

    lemma NoData()
      ensures IsData(0, 0)
    {
      ZeroBits();
    }

    lemma NoRest(data: nat)
      requires Ok() && IsData(data, nDims)
      ensures IsRest(data, data, 0, len) && IsWord(data)
    {
      hide Bit, Ok, ChunkOk, Inside, Off;
      forall k: nat | WIDTH <= k ensures !Bit(data, k) {
        if HasData(k, nDims) {
          Locate(k);
          Located(k, Chunk(k), Off(k));
          WidthOf(0, |start|);
        }
      }
    }

    // With chunks of one row, the two words together are the transpose.
    lemma Finish(placed: nat, data: nat)
      requires Ok() && len == 1 && IsPlaced(placed, 0, 0) && IsData(data, nDims)
      ensures IsTranspose(Or(placed, data), w, nDims, |start|)
    {
      hide Bit, Or, Ok, ChunkOk, Inside, Off;
      var v := Or(placed, data);
      EndsOk();
      forall b: nat, d: nat {:trigger At(b, nDims, d)} | b < |start| && d < nDims
        ensures Bit(v, At(b, nDims, d)) == Source(d, b)
      {
        FinishAt(b, d);
      }
      forall k: nat | At(|start|, nDims, 0) <= k ensures !Bit(v, k) {
        if HasPlaced(k, 0, 0) {
          AtBelow(Row(k), |start|, nDims, Remainder(k, nDims));
        }
        if HasData(k, nDims) {
          Locate(k);
          Located(k, Chunk(k), Off(k));
        }
      }
    }

    lemma FinishAt(b: nat, d: nat)
      requires Ok() && len == 1 && b < |start| && d < nDims
      ensures At(b, nDims, d) < WIDTH
      ensures HasPlaced(At(b, nDims, d), 0, 0) || HasData(At(b, nDims, d), nDims) <==> Source(d, b)
    {
      hide Bit, Source;
      var k := At(b, nDims, d);
      AtBelow(b, |start|, nDims, d);
      RowIs(k, b, d);
      if 0 <= start[b] {
        assert ChunkOk(b);
        assert At(len, nDims, 0) == nDims;
        Located(k, b, d);
        DivModUnique(d, d, 0, 1);
      }
    }
  }

  function Whole(w: nat, nDims: nat, nBits: nat): (l: Layout)
    ensures |l.start| == nBits && l.len == nBits && l.w == w && l.nDims == nDims
  {
    Layout(w, nDims, seq(nBits, _ => 0), nBits)
  }

  lemma Begin(w: nat, nDims: nat, nBits: nat)
    requires 1 <= nDims && 1 <= nBits < WIDTH && At(nBits, nDims, 0) <= WIDTH
    requires forall k: nat {:trigger Bit(w, k)} :: At(nBits, nDims, 0) <= k ==> !Bit(w, k)
    ensures Whole(w, nDims, nBits).Ok()
    ensures Whole(w, nDims, nBits).IsEnds(1)
    ensures Whole(w, nDims, nBits).IsMask(Mask(nBits), nBits)
    ensures Whole(w, nDims, nBits).IsData(w, nDims)
    ensures Whole(w, nDims, nBits).IsPlaced(0, nBits - 1, 0)
  {
    hide Bit, Mask;
    var l := Whole(w, nDims, nBits);
    ZeroBits();
    AtGrows(nBits, nDims);
    forall k: nat
      ensures Bit(1, k) <==> l.Inside(k) && l.Off(k) == 0
      ensures k < nBits <==> l.Inside(k) && l.Off(k) < nBits
      ensures Bit(w, k) <==> l.HasData(k, nDims)
    {
      OneBit(k);
      BeginAt(w, nDims, nBits, k);
    }
  }

  lemma BeginAt(w: nat, nDims: nat, nBits: nat, k: nat)
    requires 1 <= nDims && 1 <= nBits
    ensures Whole(w, nDims, nBits).Inside(k) <==> k < At(nBits, nDims, 0)
    ensures Whole(w, nDims, nBits).Inside(k) ==> Whole(w, nDims, nBits).Off(k) == k
    ensures Whole(w, nDims, nBits).HasData(k, nDims) <==> k < At(nBits, nDims, 0) && Bit(w, k)
  {
    hide Bit;
    var l := Whole(w, nDims, nBits);
    if k < At(nBits, nDims, 0) {
      var r, c := Split(k, nBits, nDims);
      l.RowIs(k, r, c);
      assert At(nBits, nDims, 0) == At(nDims, nBits, 0);
      var d, x := Split(k, nDims, nBits);
      DivModUnique(k, d, x, nBits);
    } else if l.Row(k) < nBits {
      AtBelow(l.Row(k), nBits, nDims, Remainder(k, nDims));
    }
  }

  // A round on an odd number of bits: the top bit of each field goes to its place, and
  // the halves of the rest are spread apart.
  method OddRound(ghost l: Layout, nDims: nat, inB: nat, inFieldEnds: nat, inMask: nat, utMask: nat, shiftAmt: nat, w: nat, placed: nat)
    returns (coords: nat, utCoords: nat)
    requires l.Ok() && l.nDims == nDims && 2 <= inB == l.len && inB < WIDTH && inB % 2 == 1 && |l.start| < WIDTH && shiftAmt == Times(nDims - 1, inB / 2)
    requires l.IsEnds(inFieldEnds) && l.IsMask(inMask, inB) && l.IsData(w, nDims) && l.IsPlaced(placed, inB - 1, 0)
    requires l.Halve().IsMask(utMask, inB / 2)
    ensures l.Halve().IsData(utCoords, nDims) && l.IsPlaced(coords, inB - 1, nDims)
  {
    hide Bit, And, Or, Not, Shl, Shr, MinusMod, IsWord, Mask;
    hide Layout.Ok, Layout.ChunkOk, Layout.Halve, Layout.IsEnds, Layout.IsMask, Layout.IsData, Layout.IsField, Layout.IsPlaced, IsRest;
    var utB := inB / 2;
    var inCoords := w;
    ghost var h := l.Halve();
    l.RoundFits(shiftAmt);
    h.NoData();
    l.NoRest(inCoords);
    coords, utCoords := placed, 0;
    var inFieldStarts := Shl(inFieldEnds, inB - 1);
    var oddShift := 2 * shiftAmt;
    for d := 0 to nDims
      invariant oddShift == 2 * shiftAmt + d
      invariant IsRest(inCoords, w, d, inB) && l.IsPlaced(coords, inB - 1, d) && h.IsData(utCoords, d)
    {
      l.OddFits(d, shiftAmt);
      var field := And(inCoords, inMask);
      l.FieldStep(w, inCoords, inMask, d);
      RestStep(inCoords, w, d, inB);
      inCoords := Shr(inCoords, inB);
      l.OddStep(coords, field, inFieldEnds, d, oddShift);
      coords := Or(coords, Shl(And(field, inFieldStarts), oddShift));
      oddShift := oddShift + 1;
      l.DropHeads(field, inFieldEnds, d);
      field := And(field, Not(inFieldStarts));
      l.SpreadStep(field, utMask, d, shiftAmt);
      field := And(Or(field, Shl(field, shiftAmt)), utMask);
      h.GatherStep(utCoords, field, d);
      utCoords := Or(utCoords, Shl(field, d * utB));
    }
  }

  // A round on an even number of bits.
  method EvenRound(ghost l: Layout, nDims: nat, inB: nat, inMask: nat, utMask: nat, shiftAmt: nat, w: nat) returns (utCoords: nat)
    requires l.Ok() && l.nDims == nDims && 2 <= inB == l.len && inB < WIDTH && inB % 2 == 0 && |l.start| < WIDTH && shiftAmt == Times(nDims - 1, inB / 2)
    requires l.IsMask(inMask, inB) && l.IsData(w, nDims) && l.Halve().IsMask(utMask, inB / 2)
    ensures l.Halve().IsData(utCoords, nDims)
  {
    hide Bit, And, Or, Not, Shl, Shr, MinusMod, IsWord, Mask;
    hide Layout.Ok, Layout.ChunkOk, Layout.Halve, Layout.IsMask, Layout.IsData, Layout.IsField, IsRest;
    var utB := inB / 2;
    var inCoords := w;
    ghost var h := l.Halve();
    l.RoundFits(shiftAmt);
    h.NoData();
    l.NoRest(inCoords);
    utCoords := 0;
    for d := 0 to nDims
      invariant IsRest(inCoords, w, d, inB) && h.IsData(utCoords, d)
    {
      var field := And(inCoords, inMask);
      l.FieldStep(w, inCoords, inMask, d);
      RestStep(inCoords, w, d, inB);
      inCoords := Shr(inCoords, inB);
      l.SpreadStep(field, utMask, d, shiftAmt);
      field := And(Or(field, Shl(field, shiftAmt)), utMask);
      h.GatherStep(utCoords, field, d);
      utCoords := Or(utCoords, Shl(field, d * utB));
    }
  }

  method BitTranspose(nDims: nat, nBits: nat, w: nat) returns (coords: nat)
    requires 1 <= nDims && 1 <= nBits < 64 && At(nBits, nDims, 0) <= 64
    requires forall k: nat {:trigger Bit(w, k)} :: At(nBits, nDims, 0) <= k ==> !Bit(w, k)
    ensures IsTranspose(coords, w, nDims, nBits)
  {
    hide Bit, And, Or, Not, Shl, Shr, MinusMod, IsWord, Mask;
    hide Layout.Ok, Layout.ChunkOk, Layout.Halve, Layout.IsEnds, Layout.IsMask, Layout.IsData, Layout.IsField, Layout.IsPlaced, IsRest, Whole, At, Times;
    var nDims1 := nDims - 1;
    var inB := nBits;
    var inFieldEnds := 1;
    var inMask := Mask(inB);
    var inCoords := w;
    coords := 0;
    ghost var l := Whole(w, nDims, nBits);
    Begin(w, nDims, nBits);
    while inB / 2 != 0
      invariant 1 <= inB <= nBits && l.Ok() && l.len == inB && l.w == w && l.nDims == nDims && |l.start| == nBits
      invariant l.IsEnds(inFieldEnds) && l.IsMask(inMask, inB) && l.IsData(inCoords, nDims) && l.IsPlaced(coords, inB - 1, 0)
      decreases inB
    {
      var utB := inB / 2;
      var shiftAmt := Times(nDims1, utB);
      ghost var h := l.Halve();
      l.RoundFits(shiftAmt);
      l.EndsStep(inFieldEnds);
      var utFieldEnds := Or(inFieldEnds, Shl(inFieldEnds, shiftAmt + utB));
      h.MaskStep(utFieldEnds, WIDTH);
      var utMask := MinusMod(Shl(utFieldEnds, utB), utFieldEnds, WIDTH);
      var utCoords;
      if inB % 2 == 1 {
        coords, utCoords := OddRound(l, nDims, inB, inFieldEnds, inMask, utMask, shiftAmt, inCoords, coords);
        l.PlacedHalve(coords);
      } else {
        utCoords := EvenRound(l, nDims, inB, inMask, utMask, shiftAmt, inCoords);
        l.PlacedHalve(coords);
      }
      l := h;
      inCoords := utCoords;
      inB := utB;
      inFieldEnds := utFieldEnds;
      inMask := utMask;
    }
    l.Finish(coords, inCoords);
    coords := Or(coords, inCoords);
  }
}
