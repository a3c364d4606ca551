/** The parity of xor.cpp: chunks are XORed together in slices, one thread a slice. */
module ParallelXor {

  type Byte = bv8

  // The XOR of the chunks at byte i.
  function XorAt(chunks: seq<seq<Byte>>, i: nat): Byte
    requires forall c :: 0 <= c < |chunks| ==> i < |chunks[c]|
  {
    if chunks == [] then 0
    else XorAt(chunks[..|chunks| - 1], i) ^ chunks[|chunks| - 1][i]
  }

  /* What an XOR is, bit by bit. */

  predicate BitOf(x: Byte, b: nat)
    requires b < 8
  {
    (x >> b as bv4) & 1 == 1
  }

  // The chunks whose byte i has bit b.
  ghost function Having(chunks: seq<seq<Byte>>, i: nat, b: nat): set<nat>
    requires b < 8 && forall c :: 0 <= c < |chunks| ==> i < |chunks[c]|
  {
    set c: nat | c < |chunks| && BitOf(chunks[c][i], b)
  }

  // A bit of the XOR is set when an odd number of the chunks have it.
  lemma {:induction false} XorIsParity(chunks: seq<seq<Byte>>, i: nat, b: nat)
    requires b < 8 && forall c :: 0 <= c < |chunks| ==> i < |chunks[c]|
    ensures BitOf(XorAt(chunks, i), b) <==> |Having(chunks, i, b)| % 2 == 1
  {
    hide BitOf, Having;
    if chunks == [] {
      ZeroBits(chunks, i, b);
    } else {
      var m := |chunks| - 1;
      XorIsParity(chunks[..m], i, b);
      XorBits(XorAt(chunks[..m], i), chunks[m][i], b);
      HavingMore(chunks, i, b);
    }
  }

  lemma HavingMore(chunks: seq<seq<Byte>>, i: nat, b: nat)
    requires b < 8 && chunks != [] && forall c :: 0 <= c < |chunks| ==> i < |chunks[c]|
    ensures
      var m := |chunks| - 1;
      |Having(chunks, i, b)| == |Having(chunks[..m], i, b)| + if BitOf(chunks[m][i], b) then 1 else 0
  {
    hide BitOf;
    var m := |chunks| - 1;
    var front := Having(chunks[..m], i, b);
    assert Having(chunks, i, b) == if BitOf(chunks[m][i], b) then front + {m} else front;
  }

  lemma ZeroBits(chunks: seq<seq<Byte>>, i: nat, b: nat)
    requires b < 8 && chunks == []
    ensures !BitOf(XorAt(chunks, i), b) && |Having(chunks, i, b)| == 0
  {
    assert Having(chunks, i, b) == {};
  }

  lemma XorBits(x: Byte, y: Byte, b: nat)
    requires b < 8
    ensures BitOf(x ^ y, b) <==> BitOf(x, b) != BitOf(y, b)
  {
    ShiftedXor(x, y, b as bv4);
    LowBits(x >> b as bv4, y >> b as bv4);
  }

  lemma ShiftedXor(x: Byte, y: Byte, s: bv4)
    requires s < 8
    ensures (x ^ y) >> s == (x >> s) ^ (y >> s)
  {
  }

  lemma LowBits(x: Byte, y: Byte)
    ensures (x ^ y) & 1 == 1 <==> (x & 1 == 1) != (y & 1 == 1)
  {
  }

  ghost predicate Sized(chunks: seq<seq<Byte>>, size: nat)
  {
    forall c :: 0 <= c < |chunks| ==> |chunks[c]| == size
  }

  lemma XorNext(chunks: seq<seq<Byte>>, n: nat, i: nat)
    requires n < |chunks| && forall c :: 0 <= c < |chunks| ==> i < |chunks[c]|
    ensures XorAt(chunks[..n + 1], i) == XorAt(chunks[..n], i) ^ chunks[n][i]
  {
    assert chunks[..n + 1][..n] == chunks[..n];
  }

  /* One thread: XORER::_xor on words that start at byte `at` of the chunks. */

  method XorWords(wordSize: nat, words: seq<seq<Byte>>, at: nat, r: array<Byte>)
    requires at + wordSize <= r.Length && forall w :: 0 <= w < |words| ==> at + wordSize <= |words[w]|
    modifies r
    ensures forall i :: at <= i < at + wordSize ==> r[i] == XorAt(words, i)
    ensures forall i :: 0 <= i < r.Length && !(at <= i < at + wordSize) ==> r[i] == old(r[i])
  {
    for i := 0 to wordSize
      invariant forall j :: at <= j < at + i ==> r[j] == 0
      invariant forall j :: 0 <= j < r.Length && !(at <= j < at + wordSize) ==> r[j] == old(r[j])
    {
      r[at + i] := 0;
    }
    for w := 0 to |words|
      invariant forall j :: at <= j < at + wordSize ==> r[j] == XorAt(words[..w], j)
      invariant forall j :: 0 <= j < r.Length && !(at <= j < at + wordSize) ==> r[j] == old(r[j])
    {
      for i := 0 to wordSize
        invariant forall j :: at <= j < at + i ==> r[j] == XorAt(words[..w + 1], j)
        invariant forall j :: at + i <= j < at + wordSize ==> r[j] == XorAt(words[..w], j)
        invariant forall j :: 0 <= j < r.Length && !(at <= j < at + wordSize) ==> r[j] == old(r[j])
      {
        XorNext(words, w, at + i);
        r[at + i] := r[at + i] ^ words[w][at + i];
      }
    }
    assert words[..|words|] == words;
  }

  /* The slices. */

  datatype Slice = Slice(start: nat, size: nat)

  function SliceWidth(size: nat, threads: nat): (q: nat)
    requires 1 <= threads
    ensures threads * q <= size < threads * (q + 1)
  {
    size / threads
  }

  function SliceOf(size: nat, threads: nat, t: nat): Slice
    requires t < threads
  {
    var q := SliceWidth(size, threads);
    Slice(t * q, if t < threads - 1 then q else q + size - threads * q)
  }

  // The loop of parallel_xor that deals out the work.
  // Every slice but the last has the same size, the greatest for which the bytes
  // suffice, and the last has what is left over besides, less than a byte a thread.
  method DealOut(size: nat, threads: nat) returns (slices: seq<Slice>, ghost q: nat)
    requires 1 <= threads
    ensures threads * q <= size < threads * (q + 1)
    ensures |slices| == threads
    ensures forall t :: 0 <= t < threads - 1 ==> slices[t].size == q
    ensures slices[threads - 1].size == q + (size - threads * q) < q + threads
    ensures slices[0].start == 0
    ensures forall t :: 0 <= t < threads - 1 ==> slices[t + 1].start == slices[t].start + slices[t].size
    ensures |slices| == threads && forall t :: 0 <= t < threads ==> slices[t] == SliceOf(size, threads, t)
  {
    slices := [];
    q := SliceWidth(size, threads);
    LastShort(size, threads, q);
    var start: nat := 0;
    for t := 0 to threads
      invariant |slices| == t && forall s :: 0 <= s < t ==> slices[s] == SliceOf(size, threads, s)
      invariant forall s :: 0 < s < t ==> slices[s].start == slices[s - 1].start + slices[s - 1].size
      invariant t > 0 ==> slices[0].start == 0
      invariant start == (if t < threads then t else t - 1) * SliceWidth(size, threads)
    {
      var q := SliceWidth(size, threads);
      if t > 0 {
        assert t * q == (t - 1) * q + q;
      }
      var wordSize := if t < threads - 1 then q else q + size - threads * q;
      slices := slices + [Slice(start, wordSize)];
      if t < threads - 1 {
        start := start + wordSize;
        assert (t + 1) * q == t * q + q;
      }
    }
  }

  lemma LastShort(size: nat, threads: nat, q: nat)
    requires threads * q <= size < threads * (q + 1)
    ensures size - threads * q < threads
  {
  }

  predicate InSlice(s: Slice, i: nat)
  {
    s.start <= i < s.start + s.size
  }

  lemma SliceEnd(size: nat, threads: nat, t: nat)
    requires t < threads
    ensures
      var s := SliceOf(size, threads, t);
      s.start + s.size == if t < threads - 1 then SliceOf(size, threads, t + 1).start else size
    ensures SliceOf(size, threads, t).start + SliceOf(size, threads, t).size <= size
  {
    var q := SliceWidth(size, threads);
    assert (t + 1) * q == t * q + q;
    assert threads * q == (threads - 1) * q + q;
    if t < threads - 1 {
      assert (t + 1) * q <= threads * q;
    }
  }

  lemma {:induction false} StartsAscend(size: nat, threads: nat, t: nat, s: nat)
    requires t < s < threads
    ensures SliceOf(size, threads, t).start + SliceOf(size, threads, t).size <= SliceOf(size, threads, s).start
    decreases s - t
  {
    SliceEnd(size, threads, t);
    if t + 1 < s {
      StartsAscend(size, threads, t + 1, s);
    }
  }

  // Every byte is in exactly one slice, for every number of threads.
  lemma {:induction false} SlicesTile(size: nat, threads: nat, i: nat)
    requires 1 <= threads && i < size
    ensures exists t :: 0 <= t < threads && InSlice(SliceOf(size, threads, t), i)
    ensures forall t, s :: 0 <= t < s < threads ==> !(InSlice(SliceOf(size, threads, t), i) && InSlice(SliceOf(size, threads, s), i))
  {
    SomeSlice(size, threads, i, threads - 1);
    forall t, s | 0 <= t < s < threads ensures !(InSlice(SliceOf(size, threads, t), i) && InSlice(SliceOf(size, threads, s), i)) {
      StartsAscend(size, threads, t, s);
    }
  }

  lemma {:induction false} SomeSlice(size: nat, threads: nat, i: nat, t: nat)
    requires t < threads && i < SliceOf(size, threads, t).start + SliceOf(size, threads, t).size
    ensures exists s :: 0 <= s <= t && InSlice(SliceOf(size, threads, s), i)
  {
    if InSlice(SliceOf(size, threads, t), i) {
    } else {
      assert t > 0;
      SliceEnd(size, threads, t - 1);
      SomeSlice(size, threads, i, t - 1);
    }
  }

  /* All threads: each goes over its slice once to clear it and once for every chunk,
     byte by byte, and the steps of different threads may alternate in any way. */

  // Round 0 clears, round c + 1 takes in chunk c; i is the next byte of the slice.
  datatype Thread = Thread(round: nat, i: nat)

  datatype State = State(r: seq<Byte>, threads: seq<Thread>)

  ghost predicate StepOf(s: State, n: State, chunks: seq<seq<Byte>>, size: nat, t: nat)
    requires Sized(chunks, size)
  {
    && t < |s.threads| && |s.r| == size && s.threads[t].round <= |chunks|
    && var slice, th := SliceOf(size, |s.threads|, t), s.threads[t];
       if th.i < slice.size then
         slice.start + th.i < size &&
         n == State(s.r[slice.start + th.i :=
                      if th.round == 0 then 0 else s.r[slice.start + th.i] ^ chunks[th.round - 1][slice.start + th.i]],
                    s.threads[t := Thread(th.round, th.i + 1)])
       else n == s.(threads := s.threads[t := Thread(th.round + 1, 0)])
  }

  ghost predicate Step(s: State, n: State, chunks: seq<seq<Byte>>, size: nat)
    requires Sized(chunks, size)
  {
    exists t: nat :: StepOf(s, n, chunks, size, t)
  }

  ghost predicate Run(states: seq<State>, chunks: seq<seq<Byte>>, size: nat, threads: nat)
    requires Sized(chunks, size)
  {
    && states != [] && |states[0].r| == size && |states[0].threads| == threads
    && (forall t :: 0 <= t < threads ==> states[0].threads[t] == Thread(0, 0))
    && forall k :: 0 <= k < |states| - 1 ==> Step(states[k], states[k + 1], chunks, size)
  }

  // The bytes a thread has passed in this round are one chunk ahead of the others.
  ghost predicate SliceOk(s: State, chunks: seq<seq<Byte>>, size: nat, t: nat)
    requires Sized(chunks, size) && t < |s.threads| && |s.r| == size
  {
    var slice, th := SliceOf(size, |s.threads|, t), s.threads[t];
    && slice.start + slice.size <= size && th.round <= |chunks| + 1 && th.i <= slice.size
    && (th.round == |chunks| + 1 ==> th.i == 0)
    && (forall j :: slice.start <= j < slice.start + th.i && th.round <= |chunks| ==> s.r[j] == XorAt(chunks[..th.round], j))
    && (forall j :: slice.start + th.i <= j < slice.start + slice.size && 0 < th.round ==>
        s.r[j] == XorAt(chunks[..th.round - 1], j))
  }

  ghost predicate AllOk(s: State, chunks: seq<seq<Byte>>, size: nat)
    requires Sized(chunks, size)
  {
    |s.r| == size && forall t :: 0 <= t < |s.threads| ==> SliceOk(s, chunks, size, t)
  }

  lemma OwnSlice(s: State, n: State, chunks: seq<seq<Byte>>, size: nat, t: nat)
    requires Sized(chunks, size) && StepOf(s, n, chunks, size, t) && SliceOk(s, chunks, size, t)
    ensures |n.r| == size && |n.threads| == |s.threads| && SliceOk(n, chunks, size, t)
  {
    var slice, th := SliceOf(size, |s.threads|, t), s.threads[t];
    hide SliceOf;
    if 0 < th.round && th.i < slice.size {
      XorNext(chunks, th.round - 1, slice.start + th.i);
    }
  }

  lemma OtherSlice(s: State, n: State, chunks: seq<seq<Byte>>, size: nat, t: nat, o: nat)
    requires Sized(chunks, size) && StepOf(s, n, chunks, size, t) && SliceOk(s, chunks, size, t)
    requires o < |s.threads| && o != t && SliceOk(s, chunks, size, o)
    ensures |n.r| == size && |n.threads| == |s.threads| && SliceOk(n, chunks, size, o)
  {
    var T := |s.threads|;
    if t < o {
      StartsAscend(size, T, t, o);
    } else {
      StartsAscend(size, T, o, t);
    }
    hide SliceOf, XorAt;
  }

  lemma StepOk(s: State, n: State, chunks: seq<seq<Byte>>, size: nat, t: nat)
    requires Sized(chunks, size) && StepOf(s, n, chunks, size, t) && AllOk(s, chunks, size)
    ensures AllOk(n, chunks, size) && |n.threads| == |s.threads|
  {
    hide SliceOk;
    OwnSlice(s, n, chunks, size, t);
    forall o | 0 <= o < |n.threads| ensures SliceOk(n, chunks, size, o) {
      if o != t {
        OtherSlice(s, n, chunks, size, t, o);
      }
    }
  }

  lemma {:induction false} RunOk(states: seq<State>, chunks: seq<seq<Byte>>, size: nat, threads: nat)
    requires Sized(chunks, size) && 1 <= threads && Run(states, chunks, size, threads)
    ensures states != [] && AllOk(states[|states| - 1], chunks, size) && |states[|states| - 1].threads| == threads
    decreases |states|
  {
    hide SliceOf, StepOf, SliceOk;
    var m := |states| - 1;
    if m == 0 {
      forall t | 0 <= t < threads ensures SliceOk(states[0], chunks, size, t) {
        StartOk(states[0], chunks, size, t);
      }
    } else {
      var before := states[..m];
      forall k | 0 <= k < |before| - 1 ensures Step(before[k], before[k + 1], chunks, size) {
        assert Step(states[k], states[k + 1], chunks, size);
      }
      RunOk(before, chunks, size, threads);
      assert Step(states[m - 1], states[m], chunks, size);
      var t: nat :| StepOf(states[m - 1], states[m], chunks, size, t);
      StepOk(states[m - 1], states[m], chunks, size, t);
    }
  }

  lemma StartOk(s: State, chunks: seq<seq<Byte>>, size: nat, t: nat)
    requires Sized(chunks, size) && t < |s.threads| && |s.r| == size && s.threads[t] == Thread(0, 0)
    ensures SliceOk(s, chunks, size, t)
  {
    SliceEnd(size, |s.threads|, t);
  }

  ghost predicate Joined(s: State, chunks: seq<seq<Byte>>)
  {
    forall t :: 0 <= t < |s.threads| ==> s.threads[t].round == |chunks| + 1
  }

  // Once all threads are joined, in whatever order their steps came, every byte is the
  // XOR of all chunks at that byte.
  lemma {:induction false} ParallelIsPlain(states: seq<State>, chunks: seq<seq<Byte>>, size: nat, threads: nat, i: nat)
    requires Sized(chunks, size) && 1 <= threads && Run(states, chunks, size, threads) && i < size
    requires states != [] && Joined(states[|states| - 1], chunks)
    ensures |states[|states| - 1].r| == size && states[|states| - 1].r[i] == XorAt(chunks, i)
  {
    hide SliceOf, StepOf, XorAt, Run;
    RunOk(states, chunks, size, threads);
    SlicesTile(size, threads, i);
    var s := states[|states| - 1];
    var t :| 0 <= t < threads && InSlice(SliceOf(size, threads, t), i);
    assert SliceOk(s, chunks, size, t);
    assert chunks[..|chunks|] == chunks;
  }

  // A thread that is not done can go on, so nothing stands still before all are done.
  lemma {:induction false} NoneStuck(states: seq<State>, chunks: seq<seq<Byte>>, size: nat, threads: nat)
    requires Sized(chunks, size) && 1 <= threads && Run(states, chunks, size, threads)
    requires states != [] && !Joined(states[|states| - 1], chunks)
    ensures
      var s := states[|states| - 1];
      exists n :: Step(s, n, chunks, size)
  {
    hide XorAt, Run;
    RunOk(states, chunks, size, threads);
    var s := states[|states| - 1];
    var t :| 0 <= t < |s.threads| && s.threads[t].round != |chunks| + 1;
    assert SliceOk(s, chunks, size, t);
    var slice, th := SliceOf(size, |s.threads|, t), s.threads[t];
    var n :=
      if th.i < slice.size then
        State(s.r[slice.start + th.i :=
                if th.round == 0 then 0 else s.r[slice.start + th.i] ^ chunks[th.round - 1][slice.start + th.i]],
              s.threads[t := Thread(th.round, th.i + 1)])
      else s.(threads := s.threads[t := Thread(th.round + 1, 0)]);
    assert StepOf(s, n, chunks, size, t);
    assert Step(s, n, chunks, size);
  }

  /* Recovery. */

  function Others(chunks: seq<seq<Byte>>, c: nat): seq<seq<Byte>>
    requires c < |chunks|
  {
    chunks[..c] + chunks[c + 1..]
  }

  lemma {:induction false} XorSplit(a: seq<seq<Byte>>, b: seq<seq<Byte>>, i: nat)
    requires forall c :: 0 <= c < |a| ==> i < |a[c]|
    requires forall c :: 0 <= c < |b| ==> i < |b[c]|
    ensures XorAt(a + b, i) == XorAt(a, i) ^ XorAt(b, i)
    decreases |b|
  {
    if b == [] {
      assert a + b == a;
    } else {
      var m := |b| - 1;
      assert (a + b)[..|a| + m] == a + b[..m];
      XorSplit(a, b[..m], i);
    }
  }

  // The parity together with all chunks but one gives back that one.
  lemma {:induction false} Recovery(chunks: seq<seq<Byte>>, parity: seq<Byte>, size: nat, c: nat, i: nat)
    requires Sized(chunks, size) && |parity| == size && c < |chunks| && i < size
    requires forall j :: 0 <= j < size ==> parity[j] == XorAt(chunks, j)
    ensures XorAt(Others(chunks, c) + [parity], i) == chunks[c][i]
  {
    hide XorAt;
    var a, b := chunks[..c], chunks[c + 1..];
    XorSplit(a, b, i);
    XorSplit(a + b, [parity], i);
    XorSplit(a, chunks[c..], i);
    XorSplit([chunks[c]], b, i);
    assert [chunks[c]] + b == chunks[c..] && a + chunks[c..] == chunks;
    XorOne(chunks[c], i);
    XorOne(parity, i);
    Cancel(XorAt(a, i), XorAt(b, i), chunks[c][i]);
  }

  lemma XorOne(chunk: seq<Byte>, i: nat)
    requires i < |chunk|
    ensures XorAt([chunk], i) == chunk[i]
  {
    assert [chunk][..0] == [];
    ZeroXor(chunk[i]);
  }

  lemma ZeroXor(x: Byte)
    ensures 0 ^ x == x
  {
  }

  lemma Cancel(a: Byte, b: Byte, x: Byte)
    ensures (a ^ b) ^ (a ^ (x ^ b)) == x
  {
  }
}
