/** What a parse tree's visits predict, and when that is what followed before. */
module Predictions {
  import opened Basics
  import opened Tries

  function Fraction(n: nat, d: nat): real
    requires d > 0
  {
    n as real / d as real
  }

  /* What is computed from the visits, for a cursor at w that holds some of them. */

  ghost predicate OnlyMarker(visits: map<Word, nat>, w: Word)
  {
    forall k :: w + [k] in visits ==> k == BACK_TO_ROOT
  }

  // Where the children are predicted: at the root if the cursor has none but the marker.
  ghost function PredictFrom(visits: map<Word, nat>, w: Word): Word
  {
    if OnlyMarker(visits, w) then [] else w
  }

  ghost function Divisor(visits: map<Word, nat>, w: Word, held: nat): int
    requires w in visits && [] in visits
  {
    if OnlyMarker(visits, w) then visits[[]] + 1 else visits[w] - held
  }

  // Each child's visits divided by total.
  ghost predicate IsShares(shares: map<int, real>, visits: map<Word, nat>, w: Word, total: int)
  {
    && (forall k :: k in shares <==> w + [k] in visits)
    && (forall k :: k in shares ==> total > 0 && shares[k] == Fraction(visits[w + [k]], total))
  }

  // The shares without the marker's key, whether it is a marker's or was accessed.
  ghost predicate IsPredicted(probs: map<int, real>, visits: map<Word, nat>, w: Word, held: nat)
    requires w in visits && [] in visits
  {
    var from, total := PredictFrom(visits, w), Divisor(visits, w, held);
    && (forall k :: k in probs <==> from + [k] in visits && k != BACK_TO_ROOT)
    && (forall k :: k in probs ==> total > 0 && probs[k] == Fraction(visits[from + [k]], total))
  }

  lemma Struck(shares: map<int, real>, visits: map<Word, nat>, w: Word, held: nat)
    requires w in visits && [] in visits
    requires IsShares(shares, visits, PredictFrom(visits, w), Divisor(visits, w, held))
    ensures IsPredicted(shares - {BACK_TO_ROOT}, visits, w, held)
  {
    hide PredictFrom, Divisor, Fraction;
  }

  // The source's test of the shares for whether to go on at the root.
  lemma OnlyMarkerLeft(shares: map<int, real>, visits: map<Word, nat>, w: Word, total: int)
    requires IsShares(shares, visits, w, total)
    ensures OnlyMarker(visits, w) <==> shares == map[] || (|shares| == 1 && BACK_TO_ROOT in shares)
  {
    assert |shares| == |shares.Keys|;
    assert shares.Keys == {} <==> shares == map[];
    if OnlyMarker(visits, w) {
      var all: set<int> := if BACK_TO_ROOT in shares then {BACK_TO_ROOT} else {};
      assert forall k :: k in shares.Keys ==> k in all;
      assert shares.Keys == all;
    }
    if |shares| == 1 && BACK_TO_ROOT in shares {
      assert |shares.Keys - {BACK_TO_ROOT}| == 0;
      assert forall k :: w + [k] in visits ==> k in shares.Keys && k !in shares.Keys - {BACK_TO_ROOT};
    }
  }

  /* What a prediction should be. */

  // Exactly the keys that followed w in the words L, whatever they are, each with the
  // number of times it did over total.
  ghost predicate IsFrequencies(probs: map<int, real>, L: seq<Word>, w: Word, total: int)
  {
    && (forall k :: k in probs <==> Count(L, w + [k]) > 0)
    && (forall k :: k in probs ==> total > 0 && probs[k] == Fraction(Count(L, w + [k]), total))
  }

  function ShareSum(probs: map<int, real>, ks: seq<int>): real
    requires forall k :: k in ks ==> k in probs
    decreases |ks|
  {
    if ks == [] then 0.0
    else
      var k := ks[|ks| - 1];
      assert k in ks;
      ShareSum(probs, ks[..|ks| - 1]) + probs[k]
  }

  // All shares together are the share of the words that go on after w.
  lemma SharesNormalised(probs: map<int, real>, L: seq<Word>, w: Word, ks: seq<int>, total: int)
    requires IsFrequencies(probs, L, w, total) && total > 0
    requires Distinct(ks) && forall k :: k in ks <==> k in probs
    ensures GoneOn(L, w) >= 0 && ShareSum(probs, ks) == Fraction(GoneOn(L, w), total)
  {
    hide Count, ShareSum, ExtensionSum;
    forall q | q in L && w <= q && |w| < |q| ensures q[|w|] in ks {
      CountPositive(L, w + [q[|w|]]);
      Extends(w, q[|w|], q);
      var i :| 0 <= i < |L| && L[i] == q;
    }
    SumOfExtensions(L, w, ks);
    ShareSumIs(probs, L, w, ks, total);
  }

  lemma {:induction false} ShareSumIs(probs: map<int, real>, L: seq<Word>, w: Word, ks: seq<int>, total: nat)
    requires total > 0 && forall k :: k in ks ==> k in probs && probs[k] == Fraction(Count(L, w + [k]), total)
    ensures ExtensionSum(L, w, ks) >= 0 && ShareSum(probs, ks) == Fraction(ExtensionSum(L, w, ks), total)
    decreases |ks|
  {
    hide Count;
    if ks != [] {
      var m := |ks| - 1;
      assert ks[m] in ks;
      ShareSumIs(probs, L, w, ks[..m], total);
      SumOfFractions(ExtensionSum(L, w, ks[..m]), Count(L, w + [ks[m]]), total);
    }
  }

  lemma SumOfFractions(a: nat, b: nat, total: nat)
    requires total > 0
    ensures Fraction(a, total) + Fraction(b, total) == Fraction(a + b, total)
  {
  }

  lemma FractionsDiffer(n: nat, d: nat)
    requires n > 0 && d > 0
    ensures Fraction(n, d + 1) != Fraction(n, d)
  {
    var x, y := Fraction(n, d), Fraction(n, d + 1);
    assert x > 0.0 && x * d as real == n as real && y * (d + 1) as real == n as real;
    assert x * (d + 1) as real == n as real + x;
  }

  /* LZ: the keys that followed the cursor's word, or the empty word if none did. */

  ghost function LzContext(h: seq<int>): Word
  {
    var w := LzParse(h, true).rest;
    if exists k :: Count(LzWalks(h), w + [k]) > 0 then w else []
  }

  // The share that is missing from one is that of stopping there.
  ghost predicate IsLzRight(probs: map<int, real>, h: seq<int>)
  {
    var w := LzContext(h);
    IsFrequencies(probs, LzWalks(h), w, GoneOn(LzWalks(h), w) + Escape(w))
  }

  // What is computed after the accesses h.
  ghost predicate IsLzPredicted(probs: map<int, real>, h: seq<int>)
  {
    var t := LzTree(h);
    t.cur in t.visits && IsPredicted(probs, t.visits, t.cur, if t.cur == [] then 0 else 1)
  }

  // The marker's key was not accessed after w: w's own marker has the visit that it
  // started with, and the root has no child with that key.
  ghost predicate MarkerApart(visits: map<Word, nat>, w: Word)
  {
    w + [BACK_TO_ROOT] in visits ==> w != [] && visits[w + [BACK_TO_ROOT]] == 1
  }

  // The prediction is right exactly when the context is no marker's and the marker's key
  // never followed it.
  lemma LzRight(probs: map<int, real>, h: seq<int>)
    requires IsLzPredicted(probs, h)
    ensures IsLzRight(probs, h) <==> !Marker(LzContext(h)) && MarkerApart(LzTree(h).visits, LzContext(h))
  {
    hide LzTree, LzParse, Marker, Count, Fraction, LzWalks, GoneOn, IsPredicted;
    LzCursor(h);
    if k :| Count(LzWalks(h), LzParse(h, true).rest + [k]) > 0 {
      LzAtCursor(probs, h, k);
    } else {
      LzAtRoot(probs, h);
    }
  }

  // Something followed the cursor's word.
  lemma LzAtCursor(probs: map<int, real>, h: seq<int>, k: int)
    requires IsLzPredicted(probs, h) && Count(LzWalks(h), LzTree(h).cur + [k]) > 0 && LzContext(h) == LzTree(h).cur
    ensures IsLzRight(probs, h) <==> !Marker(LzContext(h)) && MarkerApart(LzTree(h).visits, LzContext(h))
  {
    hide LzTree, LzParse, Marker, Count, Fraction, LzWalks, GoneOn, LzContext;
    var t, L, w := LzTree(h), LzWalks(h), LzTree(h).cur;
    LzCursor(h);
    forall j
      ensures w + [j] in t.visits <==> Count(L, w + [j]) > 0 || (j == BACK_TO_ROOT && Escape(w) == 1)
      ensures w + [j] in t.visits ==> t.visits[w + [j]] == Count(L, w + [j]) + if j == BACK_TO_ROOT then Escape(w) else 0
    {
      LzChild(h, w, j);
    }
    if Count(L, w + [BACK_TO_ROOT]) == 0 {
      assert w + [k] in t.visits && !OnlyMarker(t.visits, w);
      if Marker(w) {
        MarkerEnds(w);
        GoneOnAtLeast(L, w, k);
        FractionsDiffer(Count(L, w + [k]), GoneOn(L, w));
        assert k in probs;
      } else {
        assert Divisor(t.visits, w, if w == [] then 0 else 1) == GoneOn(L, w) + Escape(w);
      }
    }
  }

  // Nothing followed the cursor's word.
  lemma LzAtRoot(probs: map<int, real>, h: seq<int>)
    requires IsLzPredicted(probs, h) && LzContext(h) == []
    requires forall k :: Count(LzWalks(h), LzTree(h).cur + [k]) == 0
    ensures IsLzRight(probs, h) <==> !Marker(LzContext(h)) && MarkerApart(LzTree(h).visits, LzContext(h))
  {
    hide LzTree, LzParse, Marker, Count, Fraction, LzWalks, GoneOn, LzContext;
    var t, L, w := LzTree(h), LzWalks(h), LzTree(h).cur;
    LzCursor(h);
    RootNoMarker();
    forall j
      ensures w + [j] in t.visits ==> j == BACK_TO_ROOT
      ensures [] + [j] in t.visits <==> Count(L, [] + [j]) > 0
      ensures [] + [j] in t.visits ==> t.visits[[] + [j]] == Count(L, [] + [j])
    {
      LzChild(h, w, j);
      LzChild(h, [], j);
    }
    assert OnlyMarker(t.visits, w);
  }

  lemma RootNoMarker()
    ensures !Marker([]) && Escape([]) == 0
  {
  }

  // What the shares are divided by is not zero if there are children.
  lemma LzDivisor(h: seq<int>)
    ensures
      var t := LzTree(h);
      && t.cur in t.visits
      && ((exists k :: t.cur + [k] in t.visits) ==> t.visits[t.cur] > if t.cur == [] then 0 else 1)
  {
    hide LzTree, LzParse, Count, LzWalks, Occurs, Marker;
    var t, L := LzTree(h), LzWalks(h);
    LzCursor(h);
    OccursAtMost(L, t.cur);
    if k :| t.cur + [k] in t.visits {
      LzChild(h, t.cur, k);
      if t.cur == [] {
        GoneOnAtLeast(L, [], k);
      }
    }
  }

  // What follows the rest w of the LZ78 parse, each key with the number of phrases that
  // go on with it after w, and the rest, over the number of those that go on after w at
  // all and, below the root, one; or what follows the empty word, if nothing follows w.
  ghost predicate IsLz78Prediction(probs: map<int, real>, h: seq<int>)
  {
    var p := LzParse(h, false);
    var L, w := p.phrases + (if p.rest == [] then [] else [p.rest]), p.rest;
    if exists k :: Count(L, w + [k]) > 0
    then IsFrequencies(probs, L, w, Count(L, w) - Occurs(L, w) + if w == [] then 0 else 1)
    else IsFrequencies(probs, L, [], |L|)
  }

  // When no access is one of key -1, every prediction is right, by the LZ78 parse.
  lemma LzRightWithoutMarkerKey(probs: map<int, real>, h: seq<int>)
    requires IsLzPredicted(probs, h) && -1 !in h
    ensures IsLzRight(probs, h) && IsLz78Prediction(probs, h)
  {
    hide LzTree, LzParse, Count, LzWalks, Marker, IsLzRight, IsLzPredicted, IsLz78Prediction;
    LzContextApart(h);
    LzRight(probs, h);
    NoMarkerKeyClean(h);
    ParsesAgree(h);
    Lz78Right(probs, h);
  }

  lemma {:induction false} NoMarkerKeyClean(h: seq<int>)
    requires BACK_TO_ROOT !in h
    ensures Clean(h)
  {
    if h != [] {
      assert h[|h| - 1] in h;
      NoMarkerKeyClean(h[..|h| - 1]);
    }
  }

  lemma Lz78Right(probs: map<int, real>, h: seq<int>)
    requires IsLzRight(probs, h) && LzParse(h, true) == LzParse(h, false) && !Marker(LzContext(h))
    ensures IsLz78Prediction(probs, h)
  {
    hide LzParse, Count, Occurs, Marker, IsFrequencies;
    var p := LzParse(h, false);
    assert LzWalks(h) == p.phrases + (if p.rest == [] then [] else [p.rest]);
    RootNoMarker();
    CountAll(LzWalks(h));
    LzCursor(h);
    RootWalks(h);
  }

  lemma RootWalks(h: seq<int>)
    ensures GoneOn(LzWalks(h), []) == |LzWalks(h)|
  {
    hide LzParse, Count, Occurs;
    LzFaithful(h, true);
    WalksThrough(LzParse(h, true), h, []);
  }

  lemma LzContextApart(h: seq<int>)
    requires BACK_TO_ROOT !in h
    ensures !Marker(LzContext(h)) && MarkerApart(LzTree(h).visits, LzContext(h))
  {
    hide LzTree, LzParse, Count, LzWalks, Marker;
    var L, w := LzWalks(h), LzContext(h);
    LzCursor(h);
    assert !Marker(w) by {
      if Marker(w) {
        MarkerEnds(w);
        WalkKeys(h, w, BACK_TO_ROOT);
      }
    }
    LzChild(h, w, BACK_TO_ROOT);
    CountPositive(L, w + [BACK_TO_ROOT]);
    if i :| 0 <= i < |L| && w + [BACK_TO_ROOT] <= L[i] {
      assert L[i][|w|] == (w + [BACK_TO_ROOT])[|w|];
      WalkKeys(h, L[i], BACK_TO_ROOT);
    }
  }

  lemma MarkerEnds(w: Word)
    requires Marker(w)
    ensures w != [] && BACK_TO_ROOT in w
  {
  }

  // Accesses of the marker's key that mislead: the only key so far, which is struck out;
  // the only key that followed 5, for which the root is taken; and a marker with children.
  lemma MarkerKeyMisleads(probs: map<int, real>)
    ensures IsLzPredicted(probs, [BACK_TO_ROOT]) ==> probs == map[] && !IsLzRight(probs, [BACK_TO_ROOT])
    ensures IsLzPredicted(probs, Accesses[..5]) ==> !IsLzRight(probs, Accesses[..5])
    ensures IsLzPredicted(probs, Accesses) ==> !IsLzRight(probs, Accesses)
  {
    hide LzTree, LzParse, LzWalks, Marker, IsLzRight, IsLzPredicted, Count;
    if IsLzPredicted(probs, [BACK_TO_ROOT]) {
      MarkerFirst(probs);
    }
    if IsLzPredicted(probs, Accesses[..5]) {
      MarkerPassed();
      LzRight(probs, Accesses[..5]);
    }
    if IsLzPredicted(probs, Accesses) {
      MarkerAccessed();
      LzCursor(Accesses);
      LzChild(Accesses, LzTree(Accesses).cur, 5);
      LzRight(probs, Accesses);
    }
  }

  lemma MarkerFirst(probs: map<int, real>)
    requires IsLzPredicted(probs, [BACK_TO_ROOT])
    ensures probs == map[] && !IsLzRight(probs, [BACK_TO_ROOT])
  {
    hide LzTree, LzParse, Marker, IsLzRight, Count, LzWalks;
    var h := [BACK_TO_ROOT];
    var t := LzTree(h);
    OneAccess(BACK_TO_ROOT);
    LzCounts(h);
    forall k ensures [] + [k] in t.visits <==> k == BACK_TO_ROOT {
      OneSeen(BACK_TO_ROOT, k);
    }
    assert OnlyMarker(t.visits, []);
    assert LzContext(h) == [];
    LzRight(probs, h);
    assert [] + [BACK_TO_ROOT] in t.visits;
    assert forall k :: k !in probs;
  }

  lemma MarkerPassed()
    ensures LzContext(Accesses[..5]) == [5] && !MarkerApart(LzTree(Accesses[..5]).visits, [5])
  {
    hide LzTree, LzParse, Marker, Count;
    var h, m := Accesses[..5], BACK_TO_ROOT;
    AccessesParsed();
    assert h == [5, 5, m, 5, 5];
    LzCursor(h);
    CountPositive(LzWalks(h), [5] + [m]);
    assert [5] + [m] <= [5, m, 5] == LzWalks(h)[1];
    LzChild(h, [5], m);
    MarkerSeen();
    RootNoMarker();
    assert [5, m] == [5] + [m];
  }

  /* PPM: the keys that followed the longest known stretch of the context. */

  // Every window through w goes on.
  lemma PpmGoesOn(h: seq<int>, k: nat, w: Word)
    requires w in PpmTree(h, k) && |w| <= k
    ensures Count(Windows(h, k), w) > 0 ==> exists j :: w + [j] in PpmTree(h, k)
  {
    hide PpmTree, Windows, Count;
    var L := Windows(h, k);
    CountPositive(L, w);
    if i :| 0 <= i < |L| && w <= L[i] {
      WindowAt(h, k, i);
      var j := L[i][|w|];
      Extends(w, j, L[i]);
      CountPositive(L, w + [j]);
      PpmCounts(h, k, w + [j]);
    }
  }

  lemma PpmDivisor(h: seq<int>, k: nat, w: Word)
    requires w in PpmTree(h, k)
    ensures (exists j :: w + [j] in PpmTree(h, k)) ==> PpmTree(h, k)[w] > 0
  {
    hide PpmTree, Windows, Count, Occurs;
    PpmCounts(h, k, w);
    if j :| w + [j] in PpmTree(h, k) {
      PpmCounts(h, k, w + [j]);
      GoneOnAtLeast(Windows(h, k), w, j);
    }
  }

  // The prediction is right exactly when the marker's key never followed the context.
  lemma PpmRight(probs: map<int, real>, h: seq<int>, k: nat, w: Word)
    requires w in PpmTree(h, k) && [] in PpmTree(h, k) && |w| <= k && IsPredicted(probs, PpmTree(h, k), w, 0)
    ensures IsFrequencies(probs, Windows(h, k), w, Count(Windows(h, k), w)) <==> w + [BACK_TO_ROOT] !in PpmTree(h, k)
  {
    hide PpmTree, Windows, Count, Fraction;
    var t, L := PpmTree(h, k), Windows(h, k);
    PpmCounts(h, k, w);
    forall j
      ensures w + [j] in t <==> Count(L, w + [j]) > 0
      ensures w + [j] in t ==> t[w + [j]] == Count(L, w + [j])
    {
      PpmCounts(h, k, w + [j]);
    }
    if w + [BACK_TO_ROOT] !in t && OnlyMarker(t, w) {
      PpmGoesOn(h, k, w);
      assert w == [];
    }
  }

  // After 5, the marker's key and 5 again, the next key after 5 should be the marker's.
  lemma PpmMarkerKeyMisleads(probs: map<int, real>)
    ensures
      var h := [5, BACK_TO_ROOT, 5];
      && [5] in PpmTree(h, 1) && [] in PpmTree(h, 1)
      && (IsPredicted(probs, PpmTree(h, 1), [5], 0) ==>
          !IsFrequencies(probs, Windows(h, 1), [5], Count(Windows(h, 1), [5])))
  {
    hide PpmTree, Windows, Count, IsFrequencies, IsPredicted;
    var h, w, m := [5, BACK_TO_ROOT, 5], [5], [5] + [BACK_TO_ROOT];
    WindowsSize(h, 1);
    WindowAt(h, 1, 0);
    assert w <= h[0..2] && m <= h[0..2];
    CountPositive(Windows(h, 1), w);
    CountPositive(Windows(h, 1), m);
    PpmCounts(h, 1, w);
    PpmCounts(h, 1, m);
    PpmCounts(h, 1, []);
    if IsPredicted(probs, PpmTree(h, 1), w, 0) {
      PpmRight(probs, h, 1, w);
    }
  }

  lemma PpmRightWithoutMarkerKey(probs: map<int, real>, h: seq<int>, k: nat, w: Word)
    requires w in PpmTree(h, k) && [] in PpmTree(h, k) && |w| <= k && IsPredicted(probs, PpmTree(h, k), w, 0)
    requires -1 !in h
    ensures IsFrequencies(probs, Windows(h, k), w, Count(Windows(h, k), w))
  {
    hide PpmTree, Windows, Count, IsFrequencies, IsPredicted;
    var L, m := Windows(h, k), w + [-1];
    CountPositive(L, m);
    assert |m| == |w| + 1 && m[|w|] == -1;
    forall i | 0 <= i < |L| ensures !(m <= L[i]) {
      WindowAt(h, k, i);
      if |w| < |L[i]| {
        assert L[i][|w|] == h[i + |w|];
      }
    }
    PpmCounts(h, k, m);
    PpmRight(probs, h, k, w);
  }

  // The shares of a right prediction add up to one, those of stopping included.
  lemma LzNormalised(probs: map<int, real>, h: seq<int>, ks: seq<int>)
    requires IsLzRight(probs, h) && Distinct(ks) && ks != [] && forall k :: k in ks <==> k in probs
    ensures
      var total := GoneOn(LzWalks(h), LzContext(h)) + Escape(LzContext(h));
      total > 0 && ShareSum(probs, ks) + Fraction(Escape(LzContext(h)), total) == 1.0
  {
    hide Count, LzWalks, LzContext, ShareSum, Occurs, Escape;
    var L, w := LzWalks(h), LzContext(h);
    TotalPositive(probs, L, w, ks[0], GoneOn(L, w) + Escape(w));
    SharesNormalised(probs, L, w, ks, GoneOn(L, w) + Escape(w));
    SumOfFractions(GoneOn(L, w), Escape(w), GoneOn(L, w) + Escape(w));
    WholeFraction(GoneOn(L, w) + Escape(w));
  }

  lemma PpmNormalised(probs: map<int, real>, h: seq<int>, k: nat, w: Word, ks: seq<int>)
    requires |w| <= k && IsFrequencies(probs, Windows(h, k), w, Count(Windows(h, k), w))
    requires Distinct(ks) && ks != [] && forall j :: j in ks <==> j in probs
    ensures ShareSum(probs, ks) == 1.0
  {
    hide Count, Windows, ShareSum, Occurs;
    var L := Windows(h, k);
    TotalPositive(probs, L, w, ks[0], Count(L, w));
    SharesNormalised(probs, L, w, ks, Count(L, w));
    forall i | 0 <= i < |L| ensures |w| < |L[i]| {
      WindowAt(h, k, i);
    }
    NoneOccurs(L, w);
    WholeFraction(Count(L, w));
  }

  lemma TotalPositive(probs: map<int, real>, L: seq<Word>, w: Word, k: int, total: int)
    requires IsFrequencies(probs, L, w, total) && k in probs
    ensures total > 0
  {
  }

  lemma WholeFraction(n: nat)
    requires n > 0
    ensures Fraction(n, n) == 1.0
  {
  }
}
