/** What the prefetch predictors count: an LZ78 parse and the n-grams of a history,
    both as the number of words of a list that begin with a given word. */
module Tries {
  import opened Basics

  type Word = seq<int>

  // The keys of markov.h.
  const BACK_TO_ROOT: int := -1

  // How many words of L begin with w.
  function Count(L: seq<Word>, w: Word): (c: nat)
    ensures c <= |L|
  {
    if L == [] then 0 else Count(L[..|L| - 1], w) + if w <= L[|L| - 1] then 1 else 0
  }

  // How often w itself occurs in L.
  function Occurs(L: seq<Word>, w: Word): (c: nat)
    ensures c <= |L|
  {
    if L == [] then 0 else Occurs(L[..|L| - 1], w) + if w == L[|L| - 1] then 1 else 0
  }

  // The counts of the words that go on after w with one of the keys ks.
  function ExtensionSum(L: seq<Word>, w: Word, ks: seq<int>): int
    decreases |ks|
  {
    if ks == [] then 0
    else ExtensionSum(L, w, ks[..|ks| - 1]) + Count(L, w + [ks[|ks| - 1]])
  }

  lemma {:induction false} ExtensionAppend(L: seq<Word>, p: Word, w: Word, ks: seq<int>)
    requires Distinct(ks)
    ensures ExtensionSum(L + [p], w, ks) ==
            ExtensionSum(L, w, ks) + if w <= p && |w| < |p| && p[|w|] in ks then 1 else 0
    decreases |ks|
  {
    if ks != [] {
      var front, k := ks[..|ks| - 1], ks[|ks| - 1];
      ExtensionAppend(L, p, w, front);
      CountAppend(L, p, w + [k]);
      assert ks == front + [k];
      assert w + [k] <= p <==> w <= p && |w| < |p| && p[|w|] == k by {
        Extends(w, k, p);
      }
    }
  }

  lemma Extends(w: Word, k: int, p: Word)
    ensures w + [k] <= p <==> w <= p && |w| < |p| && p[|w|] == k
  {
    if w <= p && |w| < |p| && p[|w|] == k {
      assert p[..|w| + 1] == w + [k];
    }
    if w + [k] <= p {
      assert p[|w|] == (w + [k])[|w|];
      assert p[..|w|] == (w + [k])[..|w|];
    }
  }

  lemma {:induction false} ExtensionNone(w: Word, ks: seq<int>)
    ensures ExtensionSum([], w, ks) == 0
    decreases |ks|
  {
    if ks != [] {
      ExtensionNone(w, ks[..|ks| - 1]);
    }
  }

  // Each word that goes on after w goes on with exactly one key.
  lemma {:induction false} SumOfExtensions(L: seq<Word>, w: Word, ks: seq<int>)
    requires Distinct(ks)
    requires forall p :: p in L && w <= p && |w| < |p| ==> p[|w|] in ks
    ensures ExtensionSum(L, w, ks) == Count(L, w) - Occurs(L, w)
    decreases |L|
  {
    if L == [] {
      ExtensionNone(w, ks);
    } else {
      var M, p := L[..|L| - 1], L[|L| - 1];
      assert L == M + [p];
      SumOfExtensions(M, w, ks);
      ExtensionAppend(M, p, w, ks);
      assert p in L;
    }
  }

  lemma CountAppend(L: seq<Word>, p: Word, w: Word)
    ensures Count(L + [p], w) == Count(L, w) + if w <= p then 1 else 0
    ensures Occurs(L + [p], w) == Occurs(L, w) + if w == p then 1 else 0
  {
    assert (L + [p])[..|L|] == L;
  }

  lemma {:induction false} CountPositive(L: seq<Word>, w: Word)
    ensures Count(L, w) > 0 <==> exists i :: 0 <= i < |L| && w <= L[i]
  {
    if L != [] {
      var m := |L| - 1;
      CountPositive(L[..m], w);
      if Count(L[..m], w) > 0 {
        var i :| 0 <= i < m && w <= L[..m][i];
        assert w <= L[i];
      }
      if i :| 0 <= i < |L| && w <= L[i] {
        assert i < m ==> w <= L[..m][i];
      }
    }
  }

  // How many words of L go on after w.
  function GoneOn(L: seq<Word>, w: Word): int
  {
    Count(L, w) - Occurs(L, w)
  }

  lemma {:induction false} OccursAtMost(L: seq<Word>, w: Word)
    ensures Occurs(L, w) <= Count(L, w)
  {
    if L != [] {
      OccursAtMost(L[..|L| - 1], w);
    }
  }

  // Those that go on with k are among them.
  lemma {:induction false} GoneOnAtLeast(L: seq<Word>, w: Word, k: int)
    ensures Count(L, w + [k]) <= GoneOn(L, w)
  {
    if L != [] {
      GoneOnAtLeast(L[..|L| - 1], w, k);
      Extends(w, k, L[|L| - 1]);
    }
  }

  lemma {:induction false} CountAll(L: seq<Word>)
    ensures Count(L, []) == |L|
  {
    if L != [] {
      CountAll(L[..|L| - 1]);
    }
  }

  lemma {:induction false} OccursDistinct(L: seq<Word>, w: Word)
    requires Distinct(L)
    ensures Occurs(L, w) == if w in L then 1 else 0
  {
    if L != [] {
      var m := |L| - 1;
      OccursDistinct(L[..m], w);
      assert L == L[..m] + [L[m]];
    }
  }

  /* LZ78: cut the history into the shortest phrases not seen before. The tree finds
     the marker below a phrase too, if its key is accessed there: its own parse, the
     marked one, takes those markers for words seen before. */

  // Markers hang below vertices that have a key and are no markers themselves.
  predicate Marker(w: Word)
  {
    2 <= |w| && w[|w| - 1] == BACK_TO_ROOT && !Marker(w[..|w| - 1])
  }

  predicate Seen(L: seq<Word>, w: Word, marked: bool)
  {
    w in L || (marked && Marker(w) && w[..|w| - 1] in L)
  }

  datatype Parsed = Parsed(phrases: seq<Word>, rest: Word)
  {
    function Then(k: int, marked: bool): Parsed
    {
      var w := rest + [k];
      if Seen(phrases, w, marked) then Parsed(phrases, w) else Parsed(phrases + [w], [])
    }
  }

  function LzParse(h: seq<int>, marked: bool): Parsed
  {
    if h == [] then Parsed([], []) else LzParse(h[..|h| - 1], marked).Then(h[|h| - 1], marked)
  }

  function Flatten(L: seq<Word>): seq<int>
  {
    if L == [] then [] else Flatten(L[..|L| - 1]) + L[|L| - 1]
  }

  // Each phrase is a word seen earlier, or nothing, and one more key.
  ghost predicate Grown(L: seq<Word>, marked: bool)
  {
    forall i :: 0 <= i < |L| ==> GrownAt(L, i, marked)
  }

  ghost predicate GrownAt(L: seq<Word>, i: nat, marked: bool)
    requires i < |L|
  {
    && L[i] != [] && (marked ==> !Marker(L[i]))
    && (|L[i]| == 1 || Seen(L[..i], L[i][..|L[i]| - 1], marked))
  }

  // The parse is faithful: the phrases spell out the history, no phrase repeats, and
  // each is a word seen earlier, or the empty word, and one more key.
  ghost predicate Faithful(p: Parsed, h: seq<int>, marked: bool)
  {
    && Flatten(p.phrases) + p.rest == h
    && Distinct(p.phrases)
    && Grown(p.phrases, marked)
    && (p.rest == [] || Seen(p.phrases, p.rest, marked))
  }

  lemma {:induction false} LzFaithful(h: seq<int>, marked: bool)
    ensures Faithful(LzParse(h, marked), h, marked)
  {
    if h != [] {
      var g, k := h[..|h| - 1], h[|h| - 1];
      assert h == g + [k];
      LzFaithful(g, marked);
      FaithfulStep(LzParse(g, marked), g, k, marked);
    }
  }

  lemma FaithfulStep(p: Parsed, g: seq<int>, k: int, marked: bool)
    requires Faithful(p, g, marked)
    ensures Faithful(p.Then(k, marked), g + [k], marked)
  {
    hide Seen, Marker, Grown;
    var w := p.rest + [k];
    assert Flatten(p.phrases) + w == g + [k];
    if !Seen(p.phrases, w, marked) {
      NewPhraseGrown(p, g, k, marked);
      assert Flatten(p.phrases + [w]) + [] == g + [k] by {
        assert (p.phrases + [w])[..|p.phrases|] == p.phrases;
      }
      assert w !in p.phrases by {
        SeenPhrase(p.phrases, w, marked);
      }
    }
  }

  lemma SeenPhrase(L: seq<Word>, w: Word, marked: bool)
    ensures w in L ==> Seen(L, w, marked)
  {
  }

  // A new phrase is no marker: that one would have been seen.
  lemma NewPhraseGrown(p: Parsed, g: seq<int>, k: int, marked: bool)
    requires Faithful(p, g, marked) && !Seen(p.phrases, p.rest + [k], marked)
    ensures Grown(p.phrases + [p.rest + [k]], marked)
  {
    hide Flatten, Distinct;
    var L, w := p.phrases, p.rest + [k];
    var M := L + [w];
    assert w[..|w| - 1] == p.rest;
    forall i | 0 <= i < |M| ensures GrownAt(M, i, marked) {
      assert M[..i] == L[..i];
      if i == |L| {
        assert L[..i] == L;
      } else {
        assert GrownAt(L, i, marked);
      }
    }
  }

  // The marker's key is accessed at the start of a phrase only.
  ghost predicate Clean(h: seq<int>)
  {
    h == [] ||
    (Clean(h[..|h| - 1]) && (h[|h| - 1] == BACK_TO_ROOT ==> LzParse(h[..|h| - 1], false).rest == []))
  }

  // Then, and only then, the tree's parse is the LZ78 parse.
  lemma {:induction false} ParsesAgree(h: seq<int>)
    ensures LzParse(h, true) == LzParse(h, false) <==> Clean(h)
    ensures !Clean(h) ==> exists w :: w in LzParse(h, false).phrases && Marker(w)
  {
    if h != [] {
      var g, k := h[..|h| - 1], h[|h| - 1];
      var p, q := LzParse(g, false), LzParse(g, true);
      ParsesAgree(g);
      LzFaithful(g, true);
      LzFaithful(h, true);
      NoMarkerPhrase(LzParse(g, true), g);
      NoMarkerPhrase(LzParse(h, true), h);
      if !Clean(g) {
        var w :| w in p.phrases && Marker(w);
        assert w in LzParse(h, false).phrases;
      } else if k == BACK_TO_ROOT && p.rest != [] {
        LzFaithful(g, false);
        assert (p.rest + [k])[..|p.rest|] == p.rest;
        assert p.rest + [k] in LzParse(h, false).phrases;
      } else {
        assert |p.rest + [k]| == |p.rest| + 1 && (p.rest + [k])[|p.rest|] == k;
      }
    }
  }

  lemma NoMarkerPhrase(p: Parsed, h: seq<int>)
    requires Faithful(p, h, true)
    ensures forall w :: w in p.phrases ==> w != [] && !Marker(w)
  {
    hide Flatten, Marker, Seen;
    forall w | w in p.phrases ensures w != [] && !Marker(w) {
      var i :| 0 <= i < |p.phrases| && p.phrases[i] == w;
      assert GrownAt(p.phrases, i, true);
    }
  }

  /* The LZ parse tree: its vertices' visit counts, keyed by the path from the root. */

  datatype Tree = Tree(visits: map<Word, nat>, cur: Word)

  const Sapling := Tree(map[[] := 0], [])

  // ParseTree::add_access_w_lz on paths.
  function LzAccess(t: Tree, key: int): Tree
    requires [] in t.visits
  {
    var w := t.cur + [key];
    if w in t.visits then Tree(t.visits[w := t.visits[w] + 1], w)
    else Tree(t.visits[w := 1][w + [BACK_TO_ROOT] := 1][[] := t.visits[[]] + 1], [])
  }

  function LzTree(h: seq<int>): (t: Tree)
    ensures [] in t.visits
  {
    if h == [] then Sapling else LzAccess(LzTree(h[..|h| - 1]), h[|h| - 1])
  }

  // The words whose prefixes the tree has counted so far.
  function Walks(p: Parsed): seq<Word>
  {
    if p.rest == [] then p.phrases else p.phrases + [p.rest]
  }

  function LzWalks(h: seq<int>): seq<Word>
  {
    Walks(LzParse(h, true))
  }

  // The tree's vertices are the root, the phrases, and one marker below each phrase;
  // a vertex has a visit for each walk that passed through it, a marker one more.
  ghost predicate Counts(t: Tree, p: Parsed)
  {
    && t.cur == p.rest
    && (forall w :: w in t.visits <==> w == [] || Seen(p.phrases, w, true))
    && t.visits[[]] == |p.phrases|
    && (forall w :: w in t.visits && w != [] ==>
        t.visits[w] == Count(Walks(p), w) + if Marker(w) then 1 else 0)
  }

  lemma {:induction false} PrefixClosed(p: Parsed, h: seq<int>, marked: bool, i: nat, u: Word)
    requires Faithful(p, h, marked) && i < |p.phrases| && u <= p.phrases[i] && u != []
    ensures Seen(p.phrases, u, marked)
    decreases i
  {
    hide Flatten, Distinct, Marker;
    var L, f := p.phrases, p.phrases[i];
    if u != f {
      assert GrownAt(L, i, marked);
      var g := f[..|f| - 1];
      assert u <= g;
      if g in L[..i] {
        var j :| 0 <= j < i && L[..i][j] == g;
        PrefixClosed(p, h, marked, j, u);
      } else {
        var j :| 0 <= j < i && L[..i][j] == g[..|g| - 1];
        if u != g {
          PrefixClosed(p, h, marked, j, u);
        } else {
          assert L[j] in L;
        }
      }
    }
  }

  lemma WalkFurther(p: Parsed, u: Word, k: int)
    requires u != []
    ensures Count(p.phrases + [p.rest + [k]], u) == Count(Walks(p), u) + if u == p.rest + [k] then 1 else 0
  {
    var w := p.rest + [k];
    CountAppend(p.phrases, w, u);
    CountAppend(p.phrases, p.rest, u);
    assert u <= w <==> u <= p.rest || u == w by {
      if u <= w && u != w {
        assert u == w[..|u|] == p.rest[..|u|];
      }
    }
    assert u <= p.rest ==> u != w && p.rest != [];
  }

  // For every history, whatever its keys.
  lemma {:induction false} LzCounts(h: seq<int>)
    ensures Counts(LzTree(h), LzParse(h, true))
  {
    if h != [] {
      var g, k := h[..|h| - 1], h[|h| - 1];
      LzCounts(g);
      LzFaithful(g, true);
      CountsStep(LzTree(g), LzParse(g, true), g, k);
    }
  }

  lemma CountsStep(t: Tree, p: Parsed, g: seq<int>, k: int)
    requires Faithful(p, g, true) && Counts(t, p)
    ensures Counts(LzAccess(t, k), p.Then(k, true))
  {
    hide Count, Walks, Faithful, Seen, Marker;
    if Seen(p.phrases, p.rest + [k], true) {
      GoDown(t, p, g, k);
    } else {
      BackToRoot(t, p, g, k);
    }
  }

  lemma GoDown(t: Tree, p: Parsed, g: seq<int>, k: int)
    requires Faithful(p, g, true) && Counts(t, p) && Seen(p.phrases, p.rest + [k], true)
    ensures Counts(LzAccess(t, k), Parsed(p.phrases, p.rest + [k]))
  {
    hide Count, Faithful, Seen, Marker;
    var w := p.rest + [k];
    var q, t' := Parsed(p.phrases, w), LzAccess(t, k);
    forall u | u in t'.visits && u != []
      ensures t'.visits[u] == Count(Walks(q), u) + if Marker(u) then 1 else 0
    {
      WalkFurther(p, u, k);
    }
  }

  lemma BackToRoot(t: Tree, p: Parsed, g: seq<int>, k: int)
    requires Faithful(p, g, true) && Counts(t, p) && !Seen(p.phrases, p.rest + [k], true)
    ensures Counts(LzAccess(t, k), Parsed(p.phrases + [p.rest + [k]], []))
  {
    hide Count, Faithful, Seen, Marker;
    var w := p.rest + [k];
    var q, t', m := Parsed(p.phrases + [w], []), LzAccess(t, k), w + [BACK_TO_ROOT];
    NewMarker(p, g, k);
    Unwalked(p, g, w);
    Unwalked(p, g, m);
    forall u ensures u in t'.visits <==> u == [] || Seen(q.phrases, u, true) {
      SeenMore(p.phrases, w, u);
    }
    forall u | u in t'.visits && u != []
      ensures t'.visits[u] == Count(Walks(q), u) + if Marker(u) then 1 else 0
    {
      WalkFurther(p, u, k);
    }
  }

  // Neither the new phrase nor the marker below it has been seen.
  lemma NewMarker(p: Parsed, g: seq<int>, k: int)
    requires Faithful(p, g, true) && !Seen(p.phrases, p.rest + [k], true)
    ensures
      var w := p.rest + [k];
      var m := w + [BACK_TO_ROOT];
      !Marker(w) && Marker(m) && m[..|w|] == w && !Seen(p.phrases, m, true)
  {
    hide Flatten, Distinct;
    var w := p.rest + [k];
    var m := w + [BACK_TO_ROOT];
    assert w[..|w| - 1] == p.rest && m[..|m| - 1] == w;
    if m in p.phrases {
      var i :| 0 <= i < |p.phrases| && p.phrases[i] == m;
      PrefixClosed(p, g, true, i, w);
    }
  }

  lemma SeenMore(L: seq<Word>, w: Word, u: Word)
    requires !Marker(w) && Marker(w + [BACK_TO_ROOT])
    ensures Seen(L + [w], u, true) <==> Seen(L, u, true) || u == w || u == w + [BACK_TO_ROOT]
  {
    assert (w + [BACK_TO_ROOT])[..|w|] == w;
    if Marker(u) && u[..|u| - 1] == w {
      assert u == w + [BACK_TO_ROOT];
    }
  }

  lemma Unwalked(p: Parsed, g: seq<int>, w: Word)
    requires Faithful(p, g, true) && !Seen(p.phrases, w, true) && w != []
    ensures Count(Walks(p), w) == 0
  {
    hide Flatten, Distinct, Count, Grown;
    CountPositive(Walks(p), w);
    if i :| 0 <= i < |Walks(p)| && w <= Walks(p)[i] {
      WalkSeen(p, g, i, w);
    }
  }

  // Whatever a walk passes through has been seen.
  lemma WalkSeen(p: Parsed, g: seq<int>, i: nat, u: Word)
    requires Faithful(p, g, true) && i < |Walks(p)| && u <= Walks(p)[i] && u != []
    ensures Seen(p.phrases, u, true)
  {
    hide Flatten, Distinct, Grown;
    var f := Walks(p)[i];
    if i < |p.phrases| {
      PrefixClosed(p, g, true, i, u);
    } else if f in p.phrases {
      var j :| 0 <= j < |p.phrases| && p.phrases[j] == f;
      PrefixClosed(p, g, true, j, u);
    } else if u != f {
      var j :| 0 <= j < |p.phrases| && p.phrases[j] == f[..|f| - 1];
      PrefixClosed(p, g, true, j, u);
    }
  }

  /* Visit conservation. */

  // ks lists the keys of w's children, each once.
  ghost predicate Children(visits: map<Word, nat>, w: Word, ks: seq<int>)
  {
    Distinct(ks) && forall k :: k in ks <==> w + [k] in visits
  }

  lemma IsChild(visits: map<Word, nat>, w: Word, ks: seq<int>, k: int)
    requires Children(visits, w, ks)
    ensures k in ks <==> w + [k] in visits
  {
  }

  function ChildSum(visits: map<Word, nat>, w: Word, ks: seq<int>): (s: nat)
    requires forall k :: k in ks ==> w + [k] in visits
    decreases |ks|
  {
    if ks == [] then 0
    else
      var k := ks[|ks| - 1];
      assert k in ks;
      ChildSum(visits, w, ks[..|ks| - 1]) + visits[w + [k]]
  }

  lemma {:induction false} ChildSumIs(visits: map<Word, nat>, L: seq<Word>, w: Word, ks: seq<int>, extra: nat)
    requires Distinct(ks) && forall k :: k in ks ==> w + [k] in visits
    requires forall k :: k in ks ==>
      visits[w + [k]] == Count(L, w + [k]) + if k == BACK_TO_ROOT then extra else 0
    ensures ChildSum(visits, w, ks) == ExtensionSum(L, w, ks) + if BACK_TO_ROOT in ks then extra else 0
    decreases |ks|
  {
    hide Count;
    if ks != [] {
      var m := |ks| - 1;
      ChildSumIs(visits, L, w, ks[..m], extra);
      assert ks == ks[..m] + [ks[m]];
    }
  }

  // The visit that a marker below w starts with.
  function Escape(w: Word): nat
  {
    if w != [] && !Marker(w) then 1 else 0
  }

  // In every reachable LZ tree, whatever the keys, the children's visits, the marker's
  // included, add up to the vertex's own, but for the visit the cursor holds and the
  // one a marker starts with.
  lemma {:induction false} LzConservation(h: seq<int>, w: Word, ks: seq<int>)
    requires w in LzTree(h).visits && Children(LzTree(h).visits, w, ks)
    ensures ChildSum(LzTree(h).visits, w, ks) == GoneOn(LzWalks(h), w) + Escape(w)
    ensures
      var t := LzTree(h);
      ChildSum(t.visits, w, ks) ==
        if w == [] then t.visits[w] + (if t.cur == [] then 0 else 1)
        else t.visits[w] as int - (if t.cur == w then 1 else 0) - (if Marker(w) then 1 else 0)
  {
    hide Count, Occurs, LzTree, LzParse, Faithful, ChildSum, Children, Marker, Seen;
    var t, p := LzTree(h), LzParse(h, true);
    LzCounts(h);
    LzFaithful(h, true);
    LzChildSum(t, p, h, w, ks);
    WalksThrough(p, h, w);
  }

  // How many walks there are, and how many of them end at w.
  lemma WalksThrough(p: Parsed, h: seq<int>, w: Word)
    requires Faithful(p, h, true) && (w == [] || Seen(p.phrases, w, true))
    ensures w == [] ==> Count(Walks(p), w) == |p.phrases| + (if p.rest == [] then 0 else 1) && Occurs(Walks(p), w) == 0
    ensures w != [] ==> Occurs(Walks(p), w) == (if Marker(w) then 0 else 1) + (if p.rest == w then 1 else 0)
  {
    hide Count, Occurs, Marker, Flatten;
    NoMarkerPhrase(p, h);
    OccursDistinct(p.phrases, w);
    CountAppend(p.phrases, p.rest, w);
    CountAll(Walks(p));
  }

  // Summing the children's counts, with one more for the marker.
  lemma LzChildSum(t: Tree, p: Parsed, h: seq<int>, w: Word, ks: seq<int>)
    requires Faithful(p, h, true) && Counts(t, p) && w in t.visits && Children(t.visits, w, ks)
    ensures ChildSum(t.visits, w, ks) == GoneOn(Walks(p), w) + Escape(w)
  {
    hide Count, Occurs, Faithful, ExtensionSum, ChildSum, Counts, Walks, Marker, Children;
    var L, extra := Walks(p), Escape(w);
    forall k | k in ks
      ensures w + [k] in t.visits && t.visits[w + [k]] == Count(L, w + [k]) + if k == BACK_TO_ROOT then extra else 0
    {
      IsChild(t.visits, w, ks, k);
      ChildCount(t, p, w, k);
    }
    assert Distinct(ks) by {
      ChildrenDistinct(t.visits, w, ks);
    }
    ChildSumIs(t.visits, L, w, ks, extra);
    forall q | q in L && w <= q && |w| < |q| ensures q[|w|] in ks {
      NextKey(t, p, h, w, q);
      IsChild(t.visits, w, ks, q[|w|]);
    }
    SumOfExtensions(L, w, ks);
    IsChild(t.visits, w, ks, BACK_TO_ROOT);
    if w != [] && !Marker(w) {
      MarkerBelow(t, p, w);
    }
  }

  lemma ChildrenDistinct(visits: map<Word, nat>, w: Word, ks: seq<int>)
    requires Children(visits, w, ks)
    ensures Distinct(ks)
  {
  }

  // Every vertex with a key that is no marker has a marker below it.
  lemma MarkerBelow(t: Tree, p: Parsed, w: Word)
    requires Counts(t, p) && w in t.visits && w != [] && !Marker(w)
    ensures w + [BACK_TO_ROOT] in t.visits
  {
    hide Count, Walks;
    assert (w + [BACK_TO_ROOT])[..|w|] == w;
  }

  lemma ChildCount(t: Tree, p: Parsed, w: Word, k: int)
    requires Counts(t, p) && w + [k] in t.visits
    ensures t.visits[w + [k]] == Count(Walks(p), w + [k]) + if k == BACK_TO_ROOT then Escape(w) else 0
  {
    hide Count, Walks, Seen;
    assert (w + [k])[..|w|] == w && (w + [k])[|w|] == k;
  }

  lemma NextKey(t: Tree, p: Parsed, h: seq<int>, w: Word, q: Word)
    requires Faithful(p, h, true) && Counts(t, p) && q in Walks(p) && w <= q && |w| < |q|
    ensures w + [q[|w|]] in t.visits
  {
    hide Faithful, Count, Walks, Seen;
    var i :| 0 <= i < |Walks(p)| && Walks(p)[i] == q;
    Extends(w, q[|w|], q);
    WalkSeen(p, h, i, w + [q[|w|]]);
  }

  // The visits of a child: the walks that took it, and the marker's own.
  lemma LzChild(h: seq<int>, w: Word, k: int)
    requires w in LzTree(h).visits
    ensures w + [k] in LzTree(h).visits <==> Count(LzWalks(h), w + [k]) > 0 || (k == BACK_TO_ROOT && Escape(w) == 1)
    ensures w + [k] in LzTree(h).visits ==>
      LzTree(h).visits[w + [k]] == Count(LzWalks(h), w + [k]) + if k == BACK_TO_ROOT then Escape(w) else 0
  {
    hide LzTree, LzParse, Count, Faithful, Walks;
    var t, p, u := LzTree(h), LzParse(h, true), w + [k];
    var L := Walks(p);
    LzCounts(h);
    LzFaithful(h, true);
    CountPositive(L, u);
    if i :| 0 <= i < |L| && u <= L[i] {
      WalkSeen(p, h, i, u);
    }
    if u in t.visits {
      ChildCount(t, p, w, k);
      assert u[..|w|] == w && u[|w|] == k;
      if u in p.phrases {
        PhraseWalked(p, u);
      }
    } else if Escape(w) == 1 {
      MarkerBelow(t, p, w);
    }
  }

  lemma PhraseWalked(p: Parsed, u: Word)
    requires u in p.phrases
    ensures Count(Walks(p), u) > 0
  {
    CountPositive(Walks(p), u);
    var i :| 0 <= i < |p.phrases| && p.phrases[i] == u;
    assert Walks(p)[i] == u;
  }

  // The visits of the root and of the cursor below it, its own left out: below the root,
  // one more than the walks that went on, which makes up for a marker.
  lemma LzCursor(h: seq<int>)
    ensures LzTree(h).cur == LzParse(h, true).rest && LzTree(h).cur in LzTree(h).visits
    ensures LzTree(h).visits[[]] == GoneOn(LzWalks(h), []) - if LzTree(h).cur == [] then 0 else 1
    ensures LzTree(h).cur != [] ==> LzTree(h).visits[LzTree(h).cur] - 1 == GoneOn(LzWalks(h), LzTree(h).cur) + 1
  {
    hide LzTree, LzParse, Count, Marker, Occurs, Walks;
    var t, p := LzTree(h), LzParse(h, true);
    LzCounts(h);
    LzFaithful(h, true);
    WalksThrough(p, h, []);
    WalksThrough(p, h, t.cur);
  }

  // Every key of a walk was accessed.
  lemma WalkKeys(h: seq<int>, q: Word, k: int)
    requires q in LzWalks(h) || q == LzParse(h, true).rest
    requires k in q
    ensures k in h
  {
    hide LzParse;
    var p := LzParse(h, true);
    LzFaithful(h, true);
    if q in p.phrases {
      InFlatten(p.phrases, q, k);
    }
  }

  lemma {:induction false} InFlatten(L: seq<Word>, q: Word, k: int)
    requires q in L && k in q
    ensures k in Flatten(L)
  {
    var m := |L| - 1;
    if q != L[m] {
      assert L == L[..m] + [L[m]];
      InFlatten(L[..m], q, k);
    }
  }

  lemma OneAccess(k: int)
    ensures LzParse([k], true) == Parsed([[k]], [])
  {
    assert |[k]| == 1;
    ParseUp([], k, Parsed([], []), [k], [k]);
    assert [] + [[k]] == [[k]];
  }

  lemma OneSeen(k: int, j: int)
    ensures Seen([[k]], [] + [j], true) <==> j == k
  {
    assert [] + [j] == [j] && |[j]| == 1 && [j][0] == j;
    assert [k][0] == k;
  }

  const Accesses: seq<int> := [5, 5, BACK_TO_ROOT, 5, 5, BACK_TO_ROOT]

  // A key equal to the marker's, accessed after another: the marker has children, the
  // 5 that always followed it has one visit, and the visits without the cursor's are two.
  lemma MarkerAccessed()
    ensures
      var t := LzTree(Accesses);
      && t.cur == [5, BACK_TO_ROOT] && Marker(t.cur) && t.cur in t.visits && t.visits[t.cur] == 3
      && Children(t.visits, t.cur, [5]) && ChildSum(t.visits, t.cur, [5]) == 1
  {
    hide LzTree, ChildSum, Count, LzParse, Seen, Marker;
    var h, p := Accesses, Parsed([[5], [5, BACK_TO_ROOT, 5]], [5, BACK_TO_ROOT]);
    AccessesParsed();
    LzCounts(h);
    var t := LzTree(h);
    MarkerSeen();
    forall k ensures k in [5] <==> t.cur + [k] in t.visits {
      OnlyFive(k);
    }
    ThreeWalks();
    LzConservation(h, t.cur, [5]);
  }

  lemma AccessesParsed()
    ensures LzParse([5, 5, BACK_TO_ROOT, 5, 5], true) == Parsed([[5], [5, BACK_TO_ROOT, 5]], [5])
    ensures LzParse(Accesses, true) == Parsed([[5], [5, BACK_TO_ROOT, 5]], [5, BACK_TO_ROOT])
  {
    hide Marker, LzParse;
    var m := BACK_TO_ROOT;
    MarkerSeen();
    OnlyMarkerSeen();
    OneAccess(5);
    ParseDown([5], 5, Parsed([[5]], []), [5, 5], [5]);
    ParseDown([5, 5], m, Parsed([[5]], [5]), [5, 5, m], [5, m]);
    ParseUp([5, 5, m], 5, Parsed([[5]], [5, m]), [5, 5, m, 5], [5, m, 5]);
    ParseDown([5, 5, m, 5], 5, Parsed([[5], [5, m, 5]], []), [5, 5, m, 5, 5], [5]);
    ParseDown([5, 5, m, 5, 5], m, Parsed([[5], [5, m, 5]], [5]), Accesses, [5, m]);
  }

  lemma ParseDown(h: seq<int>, k: int, p: Parsed, g: seq<int>, w: Word)
    requires LzParse(h, true) == p && g == h + [k] && w == p.rest + [k] && Seen(p.phrases, w, true)
    ensures LzParse(g, true) == Parsed(p.phrases, w)
  {
    assert g[..|h|] == h;
  }

  lemma ParseUp(h: seq<int>, k: int, p: Parsed, g: seq<int>, w: Word)
    requires LzParse(h, true) == p && g == h + [k] && w == p.rest + [k] && !Seen(p.phrases, w, true)
    ensures LzParse(g, true) == Parsed(p.phrases + [w], [])
  {
    assert g[..|h|] == h;
  }

  lemma OnlyMarkerSeen()
    ensures !Seen([[5]], [5, BACK_TO_ROOT, 5], true)
  {
    assert |[5, BACK_TO_ROOT, 5]| == 3 && [5, BACK_TO_ROOT, 5][2] == 5;
  }

  lemma MarkerSeen()
    ensures Marker([5, BACK_TO_ROOT]) && [5, BACK_TO_ROOT][..1] == [5]
    ensures Seen([[5]], [5, BACK_TO_ROOT], true)
    ensures Seen([[5], [5, BACK_TO_ROOT, 5]], [5, BACK_TO_ROOT], true)
  {
    assert [5, BACK_TO_ROOT][..1] == [5];
  }

  lemma ThreeWalks()
    ensures Count(Walks(Parsed([[5], [5, BACK_TO_ROOT, 5]], [5, BACK_TO_ROOT])), [5, BACK_TO_ROOT]) == 2
  {
    var m := BACK_TO_ROOT;
    CountAppend([], [5], [5, m]);
    CountAppend([[5]], [5, m, 5], [5, m]);
    CountAppend([[5]] + [[5, m, 5]], [5, m], [5, m]);
    assert [[5], [5, m, 5]] + [[5, m]] == [[5]] + [[5, m, 5]] + [[5, m]];
  }

  lemma OnlyFive(k: int)
    ensures Seen([[5], [5, BACK_TO_ROOT, 5]], [5, BACK_TO_ROOT] + [k], true) <==> k == 5
  {
    hide Marker;
    var w, u := [5, BACK_TO_ROOT] + [k], [5, BACK_TO_ROOT, 5];
    assert w == [5, BACK_TO_ROOT, k] && |w[..2]| == 2;
    assert w == u <==> k == 5 by {
      assert w == u ==> w[2] == u[2];
    }
    assert |[5]| == 1 && |u| == 3;
  }

  /* PPM: the n-grams of the history, n = contextSize + 1. */

  // All stretches of k+1 consecutive keys, in the order they end.
  function Windows(h: seq<int>, k: nat): (L: seq<Word>)
  {
    if |h| <= k then [] else Windows(h[..|h| - 1], k) + [h[|h| - k - 1..]]
  }

  function Bump(visits: map<Word, nat>, w: Word): map<Word, nat>
  {
    visits[w := (if w in visits then visits[w] else 0) + 1]
  }

  // One more visit for each of the first n prefixes of word.
  function BumpPath(visits: map<Word, nat>, word: Word, n: nat): map<Word, nat>
    requires n <= |word|
  {
    if n == 0 then visits else Bump(BumpPath(visits, word, n - 1), word[..n])
  }

  // ParseTree::add_access_w_ppm on paths.
  function PpmTree(h: seq<int>, k: nat): map<Word, nat>
  {
    if |h| <= k then map[[] := 0]
    else Bump(BumpPath(PpmTree(h[..|h| - 1], k), h[|h| - k - 1..], k + 1), [])
  }

  lemma {:induction false} WindowsSize(h: seq<int>, k: nat)
    ensures |Windows(h, k)| == if |h| <= k then 0 else |h| - k
  {
    if |h| > k {
      WindowsSize(h[..|h| - 1], k);
    }
  }

  lemma {:induction false} WindowAt(h: seq<int>, k: nat, i: nat)
    requires i < |Windows(h, k)|
    ensures i + k + 1 <= |h| && Windows(h, k)[i] == h[i..i + k + 1]
  {
    var g := h[..|h| - 1];
    WindowsSize(h, k);
    WindowsSize(g, k);
    if i < |Windows(g, k)| {
      WindowAt(g, k, i);
      assert g[i..i + k + 1] == h[i..i + k + 1];
    }
  }

  lemma {:induction false} BumpPathIs(visits: map<Word, nat>, word: Word, n: nat, w: Word)
    requires n <= |word|
    ensures w in BumpPath(visits, word, n) <==> w in visits || (w != [] && |w| <= n && w <= word)
    ensures w in BumpPath(visits, word, n) ==>
      BumpPath(visits, word, n)[w] ==
        (if w in visits then visits[w] else 0) + if w != [] && |w| <= n && w <= word then 1 else 0
  {
    if n > 0 {
      BumpPathIs(visits, word, n - 1, w);
      assert w == word[..n] <==> |w| == n && w <= word;
    }
  }

  // The tree holds exactly the words some window begins with, each with the
  // number of those windows; the root counts all windows.
  lemma {:induction false} PpmCounts(h: seq<int>, k: nat, w: Word)
    ensures w in PpmTree(h, k) <==> w == [] || Count(Windows(h, k), w) > 0
    ensures w in PpmTree(h, k) ==> PpmTree(h, k)[w] == Count(Windows(h, k), w)
    decreases |h|
  {
    if |h| > k {
      var g, word := h[..|h| - 1], h[|h| - k - 1..];
      PpmCounts(g, k, w);
      CountAppend(Windows(g, k), word, w);
      BumpPathIs(PpmTree(g, k), word, k + 1, w);
    }
  }

  // The root counts the windows, and no word of the tree is longer than one.
  lemma PpmShape(h: seq<int>, k: nat, w: Word)
    requires w in PpmTree(h, k)
    ensures |w| <= k + 1 && (w == [] ==> PpmTree(h, k)[w] == if |h| <= k then 0 else |h| - k)
  {
    hide PpmTree, Windows, Count;
    var L := Windows(h, k);
    PpmCounts(h, k, w);
    CountPositive(L, w);
    CountAll(L);
    WindowsSize(h, k);
    if i :| 0 <= i < |L| && w <= L[i] {
      WindowAt(h, k, i);
    }
  }

  // Every window through w goes on, so a vertex above the leaves has exactly as
  // many visits as its children together.
  lemma {:induction false} PpmConservation(h: seq<int>, k: nat, w: Word, ks: seq<int>)
    requires w in PpmTree(h, k) && |w| <= k && Children(PpmTree(h, k), w, ks)
    ensures ChildSum(PpmTree(h, k), w, ks) == PpmTree(h, k)[w]
  {
    hide PpmTree, Windows, Count, ExtensionSum, ChildSum, Occurs;
    var t, L := PpmTree(h, k), Windows(h, k);
    forall i | 0 <= i < |L| ensures |w| < |L[i]| {
      WindowAt(h, k, i);
    }
    forall u: Word
      ensures u in t <==> u == [] || Count(L, u) > 0
      ensures u in t ==> t[u] == Count(L, u)
    {
      PpmCounts(h, k, u);
    }
    ChildSumIs(t, L, w, ks, 0);
    forall q | q in L && w <= q && |w| < |q| ensures q[|w|] in ks {
      Extends(w, q[|w|], q);
      CountPositive(L, w + [q[|w|]]);
    }
    SumOfExtensions(L, w, ks);
    NoneOccurs(L, w);
  }

  lemma {:induction false} NoneOccurs(L: seq<Word>, w: Word)
    requires forall i :: 0 <= i < |L| ==> |w| < |L[i]|
    ensures Occurs(L, w) == 0
  {
    if L != [] {
      NoneOccurs(L[..|L| - 1], w);
    }
  }
}
