/** Sets of indexes kept as closed intervals in ascending order, no two of which
    overlap or touch, as the interval sets that sfc.cpp uses. */
module Intervals {
  import opened Basics

  datatype Interval = Interval(lower: nat, upper: nat)

  predicate Has(iv: Interval, x: nat)
  {
    iv.lower <= x <= iv.upper
  }

  ghost predicate InSet(s: seq<Interval>, x: nat)
  {
    exists k :: 0 <= k < |s| && Has(s[k], x)
  }

  // Ascending, with a gap between any two.
  ghost predicate Normal(s: seq<Interval>)
  {
    && (forall k :: 0 <= k < |s| ==> s[k].lower <= s[k].upper)
    && (forall j, k :: 0 <= j < k < |s| ==> s[j].upper + 1 < s[k].lower)
  }

  // The interval takes in those it overlaps or touches.
  function Insert(s: seq<Interval>, iv: Interval): (r: seq<Interval>)
    decreases |s|
  {
    if s == [] then [iv]
    else if s[0].upper + 1 < iv.lower then [s[0]] + Insert(s[1..], iv)
    else if iv.upper + 1 < s[0].lower then [iv] + s
    else Insert(s[1..], Interval(Min(iv.lower, s[0].lower), Max(iv.upper, s[0].upper)))
  }

  lemma InTail(s: seq<Interval>, x: nat)
    requires s != []
    ensures InSet(s, x) <==> Has(s[0], x) || InSet(s[1..], x)
  {
    if InSet(s, x) && !Has(s[0], x) {
      var k :| 0 <= k < |s| && Has(s[k], x);
      assert s[1..][k - 1] == s[k];
    }
    if InSet(s[1..], x) {
      var k :| 0 <= k < |s[1..]| && Has(s[1..][k], x);
      assert s[k + 1] == s[1..][k];
    }
  }

  lemma NormalTail(s: seq<Interval>)
    requires s != [] && Normal(s)
    ensures Normal(s[1..])
  {
  }

  // Insertion adds exactly the interval's indexes.
  lemma {:induction false} InsertHas(s: seq<Interval>, iv: Interval, x: nat)
    requires Normal(s) && iv.lower <= iv.upper
    ensures InSet(Insert(s, iv), x) <==> InSet(s, x) || Has(iv, x)
    decreases |s|
  {
    var r := Insert(s, iv);
    if s == [] {
      InTail(r, x);
    } else {
      NormalTail(s);
      InTail(s, x);
      if s[0].upper + 1 < iv.lower {
        InsertHas(s[1..], iv, x);
        InTail(r, x);
        assert r[1..] == Insert(s[1..], iv);
      } else if iv.upper + 1 < s[0].lower {
        InTail(r, x);
        assert r[1..] == s;
      } else {
        InsertHas(s[1..], Interval(Min(iv.lower, s[0].lower), Max(iv.upper, s[0].upper)), x);
      }
    }
  }

  lemma {:induction false} InsertNormal(s: seq<Interval>, iv: Interval, low: nat)
    requires Normal(s) && iv.lower <= iv.upper
    requires low <= iv.lower && (s != [] ==> low <= s[0].lower)
    ensures Normal(Insert(s, iv)) && Insert(s, iv) != [] && low <= Insert(s, iv)[0].lower
    decreases |s|
  {
    if s != [] {
      NormalTail(s);
      if s[0].upper + 1 < iv.lower {
        InsertNormal(s[1..], iv, s[0].upper + 2);
        var rest := Insert(s[1..], iv);
        forall k | 0 <= k < |rest| ensures s[0].upper + 1 < rest[k].lower {
          assert k > 0 ==> rest[0].upper + 1 < rest[k].lower;
        }
      } else if iv.upper + 1 < s[0].lower {
        forall k | 0 <= k < |s| ensures iv.upper + 1 < s[k].lower {
          assert k > 0 ==> s[0].upper + 1 < s[k].lower;
        }
      } else {
        InsertNormal(s[1..], Interval(Min(iv.lower, s[0].lower), Max(iv.upper, s[0].upper)), low);
      }
    }
  }

  lemma InsertFacts(s: seq<Interval>, iv: Interval)
    requires Normal(s) && iv.lower <= iv.upper
    ensures Normal(Insert(s, iv)) && Insert(s, iv) != []
    ensures forall x: nat :: InSet(Insert(s, iv), x) <==> InSet(s, x) || Has(iv, x)
  {
    hide InSet, Insert;
    InsertNormal(s, iv, 0);
    forall x: nat ensures InSet(Insert(s, iv), x) <==> InSet(s, x) || Has(iv, x) {
      InsertHas(s, iv, x);
    }
  }

  /* expand_interval_set */

  // Both ends moved apart by length, in 64 bits, and held between 0 and max.
  function Widened(iv: Interval, length: nat, max: nat): Interval
  {
    Interval(if iv.lower < length then 0 else iv.lower - length, Min(max, (iv.upper + length) % TWO_64))
  }

  function Expanded(s: seq<Interval>, length: nat, max: nat): seq<Interval>
    decreases |s|
  {
    if s == [] then []
    else
      var before, w := Expanded(s[..|s| - 1], length, max), Widened(s[|s| - 1], length, max);
      if w.lower <= w.upper then Insert(before, w) else before
  }

  // Some index of s is no further from x than length.
  ghost predicate Near(s: seq<Interval>, length: nat, x: nat)
  {
    exists y: nat :: InSet(s, y) && x <= y + length && y <= x + length
  }

  ghost predicate HasNear(iv: Interval, length: nat, x: nat)
  {
    iv.lower <= x + length && x <= iv.upper + length
  }

  lemma NearIs(s: seq<Interval>, length: nat, x: nat)
    requires Normal(s)
    ensures Near(s, length, x) <==> exists k :: 0 <= k < |s| && HasNear(s[k], length, x)
  {
    if k :| 0 <= k < |s| && HasNear(s[k], length, x) {
      var y: nat := if x < s[k].lower then s[k].lower else if s[k].upper < x then s[k].upper else x;
      assert Has(s[k], y);
      assert InSet(s, y) && x <= y + length && y <= x + length;
    }
    if Near(s, length, x) {
      var y: nat :| InSet(s, y) && x <= y + length && y <= x + length;
      var k :| 0 <= k < |s| && Has(s[k], y);
      assert HasNear(s[k], length, x);
    }
  }

  lemma {:induction false} ExpandedIs(s: seq<Interval>, length: nat, max: nat, x: nat)
    requires Normal(s)
    ensures Normal(Expanded(s, length, max))
    ensures InSet(Expanded(s, length, max), x) <==> exists k :: 0 <= k < |s| && Has(Widened(s[k], length, max), x)
    decreases |s|
  {
    hide InSet, Insert, Widened;
    if s == [] {
      InNone(x);
    } else {
      var m := |s| - 1;
      var w := Widened(s[m], length, max);
      ExpandedIs(s[..m], length, max, x);
      if w.lower <= w.upper {
        InsertFacts(Expanded(s[..m], length, max), w);
      }
      assert forall k :: 0 <= k < m ==> s[..m][k] == s[k];
    }
  }

  lemma InNone(x: nat)
    ensures !InSet([], x)
  {
  }

  lemma WidenedHas(iv: Interval, length: nat, max: nat, x: nat)
    requires iv.lower <= iv.upper <= max < TWO_31 && length < TWO_64
    ensures iv.upper + length < TWO_64 ==> (Has(Widened(iv, length, max), x) <==> x <= max && HasNear(iv, length, x))
    ensures TWO_64 <= iv.upper + length ==> (Has(Widened(iv, length, max), x) ==> x < iv.upper)
  {
  }

  // The expansion is right exactly when 64 bits hold the first interval's new end: then
  // either no end overflows, or the first interval already covers everything.
  lemma {:induction false} ExpansionExact(s: seq<Interval>, length: nat, max: nat)
    requires Normal(s) && (forall k :: 0 <= k < |s| ==> s[k].upper <= max)
    requires max < 0x8000_0000 && length < 0x1_0000_0000_0000_0000
    ensures (forall x: nat :: InSet(Expanded(s, length, max), x) <==> x <= max && Near(s, length, x)) <==>
            s == [] || s[0].upper + length < 0x1_0000_0000_0000_0000
  {
    hide InSet, Expanded, Widened, Near;
    if s == [] {
      forall x: nat ensures InSet(Expanded(s, length, max), x) <==> x <= max && Near(s, length, x) {
        ExpandedIs(s, length, max, x);
        NearIs(s, length, x);
      }
    } else if s[0].upper + length < TWO_64 {
      forall x: nat ensures InSet(Expanded(s, length, max), x) <==> x <= max && Near(s, length, x) {
        ExpansionAt(s, length, max, x);
      }
    } else {
      var m := |s| - 1;
      var top := s[m].upper;
      ExpandedIs(s, length, max, top);
      NearIs(s, length, top);
      assert HasNear(s[m], length, top);
      forall k | 0 <= k < |s| ensures !Has(Widened(s[k], length, max), top) {
        assert k > 0 ==> s[0].upper < s[k].lower;
        assert k < m ==> s[k].upper < s[m].lower;
        WidenedHas(s[k], length, max, top);
      }
      assert !InSet(Expanded(s, length, max), top);
    }
  }

  lemma ExpansionAt(s: seq<Interval>, length: nat, max: nat, x: nat)
    requires Normal(s) && (forall k :: 0 <= k < |s| ==> s[k].upper <= max) && max < TWO_31 && length < TWO_64
    requires s != [] && s[0].upper + length < TWO_64
    ensures InSet(Expanded(s, length, max), x) <==> x <= max && Near(s, length, x)
  {
    hide InSet, Expanded, Widened, Near;
    ExpandedIs(s, length, max, x);
    NearIs(s, length, x);
    WidenedHas(s[0], length, max, x);
    forall k | 0 <= k < |s|
      ensures Has(Widened(s[k], length, max), x) ==> x <= max && (HasNear(s[k], length, x) || HasNear(s[0], length, x))
      ensures x <= max && HasNear(s[k], length, x) ==> Has(Widened(s[k], length, max), x) || Has(Widened(s[0], length, max), x)
    {
      assert k > 0 ==> s[0].upper < s[k].lower;
      WidenedHas(s[k], length, max, x);
    }
  }

  // With the greatest length index 5 drops out of its own neighbourhood.
  lemma ExpansionOverflows()
    ensures Expanded([Interval(5, 5)], 0xFFFF_FFFF_FFFF_FFFF, 7) == [Interval(0, 4)]
    ensures Near([Interval(5, 5)], 0xFFFF_FFFF_FFFF_FFFF, 5) && !InSet([Interval(0, 4)], 5)
  {
    var s := [Interval(5, 5)];
    assert s[..0] == [] && Expanded(s[..0], TWO_64 - 1, 7) == [];
    assert Has(s[0], 5) && InSet(s, 5);
  }
}
