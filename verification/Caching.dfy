/** The prefetch cache of prefetch.h: a bounded FIFO of items with, beside it, who
    each item was cached for and how many items each accessor holds. */
module Caching {
  import opened Basics

  // How many items of s are held for acc.
  ghost function Held<T>(s: seq<T>, owner: map<T, int>, acc: int): (n: nat)
    requires forall e :: e in s ==> e in owner
    ensures n <= |s|
  {
    if s == [] then 0
    else
      var e := s[|s| - 1];
      assert e in s;
      Held(s[..|s| - 1], owner, acc) + if owner[e] == acc then 1 else 0
  }

  // It is the number of places in s with an item of acc.
  lemma {:induction false} HeldIs<T>(s: seq<T>, owner: map<T, int>, acc: int)
    requires forall e :: e in s ==> e in owner
    ensures Held(s, owner, acc) == |set i | 0 <= i < |s| && owner[s[i]] == acc|
  {
    if s != [] {
      var m := |s| - 1;
      assert s[m] in s;
      HeldIs(s[..m], owner, acc);
      var all, front := set i | 0 <= i < |s| && owner[s[i]] == acc, set i | 0 <= i < m && owner[s[..m][i]] == acc;
      assert all == if owner[s[m]] == acc then front + {m} else front;
    }
  }

  lemma {:induction false} HeldSame<T>(s: seq<T>, owner: map<T, int>, other: map<T, int>, acc: int)
    requires forall e :: e in s ==> e in owner && e in other && owner[e] == other[e]
    ensures Held(s, owner, acc) == Held(s, other, acc)
  {
    if s != [] {
      var e := s[|s| - 1];
      assert e in s;
      HeldSame(s[..|s| - 1], owner, other, acc);
    }
  }

  function Without<T>(s: seq<T>, i: nat): seq<T>
    requires i < |s|
  {
    s[..i] + s[i + 1..]
  }

  // s without its first e.
  function Erase<T(==)>(s: seq<T>, e: T): seq<T>
  {
    if s == [] then [] else if s[0] == e then s[1..] else [s[0]] + Erase(s[1..], e)
  }

  lemma {:induction false} EraseIs<T>(s: seq<T>, i: nat)
    requires i < |s| && s[i] !in s[..i]
    ensures Erase(s, s[i]) == Without(s, i)
  {
    if i > 0 {
      assert s[0] in s[..i];
      assert s[i] !in s[1..][..i - 1] by {
        assert forall j :: 0 <= j < i - 1 ==> s[1..][j] == s[..i][j + 1];
      }
      EraseIs(s[1..], i - 1);
      assert [s[0]] + Without(s[1..], i - 1) == Without(s, i);
    }
  }

  lemma {:induction false} EraseNone<T>(s: seq<T>, e: T)
    requires e !in s
    ensures Erase(s, e) == s
  {
    if s != [] {
      assert s[0] in s;
      EraseNone(s[1..], e);
    }
  }

  lemma {:induction false} EraseMembers<T>(s: seq<T>, e: T)
    requires Distinct(s)
    ensures Distinct(Erase(s, e)) && |Erase(s, e)| == |s| - if e in s then 1 else 0
    ensures forall x :: x in Erase(s, e) <==> x in s && x != e
  {
    if e in s {
      var i :| 0 <= i < |s| && s[i] == e;
      assert forall j :: 0 <= j < i ==> s[j] != e;
      EraseIs(s, i);
      WithoutMembers(s, i);
    } else {
      EraseNone(s, e);
    }
  }

  lemma {:induction false} HeldWithout<T>(s: seq<T>, owner: map<T, int>, i: nat, acc: int)
    requires i < |s| && forall e :: e in s ==> e in owner
    ensures s[i] in s && forall e :: e in Without(s, i) ==> e in s
    ensures Held(Without(s, i), owner, acc) == Held(s, owner, acc) - if owner[s[i]] == acc then 1 else 0
  {
    var m := |s| - 1;
    if i == m {
      assert Without(s, i) == s[..m];
    } else {
      HeldWithout(s[..m], owner, i, acc);
      var t := Without(s, i);
      assert t[..|t| - 1] == Without(s[..m], i);
    }
  }

  lemma {:induction false} HeldPositive<T>(s: seq<T>, owner: map<T, int>, acc: int)
    requires forall e :: e in s ==> e in owner
    ensures Held(s, owner, acc) > 0 <==> exists e :: e in s && owner[e] == acc
  {
    if s != [] {
      var m := |s| - 1;
      var last := s[m];
      assert last in s;
      HeldPositive(s[..m], owner, acc);
      if e :| e in s && owner[e] == acc {
        assert e in s[..m] || e == last;
      }
    }
  }

  lemma WithoutMembers<T>(s: seq<T>, i: nat)
    requires i < |s| && Distinct(s)
    ensures Distinct(Without(s, i)) && s[i] !in Without(s, i)
    ensures forall e :: e in Without(s, i) <==> e in s && e != s[i]
  {
    var t := Without(s, i);
    forall e | e in s && e != s[i] ensures e in t {
      var j :| 0 <= j < |s| && s[j] == e;
      assert t[if j < i then j else j - 1] == e;
    }
  }

  lemma Any<T>(s: set<T>) returns (x: T)
    requires s != {}
    ensures x in s
  {
    x :| x in s;
  }

  lemma Least(s: set<int>) returns (least: int)
    requires |s| > 0
    ensures least in s && forall y :: y in s ==> least <= y
  {
    var z := Any(s);
    least := z;
    if |s - {z}| > 0 {
      var x := Least(s - {z});
      least := if x <= z then x else z;
    }
    forall y | y in s ensures least <= y {
      assert y == z || y in s - {z};
    }
  }

  // operator[] on acc_num_map: a missing accessor counts 0.
  function Number(accNum: map<int, int>, acc: int): int
  {
    if acc in accNum then accNum[acc] else 0
  }

  // Each cached item has an owner, and the counts are those of the owners.
  ghost predicate Counted<T(!new)>(cache: seq<T>, owner: map<T, int>, accNum: map<int, int>)
  {
    && Distinct(cache)
    && (forall e :: e in cache <==> e in owner)
    && forall acc :: Number(accNum, acc) == Held(cache, owner, acc)
  }

  lemma OwnerOf<T(!new)>(cache: seq<T>, owner: map<T, int>, accNum: map<int, int>, e: T)
    requires Counted(cache, owner, accNum)
    ensures e in cache <==> e in owner
  {
  }

  lemma CountedPush<T(!new)>(cache: seq<T>, owner: map<T, int>, accNum: map<int, int>, acc: int, e: T)
    requires Counted(cache, owner, accNum) && e !in cache
    ensures Counted(cache + [e], owner[e := acc], accNum[acc := Number(accNum, acc) + 1])
  {
    var c, o := cache + [e], owner[e := acc];
    assert c[..|c| - 1] == cache;
    forall a ensures Held(c, o, a) == Held(cache, owner, a) + if a == acc then 1 else 0 {
      HeldSame(cache, owner, o, a);
    }
  }

  // Taking one item from an accessor's count leaves the counts right exactly when the
  // accessor is the one that item i was held for.
  lemma CountedDel<T(!new)>(cache: seq<T>, owner: map<T, int>, accNum: map<int, int>, i: nat, acc: int)
    requires Counted(cache, owner, accNum) && i < |cache|
    ensures cache[i] in owner
    ensures Counted(Without(cache, i), owner - {cache[i]}, accNum[acc := Number(accNum, acc) - 1]) <==> acc == owner[cache[i]]
  {
    var e, c := cache[i], Without(cache, i);
    assert e in cache;
    WithoutMembers(cache, i);
    forall a ensures Held(c, owner - {e}, a) == Held(cache, owner, a) - if a == owner[e] then 1 else 0 {
      HeldWithout(cache, owner, i, a);
      HeldSame(c, owner, owner - {e}, a);
    }
    var n := accNum[acc := Number(accNum, acc) - 1];
    assert Number(accNum, acc) == Held(cache, owner, acc) && Number(n, acc) == Held(cache, owner, acc) - 1;
  }

  class Cache<T(==, !new)> {
    const maxSize: nat
    var cache: seq<T>
    var eAcc: map<T, int>
    var accNum: map<int, int>

    // The calls of the deletion callback, and how often a full cache gave up its
    // oldest item.
    ghost var deleted: seq<T>
    ghost var evictions: nat

    ghost predicate Valid()
      reads this
    {
      1 <= maxSize && |cache| <= maxSize && Counted(cache, eAcc, accNum)
    }

    constructor (maxSize: nat)
      requires 1 <= maxSize
      ensures Valid() && cache == [] && deleted == [] && evictions == 0 && this.maxSize == maxSize
    {
      this.maxSize := maxSize;
      cache, eAcc, accNum := [], map[], map[];
      deleted, evictions := [], 0;
    }

    // std::find: the index of the first e, or the end.
    method Find(e: T) returns (i: nat)
      ensures i <= |cache| && (i < |cache| ==> cache[i] == e) && e !in cache[..i]
      ensures e in cache <==> i < |cache|
    {
      i := 0;
      while i < |cache| && cache[i] != e
        invariant i <= |cache| && e !in cache[..i]
      {
        i := i + 1;
      }
    }

    method Contains(e: T) returns (b: bool)
      ensures b <==> e in cache
    {
      var i := Find(e);
      b := i != |cache|;
    }

    // A new item goes to the back, for acc; a full cache gives up its oldest first.
    method Push(acc: int, e: T) returns (err: int)
      requires Valid()
      modifies this
      ensures Valid() && err == if e in old(cache) then 1 else 0
      ensures err == 1 ==> cache == old(cache) && eAcc == old(eAcc)
      ensures err == 0 && |old(cache)| < maxSize ==> cache == old(cache) + [e] && eAcc == old(eAcc)[e := acc]
      ensures err == 0 && |old(cache)| == maxSize ==>
        cache == old(cache)[1..] + [e] && eAcc == (old(eAcc) - {old(cache)[0]})[e := acc]
      ensures if err == 0 && |old(cache)| == maxSize
              then deleted == old(deleted) + [old(cache)[0]] && evictions == old(evictions) + 1
              else deleted == old(deleted) && evictions == old(evictions)
    {
      hide Counted;
      var has := Contains(e);
      if has {
        return 1;
      }
      if |cache| == maxSize {
        var popped := Pop();
      }
      CountedPush(cache, eAcc, accNum, acc, e);
      accNum := accNum[acc := Number(accNum, acc) + 1];
      eAcc := eAcc[e := acc];
      cache := cache + [e];
      return 0;
    }

    method Pop() returns (err: int)
      requires Valid() && cache != []
      modifies this
      ensures Valid() && err == 0 && cache == old(cache)[1..] && eAcc == old(eAcc) - {old(cache)[0]}
      ensures deleted == old(deleted) + [old(cache)[0]] && evictions == old(evictions) + 1
    {
      hide Counted;
      var e := cache[0];
      assert e in cache;
      OwnerOf(cache, eAcc, accNum, e);
      err := Del(eAcc[e], e);
      evictions := evictions + 1;
    }

    // The count that goes down is that of the accessor passed in, so the counts stay
    // right exactly when that is the one e was held for.
    method Del(acc: int, e: T) returns (err: int)
      requires Valid()
      modifies this
      ensures Valid() <==> (e in old(eAcc) ==> old(eAcc)[e] == acc)
      ensures |cache| <= maxSize && evictions == old(evictions) && err == if e in old(cache) then 0 else 1
      ensures err == 1 ==> cache == old(cache) && eAcc == old(eAcc) && accNum == old(accNum) && deleted == old(deleted)
      ensures err == 0 ==>
        && (exists i :: 0 <= i < |old(cache)| && old(cache)[i] == e && cache == old(cache)[..i] + old(cache)[i + 1..])
        && cache == Erase(old(cache), e) && eAcc == old(eAcc) - {e} && deleted == old(deleted) + [e]
        && accNum == old(accNum)[acc := Number(old(accNum), acc) - 1]
    {
      hide Counted;
      OwnerOf(cache, eAcc, accNum, e);
      var has := Contains(e);
      if !has {
        return 1;
      }
      deleted := deleted + [e];
      var i := Find(e);
      CountedDel(cache, eAcc, accNum, i, acc);
      EraseIs(cache, i);
      accNum := accNum[acc := Number(accNum, acc) - 1];
      eAcc := eAcc - {e};
      cache := Without(cache, i);
      return 0;
    }

    // The accessors some cached item is held for, in ascending order.
    method GetCachedAccs() returns (accs: seq<int>)
      requires Valid()
      ensures forall i, j :: 0 <= i < j < |accs| ==> accs[i] < accs[j]
      ensures forall a :: a in accs <==> exists e :: e in cache && eAcc[e] == a
    {
      accs := [];
      var rest := accNum.Keys;
      while |rest| > 0
        invariant rest <= accNum.Keys
        invariant forall i, j :: 0 <= i < j < |accs| ==> accs[i] < accs[j]
        invariant forall i, a :: 0 <= i < |accs| && a in rest ==> accs[i] < a
        invariant forall a :: a in accs <==> a in accNum.Keys - rest && accNum[a] > 0
        decreases rest
      {
        ghost var least := Least(rest);
        var a :| a in rest && forall b :: b in rest ==> a <= b;
        if accNum[a] > 0 {
          accs := accs + [a];
        }
        rest := rest - {a};
      }
      forall a ensures a in accs <==> exists e :: e in cache && eAcc[e] == a {
        assert Number(accNum, a) == Held(cache, eAcc, a);
        HeldPositive(cache, eAcc, a);
      }
    }
  }
}
