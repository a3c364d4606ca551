/** The directory of data spaces of prefetch.cpp: who put which item where, and a
    prefetch buffer for each data space, also for those that join late. */
module Directories {
  import opened Caching
  import opened Buffering

  // contains() takes '*' for all data spaces.
  const WILDCARD: int := 42

  // put() takes it for data that is new to the space.
  const NEW_DATA: int := -1

  datatype NewPut = NewPut(p: int, kv: KeyVer)

  const NoItems := Registry(map[], map[])

  // Registers the puts one after the other.
  function Replayed(reg: Registry, puts: seq<NewPut>): Registry
  {
    if puts == [] then reg
    else
      var last := puts[|puts| - 1];
      Replayed(reg, puts[..|puts| - 1]).Registered(last.p, last.kv)
  }

  // kv__p_id_map: each item with whoever put it last.
  function LastPutter(puts: seq<NewPut>): map<KeyVer, int>
  {
    if puts == [] then map[]
    else LastPutter(puts[..|puts| - 1])[puts[|puts| - 1].kv := puts[|puts| - 1].p]
  }

  // What reg_ds replays: the items put so far, each under its last putter.
  function Relabelled(puts: seq<NewPut>, owner: map<KeyVer, int>): (r: seq<NewPut>)
    ensures |r| == |puts|
    ensures forall i :: 0 <= i < |puts| && puts[i].kv in owner ==> r[i] == NewPut(owner[puts[i].kv], puts[i].kv)
  {
    if puts == [] then []
    else
      var last := puts[|puts| - 1];
      Relabelled(puts[..|puts| - 1], owner) + [if last.kv in owner then NewPut(owner[last.kv], last.kv) else last]
  }

  // The registry of a data space that joined after the first n puts.
  function JoinedAfter(puts: seq<NewPut>, n: nat): Registry
    requires n <= |puts|
  {
    Replayed(Replayed(NoItems, Relabelled(puts[..n], LastPutter(puts[..n]))), puts[n..])
  }

  // No item changed its producer: the first to put it is the last.
  ghost predicate SamePutters(puts: seq<NewPut>)
  {
    forall i :: 0 <= i < |puts| && FirstPut(puts, i) ==> LastPutter(puts)[puts[i].kv] == puts[i].p
  }

  ghost predicate FirstPut(puts: seq<NewPut>, i: nat)
    requires i < |puts|
  {
    puts[i].kv in LastPutter(puts) && forall j :: 0 <= j < i ==> puts[j].kv != puts[i].kv
  }

  lemma {:induction false} PuttersAre(puts: seq<NewPut>, kv: KeyVer)
    ensures kv in LastPutter(puts) <==> exists i :: 0 <= i < |puts| && puts[i].kv == kv
  {
    if puts != [] {
      var m := |puts| - 1;
      PuttersAre(puts[..m], kv);
      if i :| 0 <= i < |puts| && puts[i].kv == kv {
        assert i < m ==> puts[..m][i].kv == kv;
      }
      if kv in LastPutter(puts[..m]) {
        var i :| 0 <= i < m && puts[..m][i].kv == kv;
        assert puts[i].kv == kv;
      }
    }
  }

  // The first put of an item decides its producer.
  lemma {:induction false} OwnerIsFirst(puts: seq<NewPut>, i: nat)
    requires i < |puts| && forall j :: 0 <= j < i ==> puts[j].kv != puts[i].kv
    ensures puts[i].kv in Replayed(NoItems, puts).owner && Replayed(NoItems, puts).owner[puts[i].kv] == puts[i].p
    decreases |puts|
  {
    var m := |puts| - 1;
    if i < m {
      OwnerIsFirst(puts[..m], i);
    } else {
      NotYetOwned(puts[..m], puts[i].kv);
    }
  }

  lemma {:induction false} NotYetOwned(puts: seq<NewPut>, kv: KeyVer)
    requires forall j :: 0 <= j < |puts| ==> puts[j].kv != kv
    ensures kv !in Replayed(NoItems, puts).owner
  {
    if puts != [] {
      NotYetOwned(puts[..|puts| - 1], kv);
    }
  }

  lemma {:induction false} ReplayedAppend(reg: Registry, a: seq<NewPut>, b: seq<NewPut>)
    ensures Replayed(reg, a + b) == Replayed(Replayed(reg, a), b)
  {
    if b == [] {
      assert a + b == a;
    } else {
      var m := |b| - 1;
      assert (a + b)[..|a| + m] == a + b[..m];
      ReplayedAppend(reg, a, b[..m]);
    }
  }

  // A put of an item that is known adds nothing, whoever makes it.
  lemma {:induction false} OnlyFirstsCount(a: seq<NewPut>, b: seq<NewPut>)
    requires |a| == |b| && forall i :: 0 <= i < |a| ==> a[i].kv == b[i].kv
    requires forall i :: 0 <= i < |a| && (forall j :: 0 <= j < i ==> a[j].kv != a[i].kv) ==> a[i] == b[i]
    ensures Replayed(NoItems, a) == Replayed(NoItems, b)
  {
    if a != [] {
      var m := |a| - 1;
      OnlyFirstsCount(a[..m], b[..m]);
      if a[m] != b[m] {
        var j :| 0 <= j < m && a[j].kv == a[m].kv;
        KnownFrom(a[..m], j);
      }
    }
  }

  lemma {:induction false} KnownFrom(puts: seq<NewPut>, j: nat)
    requires j < |puts|
    ensures puts[j].kv in Replayed(NoItems, puts).owner
  {
    var m := |puts| - 1;
    if j < m {
      KnownFrom(puts[..m], j);
    }
  }

  lemma {:induction false} OwnersStay(reg: Registry, puts: seq<NewPut>, kv: KeyVer)
    requires kv in reg.owner
    ensures kv in Replayed(reg, puts).owner && Replayed(reg, puts).owner[kv] == reg.owner[kv]
  {
    if puts != [] {
      OwnersStay(reg, puts[..|puts| - 1], kv);
    }
  }

  lemma ReplayedStep(reg: Registry, puts: seq<NewPut>, i: nat)
    requires i < |puts|
    ensures Replayed(reg, puts[..i + 1]) == Replayed(reg, puts[..i]).Registered(puts[i].p, puts[i].kv)
  {
    assert puts[..i + 1][..i] == puts[..i];
  }

  // The puts as a data space that joins after n of them learns of them.
  function Learned(puts: seq<NewPut>, n: nat): (r: seq<NewPut>)
    requires n <= |puts|
    ensures |r| == |puts|
  {
    Relabelled(puts[..n], LastPutter(puts[..n])) + puts[n..]
  }

  // The producer it learns for the item of put i: the last before it joined, or that of
  // the put itself.
  function Recorded(puts: seq<NewPut>, n: nat, i: nat): int
    requires n <= |puts| && i < |puts|
  {
    if i < n && puts[i].kv in LastPutter(puts[..n]) then LastPutter(puts[..n])[puts[i].kv] else puts[i].p
  }

  lemma LearnedAt(puts: seq<NewPut>, n: nat, i: nat)
    requires n <= |puts| && i < |puts|
    ensures Learned(puts, n)[i] == NewPut(Recorded(puts, n, i), puts[i].kv)
  {
    hide LastPutter, Relabelled;
    if i < n {
      PuttersAre(puts[..n], puts[..n][i].kv);
    }
  }

  // Data spaces that join after n and after m puts know the same items, in the same
  // order and from the same producers, exactly when the items' producers on record at
  // the two times agree: for each item, looked at where it was put first.
  lemma {:induction false} LateJoinersAgree(puts: seq<NewPut>, n: nat, m: nat)
    requires n <= |puts| && m <= |puts|
    ensures JoinedAfter(puts, n) == JoinedAfter(puts, m) <==>
      forall i :: 0 <= i < |puts| && FirstPut(puts, i) ==> Recorded(puts, n, i) == Recorded(puts, m, i)
  {
    hide LastPutter, Replayed, Relabelled, Recorded, Learned;
    JoinedIsLearned(puts, n);
    JoinedIsLearned(puts, m);
    var a, b := Learned(puts, n), Learned(puts, m);
    forall i | 0 <= i < |puts|
      ensures a[i] == NewPut(Recorded(puts, n, i), puts[i].kv) && b[i] == NewPut(Recorded(puts, m, i), puts[i].kv)
      ensures puts[i].kv in LastPutter(puts)
    {
      LearnedAt(puts, n, i);
      LearnedAt(puts, m, i);
      PuttersAre(puts, puts[i].kv);
    }
    if forall i :: 0 <= i < |puts| && FirstPut(puts, i) ==> Recorded(puts, n, i) == Recorded(puts, m, i) {
      forall i | 0 <= i < |puts| && (forall j :: 0 <= j < i ==> a[j].kv != a[i].kv) ensures a[i] == b[i] {
        assert forall j :: 0 <= j < i ==> puts[j].kv == a[j].kv;
        assert FirstPut(puts, i);
      }
      OnlyFirstsCount(a, b);
    } else {
      var i :| 0 <= i < |puts| && FirstPut(puts, i) && Recorded(puts, n, i) != Recorded(puts, m, i);
      OwnerIsFirst(a, i);
      OwnerIsFirst(b, i);
    }
  }

  lemma JoinedIsLearned(puts: seq<NewPut>, n: nat)
    requires n <= |puts|
    ensures JoinedAfter(puts, n) == Replayed(NoItems, Learned(puts, n))
  {
    hide Replayed, Relabelled;
    ReplayedAppend(NoItems, Relabelled(puts[..n], LastPutter(puts[..n])), puts[n..]);
  }

  // A data space that joins late agrees with one that was there from the start exactly
  // when no item put before it joined had changed its producer.
  lemma {:induction false} LateIsEarly(puts: seq<NewPut>, n: nat)
    requires n <= |puts|
    ensures JoinedAfter(puts, n) == JoinedAfter(puts, 0) <==> SamePutters(puts[..n])
  {
    hide LastPutter, JoinedAfter;
    LateJoinersAgree(puts, n, 0);
    forall i | 0 <= i < |puts|
      ensures puts[i].kv in LastPutter(puts) && (i < n ==> puts[..n][i].kv in LastPutter(puts[..n]))
      ensures i < n ==> (FirstPut(puts[..n], i) <==> FirstPut(puts, i))
      ensures Recorded(puts, 0, i) == puts[i].p
      ensures Recorded(puts, n, i) == if i < n then LastPutter(puts[..n])[puts[i].kv] else puts[i].p
    {
      PuttersAre(puts, puts[i].kv);
      if i < n {
        PuttersAre(puts[..n], puts[..n][i].kv);
        assert forall j :: 0 <= j < i ==> puts[..n][j] == puts[j];
      }
    }
    assert forall i :: 0 <= i < n ==> puts[..n][i] == puts[i];
  }

  // Two late data spaces that agree with each other and not with the first one.
  lemma LateAgreeLate(kv: KeyVer)
    ensures
      var puts := [NewPut(1, kv), NewPut(2, kv), NewPut(2, kv)];
      JoinedAfter(puts, 2) == JoinedAfter(puts, 3) != JoinedAfter(puts, 0)
  {
    hide JoinedAfter, FirstPut;
    var puts := [NewPut(1, kv), NewPut(2, kv), NewPut(2, kv)];
    assert puts[..2] == [NewPut(1, kv), NewPut(2, kv)] && puts[..3] == puts;
    LastIs(puts[..2], 1);
    LastIs(puts, 2);
    FirstIsFirst(puts, kv);
    FirstIsFirst(puts[..2], kv);
    LateJoinersAgree(puts, 2, 3);
    LateIsEarly(puts, 2);
  }

  lemma FirstIsFirst(puts: seq<NewPut>, kv: KeyVer)
    requires puts != [] && forall i :: 0 <= i < |puts| ==> puts[i].kv == kv
    ensures forall i :: 0 <= i < |puts| ==> (FirstPut(puts, i) <==> i == 0)
  {
    hide LastPutter;
    forall i | 0 <= i < |puts| ensures FirstPut(puts, i) <==> i == 0 {
      PuttersAre(puts, puts[i].kv);
      assert i > 0 ==> puts[0].kv == puts[i].kv;
    }
  }

  lemma ReplayedNone(reg: Registry)
    ensures Replayed(reg, []) == reg && Replayed(NoItems, Relabelled([], LastPutter([]))) == NoItems
  {
  }

  // When no item is put twice, nothing changes its producer.
  lemma {:induction false} PutOnce(puts: seq<NewPut>, n: nat)
    requires n <= |puts| && forall i, j :: 0 <= i < j < |puts| ==> puts[i].kv != puts[j].kv
    ensures JoinedAfter(puts, n) == JoinedAfter(puts, 0)
  {
    var before := puts[..n];
    forall i | 0 <= i < n ensures before[i].kv in LastPutter(before) && LastPutter(before)[before[i].kv] == before[i].p {
      LastIs(before, i);
    }
    LateIsEarly(puts, n);
  }

  lemma {:induction false} LastIs(puts: seq<NewPut>, i: nat)
    requires i < |puts| && forall j :: i < j < |puts| ==> puts[j].kv != puts[i].kv
    ensures puts[i].kv in LastPutter(puts) && LastPutter(puts)[puts[i].kv] == puts[i].p
  {
    var m := |puts| - 1;
    if i < m {
      LastIs(puts[..m], i);
    }
  }

  // The registries do differ: two applications put the same item, then a data space joins.
  lemma LateDiffers(kv: KeyVer)
    ensures
      var puts := [NewPut(1, kv), NewPut(2, kv)];
      JoinedAfter(puts, 2) != JoinedAfter(puts, 0)
  {
    var puts := [NewPut(1, kv), NewPut(2, kv)];
    assert puts[..2] == puts && puts[..1] == [NewPut(1, kv)] && puts[..1][..0] == [];
    LastIs(puts, 1);
    assert FirstPut(puts, 0);
    assert puts[0].p != LastPutter(puts)[kv];
    LateIsEarly(puts, 2);
  }

  function ItemsPut(puts: seq<NewPut>): (kvs: seq<KeyVer>)
    ensures |kvs| == |puts| && forall i :: 0 <= i < |puts| ==> kvs[i] == puts[i].kv
  {
    if puts == [] then [] else ItemsPut(puts[..|puts| - 1]) + [puts[|puts| - 1].kv]
  }

  lemma JoinedThenPut(puts: seq<NewPut>, x: NewPut, n: nat)
    requires n <= |puts|
    ensures JoinedAfter(puts + [x], n) == JoinedAfter(puts, n).Registered(x.p, x.kv)
  {
    var all := puts + [x];
    assert all[..n] == puts[..n] && all[n..][..|puts| - n] == puts[n..];
  }

  lemma PutThenJoined(puts: seq<NewPut>)
    ensures JoinedAfter(puts, |puts|) == Replayed(NoItems, Relabelled(puts, LastPutter(puts)))
  {
    assert puts[..|puts|] == puts;
  }

  // The ids of s that are in held, in the order of s.
  function Among(s: seq<int>, held: set<int>): (r: seq<int>)
    ensures forall d :: d in r <==> d in s && d in held
  {
    if s == [] then []
    else
      Among(s[..|s| - 1], held) + if s[|s| - 1] in held then [s[|s| - 1]] else []
  }

  // x comes before y in s.
  ghost predicate Earlier(x: int, y: int, s: seq<int>)
  {
    exists a, b :: 0 <= a < b < |s| && s[a] == x && s[b] == y
  }

  // ids are some of s, in the order of s.
  ghost predicate InOrder(ids: seq<int>, s: seq<int>)
  {
    forall i, j :: 0 <= i < j < |ids| ==> Earlier(ids[i], ids[j], s)
  }

  lemma {:induction false} AmongInOrder(s: seq<int>, held: set<int>)
    ensures InOrder(Among(s, held), s)
  {
    if s != [] {
      var m := |s| - 1;
      var front, ids := Among(s[..m], held), Among(s, held);
      AmongInOrder(s[..m], held);
      forall i, j | 0 <= i < j < |ids| ensures Earlier(ids[i], ids[j], s) {
        if j < |front| {
          assert Earlier(front[i], front[j], s[..m]);
          var a, b :| 0 <= a < b < m && s[..m][a] == front[i] && s[..m][b] == front[j];
          assert s[a] == ids[i] && s[b] == ids[j];
        } else {
          assert front[i] in front && front[i] in s[..m];
          var a :| 0 <= a < m && s[..m][a] == front[i];
          assert s[a] == ids[i] && s[m] == ids[j];
        }
      }
    }
  }

  class MwaSpace {
    const maxNumKeyVer: nat
    const wPrefetch: bool

    var dsIds: seq<int>
    var appDs: map<int, int>
    var kvV: seq<KeyVer>
    var dsKvs: map<int, seq<KeyVer>>
    var buffers: map<int, MpBuffer>
    var kvPId: map<KeyVer, int>

    // The new data so far, how much of it each data space had missed, and one data
    // space that each item was put to.
    ghost var puts: seq<NewPut>
    ghost var joined: map<int, nat>
    ghost var home: map<KeyVer, int>

    ghost predicate Valid()
      reads this, buffers.Values, set b | b in buffers.Values :: b.cache
    {
      && 1 <= maxNumKeyVer
      && dsKvs.Keys == buffers.Keys == joined.Keys && Listed(dsIds, buffers.Keys)
      && AllApart(buffers) && (forall d :: d in buffers ==> InStep(buffers[d], puts, joined[d]))
      && OnRecord(kvPId, puts) && kvV == ItemsPut(puts) && AllHome(kvV, home, dsKvs)
    }

    // Data space d lists kv or has it cached.
    ghost predicate Holds(d: int, kv: KeyVer)
      reads this, buffers.Values, set b | b in buffers.Values :: b.cache
    {
      d in dsKvs && d in buffers && (kv in dsKvs[d] || kv in buffers[d].cache.cache)
    }

    // What contains answers: for the wildcard, whether kv is known at all.
    ghost predicate Says(d: int, kv: KeyVer)
      reads this, buffers.Values, set b | b in buffers.Values :: b.cache
    {
      if d == WILDCARD then kv in kvV else Holds(d, kv)
    }

    ghost function Holders(kv: KeyVer): set<int>
      reads this, buffers.Values, set b | b in buffers.Values :: b.cache
    {
      set d | d in dsIds && Holds(d, kv)
    }

    ghost function Answers(kv: KeyVer): set<int>
      reads this, buffers.Values, set b | b in buffers.Values :: b.cache
    {
      set d | d in dsIds && Says(d, kv)
    }

    constructor (maxNumKeyVer: nat, wPrefetch: bool)
      requires 1 <= maxNumKeyVer
      ensures Valid() && puts == [] && dsIds == [] && appDs == map[] && dsKvs == map[]
      ensures this.maxNumKeyVer == maxNumKeyVer && this.wPrefetch == wPrefetch
    {
      this.maxNumKeyVer, this.wPrefetch := maxNumKeyVer, wPrefetch;
      dsIds, appDs, kvV, dsKvs, buffers, kvPId := [], map[], [], map[], map[], map[];
      puts, joined, home := [], map[], map[];
    }

    method RegApp(app: int, ds: int) returns (err: int)
      requires Valid()
      modifies this`appDs
      ensures Valid() && err == if app in old(appDs) then 1 else 0
      ensures appDs == if app in old(appDs) then old(appDs) else old(appDs)[app := ds]
    {
      if app in appDs {
        return 1;
      }
      appDs := appDs[app := ds];
      return 0;
    }

    // A data space joins; its buffer catches up with the items put so far.
    method RegDs(ds: int) returns (err: int)
      requires Valid()
      modifies this`dsIds, this`dsKvs, this`buffers, this`joined
      ensures Valid() && err == if ds in old(dsIds) then 1 else 0
      ensures err == 1 ==> dsIds == old(dsIds) && dsKvs == old(dsKvs) && buffers == old(buffers) && joined == old(joined)
      ensures err == 0 ==>
        && dsIds == old(dsIds) + [ds] && dsKvs == old(dsKvs)[ds := []] && joined == old(joined)[ds := |puts|]
        && ds in buffers && fresh(buffers[ds]) && fresh(buffers[ds].cache) && buffers == old(buffers)[ds := buffers[ds]]
        && buffers[ds].cache.cache == [] && buffers[ds].acts == [] && buffers[ds].chosen == []
        && buffers[ds].maxNumKeyVer == maxNumKeyVer && buffers[ds].wPrefetch == wPrefetch && buffers[ds].hasCallback
    {
      hide MpBuffer.Valid, LastPutter, ItemsPut, JoinedAfter, AllApart, InStep, AllHome, Listed;
      ListedMore(dsIds, buffers.Keys, ds);
      if ds in dsIds {
        return 1;
      }
      var b := LateBuffer();
      OneMoreBuffer(buffers, b, ds);
      SameHome(kvV, home, dsKvs, ds, []);
      Enlist(ds, b);
      return 0;
    }

    method Enlist(ds: int, b: MpBuffer)
      requires buffers.Keys == dsKvs.Keys == joined.Keys
      modifies this`dsIds, this`dsKvs, this`buffers, this`joined
      ensures dsIds == old(dsIds) + [ds] && dsKvs == old(dsKvs)[ds := []]
      ensures buffers == old(buffers)[ds := b] && joined == old(joined)[ds := |puts|]
      ensures buffers.Keys == dsKvs.Keys == joined.Keys == old(buffers.Keys) + {ds}
    {
      dsIds := dsIds + [ds];
      dsKvs := dsKvs[ds := []];
      buffers := buffers[ds := b];
      joined := joined[ds := |puts|];
    }

    method LateBuffer() returns (b: MpBuffer)
      requires 1 <= maxNumKeyVer && OnRecord(kvPId, puts) && kvV == ItemsPut(puts)
      ensures fresh(b) && fresh(b.cache) && InStep(b, puts, |puts|)
      ensures b.cache.cache == [] && b.acts == [] && b.chosen == []
      ensures b.maxNumKeyVer == maxNumKeyVer && b.wPrefetch == wPrefetch && b.hasCallback
    {
      hide MpBuffer.Valid, LastPutter, Replayed, JoinedAfter, Registry.Registered, Relabelled;
      b := new MpBuffer(maxNumKeyVer, wPrefetch, true);
      ghost var r := Relabelled(puts, LastPutter(puts));
      ReplayedNone(NoItems);
      for i := 0 to |kvV|
        invariant fresh(b) && fresh(b.cache) && b.cache.cache == [] && b.acts == [] && b.chosen == []
        invariant b.Valid() && b.Reg() == Replayed(NoItems, r[..i])
      {
        PuttersAre(puts, puts[i].kv);
        ReplayedStep(NoItems, r, i);
        var err := b.RegKeyVer(kvPId[kvV[i]], kvV[i]);
      }
      assert r[..|kvV|] == r;
      PutThenJoined(puts);
    }

    // Tells every buffer of the new item.
    method Broadcast(p: int, kv: KeyVer)
      requires buffers.Keys == joined.Keys && AllApart(buffers) && forall d :: d in buffers ==> InStep(buffers[d], puts, joined[d])
      modifies buffers.Values
      ensures forall d :: d in buffers ==> InStep(buffers[d], puts + [NewPut(p, kv)], joined[d])
      ensures forall d :: d in buffers ==> Steps(buffers[d]) == old(Steps(buffers[d]))
    {
      hide AllApart, InStep, Steps;
      ghost var more := puts + [NewPut(p, kv)];
      var rest := buffers.Keys;
      while rest != {}
        invariant rest <= buffers.Keys
        invariant forall d :: d in buffers ==> InStep(buffers[d], if d in rest then puts else more, joined[d])
        invariant forall d :: d in buffers ==> Steps(buffers[d]) == old(Steps(buffers[d]))
        decreases rest
      {
        ghost var some := Any(rest);
        var d :| d in rest;
        rest := rest - {d};
        AllOthersApart(buffers, d);
        Tell(buffers[d], p, kv, puts, joined[d]);
      }
    }

    method Contains(ds: int, kv: KeyVer) returns (b: bool)
      requires ds == WILDCARD || (ds in dsKvs && ds in buffers)
      ensures b <==> Says(ds, kv)
      ensures b <==> if ds == 42 then kv in kvV else Holds(ds, kv)
    {
      if ds == WILDCARD {
        b := kv in kvV;
      } else {
        var buffered := buffers[ds].Contains(kv);
        b := kv in dsKvs[ds] || buffered;
      }
    }

    method List(ds: int, kv: KeyVer)
      requires Valid() && ds in dsKvs
      modifies this`dsKvs
      ensures Valid() && dsKvs == old(dsKvs)[ds := old(dsKvs)[ds] + [kv]]
    {
      hide AllApart, InStep, AllHome, Listed, LastPutter, ItemsPut;
      SameHome(kvV, home, dsKvs, ds, dsKvs[ds] + [kv]);
      dsKvs := dsKvs[ds := dsKvs[ds] + [kv]];
    }

    method PutNew(p: int, kv: KeyVer, at: int)
      requires Valid() && p in appDs && at in dsKvs
      modifies this`dsKvs, this`kvV, this`kvPId, this`puts, this`home, buffers.Values
      ensures Valid() && puts == old(puts) + [NewPut(p, kv)] && dsKvs == old(dsKvs)[at := old(dsKvs)[at] + [kv]]
      ensures kvPId == old(kvPId)[kv := p] && kvV == old(kvV) + [kv]
      ensures forall d :: d in buffers ==> Steps(buffers[d]) == old(Steps(buffers[d]))
    {
      hide AllApart, InStep, AllHome, Listed, LastPutter, ItemsPut, Steps;
      Broadcast(p, kv);
      Note(p, kv, at);
    }

    // The entries that a new item gets.
    method Note(p: int, kv: KeyVer, at: int)
      requires OnRecord(kvPId, puts) && kvV == ItemsPut(puts) && AllHome(kvV, home, dsKvs) && at in dsKvs
      modifies this`dsKvs, this`kvV, this`kvPId, this`puts, this`home
      ensures OnRecord(kvPId, puts) && kvV == ItemsPut(puts) && AllHome(kvV, home, dsKvs)
      ensures puts == old(puts) + [NewPut(p, kv)] && kvPId == old(kvPId)[kv := p] && kvV == old(kvV) + [kv]
      ensures dsKvs == old(dsKvs)[at := old(dsKvs)[at] + [kv]] && dsKvs.Keys == old(dsKvs).Keys
    {
      hide AllHome, LastPutter, ItemsPut;
      OneMorePut(puts, NewPut(p, kv), appDs);
      OneMoreHome(kvV, home, dsKvs, kv, at);
      kvPId := kvPId[kv := p];
      kvV := kvV + [kv];
      puts := puts + [NewPut(p, kv)];
      home := home[kv := at];
      dsKvs := dsKvs[at := dsKvs[at] + [kv]];
    }

    lemma Known(kv: KeyVer)
      requires Valid()
      ensures kv in kvV <==> exists i :: 0 <= i < |puts| && puts[i].kv == kv
    {
      PutItems(puts, kv);
    }

    lemma ListedHere(ds: int)
      requires Valid()
      ensures ds in dsKvs <==> ds in buffers
    {
    }

    // Data put to the space as new goes to the data space of its application, and all
    // buffers are told; data put to a data space is only listed there, and refused if it
    // is there already: exactly so if it is not the one with the wildcard's number, or that
    // one holds the item just when it is known. A data space named here, and that of the application, must be
    // registered.
    method Put(p: int, kv: KeyVer, ds: int) returns (err: int)
      requires Valid()
      requires if ds == -1 then p in appDs ==> appDs[p] in dsKvs else ds in dsKvs
      modifies this`dsKvs, this`kvV, this`kvPId, this`puts, this`home, buffers.Values
      ensures err == if ds == -1 then (if p in appDs then 0 else 1)
                     else (if (if ds == 42 then kv in old(kvV) else old(Holds(ds, kv))) then 1 else 0)
      ensures ds != -1 ==>
        ((err == 1 <==> old(Holds(ds, kv))) <==> (ds == 42 ==> (old(Holds(ds, kv)) <==> kv in old(kvV))))
      ensures err == 1 ==> puts == old(puts) && dsKvs == old(dsKvs) && kvPId == old(kvPId) && kvV == old(kvV)
      ensures err == 0 && ds == -1 ==>
        && p in appDs && appDs[p] in old(dsKvs) && dsKvs == old(dsKvs)[appDs[p] := old(dsKvs)[appDs[p]] + [kv]]
        && puts == old(puts) + [NewPut(p, kv)] && kvPId == old(kvPId)[kv := p] && kvV == old(kvV) + [kv]
      ensures err == 0 && ds != -1 ==>
        && ds in old(dsKvs) && dsKvs == old(dsKvs)[ds := old(dsKvs)[ds] + [kv]]
        && puts == old(puts) && kvPId == old(kvPId) && kvV == old(kvV)
      ensures Valid()
      ensures forall d :: d in buffers ==> Steps(buffers[d]) == old(Steps(buffers[d]))
    {
      hide AllApart, InStep, AllHome, Listed, LastPutter, ItemsPut, Steps, Valid, Holds;
      SaysAll(kv);
      if ds != NEW_DATA {
        ListedHere(ds);
        var has := Contains(ds, kv);
        if has {
          return 1;
        }
        List(ds, kv);
        return 0;
      }
      if p !in appDs {
        return 1;
      }
      PutNew(p, kv, appDs[p]);
      return 0;
    }

    // Where kv can be fetched from. Every holder is named, and there is one; nothing else
    // is named exactly when the data space with the wildcard's number is not registered
    // or holds the item itself.
    method Query(kv: KeyVer) returns (err: int, ids: seq<int>)
      requires Valid()
      ensures err == if exists i :: 0 <= i < |puts| && puts[i].kv == kv then 0 else 1
      ensures err == 0 ==> forall d :: d in ids <==> d in dsIds && (d == 42 || Holds(d, kv))
      ensures InOrder(ids, dsIds)
      ensures err == 0 ==> (forall d :: d in dsIds && Holds(d, kv) ==> d in ids) && exists d :: d in ids && Holds(d, kv)
      ensures err == 0 ==> (ids == Among(dsIds, Holders(kv)) <==> (42 in dsIds ==> Holds(42, kv)))
      ensures err == 1 ==> ids == []
    {
      hide AllApart, InStep, LastPutter, Among, Holds, Says;
      ids := [];
      PutItems(puts, kv);
      var has := Contains(WILDCARD, kv);
      SaysAll(kv);
      if !has {
        return 1, [];
      }
      ghost var told := Answers(kv);
      AmongNone(told);
      for i := 0 to |dsIds|
        invariant ids == Among(dsIds[..i], told)
      {
        assert dsIds[i] in dsIds;
        AmongStep(dsIds, i, told);
        has := Contains(dsIds[i], kv);
        if has {
          ids := ids + [dsIds[i]];
        }
      }
      assert dsIds[..|dsIds|] == dsIds;
      HomeHolds(kv);
      AnswersAre(kv);
      AmongInOrder(dsIds, told);
      return 0, ids;
    }

    lemma SaysAll(kv: KeyVer)
      ensures Says(WILDCARD, kv) <==> kv in kvV
      ensures forall d :: d != WILDCARD ==> (Says(d, kv) <==> Holds(d, kv))
    {
    }

    lemma HomeHolds(kv: KeyVer)
      requires Valid() && kv in kvV
      ensures kv in home && home[kv] in dsIds && Holds(home[kv], kv)
    {
      ListedAt(dsIds, buffers.Keys, home[kv]);
    }

    // Of the data spaces named, only the one with the wildcard's number may hold nothing.
    lemma AnswersAre(kv: KeyVer)
      requires kv in kvV
      ensures forall d :: d in dsIds && Holds(d, kv) ==> d in Among(dsIds, Answers(kv))
      ensures Among(dsIds, Answers(kv)) == Among(dsIds, Holders(kv)) <==> (WILDCARD in dsIds ==> Holds(WILDCARD, kv))
    {
      hide Holds, Says, Among;
      SaysAll(kv);
      if WILDCARD in dsIds ==> Holds(WILDCARD, kv) {
        assert Answers(kv) == Holders(kv);
      } else {
        assert WILDCARD in Among(dsIds, Answers(kv)) && WILDCARD !in Among(dsIds, Holders(kv));
      }
    }

    // What operator[] leaves for an item or an application that is not on record.
    function ProducerOf(kv: KeyVer): int
      reads this
    {
      if kv in kvPId then kvPId[kv] else 0
    }

    function SpaceOf(app: int): int
      reads this
    {
      if app in appDs then appDs[app] else 0
    }

    ghost function BufferOf(ds: int): set<object>
      reads this
    {
      if ds in buffers then {buffers[ds], buffers[ds].cache} else {}
    }

    // The predictor's reply names producers with an access.
    ghost predicate MayPick(ds: int, kv: KeyVer, picks: seq<int>)
      reads this, buffers.Values
    {
      && ds in buffers
      && var b := buffers[ds];
         forall p :: p in picks ==> p in b.lastAcced || (kv in b.kvPId && p == b.kvPId[kv])
    }

    // An access by application c goes to the buffer of its data space, unless the item's
    // producer sits there too. Looking them up puts an item and applications that are
    // not on record there, under 0. A data space that is reached must be registered.
    method AddAccess(c: int, kv: KeyVer, picks: seq<int>)
      returns (err: int, ghost from: int, ghost to: int, ghost kvs: seq<KeyVer>)
      requires Valid()
      requires SpaceOf(ProducerOf(kv)) != SpaceOf(c) ==> MayPick(SpaceOf(c), kv, picks)
      modifies this`kvPId, this`appDs, BufferOf(SpaceOf(c))
      ensures Valid()
      ensures
        var p := if kv in old(kvPId) then old(kvPId)[kv] else 0;
        && from == (if p in old(appDs) then old(appDs)[p] else 0) && to == (if c in old(appDs) then old(appDs)[c] else 0)
        && kvPId == old(kvPId)[kv := p] && appDs == old(appDs)[p := from][c := to]
      ensures from == to ==> err == 1 && (to in buffers ==> Steps(buffers[to]) == old(Steps(buffers[to])))
      ensures from != to ==> to in buffers && (kv in kvV ==> err == 0)
      ensures from != to ==> err == if kv in buffers[to].kvPId then 0 else 1
      ensures from != to && err == 1 ==> Steps(buffers[to]) == old(Steps(buffers[to]))
      ensures from != to && err == 0 ==> Accessed(old(Steps(buffers[to])), Steps(buffers[to]), buffers[to].Reg(), kv, picks, kvs)
    {
      hide AllApart, AllHome, Listed, LastPutter, ItemsPut, InStep, Steps, Accessed, OnRecord;
      from, to := SpaceOf(ProducerOf(kv)), SpaceOf(c);
      Lookup(c, kv);
      if appDs[kvPId[kv]] == appDs[c] {
        return 1, from, to, [];
      }
      err, kvs := Reach(appDs[c], kv, picks);
    }

    method Reach(to: int, kv: KeyVer, picks: seq<int>) returns (err: int, ghost kvs: seq<KeyVer>)
      requires Valid() && MayPick(to, kv, picks)
      modifies BufferOf(to)
      ensures Valid() && (kv in kvV ==> err == 0)
      ensures err == if kv in buffers[to].kvPId then 0 else 1
      ensures err == 1 ==> Steps(buffers[to]) == old(Steps(buffers[to]))
      ensures err == 0 ==> Accessed(old(Steps(buffers[to])), Steps(buffers[to]), buffers[to].Reg(), kv, picks, kvs)
    {
      hide AllApart, AllHome, Listed, LastPutter, ItemsPut, MpBuffer.Valid, AreNext, CaughtUp, JoinedAfter, OnRecord;
      ApartFrom(buffers, to);
      PutItems(puts, kv);
      PuttersAre(puts, kv);
      if kv in LastPutter(puts) {
        KnownEverywhere(puts, joined[to], kv);
      }
      ghost var kept;
      err, kvs, kept := buffers[to].AddAccess(kv, picks);
    }

    // The three lookups of AddAccess.
    method Lookup(c: int, kv: KeyVer)
      requires OnRecord(kvPId, puts)
      modifies this`kvPId, this`appDs
      ensures OnRecord(kvPId, puts) && kvPId == old(kvPId)[kv := old(ProducerOf(kv))]
      ensures appDs == old(appDs)[old(ProducerOf(kv)) := old(SpaceOf(ProducerOf(kv)))][c := old(SpaceOf(c))]
      ensures appDs[kvPId[kv]] == old(SpaceOf(ProducerOf(kv))) && appDs[c] == old(SpaceOf(c))
    {
      var p := ProducerOf(kv);
      kvPId := kvPId[kv := p];
      appDs := appDs[p := SpaceOf(p)];
      appDs := appDs[c := SpaceOf(c)];
    }
  }

  // Every item put is on record under its last putter.
  ghost predicate OnRecord(kvPId: map<KeyVer, int>, puts: seq<NewPut>)
  {
    forall kv :: kv in LastPutter(puts) ==> kv in kvPId && kvPId[kv] == LastPutter(puts)[kv]
  }

  // A data space 42 beside another one, where application 7 sits.
  method WildcardBeside() returns (space: MwaSpace)
    ensures fresh(space) && space.Valid() && space.buffers.Keys == {WILDCARD, 1}
    ensures fresh(space.buffers[WILDCARD]) && fresh(space.buffers[1])
    ensures space.buffers[WILDCARD].cache.cache == [] && space.buffers[1].cache.cache == []
    ensures space.dsKvs == map[WILDCARD := [], 1 := []]
    ensures WILDCARD in space.dsIds && 1 in space.dsIds && space.appDs == map[7 := 1] && space.puts == []
  {
    hide MwaSpace.Valid;
    space := new MwaSpace(1, true);
    var err := space.RegDs(WILDCARD);
    ghost var b := space.buffers[WILDCARD];
    err := space.RegDs(1);
    assert space.buffers[WILDCARD] == b;
    err := space.RegApp(7, 1);
  }

  // With data space 42 registered, it is named for an item that it neither lists nor has
  // cached, and refuses that item as already there.
  method WildcardCollision(kv: KeyVer) returns (space: MwaSpace, ids: seq<int>, refused: int)
    ensures fresh(space) && space.Valid() && !space.Holds(WILDCARD, kv)
    ensures WILDCARD in ids && refused == 1
  {
    hide MwaSpace.Valid, AllApart, InStep, Steps, Among;
    space := WildcardBeside();
    assert forall b :: b in space.buffers.Values ==> b == space.buffers[WILDCARD] || b == space.buffers[1];
    var err := space.Put(7, kv, NEW_DATA);
    assert space.puts[0].kv == kv;
    space.Known(kv);
    err, ids := space.Query(kv);
    refused := space.Put(7, kv, WILDCARD);
  }

  // An item that a data space lists, and that a query knows nothing of, since it was
  // never put as new data.
  method ListedUnknown(kv: KeyVer) returns (space: MwaSpace, put: int, err: int, ids: seq<int>)
    ensures fresh(space) && space.Valid() && 1 in space.dsIds && space.Holds(1, kv)
    ensures put == 0 && err == 1 && ids == []
  {
    hide MwaSpace.Valid, AllApart, InStep, Steps, Among;
    space := WildcardBeside();
    assert forall b :: b in space.buffers.Values ==> b == space.buffers[WILDCARD] || b == space.buffers[1];
    put := space.Put(7, kv, 1);
    assert kv in space.dsKvs[1];
    err, ids := space.Query(kv);
  }

  lemma ApartFrom(buffers: map<int, MpBuffer>, d: int)
    requires AllApart(buffers) && d in buffers
    ensures forall e :: e in buffers && e != d ==> buffers[e] != buffers[d] && buffers[e].cache != buffers[d].cache
  {
  }

  lemma PutItems(puts: seq<NewPut>, kv: KeyVer)
    ensures kv in ItemsPut(puts) <==> exists i :: 0 <= i < |puts| && puts[i].kv == kv
  {
    if kv in ItemsPut(puts) {
      var i :| 0 <= i < |puts| && ItemsPut(puts)[i] == kv;
    }
    if i :| 0 <= i < |puts| && puts[i].kv == kv {
      assert ItemsPut(puts)[i] == kv;
    }
  }

  lemma AmongNone(held: set<int>)
    ensures Among([], held) == []
  {
  }

  lemma AmongStep(s: seq<int>, i: nat, held: set<int>)
    requires i < |s|
    ensures Among(s[..i + 1], held) == Among(s[..i], held) + if s[i] in held then [s[i]] else []
  {
    assert s[..i + 1][..i] == s[..i];
  }

  // Whatever was put is registered in every buffer.
  lemma KnownEverywhere(puts: seq<NewPut>, n: nat, kv: KeyVer)
    requires n <= |puts| && kv in LastPutter(puts)
    ensures kv in JoinedAfter(puts, n).owner
  {
    hide Replayed;
    PuttersAre(puts, kv);
    var i :| 0 <= i < |puts| && puts[i].kv == kv;
    var before := Relabelled(puts[..n], LastPutter(puts[..n]));
    ReplayedAppend(NoItems, before, puts[n..]);
    if i < n {
      PuttersAre(puts[..n], puts[..n][i].kv);
      assert (before + puts[n..])[i].kv == kv;
    } else {
      assert (before + puts[n..])[i] == puts[i];
    }
    KnownFrom(before + puts[n..], i);
  }

  ghost predicate Apart(a: MpBuffer, b: MpBuffer)
  {
    a != b && a.cache != b.cache
  }

  ghost predicate InStep(b: MpBuffer, puts: seq<NewPut>, n: nat)
    reads b, b.cache
  {
    b.Valid() && n <= |puts| && b.Reg() == JoinedAfter(puts, n)
  }

  ghost predicate AllApart(buffers: map<int, MpBuffer>)
  {
    forall d, e :: d in buffers && e in buffers && d != e ==> Apart(buffers[d], buffers[e])
  }

  // Each item is listed at some data space.
  ghost predicate AllHome(kvs: seq<KeyVer>, home: map<KeyVer, int>, dsKvs: map<int, seq<KeyVer>>)
  {
    forall kv :: kv in kvs ==> kv in home && home[kv] in dsKvs && kv in dsKvs[home[kv]]
  }

  lemma OneMoreBuffer(buffers: map<int, MpBuffer>, b: MpBuffer, ds: int)
    requires AllApart(buffers) && forall d :: d in buffers ==> Apart(b, buffers[d])
    ensures AllApart(buffers[ds := b])
  {
  }

  // A list of items that grows keeps every item at home.
  lemma SameHome(kvs: seq<KeyVer>, home: map<KeyVer, int>, dsKvs: map<int, seq<KeyVer>>, ds: int, l: seq<KeyVer>)
    requires AllHome(kvs, home, dsKvs) && (ds in dsKvs ==> dsKvs[ds] <= l)
    ensures AllHome(kvs, home, dsKvs[ds := l])
  {
    forall kv | kv in kvs ensures kv in dsKvs[ds := l][home[kv]] {
      if home[kv] == ds {
        var i :| 0 <= i < |dsKvs[ds]| && dsKvs[ds][i] == kv;
        assert l[i] == kv;
      }
    }
  }

  ghost predicate Listed(ids: seq<int>, keys: set<int>)
  {
    forall d :: d in ids <==> d in keys
  }

  lemma ListedMore(ids: seq<int>, keys: set<int>, ds: int)
    requires Listed(ids, keys)
    ensures ds in ids <==> ds in keys
    ensures Listed(ids + [ds], keys + {ds})
  {
  }

  lemma ListedAt(ids: seq<int>, keys: set<int>, ds: int)
    requires Listed(ids, keys)
    ensures ds in ids <==> ds in keys
  {
  }

  // A buffer's steps before and after an access of kv, for which kvs were chosen.
  ghost predicate Accessed(before: (map<int, int>, map<int, int>, seq<KeyVer>, seq<Act>),
                           after: (map<int, int>, map<int, int>, seq<KeyVer>, seq<Act>),
                           reg: Registry, kv: KeyVer, picks: seq<int>, kvs: seq<KeyVer>)
  {
    && kv in reg.owner
    && after.0 == before.0[reg.owner[kv] := if reg.owner[kv] in before.0 then before.0[reg.owner[kv]] + 1 else 0]
    && CaughtUp(after.1, before.1, picks, reg.items, after.0)
    && after.2 == before.2 + kvs && AreNext(kvs, picks, reg.owner, reg.items, after.0, before.2)
  }

  // How far a buffer's producers are.
  ghost function Steps(b: MpBuffer): (map<int, int>, map<int, int>, seq<KeyVer>, seq<Act>)
    reads b
  {
    (b.lastAcced, b.lastCached, b.chosen, b.acts)
  }

  method Tell(b: MpBuffer, p: int, kv: KeyVer, ghost puts: seq<NewPut>, ghost n: nat)
    requires InStep(b, puts, n)
    modifies b
    ensures InStep(b, puts + [NewPut(p, kv)], n) && Steps(b) == old(Steps(b))
  {
    hide MpBuffer.Valid, JoinedAfter, Registry.Registered;
    JoinedThenPut(puts, NewPut(p, kv), n);
    var err := b.RegKeyVer(p, kv);
  }

  lemma AllOthersApart(buffers: map<int, MpBuffer>, d: int)
    requires AllApart(buffers) && d in buffers
    ensures forall e :: e in buffers && e != d ==> buffers[e] != buffers[d]
  {
  }

  lemma OneMorePut(puts: seq<NewPut>, x: NewPut, appDs: map<int, int>)
    ensures LastPutter(puts + [x]) == LastPutter(puts)[x.kv := x.p] && ItemsPut(puts + [x]) == ItemsPut(puts) + [x.kv]
  {
    assert (puts + [x])[..|puts|] == puts;
  }

  lemma OneMoreHome(kvs: seq<KeyVer>, home: map<KeyVer, int>, dsKvs: map<int, seq<KeyVer>>, kv: KeyVer, at: int)
    requires AllHome(kvs, home, dsKvs) && at in dsKvs
    ensures AllHome(kvs + [kv], home[kv := at], dsKvs[at := dsKvs[at] + [kv]])
  {
    SameHome(kvs, home, dsKvs, at, dsKvs[at] + [kv]);
  }
}
