/** The prefetch buffer of prefetch.cpp: it follows, for each producer, which of its
    registered items was accessed and which was cached last, and caches ahead. */
module Buffering {
  import opened Basics
  import opened Caching

  datatype KeyVer = KeyVer(key: string, ver: nat)

  // What the buffer asks of its data space.
  datatype Act = Delete(kv: KeyVer) | Prefetch(kv: KeyVer)

  // Every registered item's producer, and every producer's items in order.
  datatype Registry = Registry(owner: map<KeyVer, int>, items: map<int, seq<KeyVer>>)
  {
    ghost predicate Ok()
    {
      && (forall kv :: kv in owner ==> owner[kv] in items && kv in items[owner[kv]])
      && (forall p :: p in items ==> Distinct(items[p]) && items[p] != [])
      && (forall p, kv :: p in items && kv in items[p] ==> kv in owner && owner[kv] == p)
    }

    function Items(p: int): seq<KeyVer>
    {
      if p in items then items[p] else []
    }

    // MPBuffer::reg_key_ver on the registry.
    function Registered(p: int, kv: KeyVer): Registry
    {
      if kv in owner then this else Registry(owner[kv := p], items[p := Items(p) + [kv]])
    }

    lemma OwnerOfItem(p: int, i: nat)
      requires Ok() && i < |Items(p)|
      ensures p in items && Items(p)[i] in owner && owner[Items(p)[i]] == p
    {
      assert Items(p)[i] in items[p];
    }

    lemma RegisteredOk(p: int, kv: KeyVer)
      requires Ok()
      ensures Registered(p, kv).Ok()
    {
      if kv !in owner {
        var r := Registered(p, kv);
        forall q | q in r.items ensures Distinct(r.items[q]) && r.items[q] != [] {
          assert kv !in Items(q);
        }
      }
    }
  }

  // The step recorded for p; a producer without one is before its first.
  function StepOf(steps: map<int, int>, p: int): int
  {
    if p in steps then steps[p] else -1
  }

  // p has an item after the last accessed one.
  predicate HasNext(reg: Registry, acced: map<int, int>, p: int)
  {
    0 <= StepOf(acced, p) && StepOf(acced, p) + 1 < |reg.Items(p)|
  }

  // For each picked producer its next item, unless that was chosen before.
  function Chosen(picks: seq<int>, reg: Registry, acced: map<int, int>, before: seq<KeyVer>): (kvs: seq<KeyVer>)
  {
    if picks == [] then []
    else
      var kvs, p := Chosen(picks[..|picks| - 1], reg, acced, before), picks[|picks| - 1];
      if HasNext(reg, acced, p) && reg.Items(p)[StepOf(acced, p) + 1] !in before + kvs
      then kvs + [reg.Items(p)[StepOf(acced, p) + 1]] else kvs
  }

  // kv is the item after the last accessed one of a picked producer.
  ghost predicate IsNext(kv: KeyVer, picks: seq<int>, owner: map<KeyVer, int>, items: map<int, seq<KeyVer>>, acced: map<int, int>)
  {
    && kv in owner
    && var p := owner[kv];
       && p in picks && p in acced && p in items
       && 0 <= acced[p] < |items[p]| - 1 && items[p][acced[p] + 1] == kv
  }

  // kvs are the picked producers' next items that were not chosen before, each once, in
  // the order in which their producers are first mentioned.
  ghost predicate AreNext(kvs: seq<KeyVer>, picks: seq<int>, owner: map<KeyVer, int>, items: map<int, seq<KeyVer>>,
                          acced: map<int, int>, before: seq<KeyVer>)
  {
    && Distinct(kvs)
    && (forall kv :: kv in kvs <==> kv !in before && IsNext(kv, picks, owner, items, acced))
    && (forall i, j :: 0 <= i < j < |kvs| ==> FirstMention(kvs[i], kvs[j], picks, owner))
  }

  // The producer of e is mentioned before that of f.
  ghost predicate FirstMention(e: KeyVer, f: KeyVer, picks: seq<int>, owner: map<KeyVer, int>)
  {
    e in owner && f in owner && exists a :: 0 <= a < |picks| && picks[a] == owner[e] && owner[f] !in picks[..a + 1]
  }

  lemma {:induction false} ChosenIs(picks: seq<int>, reg: Registry, acced: map<int, int>, before: seq<KeyVer>)
    requires reg.Ok() && forall p :: p in picks ==> p in acced
    ensures AreNext(Chosen(picks, reg, acced, before), picks, reg.owner, reg.items, acced, before)
  {
    hide AreNext, Registry.Ok;
    if picks == [] {
      NoneNext(picks, reg, acced, before);
    } else {
      var front, p := picks[..|picks| - 1], picks[|picks| - 1];
      assert picks == front + [p];
      ChosenIs(front, reg, acced, before);
      var kvs := Chosen(front, reg, acced, before);
      if HasNext(reg, acced, p) {
        reg.OwnerOfItem(p, acced[p] + 1);
        OneMorePick(kvs, front, p, reg, acced, before, reg.Items(p)[acced[p] + 1]);
      } else {
        NoMore(kvs, front, p, reg, acced, before);
      }
    }
  }

  lemma NoneNext(picks: seq<int>, reg: Registry, acced: map<int, int>, before: seq<KeyVer>)
    requires picks == []
    ensures AreNext([], picks, reg.owner, reg.items, acced, before)
  {
  }

  lemma OneMorePick(kvs: seq<KeyVer>, front: seq<int>, p: int, reg: Registry, acced: map<int, int>, before: seq<KeyVer>, next: KeyVer)
    requires AreNext(kvs, front, reg.owner, reg.items, acced, before) && p in acced && HasNext(reg, acced, p)
    requires p in reg.items && next in reg.owner && reg.owner[next] == p && next == reg.items[p][acced[p] + 1]
    ensures AreNext(if next in before + kvs then kvs else kvs + [next], front + [p], reg.owner, reg.items, acced, before)
  {
    hide FirstMention;
    var all := if next in before + kvs then kvs else kvs + [next];
    forall kv ensures IsNext(kv, front + [p], reg.owner, reg.items, acced) <==>
      IsNext(kv, front, reg.owner, reg.items, acced) || kv == next
    {
    }
    forall i, j | 0 <= i < j < |all| ensures FirstMention(all[i], all[j], front + [p], reg.owner) {
      assert all[i] == kvs[i] && kvs[i] in kvs;
      if j < |kvs| {
        MentionedStill(kvs[i], kvs[j], front, p, reg.owner);
      } else {
        MentionedNow(kvs[i], next, front, p, reg.owner);
      }
    }
  }

  lemma NoMore(kvs: seq<KeyVer>, front: seq<int>, p: int, reg: Registry, acced: map<int, int>, before: seq<KeyVer>)
    requires reg.Ok() && AreNext(kvs, front, reg.owner, reg.items, acced, before) && p in acced && !HasNext(reg, acced, p)
    ensures AreNext(kvs, front + [p], reg.owner, reg.items, acced, before)
  {
    hide FirstMention;
    forall i, j | 0 <= i < j < |kvs| ensures FirstMention(kvs[i], kvs[j], front + [p], reg.owner) {
      MentionedStill(kvs[i], kvs[j], front, p, reg.owner);
    }
  }

  lemma MentionedStill(e: KeyVer, f: KeyVer, front: seq<int>, p: int, owner: map<KeyVer, int>)
    requires FirstMention(e, f, front, owner)
    ensures FirstMention(e, f, front + [p], owner)
  {
    var a :| 0 <= a < |front| && front[a] == owner[e] && owner[f] !in front[..a + 1];
    assert (front + [p])[..a + 1] == front[..a + 1];
  }

  lemma MentionedNow(e: KeyVer, f: KeyVer, front: seq<int>, p: int, owner: map<KeyVer, int>)
    requires e in owner && f in owner && owner[e] in front && owner[f] == p && p !in front
    ensures FirstMention(e, f, front + [p], owner)
  {
    var a :| 0 <= a < |front| && front[a] == owner[e];
    assert (front + [p])[..a + 1] == front[..a + 1] && (front + [p])[a] == owner[e];
  }

  // A producer that had its turn yields nothing again before its next access.
  lemma NothingAgain(kvs: seq<KeyVer>, again: seq<KeyVer>, picks: seq<int>, more: seq<int>, owner: map<KeyVer, int>,
                     items: map<int, seq<KeyVer>>, acced: map<int, int>, before: seq<KeyVer>)
    requires AreNext(kvs, picks, owner, items, acced, before) && AreNext(again, more, owner, items, acced, before + kvs)
    ensures forall kv :: kv in again ==> owner[kv] !in picks
    ensures (forall p :: p in more ==> p in picks) ==> again == []
  {
    forall kv | kv in again ensures owner[kv] in more && owner[kv] !in picks {
      assert IsNext(kv, more, owner, items, acced);
      assert owner[kv] in picks ==> IsNext(kv, picks, owner, items, acced);
    }
    if again != [] {
      assert again[0] in again;
    }
  }

  // After their turn the picked producers are cached up to the item after the last
  // accessed one, if there is one; nothing changes for the others.
  ghost predicate CaughtUp(cached: map<int, int>, was: map<int, int>, picks: seq<int>,
                           items: map<int, seq<KeyVer>>, acced: map<int, int>)
  {
    && (forall p :: p in picks ==>
        p in cached && p in acced && p in items && cached[p] == if acced[p] + 1 < |items[p]| then acced[p] + 1 else acced[p])
    && (forall p :: p !in picks ==> (p in cached <==> p in was) && (p in cached ==> cached[p] == was[p]))
  }

  lemma CaughtUpMore(cached: map<int, int>, was: map<int, int>, picks: seq<int>, n: nat,
                     items: map<int, seq<KeyVer>>, acced: map<int, int>)
    requires n < |picks| && CaughtUp(cached, was, picks[..n], items, acced) && picks[n] in acced && picks[n] in items
    ensures
      var p := picks[n];
      CaughtUp(cached[p := if acced[p] + 1 < |items[p]| then acced[p] + 1 else acced[p]], was, picks[..n + 1], items, acced)
  {
    assert picks[..n + 1] == picks[..n] + [picks[n]];
  }

  function Prefetches(kvs: seq<KeyVer>): (acts: seq<Act>)
    ensures |acts| == |kvs| && forall i :: 0 <= i < |kvs| ==> acts[i] == Prefetch(kvs[i])
  {
    if kvs == [] then [] else Prefetches(kvs[..|kvs| - 1]) + [Prefetch(kvs[|kvs| - 1])]
  }

  // Of the items chosen, those that room is left for, and those the data space is told
  // to prefetch: the check for room comes after the call.
  function Placed(kvs: seq<KeyVer>, room: nat): seq<KeyVer>
  {
    kvs[..Min(|kvs|, room)]
  }

  function Announced(kvs: seq<KeyVer>, room: nat): seq<KeyVer>
  {
    kvs[..Min(|kvs|, room + 1)]
  }

  // Everything announced is cached exactly when there is room for all that was chosen.
  // Everything chosen is announced exactly when it is at most one item more; the rest is
  // neither announced nor cached, though it stays chosen and so is never chosen again.
  lemma AnnouncedPlaced(kvs: seq<KeyVer>, room: nat)
    requires Distinct(kvs)
    ensures (forall e :: e in Announced(kvs, room) ==> e in Placed(kvs, room)) <==> |kvs| <= room
    ensures (forall e :: e in kvs ==> e in Announced(kvs, room)) <==> |kvs| <= room + 1
    ensures forall e :: e in Placed(kvs, room) ==> e in Announced(kvs, room)
    ensures Placed(kvs, room) == (if |kvs| <= room then kvs else kvs[..room])
    ensures Announced(kvs, room) == (if |kvs| <= room then kvs else kvs[..room + 1])
  {
    if room < |kvs| {
      assert Announced(kvs, room)[room] == kvs[room];
      assert forall j :: 0 <= j < room ==> Placed(kvs, room)[j] == kvs[j] != kvs[room];
      assert kvs[room] in Announced(kvs, room) && kvs[room] !in Placed(kvs, room);
    } else {
      assert Placed(kvs, room) == Announced(kvs, room) == kvs;
    }
    if room + 1 < |kvs| {
      assert forall j :: 0 <= j < room + 1 ==> Announced(kvs, room)[j] == kvs[j] != kvs[room + 1];
      assert kvs[room + 1] in kvs && kvs[room + 1] !in Announced(kvs, room);
    } else {
      assert Announced(kvs, room) == kvs;
    }
    forall e | e in Placed(kvs, room) ensures e in Announced(kvs, room) {
      var j :| 0 <= j < |Placed(kvs, room)| && Placed(kvs, room)[j] == e;
      assert Announced(kvs, room)[j] == e;
    }
  }

  // The deques hold what of each producer's items was not passed over yet.
  ghost predicate DequesOk(reg: Registry, deques: map<int, seq<KeyVer>>, front: map<int, nat>)
  {
    && deques.Keys == front.Keys == reg.items.Keys
    && forall p :: p in reg.items ==> front[p] <= |reg.items[p]| && deques[p] == reg.items[p][front[p]..]
  }

  // No producer is cached more than one step ahead of its accesses.
  ghost predicate StepsOk(reg: Registry, front: map<int, nat>, acced: map<int, int>, cached: map<int, int>)
  {
    && (forall p :: p in acced ==> p in reg.items && 0 <= acced[p])
    && (forall p :: p in cached ==> p in acced && -1 <= cached[p] <= acced[p] + 1)
    && (forall p :: p in front ==> front[p] <= StepOf(cached, p) + 1)
  }

  // What was ever chosen was chosen once, and lies behind its producer's front.
  ghost predicate ChosenOk(reg: Registry, front: map<int, nat>, chosen: seq<KeyVer>)
  {
    && Distinct(chosen)
    && forall e :: e in chosen ==> Passed(reg, front, e)
  }

  ghost predicate Passed(reg: Registry, front: map<int, nat>, e: KeyVer)
  {
    e in reg.owner && reg.owner[e] in front && front[reg.owner[e]] <= |reg.Items(reg.owner[e])| &&
    e in reg.Items(reg.owner[e])[..front[reg.owner[e]]]
  }

  // A producer is a step ahead of its accesses because the item there was chosen.
  ghost predicate AheadOk(reg: Registry, acced: map<int, int>, cached: map<int, int>, chosen: seq<KeyVer>)
  {
    forall p :: p in cached && p in acced && cached[p] == acced[p] + 1 ==>
      p in reg.items && 0 <= cached[p] < |reg.items[p]| && reg.items[p][cached[p]] in chosen
  }

  // Only chosen items are cached, each for its producer.
  ghost predicate CachedOk(reg: Registry, chosen: seq<KeyVer>, cache: seq<KeyVer>, eAcc: map<KeyVer, int>)
  {
    forall e :: e in cache ==> e in chosen && e in reg.owner && e in eAcc && eAcc[e] == reg.owner[e]
  }

  ghost predicate Sound(reg: Registry, deques: map<int, seq<KeyVer>>, front: map<int, nat>, acced: map<int, int>,
                        cached: map<int, int>, chosen: seq<KeyVer>, cache: seq<KeyVer>, eAcc: map<KeyVer, int>)
  {
    && reg.Ok() && DequesOk(reg, deques, front) && StepsOk(reg, front, acced, cached)
    && ChosenOk(reg, front, chosen) && CachedOk(reg, chosen, cache, eAcc) && AheadOk(reg, acced, cached, chosen)
  }

  // The next item of p: the deque is popped up to step, and once more if it has one.
  lemma StepFrom(reg: Registry, deques: map<int, seq<KeyVer>>, front: map<int, nat>, chosen: seq<KeyVer>,
                 p: int, step: nat, newFront: nat)
    requires reg.Ok() && DequesOk(reg, deques, front) && ChosenOk(reg, front, chosen)
    requires p in reg.items && front[p] <= step
    requires newFront == Min(step, |reg.items[p]|)
    ensures
      var items, kv := reg.items[p], deques[p];
      if step < |items| then
        DequesOk(reg, deques[p := items[step + 1..]], front[p := step + 1]) &&
        ChosenOk(reg, front[p := step + 1], chosen + [items[step]]) && items[step] !in chosen
      else
        DequesOk(reg, deques[p := []], front[p := newFront]) && ChosenOk(reg, front[p := newFront], chosen)
  {
    var items := reg.items[p];
    var f := if step < |items| then step + 1 else newFront;
    forall e | e in chosen ensures Passed(reg, front[p := f], e) {
      assert Passed(reg, front, e);
      if reg.owner[e] == p {
        assert items[..front[p]] <= items[..f];
        var i :| 0 <= i < front[p] && items[..front[p]][i] == e;
        assert items[..f][i] == e;
      }
    }
    if step < |items| {
      var kv := items[step];
      assert kv in items;
      assert items[..f][step] == kv;
      NotPassed(reg, front, p, step);
      assert kv in chosen ==> Passed(reg, front, kv);
    }
  }

  lemma NotPassed(reg: Registry, front: map<int, nat>, p: int, step: nat)
    requires reg.Ok() && p in reg.items && p in front && front[p] <= step < |reg.items[p]|
    ensures !Passed(reg, front, reg.items[p][step])
  {
    assert reg.items[p][step] in reg.items[p];
  }

  class MpBuffer {
    const maxNumKeyVer: nat
    const wPrefetch: bool
    const hasCallback: bool
    const cache: Cache<KeyVer>

    var regedDeque: map<int, seq<KeyVer>>
    var frontStep: map<int, nat>
    var kvPId: map<KeyVer, int>
    var lastAcced: map<int, int>
    var lastCached: map<int, int>

    ghost var items: map<int, seq<KeyVer>>
    ghost var chosen: seq<KeyVer>
    ghost var acts: seq<Act>

    ghost function Reg(): Registry
      reads this
    {
      Registry(kvPId, items)
    }

    ghost predicate Valid()
      reads this, cache
    {
      && cache.Valid() && cache.maxSize == maxNumKeyVer && cache.evictions == 0
      && Sound(Reg(), regedDeque, frontStep, lastAcced, lastCached, chosen, cache.cache, cache.eAcc)
    }

    constructor (maxNumKeyVer: nat, wPrefetch: bool, hasCallback: bool)
      requires 1 <= maxNumKeyVer
      ensures Valid() && fresh(cache) && Reg() == Registry(map[], map[]) && chosen == [] && acts == []
      ensures this.maxNumKeyVer == maxNumKeyVer && this.wPrefetch == wPrefetch && this.hasCallback == hasCallback
      ensures cache.cache == [] && lastAcced == map[] && lastCached == map[]
    {
      this.maxNumKeyVer, this.wPrefetch, this.hasCallback := maxNumKeyVer, wPrefetch, hasCallback;
      cache := new Cache(maxNumKeyVer);
      regedDeque, frontStep, kvPId, lastAcced, lastCached := map[], map[], map[], map[], map[];
      items, chosen, acts := map[], [], [];
    }

    method RegKeyVer(p: int, kv: KeyVer) returns (err: int)
      requires Valid()
      modifies this`regedDeque, this`frontStep, this`kvPId, this`items
      ensures Valid() && Reg() == old(Reg()).Registered(p, kv)
      ensures err == if kv in old(kvPId) then 1 else 0
      ensures err == 1 ==> kvPId == old(kvPId) && items == old(items)
      ensures err == 0 ==> kvPId == old(kvPId)[kv := p]
      ensures err == 0 ==> items == old(items)[p := (if p in old(items) then old(items)[p] else []) + [kv]]
    {
      hide Registry.Ok, CachedOk, ChosenOk, StepsOk, DequesOk, AheadOk;
      if kv in kvPId {
        return 1;
      }
      Reg().RegisteredOk(p, kv);
      RegisteredAround(Reg(), p, kv, regedDeque, frontStep, lastAcced, lastCached, chosen, cache.cache, cache.eAcc);
      SameKeys(Reg(), regedDeque, frontStep);
      ghost var deques := regedDeque[p := (if p in regedDeque then regedDeque[p] else []) + [kv]];
      ghost var front := frontStep[p := if p in frontStep then frontStep[p] else 0];
      kvPId := kvPId[kv := p];
      if p in regedDeque {
        assert front == frontStep;
        regedDeque := regedDeque[p := regedDeque[p] + [kv]];
      } else {
        assert [] + [kv] == [kv];
        regedDeque := regedDeque[p := [kv]];
        frontStep := frontStep[p := 0];
      }
      items := items[p := (if p in items then items[p] else []) + [kv]];
      assert regedDeque == deques && frontStep == front && Reg() == old(Reg()).Registered(p, kv);
      return 0;
    }

    // Drops from the front of the deque what lies before step.
    static method PopTo(deque: seq<KeyVer>, front: nat, step: nat, ghost all: seq<KeyVer>)
      returns (rest: seq<KeyVer>, newFront: nat)
      requires front <= |all| && deque == all[front..] && front <= step
      ensures newFront == Min(step, |all|) && (rest == [] <==> newFront == |all|)
      ensures rest != [] ==> rest[0] == all[newFront] && rest[1..] == all[newFront + 1..]
    {
      rest, newFront := deque, front;
      while rest != [] && newFront < step
        invariant newFront <= |all| && rest == all[newFront..] && newFront <= step
      {
        rest := rest[1..];
        newFront := newFront + 1;
      }
    }

    // One picked producer's turn in get_to_prefetch: its item after the last accessed one,
    // if there is one and it was not chosen before.
    method NextOf(p: int) returns (next: Option<KeyVer>)
      requires Valid() && p in lastAcced
      modifies this`regedDeque, this`frontStep, this`lastCached, this`chosen
      ensures Valid() && p in items && 0 <= lastAcced[p]
      ensures next.Some? <==> lastAcced[p] + 1 < |items[p]| && items[p][lastAcced[p] + 1] !in old(chosen)
      ensures next.Some? ==> next.value == items[p][lastAcced[p] + 1] && chosen == old(chosen) + [next.value]
      ensures next.None? ==> chosen == old(chosen)
      ensures lastCached == old(lastCached)[p := if lastAcced[p] + 1 < |items[p]| then lastAcced[p] + 1 else lastAcced[p]]
    {
      hide Sound, Counted;
      StepFacts(Reg(), regedDeque, frontStep, lastAcced, lastCached, chosen, cache.cache, cache.eAcc, p);
      var last := if p in lastCached then lastCached[p] else -1;
      if last < lastAcced[p] {
        last := lastAcced[p];
      } else if last > lastAcced[p] {
        AheadFacts(Reg(), regedDeque, frontStep, lastAcced, lastCached, chosen, cache.cache, cache.eAcc, p);
        Same(lastCached, p);
        return None;
      }
      NextSound(Reg(), regedDeque, frontStep, lastAcced, lastCached, chosen, cache.cache, cache.eAcc, p);
      var step := last + 1;
      var deque, front := PopTo(regedDeque[p], frontStep[p], step, items[p]);
      if deque == [] {
        regedDeque, frontStep, lastCached := regedDeque[p := []], frontStep[p := front], lastCached[p := last];
        return None;
      }
      next := Some(deque[0]);
      regedDeque, frontStep := regedDeque[p := deque[1..]], frontStep[p := front + 1];
      lastCached := lastCached[p := step];
      chosen := chosen + [next.value];
    }

    // The picks are the predictor's reply: producers with an access.
    method GetToPrefetch(picks: seq<int>) returns (kvs: seq<KeyVer>)
      requires Valid() && forall p :: p in picks ==> p in lastAcced
      modifies this`regedDeque, this`frontStep, this`lastCached, this`chosen
      ensures Valid()
      ensures AreNext(kvs, picks, kvPId, items, lastAcced, old(chosen)) && chosen == old(chosen) + kvs
      ensures CaughtUp(lastCached, old(lastCached), picks, items, lastAcced)
    {
      hide Sound, Counted, Chosen, AreNext, CaughtUp;
      ChosenNone(Reg(), lastAcced, chosen);
      NoneCaughtUp(lastCached, items, lastAcced);
      kvs := [];
      ghost var reg, before := Reg(), chosen;
      for n := 0 to |picks|
        invariant Valid() && Reg() == reg
        invariant kvs == Chosen(picks[..n], reg, lastAcced, before) && chosen == before + kvs
        invariant CaughtUp(lastCached, old(lastCached), picks[..n], items, lastAcced)
      {
        assert picks[n] in picks;
        ChosenStep(picks, n, reg, lastAcced, before);
        ghost var cached := lastCached;
        var next := NextOf(picks[n]);
        CaughtUpMore(cached, old(lastCached), picks, n, items, lastAcced);
        if next.Some? {
          kvs := kvs + [next.value];
        }
      }
      assert picks[..|picks|] == picks;
      RegistryOk(Reg(), regedDeque, frontStep, lastAcced, lastCached, chosen, cache.cache, cache.eAcc);
      ChosenIs(picks, reg, lastAcced, before);
    }

    method Del(kv: KeyVer) returns (err: int)
      requires Valid()
      modifies this`acts, cache
      ensures Valid() && err == if kv in kvPId && kv in old(cache.cache) then 0 else 1
      ensures cache.cache == if err == 0 then Erase(old(cache.cache), kv) else old(cache.cache)
      ensures err == 0 ==>
        exists i :: 0 <= i < |old(cache.cache)| && old(cache.cache)[i] == kv &&
          cache.cache == old(cache.cache)[..i] + old(cache.cache)[i + 1..]
      ensures acts == old(acts) + (if err == 0 && hasCallback then [Delete(kv)] else [])
    {
      hide Counted, Registry.Ok, DequesOk, StepsOk, ChosenOk, CachedOk, AheadOk;
      if kv !in kvPId {
        return 1;
      }
      ghost var c, o, n := cache.cache, cache.eAcc, cache.accNum;
      OwnerOfCached(Reg(), chosen, c, o, kv);
      err := cache.Del(kvPId[kv], kv);
      if err != 0 {
        return 1;
      }
      CachedLess(Reg(), chosen, c, o, n, kv);
      if hasCallback {
        acts := acts + [Delete(kv)];
      }
      return 0;
    }

    // An access of kv; picks is the predictor's reply once it was told of it.
    method AddAccess(kv: KeyVer, picks: seq<int>) returns (err: int, ghost kvs: seq<KeyVer>, ghost kept: seq<KeyVer>)
      requires Valid()
      requires forall p :: p in picks ==> p in lastAcced || (kv in kvPId && p == kvPId[kv])
      modifies this, cache
      ensures Valid() && Reg() == old(Reg()) && err == if kv in kvPId then 0 else 1
      ensures err == 1 ==> lastAcced == old(lastAcced) && lastCached == old(lastCached) && chosen == old(chosen) &&
                           acts == old(acts) && cache.cache == old(cache.cache)
      ensures err == 0 ==>
        lastAcced == old(lastAcced)[kvPId[kv] := if kvPId[kv] in old(lastAcced) then old(lastAcced)[kvPId[kv]] + 1 else 0]
      ensures err == 0 ==> CaughtUp(lastCached, old(lastCached), picks, items, lastAcced)
      ensures err == 0 ==> chosen == old(chosen) + kvs && AreNext(kvs, picks, kvPId, items, lastAcced, old(chosen))
      ensures err == 0 ==> IsWithout(kept, old(cache.cache), kv) && |kept| <= maxNumKeyVer
      ensures err == 0 ==>
        var room := if wPrefetch && hasCallback then maxNumKeyVer - |kept| else 0;
        && cache.cache == kept + (if |kvs| <= room then kvs else kvs[..room])
        && acts == old(acts) + (if kv in old(cache.cache) && hasCallback then [Delete(kv)] else []) +
                   (if wPrefetch && hasCallback then Prefetches(if |kvs| <= room then kvs else kvs[..room + 1]) else [])
    {
      hide Sound, Counted, AreNext, CaughtUp, CachedOk, Prefetches, IsWithout;
      kvs, kept := [], [];
      if kv !in kvPId {
        return 1, kvs, kept;
      }
      TakeAccess(kv);
      kept := cache.cache;
      ghost var chosen0 := chosen;
      CachedFacts(Reg(), regedDeque, frontStep, lastAcced, lastCached, chosen, cache.cache, cache.eAcc);
      var next := GetToPrefetch(picks);
      kvs := next;
      FreshlyChosen(Reg(), regedDeque, frontStep, lastAcced, lastCached, chosen0, chosen, kvs, cache.cache, cache.eAcc);
      if wPrefetch {
        PrefetchAll(next);
      }
      AnnouncedPlaced(kvs, maxNumKeyVer - |kept|);
      return 0, kvs, kept;
    }

    // Gives up the item if it is cached, and counts the access of its producer.
    method TakeAccess(kv: KeyVer)
      requires Valid() && kv in kvPId
      modifies this`lastAcced, this`acts, cache
      ensures Valid() && IsWithout(cache.cache, old(cache.cache), kv)
      ensures lastAcced == old(lastAcced)[kvPId[kv] := if kvPId[kv] in old(lastAcced) then old(lastAcced)[kvPId[kv]] + 1 else 0]
      ensures acts == old(acts) + (if kv in old(cache.cache) && hasCallback then [Delete(kv)] else [])
    {
      hide Sound, Counted, CachedOk, Erase;
      var deled := Del(kv);
      ErasedFrom(cache.cache, old(cache.cache), kv, deled);
      var p := kvPId[kv];
      AccessSound(Reg(), regedDeque, frontStep, lastAcced, lastCached, chosen, cache.cache, cache.eAcc, kv);
      if p !in lastAcced {
        lastAcced := lastAcced[p := -1];
      }
      lastAcced := lastAcced[p := lastAcced[p] + 1];
      assert lastAcced == old(lastAcced)[p := StepOf(old(lastAcced), p) + 1];
    }

    method PrefetchAll(kvs: seq<KeyVer>)
      requires Valid() && Distinct(kvs) && forall e :: e in kvs ==> e in kvPId && e in chosen && e !in cache.cache
      modifies this`acts, cache
      ensures Valid()
      ensures
        var room := maxNumKeyVer - |old(cache.cache)|;
        && 0 <= room
        && cache.cache == old(cache.cache) + (if hasCallback then Placed(kvs, room) else [])
        && acts == old(acts) + (if hasCallback then Prefetches(Announced(kvs, room)) else [])
    {
      hide Counted, Registry.Ok, DequesOk, StepsOk, ChosenOk, AheadOk;
      if !hasCallback {
        return;
      }
      for n := 0 to |kvs|
        invariant Valid() && n <= maxNumKeyVer - |old(cache.cache)|
        invariant cache.cache == old(cache.cache) + kvs[..n]
        invariant acts == old(acts) + Prefetches(kvs[..n])
      {
        assert kvs[..n + 1][..n] == kvs[..n] && kvs[n] in kvs;
        acts := acts + [Prefetch(kvs[n])];
        assert acts == old(acts) + Prefetches(kvs[..n + 1]);
        if |cache.cache| < maxNumKeyVer {
          assert kvs[n] !in kvs[..n];
          var err := cache.Push(kvPId[kvs[n]], kvs[n]);
          assert err == 0;
        } else {
          return;
        }
      }
      assert kvs[..|kvs|] == kvs;
    }

    method Contains(kv: KeyVer) returns (b: bool)
      ensures b <==> kv in cache.cache
    {
      b := cache.Contains(kv);
    }
  }

  // What is kept of s without e, in its order.
  ghost predicate IsWithout(kept: seq<KeyVer>, s: seq<KeyVer>, e: KeyVer)
  {
    if e in s then exists i :: 0 <= i < |s| && s[i] == e && kept == s[..i] + s[i + 1..] else kept == s
  }

  lemma ErasedFrom(kept: seq<KeyVer>, s: seq<KeyVer>, e: KeyVer, err: int)
    requires err == if e in s then 0 else 1
    requires err == 0 ==> exists i :: 0 <= i < |s| && s[i] == e && kept == s[..i] + s[i + 1..]
    requires err == 1 ==> kept == s
    ensures IsWithout(kept, s, e)
  {
  }

  lemma OwnerOfCached(reg: Registry, chosen: seq<KeyVer>, cache: seq<KeyVer>, eAcc: map<KeyVer, int>, kv: KeyVer)
    requires CachedOk(reg, chosen, cache, eAcc)
    ensures kv in cache ==> kv in eAcc && kv in reg.owner && eAcc[kv] == reg.owner[kv]
  {
  }

  lemma AccessSound(reg: Registry, deques: map<int, seq<KeyVer>>, front: map<int, nat>, acced: map<int, int>,
                    cached: map<int, int>, chosen: seq<KeyVer>, cache: seq<KeyVer>, eAcc: map<KeyVer, int>, kv: KeyVer)
    requires Sound(reg, deques, front, acced, cached, chosen, cache, eAcc) && kv in reg.owner
    ensures Sound(reg, deques, front, acced[reg.owner[kv] := StepOf(acced, reg.owner[kv]) + 1], cached, chosen, cache, eAcc)
  {
    hide DequesOk, ChosenOk, CachedOk, StepsOk;
    AccessSteps(reg, front, acced, cached, kv);
    AccessAhead(reg, front, acced, cached, chosen, kv);
  }

  lemma AccessSteps(reg: Registry, front: map<int, nat>, acced: map<int, int>, cached: map<int, int>, kv: KeyVer)
    requires reg.Ok() && StepsOk(reg, front, acced, cached) && kv in reg.owner
    ensures StepsOk(reg, front, acced[reg.owner[kv] := StepOf(acced, reg.owner[kv]) + 1], cached)
  {
  }

  lemma AccessAhead(reg: Registry, front: map<int, nat>, acced: map<int, int>, cached: map<int, int>, chosen: seq<KeyVer>, kv: KeyVer)
    requires StepsOk(reg, front, acced, cached) && AheadOk(reg, acced, cached, chosen) && kv in reg.owner
    ensures AheadOk(reg, acced[reg.owner[kv] := StepOf(acced, reg.owner[kv]) + 1], cached, chosen)
  {
  }

  // What is newly chosen was not chosen before, so it is not cached.
  lemma FreshlyChosen(reg: Registry, deques: map<int, seq<KeyVer>>, front: map<int, nat>, acced: map<int, int>,
                      cached: map<int, int>, chosen0: seq<KeyVer>, chosen: seq<KeyVer>, kvs: seq<KeyVer>,
                      cache: seq<KeyVer>, eAcc: map<KeyVer, int>)
    requires Sound(reg, deques, front, acced, cached, chosen, cache, eAcc) && chosen == chosen0 + kvs
    requires CachedOk(reg, chosen0, cache, eAcc)
    ensures Distinct(kvs) && forall e :: e in kvs ==> e in reg.owner && e in chosen && e !in cache && e !in chosen0
  {
    hide Registry.Ok, DequesOk, StepsOk;
    forall i | 0 <= i < |kvs| ensures kvs[i] in reg.owner && kvs[i] in chosen && kvs[i] !in chosen0 {
      assert kvs[i] == chosen[|chosen0| + i];
      assert Passed(reg, front, kvs[i]);
      assert forall j :: 0 <= j < |chosen0| ==> chosen0[j] == chosen[j] != chosen[|chosen0| + i];
    }
    forall i, j | 0 <= i < j < |kvs| ensures kvs[i] != kvs[j] {
      assert kvs[i] == chosen[|chosen0| + i] && kvs[j] == chosen[|chosen0| + j];
    }
  }

  lemma CachedFacts(reg: Registry, deques: map<int, seq<KeyVer>>, front: map<int, nat>, acced: map<int, int>,
                    cached: map<int, int>, chosen: seq<KeyVer>, cache: seq<KeyVer>, eAcc: map<KeyVer, int>)
    requires Sound(reg, deques, front, acced, cached, chosen, cache, eAcc)
    ensures CachedOk(reg, chosen, cache, eAcc)
  {
  }

  lemma CachedLess(reg: Registry, chosen: seq<KeyVer>, cache: seq<KeyVer>, eAcc: map<KeyVer, int>, accNum: map<int, int>, kv: KeyVer)
    requires CachedOk(reg, chosen, cache, eAcc) && Counted(cache, eAcc, accNum)
    ensures CachedOk(reg, chosen, Erase(cache, kv), eAcc - {kv})
  {
    EraseMembers(cache, kv);
  }

  lemma ChosenNone(reg: Registry, acced: map<int, int>, before: seq<KeyVer>)
    ensures Chosen([], reg, acced, before) == []
  {
  }

  lemma NoneCaughtUp(cached: map<int, int>, items: map<int, seq<KeyVer>>, acced: map<int, int>)
    ensures forall picks: seq<int> :: picks == [] ==> CaughtUp(cached, cached, picks, items, acced)
  {
  }

  lemma ChosenStep(picks: seq<int>, n: nat, reg: Registry, acced: map<int, int>, before: seq<KeyVer>)
    requires n < |picks|
    ensures
      var kvs, p := Chosen(picks[..n], reg, acced, before), picks[n];
      Chosen(picks[..n + 1], reg, acced, before) ==
        if HasNext(reg, acced, p) && reg.Items(p)[StepOf(acced, p) + 1] !in before + kvs
        then kvs + [reg.Items(p)[StepOf(acced, p) + 1]] else kvs
  {
    assert picks[..n + 1][..n] == picks[..n];
  }

  lemma RegistryOk(reg: Registry, deques: map<int, seq<KeyVer>>, front: map<int, nat>, acced: map<int, int>,
                   cached: map<int, int>, chosen: seq<KeyVer>, cache: seq<KeyVer>, eAcc: map<KeyVer, int>)
    requires Sound(reg, deques, front, acced, cached, chosen, cache, eAcc)
    ensures reg.Ok()
  {
  }

  lemma AheadFacts(reg: Registry, deques: map<int, seq<KeyVer>>, front: map<int, nat>, acced: map<int, int>,
                   cached: map<int, int>, chosen: seq<KeyVer>, cache: seq<KeyVer>, eAcc: map<KeyVer, int>, p: int)
    requires Sound(reg, deques, front, acced, cached, chosen, cache, eAcc) && p in acced && StepOf(cached, p) > acced[p]
    ensures p in cached && p in reg.items && cached[p] == acced[p] + 1 < |reg.items[p]| && 0 <= acced[p]
    ensures reg.items[p][acced[p] + 1] in chosen
  {
    StepFactsOf(reg, deques, front, acced, cached, p);
  }

  lemma Same<K, V>(m: map<K, V>, k: K)
    ensures k in m ==> m[k := m[k]] == m
  {
  }

  lemma NextSound(reg: Registry, deques: map<int, seq<KeyVer>>, front: map<int, nat>, acced: map<int, int>,
                  cached: map<int, int>, chosen: seq<KeyVer>, cache: seq<KeyVer>, eAcc: map<KeyVer, int>, p: int)
    requires Sound(reg, deques, front, acced, cached, chosen, cache, eAcc) && p in acced && StepOf(cached, p) <= acced[p]
    ensures p in reg.items && 0 <= acced[p]
    ensures
      var all, step := reg.items[p], acced[p] + 1;
      if step < |all| then
        Sound(reg, deques[p := all[step + 1..]], front[p := step + 1], acced, cached[p := step], chosen + [all[step]], cache, eAcc) &&
        all[step] !in chosen
      else
        Sound(reg, deques[p := []], front[p := |all|], acced, cached[p := acced[p]], chosen, cache, eAcc)
  {
    hide Registry.Ok, DequesOk, StepsOk, ChosenOk, CachedOk, AheadOk;
    StepFactsOf(reg, deques, front, acced, cached, p);
    var all, step := reg.items[p], acced[p] + 1;
    StepFrom(reg, deques, front, chosen, p, step, Min(step, |all|));
    StepsFrom(reg, front, acced, cached, p, Min(step, |all|));
    if step < |all| {
      CachedMore(reg, chosen, cache, eAcc, all[step]);
      AheadMore(reg, acced, cached, chosen, p, all[step]);
    } else {
      AheadSame(reg, acced, cached, chosen, p);
    }
  }

  lemma StepFacts(reg: Registry, deques: map<int, seq<KeyVer>>, front: map<int, nat>, acced: map<int, int>,
                  cached: map<int, int>, chosen: seq<KeyVer>, cache: seq<KeyVer>, eAcc: map<KeyVer, int>, p: int)
    requires Sound(reg, deques, front, acced, cached, chosen, cache, eAcc) && p in acced
    ensures p in deques && p in front && p in reg.items && front[p] <= |reg.items[p]| && deques[p] == reg.items[p][front[p]..]
    ensures 0 <= acced[p] && -1 <= StepOf(cached, p) <= acced[p] + 1 && front[p] <= StepOf(cached, p) + 1
  {
    StepFactsOf(reg, deques, front, acced, cached, p);
  }

  lemma StepFactsOf(reg: Registry, deques: map<int, seq<KeyVer>>, front: map<int, nat>, acced: map<int, int>, cached: map<int, int>, p: int)
    requires DequesOk(reg, deques, front) && StepsOk(reg, front, acced, cached) && p in acced
    ensures p in deques && p in front && p in reg.items && front[p] <= |reg.items[p]| && deques[p] == reg.items[p][front[p]..]
    ensures 0 <= acced[p] && -1 <= StepOf(cached, p) <= acced[p] + 1 && front[p] <= StepOf(cached, p) + 1
  {
  }

  lemma StepsFrom(reg: Registry, front: map<int, nat>, acced: map<int, int>, cached: map<int, int>, p: int, newFront: nat)
    requires StepsOk(reg, front, acced, cached) && p in acced && StepOf(cached, p) <= acced[p] && newFront <= acced[p] + 1
    ensures StepsOk(reg, front[p := newFront], acced, cached[p := acced[p]])
    ensures newFront == acced[p] + 1 ==> StepsOk(reg, front[p := newFront + 1], acced, cached[p := acced[p] + 1])
  {
  }

  lemma CachedMore(reg: Registry, chosen: seq<KeyVer>, cache: seq<KeyVer>, eAcc: map<KeyVer, int>, kv: KeyVer)
    requires CachedOk(reg, chosen, cache, eAcc)
    ensures CachedOk(reg, chosen + [kv], cache, eAcc)
  {
  }

  lemma AheadMore(reg: Registry, acced: map<int, int>, cached: map<int, int>, chosen: seq<KeyVer>, p: int, kv: KeyVer)
    requires AheadOk(reg, acced, cached, chosen) && p in acced && p in reg.items && 0 <= acced[p]
    requires acced[p] + 1 < |reg.items[p]| && kv == reg.items[p][acced[p] + 1]
    ensures AheadOk(reg, acced, cached[p := acced[p] + 1], chosen + [kv])
  {
  }

  lemma AheadSame(reg: Registry, acced: map<int, int>, cached: map<int, int>, chosen: seq<KeyVer>, p: int)
    requires AheadOk(reg, acced, cached, chosen) && p in acced
    ensures AheadOk(reg, acced, cached[p := acced[p]], chosen)
  {
  }

  lemma SameKeys(reg: Registry, deques: map<int, seq<KeyVer>>, front: map<int, nat>)
    requires DequesOk(reg, deques, front)
    ensures deques.Keys == front.Keys == reg.items.Keys
  {
  }

  // Registering an item disturbs none of the invariants.
  lemma RegisteredAround(reg: Registry, p: int, kv: KeyVer, deques: map<int, seq<KeyVer>>, front: map<int, nat>,
                         acced: map<int, int>, cached: map<int, int>, chosen: seq<KeyVer>,
                         cache: seq<KeyVer>, eAcc: map<KeyVer, int>)
    requires reg.Ok() && kv !in reg.owner && DequesOk(reg, deques, front) && StepsOk(reg, front, acced, cached)
    requires ChosenOk(reg, front, chosen) && CachedOk(reg, chosen, cache, eAcc) && AheadOk(reg, acced, cached, chosen)
    ensures
      var r := reg.Registered(p, kv);
      var d := deques[p := (if p in deques then deques[p] else []) + [kv]];
      var f := front[p := if p in front then front[p] else 0];
      DequesOk(r, d, f) && StepsOk(r, f, acced, cached) && ChosenOk(r, f, chosen) && CachedOk(r, chosen, cache, eAcc) &&
      AheadOk(r, acced, cached, chosen)
  {
    hide DequesOk, StepsOk, ChosenOk, CachedOk, AheadOk, Registry.Ok, Registry.Registered;
    RegisteredDeques(reg, p, kv, deques, front);
    RegisteredSteps(reg, p, kv, deques, front, acced, cached);
    RegisteredChosen(reg, p, kv, front, chosen);
    RegisteredCached(reg, p, kv, chosen, cache, eAcc);
    RegisteredAhead(reg, p, kv, acced, cached, chosen);
  }

  lemma RegisteredDeques(reg: Registry, p: int, kv: KeyVer, deques: map<int, seq<KeyVer>>, front: map<int, nat>)
    requires reg.Ok() && kv !in reg.owner && DequesOk(reg, deques, front)
    ensures DequesOk(reg.Registered(p, kv), deques[p := (if p in deques then deques[p] else []) + [kv]],
                     front[p := if p in front then front[p] else 0])
  {
  }

  lemma RegisteredSteps(reg: Registry, p: int, kv: KeyVer, deques: map<int, seq<KeyVer>>, front: map<int, nat>,
                        acced: map<int, int>, cached: map<int, int>)
    requires kv !in reg.owner && DequesOk(reg, deques, front) && StepsOk(reg, front, acced, cached)
    ensures StepsOk(reg.Registered(p, kv), front[p := if p in front then front[p] else 0], acced, cached)
  {
  }

  lemma RegisteredCached(reg: Registry, p: int, kv: KeyVer, chosen: seq<KeyVer>, cache: seq<KeyVer>, eAcc: map<KeyVer, int>)
    requires kv !in reg.owner && CachedOk(reg, chosen, cache, eAcc)
    ensures CachedOk(reg.Registered(p, kv), chosen, cache, eAcc)
  {
  }

  lemma RegisteredChosen(reg: Registry, p: int, kv: KeyVer, front: map<int, nat>, chosen: seq<KeyVer>)
    requires reg.Ok() && kv !in reg.owner && ChosenOk(reg, front, chosen)
    ensures ChosenOk(reg.Registered(p, kv), front[p := if p in front then front[p] else 0], chosen)
  {
    var r := reg.Registered(p, kv);
    var f := front[p := if p in front then front[p] else 0];
    forall e | e in chosen ensures Passed(r, f, e) {
      assert Passed(reg, front, e);
      var q := reg.owner[e];
      assert r.Items(q)[..f[q]] == reg.Items(q)[..front[q]];
    }
  }

  lemma RegisteredAhead(reg: Registry, p: int, kv: KeyVer, acced: map<int, int>, cached: map<int, int>, chosen: seq<KeyVer>)
    requires reg.Ok() && kv !in reg.owner && AheadOk(reg, acced, cached, chosen)
    ensures AheadOk(reg.Registered(p, kv), acced, cached, chosen)
  {
  }
}
