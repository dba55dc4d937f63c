/** Why removeHandle of src/publishsubscribe/registrylayer_win.cpp keeps every count right while it
  takes the proxies of a dying handle out of the tables, one after the other. */
module RegistryRemoval {
  import opened Text
  import opened LayerPath
  import opened ProxyMap
  import opened RegistryTables
  import opened RegistryOpening

  // ---------------------------------------------------------------------------------------------
  // What removing handles does
  // ---------------------------------------------------------------------------------------------

  /** Handles went, and took with them their keys, no other handle's, and the waits on closed keys. */
  ghost predicate Shrunk(v: View, w: View) {
    && w.records.Keys <= v.records.Keys
    && (forall h | h in w.records ::
      w.records[h].path == v.records[h].path && w.records[h].valueHandle == v.records[h].valueHandle)
    && w.hKeys.Keys == v.hKeys.Keys * w.records.Keys
    && (forall h | h in w.hKeys :: w.hKeys[h] == v.hKeys[h])
    && w.waits == v.waits * w.open.Keys
    && w.open.Keys <= v.open.Keys
    && (forall k | k in w.open :: w.open[k] == v.open[k])
    && w.os == v.os && w.nextHandle == v.nextHandle && w.nextKey == v.nextKey
  }

  /** Exactly the entries that stood for a handle that went are gone, and only handles with a path of
      at most n characters went. */
  ghost predicate Removed(v: View, w: View, n: nat) {
    && Shrunk(v, w)
    && w.proxies == Living(v.proxies, w.records.Keys)
    && forall h | h in v.records && |v.records[h].path| > n :: h in w.records
  }

  /** Detached entries stand for handles below this path. */
  ghost predicate Below(records: Records, det: set<Pair>, n: nat) {
    forall e | e in det :: e.1 in records && |records[e.1].path| > n
  }

  /** No entry stands for this handle. */
  ghost predicate Unproxied(ps: seq<Pair>, h: Handle) {
    forall e | e in ps :: e.1 != h
  }

  /** If this is the last reference, no detached entry stands for the handle, and if entries do stand
      for it, all detached ones belong to handles below it. */
  ghost predicate Clear(v: View, det: set<Pair>, h: Handle)
    requires h in v.records
  {
    v.records[h].refCount == 1 ==>
      && (forall e | e in det :: e.1 != h)
      && (!Unproxied(v.proxies, h) ==> Below(v.records, det, |v.records[h].path|))
  }

  /** removeHandle may be called: the caller holds a reference that no detached entry owns. */
  ghost predicate MayRemove(v: View, held: multiset<Handle>, det: set<Pair>, dying: set<Handle>, h: Handle) {
    Inv(v, held, det, dying) && (h in v.records ==> held[h] > Inside(v.proxies, h, det) && Clear(v, det, h))
  }

  lemma BelowClear(v: View, det: set<Pair>, h: Handle)
    requires h in v.records && Below(v.records, det, |v.records[h].path|)
    ensures Clear(v, det, h)
  {
  }

  lemma TemporaryMayRemove(v: View, held: multiset<Handle>, det: set<Pair>, h: Handle)
    requires Good(v, held, det) && h in v.records && held[h] > Inside(v.proxies, h, det)
    requires v.records[h].refCount == 1 ==> forall e | e in v.proxies || e in det :: e.1 != h
    ensures MayRemove(v, held, det, {}, h)
    ensures v.records[h].refCount == 1 ==> Unproxied(v.proxies, h)
  {
  }

  lemma KnownHandle(v: View, held: multiset<Handle>, det: set<Pair>, full: string)
    requires Good(v, held, det)
    ensures full in v.handles ==> v.handles[full] in v.records && v.records[v.handles[full]].path == full
    ensures Taken(v, full) != INVALID_HANDLE
  {
  }

  /** What the parent's key being tried leaves true of the handle itself. */
  lemma ParentOpened(v: View, held: multiset<Handle>, det: set<Pair>, h: Handle, full: string)
    requires Good(v, held, det) && WellFormed(full) && h in v.records && h !in v.hKeys && |full| < |v.records[h].path|
    ensures Settled(v) && Settled(Take(v, full)) && Taken(v, full) in Take(v, full).records
    ensures var v1 := Opening(Take(v, full), Taken(v, full));
      && OnlyOpened(Take(v, full), v1)
      && h in v1.records && h !in v1.hKeys && v1.records[h].path == v.records[h].path && Taken(v, full) in v1.records
  {
    hide WellFormed, Take, Taken, HandlesOk;
    GoodSettled(v, held, det);
    TakeSettled(v, full);
    var v1 := Opening(Take(v, full), Taken(v, full));
    StillThere(v, h, full, v1);
  }

  /** openRegistryKey when the path is no key: all depends on the parent. */
  lemma OpeningThrough(v: View, h: Handle, full: string, parent: Handle)
    requires Settled(v) && h in v.records && h !in v.hKeys
    requires WellFormed(v.records[h].path) && TryOpen(v.os, v.records[h].path) == NotFound
    requires full == ParentPath(v.records[h].path) && full != "" && parent == Taken(v, full)
    requires Settled(Take(v, full)) && parent in Take(v, full).records
    ensures var v1 := Opening(Take(v, full), parent);
      && h in v1.records && parent in v1.records
      && Opening(v, h) == GiveBack(OpenedFrom(v1, h, parent, ValueName(v.records[h].path)), parent)
  {
    ParentWellFormed(v.records[h].path);
    TakeSettled(v, full);
    var v1 := Opening(Take(v, full), parent);
    StillThere(v, h, full, v1);
    hide Opens, WellFormed, Take, Taken, OpenedFrom, GiveBack, ParentPath, ValueName, TryOpen, Settled;
  }

  lemma Counted(v: View, held: multiset<Handle>, det: set<Pair>, dying: set<Handle>, h: Handle)
    requires MayRemove(v, held, det, dying, h)
    ensures HandlesOk(v.handles, v.records, v.nextHandle)
    ensures h in v.records ==> v.records[h].refCount > 0
  {
    if h in v.records {
      assert CountOk(v.records[h], v.proxies, held, det, dying, h);
    }
  }

  /** One reference to a live handle was given back. */
  ghost predicate GivenBack(v: View, w: View, h: Handle)
    requires h in v.records
  {
    && Removed(v, w, |v.records[h].path|)
    && (v.records[h].refCount > 1 ==> w == Decremented(v, h))
    && (v.records[h].refCount == 1 ==> h !in w.records)
    && (v.records[h].refCount == 1 && Unproxied(v.proxies, h) ==> w == Dropped(v, h))
  }

  lemma LastGivenBack(v: View, u: View, h: Handle)
    requires h in v.records && h in u.records && v.records[h].refCount == 1
    requires Removed(v, Dropped(u, h), |v.records[h].path|)
    requires KeysOf(v.proxies, h) == [] ==> u == Decremented(v, h)
    ensures GivenBack(v, Dropped(u, h), h)
  {
    hide Removed;
    DroppedEither(v, h);
    if Unproxied(v.proxies, h) {
      NoKeys(v.proxies, h);
    }
    hide Unproxied;
  }

  lemma CountGivenBack(v: View, held: multiset<Handle>, det: set<Pair>, dying: set<Handle>, h: Handle)
    requires MayRemove(v, held, det, dying, h) && h in v.records && v.records[h].refCount > 1
    ensures Inv(Decremented(v, h), held - multiset{h}, det, dying) && GivenBack(v, Decremented(v, h), h)
  {
    RemovedByCount(v, held, det, dying, h, |v.records[h].path|);
    hide Inv, Removed, MayRemove;
  }

  lemma ShrunkTransitive(u: View, v: View, w: View)
    requires Shrunk(u, v) && Shrunk(v, w)
    ensures Shrunk(u, w)
  {
  }

  lemma DecrementedShrunk(v: View, h: Handle)
    requires h in v.records && KeysOk(v.hKeys, v.records.Keys, v.open.Keys, v.waits)
    ensures Shrunk(v, Decremented(v, h))
  {
  }

  lemma DroppedShrunk(v: View, h: Handle)
    requires h in v.records && KeysOk(v.hKeys, v.records.Keys, v.open.Keys, v.waits)
    ensures Shrunk(v, Dropped(v, h))
  {
  }

  /** A reference that is not the last one. */
  lemma RemovedByCount(v: View, held: multiset<Handle>, det: set<Pair>, dying: set<Handle>, h: Handle, n: nat)
    requires MayRemove(v, held, det, dying, h) && h in v.records && v.records[h].refCount > 1
    ensures Inv(Decremented(v, h), held - multiset{h}, det, dying) && Removed(v, Decremented(v, h), n)
  {
    DecrementKeeps(v, held, det, dying, h);
    DecrementedShrunk(v, h);
    LivingAll(v.proxies, v.records.Keys);
    assert Decremented(v, h).records.Keys == v.records.Keys;
    hide HandlesOk, CountsOk, KeysOk;
  }

  // ---------------------------------------------------------------------------------------------
  // The loop of removeHandle
  // ---------------------------------------------------------------------------------------------

  /** Part way through the loop: `rest` are the proxies of h still to be released. */
  ghost predicate Underway(v0: View, v: View, det: set<Pair>, h: Handle, rest: seq<Handle>)
    requires h in v0.records
  {
    && h in v.records
    && Shrunk(v0, v)
    && Living(v.proxies, v.records.Keys - {h}) == Living(v0.proxies, v.records.Keys - {h})
    && (forall a :: Inside(v.proxies, a, det) <= Inside(v0.proxies, a, det))
    && (forall a :: multiset(v.proxies)[(a, h)] <= multiset(rest)[a])
    && (forall e | e in v.proxies :: e in v0.proxies)
    && (forall a | a in rest :: (a, h) in v0.proxies)
    && (forall x | x in v0.records && |v0.records[x].path| >= |v0.records[h].path| :: x in v.records)
  }

  ghost predicate Releasing(v0: View, v: View, held: multiset<Handle>, det: set<Pair>, dying: set<Handle>, h: Handle,
      rest: seq<Handle>)
    requires h in v0.records
  {
    && Inv(v, held - multiset{h} + multiset(rest), det + EntriesFor(v0.proxies, h), dying + {h})
    && Underway(v0, v, det, h, rest)
  }

  lemma ReleasingStart(v: View, held: multiset<Handle>, det: set<Pair>, dying: set<Handle>, h: Handle)
    requires MayRemove(v, held, det, dying, h) && h in v.records && v.records[h].refCount == 1
    ensures Releasing(v, Decremented(v, h), held, det, dying, h, KeysOf(v.proxies, h))
  {
    hide HandlesOk, CountsOk, KeysOk, KeysOld, ProxiesOk, Shrunk, Living, Inside;
    assert forall e | e in det :: e.1 != h;
    LastReference(v, held, det, dying, h);
    DecrementedShrunk(v, h);
    assert Decremented(v, h).records.Keys == v.records.Keys;
    hide Inv, Below;
    forall a
      ensures multiset(v.proxies)[(a, h)] == multiset(KeysOf(v.proxies, h))[a]
    {
      KeysOfCount(v.proxies, a, h);
    }
    forall a | a in KeysOf(v.proxies, h)
      ensures (a, h) in v.proxies
    {
      assert multiset(v.proxies)[(a, h)] == multiset(KeysOf(v.proxies, h))[a];
    }
  }

  lemma UnpairedKeeps(v: View, held: multiset<Handle>, det: set<Pair>, dying: set<Handle>, pair: Pair)
    requires Inv(v, held, det, dying) && pair in det
    ensures Inv(v.(proxies := Without(v.proxies, pair)), held, det, dying)
  {
    var ps := Without(v.proxies, pair);
    forall h | h in v.records
      ensures CountOk(v.records[h], ps, held, det, dying, h)
    {
      assert CountOk(v.records[h], v.proxies, held, det, dying, h);
      WithoutDetached(v.proxies, pair, h, det);
    }
    forall e | e in ps
      ensures e in v.proxies
    {
      WithoutCount(v.proxies, pair, e);
    }
    hide HandlesOk, KeysOk, KeysOld, CountOk;
  }

  /** The step before a proxy's reference is given back: the pair leaves the map. */
  function Unpaired(v: View, a: Handle, h: Handle): View {
    v.(proxies := Without(v.proxies, (a, h)))
  }

  lemma ProxyPath(v0: View, v: View, a: Handle, h: Handle)
    requires ProxiesOk(v0.records, v0.proxies) && Shrunk(v0, v) && (a, h) in v0.proxies && h in v.records
               && a in v.records
    ensures a != h && |v.records[a].path| < |v.records[h].path|
  {
  }

  lemma NextProxy(v0: View, v: View, held: multiset<Handle>, det: set<Pair>, dying: set<Handle>, h: Handle,
      rest: seq<Handle>)
    requires h in v0.records && MayRemove(v0, held, det, dying, h) && v0.records[h].refCount == 1
    requires Releasing(v0, v, held, det, dying, h, rest) && rest != []
    ensures var a := rest[0];
      && a != h && a in v.records && (a, h) in EntriesFor(v0.proxies, h)
      && |v.records[a].path| < |v.records[h].path|
      && Below(v.records, det + EntriesFor(v0.proxies, h), |v.records[a].path|)
  {
    hide HandlesOk, KeysOk, KeysOld, Living, Inside;
    var a := rest[0];
    assert (a, h) in v0.proxies;
    assert a in held - multiset{h} + multiset(rest);
    assert a in v.records;
    hide CountsOk;
    ProxyPath(v0, v, a, h);
    hide Shrunk, ProxiesOk;
    BelowNext(v0, v, det, h, a);
  }

  lemma ReleasingTake(v0: View, v: View, held: multiset<Handle>, det: set<Pair>, dying: set<Handle>, h: Handle,
      rest: seq<Handle>)
    requires h in v0.records && MayRemove(v0, held, det, dying, h) && v0.records[h].refCount == 1
    requires Releasing(v0, v, held, det, dying, h, rest) && rest != []
    ensures var a, v1 := rest[0], Unpaired(v, rest[0], h);
      && a in v1.records && |v1.records[a].path| < |v1.records[h].path|
      && MayRemove(v1, held - multiset{h} + multiset(rest), det + EntriesFor(v0.proxies, h), dying + {h}, a)
  {
    hide Inv, Underway, EntriesFor, Shrunk, Living, Inside, Unproxied, Below, Clear;
    var a, det1 := rest[0], det + EntriesFor(v0.proxies, h);
    NextProxy(v0, v, held, det, dying, h, rest);
    InsideOne(v0, v, held, det, dying, h, rest);
    UnpairedKeeps(v, held - multiset{h} + multiset(rest), det1, dying + {h}, (a, h));
    BelowClear(Unpaired(v, a, h), det1, a);
  }

  lemma BelowNext(v0: View, v: View, det: set<Pair>, h: Handle, a: Handle)
    requires h in v0.records && h in v.records && a in v.records && |v.records[a].path| < |v.records[h].path|
    requires Below(v0.records, det, |v0.records[h].path|)
    requires Shrunk(v0, v)
    requires forall x | x in v0.records && |v0.records[x].path| >= |v0.records[h].path| :: x in v.records
    ensures Below(v.records, det + EntriesFor(v0.proxies, h), |v.records[a].path|)
  {
  }

  lemma InsideWithout(ps: seq<Pair>, a: Handle, h: Handle, det: set<Pair>, more: set<Pair>)
    requires forall e | e in det :: e.1 != h
    requires forall e | e in ps && e.1 == h :: e in more
    requires forall e | e in more :: e.1 == h
    ensures Inside(Without(ps, (a, h)), a, det + more) <= Inside(ps, a, det)
  {
    var qs := Without(ps, (a, h));
    forall e | e in qs
      ensures e in ps
    {
      WithoutCount(ps, (a, h), e);
    }
    DetachValue(qs, a, h, det, more);
    WithoutCount(ps, (a, h), (a, h));
    WithoutInside(ps, (a, h), a, det);
  }

  /** A proxy about to be released still has more references in hand than it has detached entries. */
  lemma InsideOne(v0: View, v: View, held: multiset<Handle>, det: set<Pair>, dying: set<Handle>, h: Handle,
      rest: seq<Handle>)
    requires h in v0.records && MayRemove(v0, held, det, dying, h) && v0.records[h].refCount == 1
               && Underway(v0, v, det, h, rest) && rest != []
    requires rest[0] != h
    ensures (held - multiset{h} + multiset(rest))[rest[0]] > Inside(Without(v.proxies, (rest[0], h)), rest[0],
              det + EntriesFor(v0.proxies, h))
  {
    hide HandlesOk, KeysOk, KeysOld, Living, Shrunk, Inside;
    var a := rest[0];
    InsideWithout(v.proxies, a, h, det, EntriesFor(v0.proxies, h));
    assert (a, h) in v0.proxies;
    assert CountOk(v0.records[a], v0.proxies, held, det, dying, a);
    assert Inside(v0.proxies, a, det) <= held[a];
    hide Inv, Below, EntriesFor;
    assert multiset(rest)[a] > 0;
  }

  lemma UnderwayNext(v0: View, v: View, w: View, det: set<Pair>, h: Handle, rest: seq<Handle>)
    requires h in v0.records && ProxiesOk(v0.records, v0.proxies) && Underway(v0, v, det, h, rest) && rest != []
               && rest[0] in v.records
    requires Removed(Unpaired(v, rest[0], h), w, |v.records[rest[0]].path|)
    ensures Underway(v0, w, det, h, rest[1..])
  {
    var a := rest[0];
    ProxyPath(v0, v, a, h);
    hide ProxiesOk, Living, Inside;
    ShrunkUnpaired(v, w, a, h);
    ShrunkTransitive(v0, v, w);
    NextSurvive(v0, v, w, a, h);
    assert w.records.Keys <= v.records.Keys;
    hide Shrunk;
    NextLiving(v0, v, w, a, h);
    NextCounts(v, w, a, h, rest);
  }

  lemma ReleasingNext(v0: View, v: View, w: View, held: multiset<Handle>, det: set<Pair>, dying: set<Handle>,
      h: Handle, rest: seq<Handle>)
    requires h in v0.records && MayRemove(v0, held, det, dying, h)
    requires Releasing(v0, v, held, det, dying, h, rest) && rest != [] && rest[0] in v.records
    requires Inv(w, held - multiset{h} + multiset(rest) - multiset{rest[0]}, det + EntriesFor(v0.proxies, h),
               dying + {h})
    requires Removed(Unpaired(v, rest[0], h), w, |v.records[rest[0]].path|)
    ensures Releasing(v0, w, held, det, dying, h, rest[1..])
    ensures h in w.records && w.records[h].path == v0.records[h].path
  {
    NextHeld(held, h, rest);
    assert ProxiesOk(v0.records, v0.proxies);
    hide Inv, MayRemove, ProxiesOk, Removed, EntriesFor, Living, Inside;
    UnderwayNext(v0, v, w, det, h, rest);
    assert h in w.records && w.records[h].path == v0.records[h].path;
    hide Underway, Shrunk;
  }

  lemma NextHeld(held: multiset<Handle>, h: Handle, rest: seq<Handle>)
    requires rest != []
    ensures held - multiset{h} + multiset(rest) - multiset{rest[0]} == held - multiset{h} + multiset(rest[1..])
  {
    assert rest == [rest[0]] + rest[1..];
  }

  lemma ShrunkUnpaired(v: View, w: View, a: Handle, h: Handle)
    requires Shrunk(Unpaired(v, a, h), w)
    ensures Shrunk(v, w)
  {
  }

  lemma NextSurvive(v0: View, v: View, w: View, a: Handle, h: Handle)
    requires h in v0.records && h in v.records && a in v.records && Shrunk(v0, v)
    requires |v.records[a].path| < |v.records[h].path| && Removed(Unpaired(v, a, h), w, |v.records[a].path|)
    requires forall x | x in v0.records && |v0.records[x].path| >= |v0.records[h].path| :: x in v.records
    ensures h in w.records
    ensures forall x | x in v0.records && |v0.records[x].path| >= |v0.records[h].path| :: x in w.records
  {
    hide Living;
  }

  lemma NextLiving(v0: View, v: View, w: View, a: Handle, h: Handle)
    requires Living(v.proxies, v.records.Keys - {h}) == Living(v0.proxies, v.records.Keys - {h})
    requires w.records.Keys <= v.records.Keys && w.proxies == Living(Without(v.proxies, (a, h)), w.records.Keys)
    ensures Living(w.proxies, w.records.Keys - {h}) == Living(v0.proxies, w.records.Keys - {h})
  {
    var old0, new0 := v.records.Keys - {h}, w.records.Keys - {h};
    LivingNested(Without(v.proxies, (a, h)), w.records.Keys, new0);
    LivingWithout(v.proxies, (a, h), new0);
    LivingNested(v.proxies, old0, new0);
    LivingNested(v0.proxies, old0, new0);
  }

  lemma NextCounts(v: View, w: View, a: Handle, h: Handle, rest: seq<Handle>)
    requires rest != [] && rest[0] == a
    requires w.proxies == Living(Without(v.proxies, (a, h)), w.records.Keys)
    requires forall b :: multiset(v.proxies)[(b, h)] <= multiset(rest)[b]
    ensures forall b :: multiset(w.proxies)[(b, h)] <= multiset(rest[1..])[b]
    ensures forall b, det :: Inside(w.proxies, b, det) <= Inside(v.proxies, b, det)
    ensures forall e | e in w.proxies :: e in v.proxies
  {
    var ps := Without(v.proxies, (a, h));
    assert rest == [rest[0]] + rest[1..];
    forall b
      ensures multiset(w.proxies)[(b, h)] <= multiset(rest[1..])[b]
    {
      LivingCount(ps, w.records.Keys, (b, h));
      WithoutCount(v.proxies, (a, h), (b, h));
    }
    forall b, det
      ensures Inside(w.proxies, b, det) <= Inside(v.proxies, b, det)
    {
      LivingInside(ps, w.records.Keys, b, det);
      WithoutInside(v.proxies, (a, h), b, det);
    }
    forall e | e in w.proxies
      ensures e in v.proxies
    {
      LivingCount(ps, w.records.Keys, e);
      WithoutCount(v.proxies, (a, h), e);
    }
  }

  /** Entries that no longer occur need not be listed as detached. */
  lemma ReattachKeeps(v: View, held: multiset<Handle>, det: set<Pair>, more: set<Pair>, dying: set<Handle>)
    requires Inv(v, held, det + more, dying) && forall e | e in v.proxies :: e !in more
    ensures Inv(v, held, det, dying)
  {
    forall h | h in v.records
      ensures CountOk(v.records[h], v.proxies, held, det, dying, h)
    {
      assert CountOk(v.records[h], v.proxies, held, det + more, dying, h);
      DetachAbsent(v.proxies, h, det, more);
    }
    hide HandlesOk, KeysOk, KeysOld, CountOk;
  }

  lemma NoneLeft(ps: seq<Pair>, h: Handle)
    requires forall a :: multiset(ps)[(a, h)] == 0
    ensures forall e | e in ps :: e.1 != h
  {
    forall e | e in ps
      ensures e.1 != h
    {
      assert multiset(ps)[(e.0, h)] == 0;
    }
  }

  lemma UnderwayEnd(v0: View, v: View, det: set<Pair>, h: Handle)
    requires h in v0.records && ProxiesOk(v.records, v.proxies) && KeysOk(v.hKeys, v.records.Keys, v.open.Keys, v.waits)
    requires Underway(v0, v, det, h, [])
    ensures Removed(v0, Dropped(v, h), |v0.records[h].path|)
  {
    NoneLeft(v.proxies, h);
    DroppedShrunk(v, h);
    ShrunkTransitive(v0, v, Dropped(v, h));
    LivingAll(v.proxies, v.records.Keys - {h});
    ClosedKeys(v, h);
    assert Dropped(v, h).records.Keys == v.records.Keys - {h};
    hide Closed, Shrunk, Living, Inside, KeysOk;
  }

  lemma ReleasingEnd(v0: View, v: View, held: multiset<Handle>, det: set<Pair>, dying: set<Handle>, h: Handle)
    requires h in v0.records && MayRemove(v0, held, det, dying, h) && v0.records[h].refCount == 1
    requires Releasing(v0, v, held, det, dying, h, [])
    ensures Inv(Dropped(v, h), held - multiset{h}, det, dying)
    ensures Removed(v0, Dropped(v, h), |v0.records[h].path|)
  {
    var more, held1 := EntriesFor(v0.proxies, h), held - multiset{h} + multiset([]);
    assert held1 == held - multiset{h};
    NoneLeft(v.proxies, h);
    UnderwayEnd(v0, v, det, h);
    NotDying(v0, held, det, dying, h);
    assert dying + {h} - {h} == dying;
    ClosedKeys(v, h);
    hide Inv, Closed, Removed, Underway, Living, Inside, HandlesOk, CountsOk, ProxiesOk, KeysOk, KeysOld, Below;
    DroppedKeeps(v, held1, det + more, dying + {h}, h);
    assert forall e | e in v.proxies :: e !in more;
    assert Dropped(v, h).proxies == v.proxies;
    ReattachKeeps(Dropped(v, h), held1, det, more, dying);
  }
}
