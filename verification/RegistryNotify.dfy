/** Why emitHandleChanged of src/publishsubscribe/registrylayer_win.cpp keeps the counts right although
  removing one entry removes all its equals, while the list it walks names each of them. */
module RegistryNotify {
  import opened Text
  import opened LayerPath
  import opened ProxyMap
  import opened RegistryTables
  import opened RegistryOpening
  import opened RegistryRemoval
  import opened RegistryPublish

  /** What asking for the next notification of a key comes to: a new wait, none, or that the registry key
      is gone. */
  datatype NotifyResult = Rearmed | Lost | KeyDeleted

  /** The caller's references and n more to one handle. */
  ghost function AndMore(held: multiset<Handle>, h: Handle, n: nat): multiset<Handle> {
    held[h := held[h] + n]
  }

  /** What an entry stands for that can be opened by now. */
  ghost function Ripe(v: View, h: Handle): set<Handle> {
    set p | p in ValuesOf(v.proxies, h) && p in v.records && Openable(v, v.records[p].path)
  }

  lemma ValuesLive(v: View, h: Handle, p: Handle)
    requires ProxiesOk(v.records, v.proxies) && p in ValuesOf(v.proxies, h)
    ensures h in v.records && p in v.records && |v.records[p].path| > |v.records[h].path|
  {
    ValuesOfCount(v.proxies, h, p);
    assert multiset(ValuesOf(v.proxies, h))[p] > 0;
    assert (h, p) in v.proxies;
  }

  /** Part way through the entries of one handle. */
  ghost predicate Passing(v0: View, v: View, held: multiset<Handle>, h: Handle, rest: seq<Handle>) {
    && Good(v, AndMore(held, h, CountIn(rest, Ripe(v0, h))), PairsTo(h, Ripe(v0, h)))
    && Listed(v0, v, h, rest)
    && (h in v.records ==> h in v0.records && v.records[h].path == v0.records[h].path && SameAnswers(v0, v))
    && (forall p | p in Ripe(v0, h) :: multiset(v.proxies)[(h, p)] <= multiset(rest)[p])
  }

  /** The handles that entries of h stood for are live, and below it. */
  ghost predicate Listed(v0: View, v: View, h: Handle, rest: seq<Handle>) {
    var list := ValuesOf(v0.proxies, h);
    && (forall p | p in list :: h in v0.records && p in v0.records && p in v.records
          && v.records[p].path == v0.records[p].path && |v0.records[p].path| > |v0.records[h].path|)
    && (forall p | p in rest :: p in list)
  }

  lemma DetachedCount(r: Record, ps: seq<Pair>, held: multiset<Handle>, h: Handle, chosen: set<Handle>, x: Handle)
    requires CountOk(r, ps, held, {}, {}, x)
    ensures CountOk(r, ps, AndMore(held, h, CountIn(ValuesOf(ps, h), chosen)), PairsTo(h, chosen), {}, x)
  {
    var det := PairsTo(h, chosen);
    OutsideInside(ps, x, det);
    InsideByValue(ps, h, chosen);
    if x != h {
      NoneInside(ps, x, det);
      assert Inside(ps, x, det) == 0;
    }
  }

  /** Detaching the ripe entries of a handle puts their references into the caller's hands. */
  lemma DetachedCounts(records: Records, ps: seq<Pair>, held: multiset<Handle>, h: Handle, chosen: set<Handle>)
    requires CountsOk(records, ps, held, {}, {}) && (h !in records ==> ValuesOf(ps, h) == [])
    ensures CountsOk(records, ps, AndMore(held, h, CountIn(ValuesOf(ps, h), chosen)), PairsTo(h, chosen), {})
  {
    var held' := AndMore(held, h, CountIn(ValuesOf(ps, h), chosen));
    forall x | x in records
      ensures CountOk(records[x], ps, held', PairsTo(h, chosen), {}, x)
    {
      DetachedCount(records[x], ps, held, h, chosen, x);
    }
    hide CountOk, PairsTo;
    assert forall x :: x in held' ==> x in held || x == h;
  }

  lemma PassingStart(v: View, held: multiset<Handle>, h: Handle)
    requires Good(v, held, {})
    ensures Passing(v, v, held, h, ValuesOf(v.proxies, h))
  {
    var list, chosen := ValuesOf(v.proxies, h), Ripe(v, h);
    hide HandlesOk, KeysOk, KeysOld, CountsOk, SameNames, Openable;
    forall p | p in list
      ensures p in v.records && h in v.records && |v.records[p].path| > |v.records[h].path|
    {
      ValuesLive(v, h, p);
    }
    hide ProxiesOk;
    assert h !in v.records ==> list == [] by {
      assert list != [] ==> list[0] in list;
    }
    DetachedCounts(v.records, v.proxies, held, h, chosen);
    OldHandles(v, held);
    forall p
      ensures multiset(v.proxies)[(h, p)] <= multiset(list)[p]
    {
      ValuesOfCount(v.proxies, h, p);
    }
    hide AndMore;
    SameSelf(v);
  }

  lemma SameSelf(v: View)
    ensures SameAnswers(v, v)
  {
  }

  lemma OldHandles(v: View, held: multiset<Handle>)
    requires Good(v, held, {})
    ensures forall h | h in v.records :: h < v.nextHandle
  {
  }

  /** Changes that keep what is there, and every answer, keep a pass going. */
  lemma PassingKept(v0: View, v: View, w: View, held: multiset<Handle>, h: Handle, rest: seq<Handle>)
    requires Passing(v0, v, held, h, rest)
    requires Good(w, AndMore(held, h, CountIn(rest, Ripe(v0, h))), PairsTo(h, Ripe(v0, h)))
    requires Kept(v, w) && SameAnswers(v, w) && w.proxies == v.proxies && (h in w.records ==> h in v.records)
    ensures Passing(v0, w, held, h, rest)
  {
    hide Good, Openable, SameNames, AndMore, CountIn;
    if h in w.records {
      AnswersTransitive(v0, v, w);
    }
  }

  /** While h lives, what can be opened is what could be opened at the start. */
  lemma RipeNow(v0: View, v: View, held: multiset<Handle>, h: Handle, rest: seq<Handle>)
    requires Passing(v0, v, held, h, rest) && rest != []
    ensures rest[0] in v.records
    ensures rest[0] in Ripe(v0, h) ==> h in v.records && Openable(v, v.records[rest[0]].path)
    ensures h in v.records && Openable(v, v.records[rest[0]].path) ==> rest[0] in Ripe(v0, h)
  {
    hide Openable, SameNames, HandlesOk, ProxiesOk, KeysOk, KeysOld;
    var p := rest[0];
    assert p in ValuesOf(v0.proxies, h);
    if p in Ripe(v0, h) {
      assert h in AndMore(held, h, CountIn(rest, Ripe(v0, h)));
      assert h in v.records;
    }
    assert h in v.records ==> (Openable(v, v.records[p].path) <==> Openable(v0, v0.records[p].path));
  }

  lemma PassingSkip(v0: View, v: View, held: multiset<Handle>, h: Handle, rest: seq<Handle>)
    requires Passing(v0, v, held, h, rest) && rest != [] && rest[0] !in Ripe(v0, h)
    ensures Passing(v0, v, held, h, rest[1..])
  {
    hide Good, SameAnswers, Ripe, AndMore;
    assert rest == [rest[0]] + rest[1..];
  }

  lemma ListedBelow(v0: View, v: View, h: Handle, rest: seq<Handle>)
    requires Listed(v0, v, h, rest) && h in v0.records && h in v.records && v.records[h].path == v0.records[h].path
    ensures Below(v.records, PairsTo(h, Ripe(v0, h)), |v.records[h].path|)
  {
    hide Openable;
  }

  lemma EntryGone(ps: seq<Pair>, h: Handle, chosen: set<Handle>, rest: seq<Handle>)
    requires rest != [] && forall p | p in chosen :: multiset(ps)[(h, p)] <= multiset(rest)[p]
    ensures forall p | p in chosen :: multiset(Without(ps, (h, rest[0])))[(h, p)] <= multiset(rest[1..])[p]
    ensures Inside(Without(ps, (h, rest[0])), h, PairsTo(h, chosen)) <= CountIn(rest[1..], chosen)
  {
    assert rest == [rest[0]] + rest[1..];
    forall q | q in chosen
      ensures multiset(Without(ps, (h, rest[0])))[(h, q)] <= multiset(rest[1..])[q]
    {
      WithoutCount(ps, (h, rest[0]), (h, q));
    }
    InsideListed(Without(ps, (h, rest[0])), h, chosen, rest[1..]);
  }

  /** The entry at hand can be removed, and one reference for it given back. */
  lemma PassingTake(v0: View, v: View, held: multiset<Handle>, h: Handle, rest: seq<Handle>)
    requires Passing(v0, v, held, h, rest) && rest != [] && rest[0] in Ripe(v0, h)
    ensures var held', det := AndMore(held, h, CountIn(rest, Ripe(v0, h))), PairsTo(h, Ripe(v0, h));
      MayRemove(Unpaired(v, h, rest[0]), held', det, {}, h)
    ensures forall p | p in Ripe(v0, h) :: multiset(Unpaired(v, h, rest[0]).proxies)[(h, p)] <= multiset(rest[1..])[p]
  {
    var p, chosen := rest[0], Ripe(v0, h);
    var held', det := AndMore(held, h, CountIn(rest, chosen)), PairsTo(h, chosen);
    var w := Unpaired(v, h, p);
    RipeNow(v0, v, held, h, rest);
    hide Ripe, SameAnswers, Listed, Inv, Below, Clear;
    EntryGone(v.proxies, h, chosen, rest);
    ListedBelow(v0, v, h, rest);
    assert (h, p) in det;
    hide PairsTo;
    UnpairedKeeps(v, held', det, {}, (h, p));
    BelowClear(w, det, h);
  }

  lemma FewerInHand(held: multiset<Handle>, h: Handle, n: nat)
    requires n > 0
    ensures AndMore(held, h, n) - multiset{h} == AndMore(held, h, n - 1)
  {
  }

  lemma GivenAnswers(v: View, w: View, held: multiset<Handle>, det: set<Pair>, a: Handle, h: Handle)
    requires MayRemove(Unpaired(v, h, a), held, det, {}, h) && h in v.records
    requires GivenBack(Unpaired(v, h, a), w, h) && h in w.records
    ensures SameAnswers(v, w)
  {
    var u := Unpaired(v, h, a);
    Counted(u, held, det, {}, h);
    assert u.records[h].refCount > 0;
    hide MayRemove, Removed;
    assert w == Decremented(u, h);
    SameTables(v, u);
    DecrementedAnswers(u, h);
    AnswersTransitive(v, u, w);
  }

  lemma GivenListed(v0: View, v: View, w: View, h: Handle, a: Handle, rest: seq<Handle>)
    requires Listed(v0, v, h, rest) && rest != [] && h in v.records && h in v0.records
               && v.records[h].path == v0.records[h].path
    requires GivenBack(Unpaired(v, h, a), w, h)
    ensures Listed(v0, w, h, rest[1..])
  {
    hide Living;
  }

  lemma GivenGood(v: View, w: View, held: multiset<Handle>, det: set<Pair>, h: Handle, n: nat, a: Handle)
    requires Good(v, AndMore(held, h, n), det) && n > 0 && h in v.records
    requires Inv(w, AndMore(held, h, n) - multiset{h}, det, {}) && GivenBack(Unpaired(v, h, a), w, h)
    ensures Good(w, AndMore(held, h, n - 1), det)
  {
    FewerInHand(held, h, n);
    hide Inv, AndMore, Living;
  }

  lemma GivenCounts(v: View, w: View, h: Handle, a: Handle, chosen: set<Handle>, rest: seq<Handle>)
    requires forall p | p in chosen :: multiset(Unpaired(v, h, a).proxies)[(h, p)] <= multiset(rest)[p]
    requires h in v.records && GivenBack(Unpaired(v, h, a), w, h)
    ensures forall p | p in chosen :: multiset(w.proxies)[(h, p)] <= multiset(rest)[p]
  {
    var u := Unpaired(v, h, a);
    assert w.proxies == Living(u.proxies, w.records.Keys);
    hide GivenBack, Removed, Living;
    forall q | q in chosen
      ensures multiset(w.proxies)[(h, q)] <= multiset(rest)[q]
    {
      LivingCount(u.proxies, w.records.Keys, (h, q));
    }
  }

  /** If h survives, it is the handle it was and no answer has changed. */
  lemma GivenSame(v0: View, v: View, w: View, held: multiset<Handle>, det: set<Pair>, h: Handle, p: Handle)
    requires h in v.records && MayRemove(Unpaired(v, h, p), held, det, {}, h) && GivenBack(Unpaired(v, h, p), w, h)
    requires h in v0.records && v.records[h].path == v0.records[h].path && SameAnswers(v0, v)
    ensures h in w.records ==> w.records[h].path == v0.records[h].path && SameAnswers(v0, w)
  {
    if h in w.records {
      GivenAnswers(v, w, held, det, p, h);
      AnswersTransitive(v0, v, w);
    }
    hide MayRemove, SameAnswers, Living;
  }

  /** One entry, with all its equals, was dealt with. */
  lemma PassingGiven(v0: View, v: View, w: View, held: multiset<Handle>, h: Handle, rest: seq<Handle>)
    requires Passing(v0, v, held, h, rest) && rest != [] && rest[0] in Ripe(v0, h) && h in v.records
    requires var held', det := AndMore(held, h, CountIn(rest, Ripe(v0, h))), PairsTo(h, Ripe(v0, h));
      && MayRemove(Unpaired(v, h, rest[0]), held', det, {}, h)
      && Inv(w, held' - multiset{h}, det, {})
    requires forall p | p in Ripe(v0, h) :: multiset(Unpaired(v, h, rest[0]).proxies)[(h, p)] <= multiset(rest[1..])[p]
    requires GivenBack(Unpaired(v, h, rest[0]), w, h)
    ensures Passing(v0, w, held, h, rest[1..])
    ensures rest[0] in w.records && (rest[0] in v.hKeys ==> rest[0] in w.hKeys)
  {
    hide Good, Inv, MayRemove, Ripe, SameAnswers, AndMore, PairsTo, Listed, Unpaired, GivenBack;
    var p, chosen := rest[0], Ripe(v0, h);
    var held', det := AndMore(held, h, CountIn(rest, chosen)), PairsTo(h, chosen);
    RestListed(v0, v, h, rest, p);
    GivenListed(v0, v, w, h, p, rest);
    GivenGood(v, w, held, det, h, CountIn(rest, chosen), p);
    GivenCounts(v, w, h, p, chosen, rest[1..]);
    GivenKeys(v0, v, w, h, p, rest);
    GivenSame(v0, v, w, held', det, h, p);
    assert CountIn(rest[1..], chosen) == CountIn(rest, chosen) - 1;
  }

  lemma RestListed(v0: View, v: View, h: Handle, rest: seq<Handle>, p: Handle)
    requires Listed(v0, v, h, rest) && p in rest
    ensures p in ValuesOf(v0.proxies, h)
  {
  }

  lemma GivenKeys(v0: View, v: View, w: View, h: Handle, p: Handle, rest: seq<Handle>)
    requires rest != [] && p == rest[0] && p in ValuesOf(v0.proxies, h)
    requires h in v.records && GivenBack(Unpaired(v, h, p), w, h) && Listed(v0, w, h, rest[1..])
    ensures p in w.records && (p in v.hKeys ==> p in w.hKeys)
  {
    hide Living, ValuesOf;
  }

  lemma PassingEnd(v0: View, v: View, held: multiset<Handle>, h: Handle)
    requires Passing(v0, v, held, h, [])
    ensures Good(v, held, {})
  {
    var det := PairsTo(h, Ripe(v0, h));
    assert AndMore(held, h, 0) == held;
    forall e | e in v.proxies
      ensures e !in det
    {
      assert multiset(v.proxies)[e] > 0;
      assert e.1 in Ripe(v0, h) ==> multiset(v.proxies)[(h, e.1)] <= multiset([])[e.1];
    }
    hide Listed, Ripe, SameAnswers, PairsTo, Inv;
    assert {} + det == det;
    ReattachKeeps(v, held, {}, det, {});
  }

  /** Once a handle has its key, publishing it only adds a wait. */
  lemma PassingOpened(v0: View, v: View, held: multiset<Handle>, h: Handle, rest: seq<Handle>, p: Handle)
    requires Passing(v0, v, held, h, rest) && p in v.records
    requires Settled(v) && Good(Opening(v, p), AndMore(held, h, CountIn(rest, Ripe(v0, h))), PairsTo(h, Ripe(v0, h)))
    ensures Passing(v0, Opening(v, p), held, h, rest)
    ensures p in Opening(v, p).records && Opening(v, p).records[p].path == v.records[p].path
    ensures p in Opening(v, p).hKeys <==> Openable(Opening(v, p), v.records[p].path)
  {
    var held', det := AndMore(held, h, CountIn(rest, Ripe(v0, h))), PairsTo(h, Ripe(v0, h));
    OpeningAnswers(v, held', det, p);
    OpeningWaits(v, held', det, p);
    var w := Opening(v, p);
    assert OnlyOpened(v, w);
    hide Good, Ripe, Listed, Openable, AndMore, PairsTo, Opening, Settled;
    OpenedKept(v, w);
    PassingKept(v0, v, w, held, h, rest);
  }

  /** If the entry is not ripe although its path can be opened, h is gone and so is the entry. */
  lemma NotRipe(v0: View, v: View, held: multiset<Handle>, h: Handle, rest: seq<Handle>)
    requires Passing(v0, v, held, h, rest) && rest != [] && rest[0] !in Ripe(v0, h)
    requires rest[0] in v.records && Openable(v, v.records[rest[0]].path)
    ensures h !in v.records && Unpaired(v, h, rest[0]) == v
  {
    RipeNow(v0, v, held, h, rest);
    assert (h, rest[0]) !in v.proxies by {
      assert ProxiesOk(v.records, v.proxies);
    }
    WithoutAbsent(v.proxies, (h, rest[0]));
  }

  lemma PassingGood(v0: View, v: View, held: multiset<Handle>, h: Handle, rest: seq<Handle>)
    requires Passing(v0, v, held, h, rest)
    ensures Good(v, AndMore(held, h, CountIn(rest, Ripe(v0, h))), PairsTo(h, Ripe(v0, h)))
    ensures rest != [] ==> rest[0] in v.records
  {
    hide Good, Ripe, SameAnswers, AndMore, PairsTo;
  }

  lemma EntryGood(v0: View, v: View, held: multiset<Handle>, h: Handle, rest: seq<Handle>)
    requires AtEntry(v0, v, held, h, rest) && rest != []
    ensures Good(v, AndMore(held, h, CountIn(rest, Ripe(v0, h))), PairsTo(h, Ripe(v0, h))) && rest[0] in v.records
  {
    hide Passing, Served;
    PassingGood(v0, v, held, h, rest);
  }

  /** An entry whose path has a key by now may be removed, and a reference given back. */
  lemma MayPass(v0: View, v: View, held: multiset<Handle>, h: Handle, rest: seq<Handle>)
    requires AtEntry(v0, v, held, h, rest) && rest != []
    requires rest[0] in v.records && Openable(v, v.records[rest[0]].path)
    ensures MayRemove(Unpaired(v, h, rest[0]), AndMore(held, h, CountIn(rest, Ripe(v0, h))), PairsTo(h, Ripe(v0, h)),
              {}, h)
  {
    hide Openable, Ripe, SameAnswers;
    if rest[0] in Ripe(v0, h) {
      PassingTake(v0, v, held, h, rest);
    } else {
      NotRipe(v0, v, held, h, rest);
    }
  }

  /** And then the pass goes on. */
  lemma Passed(v0: View, v: View, w: View, held: multiset<Handle>, h: Handle, rest: seq<Handle>)
    requires Passing(v0, v, held, h, rest) && rest != []
    requires rest[0] in v.records && rest[0] in v.hKeys && Openable(v, v.records[rest[0]].path)
    requires var held', det := AndMore(held, h, CountIn(rest, Ripe(v0, h))), PairsTo(h, Ripe(v0, h));
      Inv(w, if h in v.records then held' - multiset{h} else held', det, {})
    requires if h in v.records then GivenBack(Unpaired(v, h, rest[0]), w, h) else w == Unpaired(v, h, rest[0])
    ensures Passing(v0, w, held, h, rest[1..])
    ensures rest[0] in w.records && rest[0] in w.hKeys
  {
    if rest[0] in Ripe(v0, h) {
      RipeNow(v0, v, held, h, rest);
      PassingTake(v0, v, held, h, rest);
      hide Passing, Openable, Ripe, MayRemove, Inv, AndMore, PairsTo, GivenBack;
      PassingGiven(v0, v, w, held, h, rest);
    } else {
      NotRipe(v0, v, held, h, rest);
      hide Passing, Openable, Ripe, Inv, AndMore, PairsTo, Unpaired;
      PassingSkip(v0, v, held, h, rest);
    }
  }

  /** Every ripe path is still to come or has its key. */
  ghost predicate Served(v0: View, v: View, h: Handle, rest: seq<Handle>) {
    forall p | p in Ripe(v0, h) :: p in rest || p in v.hKeys
  }

  lemma ServedNext(v0: View, v: View, w: View, h: Handle, rest: seq<Handle>)
    requires rest != [] && Served(v0, v, h, rest) && Listed(v0, w, h, rest[1..])
    requires v.hKeys.Keys * w.records.Keys <= w.hKeys.Keys
    requires rest[0] in Ripe(v0, h) ==> rest[0] in w.hKeys
    ensures Served(v0, w, h, rest[1..])
  {
    hide Openable;
    assert rest == [rest[0]] + rest[1..];
  }

  /** After opening the entry's path. */
  lemma ServedOpened(v0: View, v: View, h: Handle, rest: seq<Handle>, p: Handle)
    requires Served(v0, v, h, rest) && Settled(v) && p in v.records
    ensures Served(v0, Opening(v, p), h, rest)
  {
    hide Ripe;
    assert OnlyOpened(v, Opening(v, p));
  }

  lemma PassingListed(v0: View, v: View, held: multiset<Handle>, h: Handle, rest: seq<Handle>)
    requires Passing(v0, v, held, h, rest)
    ensures Listed(v0, v, h, rest)
  {
    hide Good, Ripe, SameAnswers, Listed;
  }

  lemma RemovedKeys(v: View, w: View, h: Handle, p: Handle)
    requires if h in v.records then GivenBack(Unpaired(v, h, p), w, h) else w == Unpaired(v, h, p)
    ensures v.hKeys.Keys * w.records.Keys <= w.hKeys.Keys
  {
    hide Living;
  }

  ghost predicate AtEntry(v0: View, v: View, held: multiset<Handle>, h: Handle, rest: seq<Handle>) {
    Passing(v0, v, held, h, rest) && Served(v0, v, h, rest)
  }

  /** The first entry's path was tried. */
  lemma EntryTried(v0: View, v: View, held: multiset<Handle>, h: Handle, rest: seq<Handle>)
    requires AtEntry(v0, v, held, h, rest) && rest != [] && rest[0] in v.records
    requires Settled(v)
               && Good(Opening(v, rest[0]), AndMore(held, h, CountIn(rest, Ripe(v0, h))), PairsTo(h, Ripe(v0, h)))
    ensures var w := Opening(v, rest[0]);
      && AtEntry(v0, w, held, h, rest) && rest[0] in w.records
      && (rest[0] in Ripe(v0, h) ==> rest[0] in w.hKeys)
      && (rest[0] in w.hKeys ==> Openable(w, w.records[rest[0]].path))
      && (rest[0] !in w.hKeys ==> AtEntry(v0, w, held, h, rest[1..]))
  {
    hide Good, Passing, Served, Openable, Ripe, AndMore, PairsTo, Listed, Opening, Settled;
    var w := Opening(v, rest[0]);
    PassingOpened(v0, v, held, h, rest, rest[0]);
    ServedOpened(v0, v, h, rest, rest[0]);
    RipeNow(v0, w, held, h, rest);
    if rest[0] !in w.hKeys {
      PassingSkip(v0, w, held, h, rest);
      PassingListed(v0, w, held, h, rest[1..]);
      ServedNext(v0, w, w, h, rest);
    }
  }

  /** An entry was removed and its reference given back. */
  lemma EntryPassed(v0: View, v: View, w: View, held: multiset<Handle>, h: Handle, rest: seq<Handle>)
    requires AtEntry(v0, v, held, h, rest) && rest != []
    requires rest[0] in v.records && rest[0] in v.hKeys && Openable(v, v.records[rest[0]].path)
    requires var held', det := AndMore(held, h, CountIn(rest, Ripe(v0, h))), PairsTo(h, Ripe(v0, h));
      Inv(w, if h in v.records then held' - multiset{h} else held', det, {})
    requires if h in v.records then GivenBack(Unpaired(v, h, rest[0]), w, h) else w == Unpaired(v, h, rest[0])
    ensures AtEntry(v0, w, held, h, rest[1..])
    ensures Good(w, AndMore(held, h, CountIn(rest[1..], Ripe(v0, h))), PairsTo(h, Ripe(v0, h)))
    ensures rest[0] in w.records && rest[0] in w.hKeys
  {
    hide Good, Inv, Passing, Served, Openable, Ripe, AndMore, PairsTo, Listed, GivenBack, Unpaired;
    Passed(v0, v, w, held, h, rest);
    RemovedKeys(v, w, h, rest[0]);
    PassingListed(v0, w, held, h, rest[1..]);
    ServedNext(v0, v, w, h, rest);
    PassingGood(v0, w, held, h, rest[1..]);
  }

  lemma EntryWatched(v0: View, v: View, w: View, held: multiset<Handle>, h: Handle, rest: seq<Handle>)
    requires AtEntry(v0, v, held, h, rest)
    requires Good(w, AndMore(held, h, CountIn(rest, Ripe(v0, h))), PairsTo(h, Ripe(v0, h)))
    requires w == v.(waits := w.waits)
    ensures AtEntry(v0, w, held, h, rest)
  {
    hide Good, Passing, Ripe, AndMore, PairsTo;
    PassingWatched(v0, v, w, held, h, rest);
  }

  /** Of a list, what is in a set. */
  function Among(list: seq<Handle>, chosen: set<Handle>): seq<Handle> {
    if list == [] then [] else (if list[0] in chosen then [list[0]] else []) + Among(list[1..], chosen)
  }

  /** Every ripe path is still to come or was signalled; what was signalled was stood for and has a key. As long
      as h lives, just the ripe paths were signalled, in their order. */
  ghost predicate Signalled(v0: View, v: View, h: Handle, rest: seq<Handle>, signals: seq<Handle>) {
    && (forall p | p in Ripe(v0, h) :: p in rest || p in signals)
    && (forall p | p in signals :: p in ValuesOf(v0.proxies, h) && p in v.hKeys)
    && (h in v.records ==> signals + Among(rest, Ripe(v0, h)) == Among(ValuesOf(v0.proxies, h), Ripe(v0, h)))
  }

  lemma {:induction false} SignalledNext(v0: View, v: View, w: View, h: Handle, rest: seq<Handle>,
      signals: seq<Handle>, changed: bool)
    requires rest != [] && Signalled(v0, v, h, rest, signals) && (rest[0] in Ripe(v0, h) ==> changed)
    requires Listed(v0, v, h, rest) && Listed(v0, w, h, rest[1..]) && v.hKeys.Keys * w.records.Keys <= w.hKeys.Keys
    requires changed ==> rest[0] in w.hKeys
    requires h in w.records ==> h in v.records && (changed ==> rest[0] in Ripe(v0, h))
    ensures Signalled(v0, w, h, rest[1..], signals + (if changed then [rest[0]] else []))
  {
    hide Ripe, ValuesOf;
    assert rest == [rest[0]] + rest[1..];
    var more := if changed then [rest[0]] else [];
    assert h in w.records ==> Among(rest, Ripe(v0, h)) == more + Among(rest[1..], Ripe(v0, h));
    hide Among;
    assert signals + (more + Among(rest[1..], Ripe(v0, h))) == signals + more + Among(rest[1..], Ripe(v0, h));
  }

  lemma {:induction false} EntryListed(v0: View, v: View, held: multiset<Handle>, h: Handle, rest: seq<Handle>)
    requires AtEntry(v0, v, held, h, rest)
    ensures Listed(v0, v, h, rest)
  {
    hide Passing, Served, Listed;
    PassingListed(v0, v, held, h, rest);
  }

  lemma PassStart(v: View, held: multiset<Handle>, h: Handle)
    requires Good(v, held, {})
    ensures var list := ValuesOf(v.proxies, h); AtEntry(v, v, held, h, list) && Signalled(v, v, h, list, [])
  {
    SignalledStart(v, h);
    PassingStart(v, held, h);
    hide Good, Passing, Openable, Signalled;
  }

  lemma {:induction false} SignalledStart(v: View, h: Handle)
    ensures Signalled(v, v, h, ValuesOf(v.proxies, h), [])
  {
    var list := ValuesOf(v.proxies, h);
    hide Among, ValuesOf, Openable;
    assert [] + Among(list, Ripe(v, h)) == Among(list, Ripe(v, h));
  }

  /** Of these handles, each for which the system never refuses a wait has a key that is waited for. */
  ghost predicate Watched(v: View, hs: seq<Handle>, granted: set<Handle>) {
    forall p | p in hs && p in granted :: p in v.hKeys && v.hKeys[p] in v.waits
  }

  /** Live handles keep their keys, and keys with a handle are still waited for. */
  ghost predicate StillWatched(v: View, w: View) {
    && w.records.Keys <= v.records.Keys
    && forall p | p in v.hKeys && p in w.records ::
         p in w.hKeys && (v.hKeys[p] in v.waits ==> w.hKeys[p] in w.waits)
  }

  lemma {:induction false} StillTransitive(u: View, v: View, w: View)
    requires StillWatched(u, v) && StillWatched(v, w)
    ensures StillWatched(u, w)
  {
  }

  lemma {:induction false} OpeningStill(v: View, held: multiset<Handle>, det: set<Pair>, h: Handle)
    requires Good(v, held, det) && h in v.records
    ensures Settled(v) && StillWatched(v, Opening(v, h))
  {
    OpeningWaits(v, held, det, h);
    hide Opening, KeysUpTo, HandlesOk, Good;
  }

  lemma {:induction false} RemovedStill(v: View, w: View, held: multiset<Handle>, det: set<Pair>, h: Handle, p: Handle)
    requires if h in v.records then GivenBack(Unpaired(v, h, p), w, h) else w == Unpaired(v, h, p)
    requires Good(w, held, det)
    ensures StillWatched(v, w)
  {
    hide Living, HandlesOk, CountsOk, ProxiesOk, KeysOld;
  }

  /** A handle with a key is watched, and the others still are. */
  lemma {:induction false} WatchingStill(v: View, w: View, h: Handle, watched: bool)
    requires h in v.records && WellFormed(v.records[h].path) && Watching(v, w, h, watched)
    requires h in v.hKeys && w == v.(waits := w.waits) && HandlesOk(v.handles, v.records, v.nextHandle)
    ensures StillWatched(v, w) && (watched ==> h in w.hKeys && w.hKeys[h] in w.waits)
  {
    hide SameAnswers;
    assert Nearest(v, v.records[h].path) == Some(v.records[h].path);
    hide Openable;
  }

  lemma {:induction false} StillWithKey(v: View, w: View, held: multiset<Handle>, det: set<Pair>, h: Handle,
      watched: bool)
    requires Good(v, held, det) && h in v.records && h in v.hKeys && w == v.(waits := w.waits)
    requires WellFormed(v.records[h].path) && Watching(v, w, h, watched)
    ensures StillWatched(v, w) && (watched ==> h in w.hKeys && w.hKeys[h] in w.waits)
  {
    hide CountsOk, KeysOk, KeysOld, ProxiesOk, Watching, WellFormed;
    WatchingStill(v, w, h, watched);
  }

  lemma EntryOf(v0: View, v: View, h: Handle, rest: seq<Handle>)
    requires Listed(v0, v, h, rest) && rest != []
    ensures rest[0] in ValuesOf(v0.proxies, h)
  {
  }

  lemma {:induction false} WatchedNext(v0: View, v: View, w: View, h: Handle, rest: seq<Handle>,
      signals: seq<Handle>, changed: bool, granted: set<Handle>)
    requires rest != [] && Watched(v, signals, granted) && StillWatched(v, w)
    requires Listed(v0, w, h, rest[1..]) && forall p | p in signals :: p in ValuesOf(v0.proxies, h)
    requires changed && rest[0] in granted ==> rest[0] in w.hKeys && w.hKeys[rest[0]] in w.waits
    ensures Watched(w, signals + (if changed then [rest[0]] else []), granted)
  {
    hide ValuesOf;
  }

  /** All entries of h are dealt with: what was ripe has a key of its own, no entry left and a signal, and nothing
      is signalled that h did not stand for or that has no key. Unless h was given up with the last of them, just
      the ripe paths are signalled, in their order, and every other entry is as it was. */
  ghost predicate Freed(v0: View, v: View, h: Handle, signals: seq<Handle>) {
    && (forall p | p in Ripe(v0, h) :: p in v.hKeys && (h, p) !in v.proxies && p in signals)
    && (forall p | p in signals :: p in ValuesOf(v0.proxies, h) && p in v.hKeys)
    && (h in v.records ==> signals == Among(ValuesOf(v0.proxies, h), Ripe(v0, h)))
    && Untouched(v0, v, h)
  }

  ghost predicate Untouched(v0: View, v: View, h: Handle) {
    h in v.records ==>
      forall e: Pair | e.0 != h || e.1 !in Ripe(v0, h) :: multiset(v.proxies)[e] == multiset(v0.proxies)[e]
  }

  lemma {:induction false} UntouchedNext(v0: View, v: View, w: View, h: Handle, p: Handle, changed: bool)
    requires Untouched(v0, v, h)
    requires h in w.records ==>
               h in v.records && w.proxies == (if changed then Without(v.proxies, (h, p)) else v.proxies)
    requires h in w.records && changed ==> p in Ripe(v0, h)
    ensures Untouched(v0, w, h)
  {
    hide Ripe, Without;
    if h in w.records {
      forall e: Pair | e.0 != h || e.1 !in Ripe(v0, h)
        ensures multiset(w.proxies)[e] == multiset(v0.proxies)[e]
      {
        WithoutCount(v.proxies, (h, p), e);
      }
    }
  }

  /** A handle that keeps a reference keeps the entries as they are. */
  lemma {:induction false} SurvivorEntries(u: View, w: View, held: multiset<Handle>, det: set<Pair>,
      dying: set<Handle>, h: Handle)
    requires h in u.records && MayRemove(u, held, det, dying, h) && GivenBack(u, w, h) && h in w.records
    ensures w.proxies == u.proxies
  {
    Counted(u, held, det, dying, h);
    hide MayRemove, Removed;
  }

  lemma {:induction false} EntryRipe(v0: View, v: View, held: multiset<Handle>, h: Handle, rest: seq<Handle>)
    requires AtEntry(v0, v, held, h, rest) && rest != [] && h in v.records
    requires rest[0] in v.records && Openable(v, v.records[rest[0]].path)
    ensures rest[0] in Ripe(v0, h)
  {
    hide Passing, Served, Ripe, Openable;
    RipeNow(v0, v, held, h, rest);
  }

  lemma {:induction false} OpeningFrame(v: View, h: Handle)
    requires Settled(v) && h in v.records
    ensures Opening(v, h).proxies == v.proxies && Opening(v, h).records.Keys == v.records.Keys
    ensures v.hKeys.Keys <= Opening(v, h).hKeys.Keys
  {
    hide Opening, Settled, KeysUpTo;
  }

  // ---------------------------------------------------------------------------------------------
  // A notification as a whole
  // ---------------------------------------------------------------------------------------------

  /** What was done for one handle of a changed key, and the signals for the paths it stood for. */
  datatype Pass = Pass(handle: Handle, before: View, after: View, signals: seq<Handle>)

  /** One pass for each of the handles, one after the other. */
  ghost predicate Passes(v: View, w: View, hs: seq<Handle>, passes: seq<Pass>, granted: set<Handle>) {
    && |passes| == |hs|
    && (if passes == [] then w == v else passes[0].before == v && passes[|passes| - 1].after == w)
    && (forall k | 0 <= k < |passes| ::
      passes[k].handle == hs[k] && Freed(passes[k].before, passes[k].after, hs[k], passes[k].signals)
      && Watched(passes[k].after, passes[k].signals, granted))
    && (forall k | 0 < k < |passes| :: passes[k].before == passes[k - 1].after)
  }

  /** Each handle is signalled, and after it what it stood for. */
  function Signals(passes: seq<Pass>): seq<Handle> {
    if passes == [] then []
    else
      var last := passes[|passes| - 1];
      Signals(passes[..|passes| - 1]) + [last.handle] + last.signals
  }

  lemma {:induction false} OnePassMore(v: View, w: View, w': View, hs: seq<Handle>, passes: seq<Pass>, h: Handle,
      signals: seq<Handle>, granted: set<Handle>)
    requires Passes(v, w, hs, passes, granted) && Freed(w, w', h, signals) && Watched(w', signals, granted)
    ensures var more := passes + [Pass(h, w, w', signals)];
      Passes(v, w', hs + [h], more, granted) && Signals(more) == Signals(passes) + [h] + signals
  {
    hide Freed, Watched;
    var more := passes + [Pass(h, w, w', signals)];
    assert more[..|passes|] == passes;
  }

  /** The handles that map to a key. */
  ghost predicate MapTo(v: View, key: Key, hs: seq<Handle>) {
    forall h :: h in hs <==> h in v.hKeys && v.hKeys[h] == key
  }

  /** What becomes of a key that was waited for. If it is gone, its handles are watched anew. */
  ghost predicate Rearming(v: View, w: View, key: Key, result: NotifyResult, granted: set<Handle>) {
    match result
    case Rearmed => w == v
    case Lost => w == v.(waits := v.waits - {key})
    case KeyDeleted =>
      && Kept(Forgotten(v.(waits := v.waits - {key}), key), w)
      && forall h | h in v.hKeys && v.hKeys[h] == key :: Covered(w, h, granted)
  }

  ghost predicate AllCovered(v: View, hs: seq<Handle>, granted: set<Handle>) {
    forall h | h in hs :: Covered(v, h, granted)
  }

  lemma {:induction false} CoveredNext(v: View, w: View, held: multiset<Handle>, hs: seq<Handle>, g: Handle,
      watched: bool, granted: set<Handle>)
    requires AllCovered(v, hs, granted) && (g in granted ==> watched)
    requires g in v.records && WellFormed(v.records[g].path) && Watching(v, w, g, watched)
               && Good(w, held, {})
    ensures AllCovered(w, hs + [g], granted)
  {
    hide Covered, Watching, Good, WellFormed;
    WatchingCovers(v, w, held, {}, g, watched, granted);
    forall h | h in hs
      ensures Covered(w, h, granted)
    {
      CoveredStays(v, w, h, g, watched, granted);
    }
  }

  lemma {:induction false} WatchedAnew(v: View, w: View, key: Key, hs: seq<Handle>, granted: set<Handle>)
    requires MapTo(v, key, hs) && AllCovered(w, hs, granted) && Kept(Forgotten(v.(waits := v.waits - {key}), key), w)
    ensures Rearming(v, w, key, KeyDeleted, granted)
  {
    hide Covered, Kept, Forgotten;
  }

  lemma {:induction false} NoPasses(v: View, granted: set<Handle>)
    ensures Passes(v, v, [], [], granted) && Signals([]) == []
  {
  }

  lemma {:induction false} ForgottenRecords(v: View, key: Key)
    ensures Forgotten(v, key).records == v.records && Kept(Forgotten(v, key), Forgotten(v, key))
  {
  }

  lemma {:induction false} NoneCovered(v: View, granted: set<Handle>)
    ensures Kept(v, v) && AllCovered(v, [], granted)
  {
  }

  lemma {:induction false} MapsAsBefore(v: View, w: View, key: Key, hs: seq<Handle>)
    requires w.hKeys == v.hKeys && MapTo(w, key, hs)
    ensures MapTo(v, key, hs)
  {
  }

  lemma {:induction false} KeptRecords(v: View, w: View)
    requires Kept(v, w)
    ensures v.records.Keys <= w.records.Keys
  {
  }

  /** A handle that is watched: it has a key, or the nearest path that can be opened stands for it, if there
      is one at all. That key is waited for if the system never refuses a wait for the handle. */
  ghost predicate Covered(v: View, h: Handle, granted: set<Handle>) {
    && h in v.records && WellFormed(v.records[h].path)
    && (Nearest(v, v.records[h].path).Some? ==> StoodFor(v, h, granted))
  }

  ghost predicate StoodFor(v: View, h: Handle, granted: set<Handle>) {
    exists q :: q in v.hKeys && (q == h || (q, h) in v.proxies) && (h in granted ==> v.hKeys[q] in v.waits)
  }

  lemma {:induction false} WatchingCovers(v: View, w: View, held: multiset<Handle>, det: set<Pair>, h: Handle,
      watched: bool, granted: set<Handle>)
    requires h in v.records && WellFormed(v.records[h].path) && Watching(v, w, h, watched) && Good(w, held, det)
    requires h in granted ==> watched
    ensures Covered(w, h, granted)
  {
    var path := v.records[h].path;
    SameNearest(v, w, path);
    hide SameAnswers, Nearest, CountsOk, KeysOk, KeysOld, ProxiesOk;
    match Nearest(v, path)
    case None =>
    case Some(p) =>
      var q := w.handles[p];
      if p != path {
        assert w.proxies[0] == (q, h);
        assert (q, h) in w.proxies;
      }
      assert q in w.hKeys;
  }

  lemma {:induction false} CoveredStays(v: View, w: View, h: Handle, g: Handle, watched: bool, granted: set<Handle>)
    requires Covered(v, h, granted) && g in v.records && WellFormed(v.records[g].path) && Watching(v, w, g, watched)
    ensures Covered(w, h, granted)
  {
    SameNearest(v, w, v.records[h].path);
    hide SameAnswers, Nearest;
    if q :| q in v.hKeys && (q == h || (q, h) in v.proxies) && (h in granted ==> v.hKeys[q] in v.waits) {
      assert q in w.hKeys && ((q, h) in v.proxies ==> (q, h) in w.proxies);
    }
  }

  lemma {:induction false} LostHandles(v: View, held: multiset<Handle>, key: Key, hs: seq<Handle>)
    requires Good(v, held, {}) && MapTo(v, key, hs)
    ensures forall h | h in hs :: h in v.records
  {
    hide CountsOk, HandlesOk, KeysOld, ProxiesOk;
  }

  lemma {:induction false} PassEnd(v0: View, v: View, held: multiset<Handle>, h: Handle, signals: seq<Handle>)
    requires AtEntry(v0, v, held, h, []) && Signalled(v0, v, h, [], signals) && Untouched(v0, v, h)
    ensures Good(v, held, {}) && Freed(v0, v, h, signals)
  {
    SignalledEnd(v0, v, h, signals);
    PassingEnd(v0, v, held, h);
    hide Good, Ripe, Listed, SameAnswers, Signalled, Untouched, Among, ValuesOf;
    forall p | p in Ripe(v0, h)
      ensures (h, p) !in v.proxies
    {
      assert multiset(v.proxies)[(h, p)] <= multiset([])[p];
    }
  }

  lemma {:induction false} SignalledEnd(v0: View, v: View, h: Handle, signals: seq<Handle>)
    requires Signalled(v0, v, h, [], signals)
    ensures forall p | p in Ripe(v0, h) :: p in signals
    ensures forall p | p in signals :: p in ValuesOf(v0.proxies, h) && p in v.hKeys
    ensures h in v.records ==> signals == Among(ValuesOf(v0.proxies, h), Ripe(v0, h))
  {
    assert Among([], Ripe(v0, h)) == [] && signals + [] == signals;
    hide Among, Ripe, ValuesOf;
  }

  lemma PassingWatched(v0: View, v: View, w: View, held: multiset<Handle>, h: Handle, rest: seq<Handle>)
    requires Passing(v0, v, held, h, rest)
    requires Good(w, AndMore(held, h, CountIn(rest, Ripe(v0, h))), PairsTo(h, Ripe(v0, h)))
    requires w == v.(waits := w.waits)
    ensures Passing(v0, w, held, h, rest)
  {
    hide Good, Ripe, Openable, SameNames, SameAnswers, AndMore, PairsTo;
    SameTables(v, w);
    if h in w.records {
      AnswersTransitive(v0, v, w);
    }
  }

  // ---------------------------------------------------------------------------------------------
  // A key whose registry key was deleted
  // ---------------------------------------------------------------------------------------------

  /** The key is closed and no handle maps to it any more. */
  function Forgotten(v: View, key: Key): View {
    v.(hKeys := map h | h in v.hKeys && v.hKeys[h] != key :: v.hKeys[h], open := v.open - {key},
      waits := v.waits - {key})
  }

  lemma ForgottenKeeps(v: View, held: multiset<Handle>, det: set<Pair>, key: Key)
    requires Good(v, held, det)
    ensures Good(Forgotten(v, key), held, det)
  {
    hide HandlesOk, CountsOk, ProxiesOk;
    var w := Forgotten(v, key);
    forall k | k in w.open
      ensures exists h :: h in w.hKeys && w.hKeys[h] == k
    {
      var h :| h in v.hKeys && v.hKeys[h] == k;
      assert h in w.hKeys;
    }
  }

  /** A key that no handle maps to is not waited for. */
  lemma NoOrphanWait(v: View, held: multiset<Handle>, det: set<Pair>, key: Key)
    requires Good(v, held, det) && forall h | h in v.hKeys :: v.hKeys[h] != key
    ensures key !in v.open && key !in v.waits
  {
    hide HandlesOk, CountsOk, ProxiesOk;
  }

  lemma KeyHandles(v: View, held: multiset<Handle>, key: Key, hs: seq<Handle>)
    requires Good(v, held, {}) && MapTo(v, key, hs)
    ensures hs == [] <==> key !in v.open
    ensures hs == [] ==> key !in v.waits
  {
    hide HandlesOk, CountsOk, ProxiesOk;
    if hs == [] {
      NoOrphanWait(v, held, {}, key);
    } else {
      assert hs[0] in hs;
    }
  }

  lemma LostKeeps(v: View, held: multiset<Handle>, key: Key)
    requires Good(v, held, {})
    ensures Good(v.(waits := v.waits - {key}), held, {})
  {
    hide HandlesOk, CountsOk, ProxiesOk, KeysOld;
  }

  lemma PublishedKept(u: View, v: View, w: View, h: Handle, watched: bool)
    requires Kept(u, v)
    requires h !in v.records ==> w == v
    requires h in v.records ==> WellFormed(v.records[h].path) && Watching(v, w, h, watched)
    ensures Kept(u, w)
  {
    if h in v.records {
      KeptTransitive(u, v, w);
    }
    hide Kept, SameAnswers, Nearest;
  }
}
