/** openRegistryKey of src/publishsubscribe/registrylayer_win.cpp as a function of the tables, and why
  opening keys changes nothing that a later attempt to open a key could notice. */
module RegistryOpening {
  import opened Text
  import opened CanonicalPath
  import opened LayerPath
  import opened ProxyMap
  import opened RegistryTables

  // ---------------------------------------------------------------------------------------------
  // The function
  // ---------------------------------------------------------------------------------------------

  /** What enumerating an open key yields; a key that has been deleted yields nothing. */
  function KeyNames(v: View, key: Key): set<string> {
    if key in v.open && key !in v.os.deleted then NamesAt(v.os, v.open[key]) else {}
  }

  /** `children` of a handle whose key is open. */
  function ChildNames(v: View, h: Handle): set<string> {
    if h in v.records && !v.records[h].valueHandle && h in v.hKeys then KeyNames(v, v.hKeys[h]) else {}
  }

  /** removeHandle on a handle that no proxy stands for. */
  function GiveBack(v: View, h: Handle): View
    requires h in v.records
  {
    if v.records[h].refCount > 1 then Decremented(v, h) else Dropped(v, h)
  }

  /** What opening keys leaves alone. */
  ghost predicate OnlyOpened(v: View, w: View) {
    && w.handles == v.handles
    && w.records.Keys == v.records.Keys
    && (forall h | h in v.records ::
      w.records[h].path == v.records[h].path && w.records[h].refCount == v.records[h].refCount)
    && w.proxies == v.proxies && w.os == v.os
    && v.nextHandle <= w.nextHandle
    && (forall h | h in v.hKeys :: h in w.hKeys && w.hKeys[h] == v.hKeys[h])
  }

  /** Between two steps: every live handle has a reference and only live handles have keys. */
  ghost predicate Settled(v: View) {
    && HandlesOk(v.handles, v.records, v.nextHandle)
    && (forall h | h in v.records :: v.records[h].refCount > 0)
    && v.hKeys.Keys <= v.records.Keys
  }

  lemma ParentWellFormed(p: string)
    requires WellFormed(p) && ParentPath(p) != ""
    ensures WellFormed(ParentPath(p))
  {
    hide LastIndexOf;
    PrefixWellFormed(p, LastIndexOf(p, '/'));
  }

  lemma OpenedKeySettled(v: View, h: Handle)
    requires Settled(v) && h in v.records && h !in v.hKeys
    ensures Settled(OpenedKey(v, h)) && OnlyOpened(v, OpenedKey(v, h))
  {
    hide WellFormed;
  }

  lemma OpenedValueSettled(v: View, h: Handle, parent: Handle)
    requires Settled(v) && h in v.records && h !in v.hKeys && parent in v.hKeys
    ensures Settled(OpenedValue(v, h, parent)) && OnlyOpened(v, OpenedValue(v, h, parent))
  {
    hide WellFormed;
    SamePaths(v.handles, v.records, OpenedValue(v, h, parent).records, v.nextHandle);
  }

  lemma TakeSettled(v: View, full: string)
    requires Settled(v) && WellFormed(full)
    ensures var w := Take(v, full); Settled(w) && Taken(v, full) in w.records && w.records[Taken(v, full)].path == full
    ensures forall h | h in v.records :: h in Take(v, full).records
  {
    TakeHandles(v, full);
    hide WellFormed;
  }

  lemma KnownBack(v: View, full: string, w: View)
    requires Settled(v) && full in v.handles && v.handles[full] in v.records
    requires Settled(w) && OnlyOpened(Take(v, full), w)
    ensures var h := v.handles[full];
      && h in w.records && w.records[h].refCount > 1
      && Settled(Decremented(w, h)) && OnlyOpened(v, Decremented(w, h))
  {
    hide WellFormed, HandlesOk;
    var h := v.handles[full];
    assert h in Take(v, full).records;
    SamePaths(w.handles, w.records, Decremented(w, h).records, w.nextHandle);
  }

  lemma ClosedKeys(v: View, h: Handle)
    ensures Closed(v, h).hKeys == v.hKeys - {h}
    ensures Closed(v, h) == v.(hKeys := v.hKeys - {h}, waits := Closed(v, h).waits, open := Closed(v, h).open)
  {
    if h !in v.hKeys {
      assert v.hKeys - {h} == v.hKeys;
    }
  }

  lemma NewBack(v: View, full: string, w: View)
    requires Settled(v) && full !in v.handles && v.nextHandle !in v.records
    requires Settled(w) && OnlyOpened(Take(v, full), w)
    ensures var h := v.nextHandle;
      && h in w.records && w.records[h].refCount == 1 && w.records[h].path == full
      && Settled(Dropped(w, h)) && OnlyOpened(v, Dropped(w, h))
  {
    hide WellFormed;
    var h := v.nextHandle;
    var w' := Dropped(w, h);
    assert h in Take(v, full).records;
    DroppedHandles(w.handles, w.records, w.nextHandle, h);
    hide HandlesOk;
    ClosedKeys(w, h);
    hide Closed;
    assert w'.handles == v.handles;
    assert w'.records.Keys == v.records.Keys;
  }

  /** Taking a handle, opening keys and giving the handle back only opens keys. */
  lemma TakenBack(v: View, full: string, w: View)
    requires Settled(v) && WellFormed(full)
    requires Settled(w) && OnlyOpened(Take(v, full), w)
    ensures Taken(v, full) in w.records
    ensures var w' := GiveBack(w, Taken(v, full)); Settled(w') && OnlyOpened(v, w')
  {
    if full in v.handles {
      KnownBack(v, full, w);
    } else {
      NewBack(v, full, w);
    }
    hide WellFormed, HandlesOk, OnlyOpened, Settled, Decremented, Dropped;
  }

  /** Only paths up to a length have got a key. */
  ghost predicate KeysUpTo(v: View, w: View, n: nat) {
    forall h | h in w.hKeys && h !in v.hKeys :: h in w.records && |w.records[h].path| <= n
  }

  ghost predicate Opens(v: View, w: View, n: nat) {
    Settled(w) && OnlyOpened(v, w) && KeysUpTo(v, w, n)
  }

  /** The parent's key serves the handle if it has a child of the right name. */
  function OpenedFrom(v: View, h: Handle, parent: Handle, name: string): (w: View)
    requires h in v.records
  {
    if parent in v.hKeys && name in ChildNames(v, parent) then OpenedValue(v, h, parent) else v
  }

  /** The end of openRegistryKey once the parent's key has been tried. */
  function ThroughParent(v: View, h: Handle, parent: Handle, name: string): (w: View)
    requires h in v.records && parent in v.records
  {
    GiveBack(OpenedFrom(v, h, parent, name), parent)
  }

  lemma Transitive(u: View, v: View, w: View)
    requires OnlyOpened(u, v) && OnlyOpened(v, w)
    ensures OnlyOpened(u, w)
  {
  }

  lemma FromParent(v: View, h: Handle, parent: Handle, name: string)
    requires Settled(v) && h in v.records && h !in v.hKeys
    ensures var w := OpenedFrom(v, h, parent, name);
      Settled(w) && OnlyOpened(v, w) && forall x | x in w.hKeys :: x == h || x in v.hKeys
  {
    if parent in v.hKeys {
      OpenedValueSettled(v, h, parent);
    }
    hide HandlesOk, ChildNames;
  }

  lemma FewerKeys(v: View, h: Handle)
    requires h in v.records
    ensures var w := GiveBack(v, h);
      && w.records.Keys <= v.records.Keys
      && (forall x | x in w.records :: w.records[x].path == v.records[x].path)
      && w.hKeys.Keys <= v.hKeys.Keys
  {
    ClosedKeys(v, h);
    hide Closed;
  }

  lemma ThroughParentOpens(v: View, h: Handle, full: string, v1: View, name: string)
    requires Settled(v) && WellFormed(full) && h in v.records && h !in v.hKeys && |full| < |v.records[h].path|
    requires Opens(Take(v, full), v1, |full|)
    ensures h in v1.records && Taken(v, full) in v1.records
    ensures Opens(v, ThroughParent(v1, h, Taken(v, full), name), |v.records[h].path|)
  {
    var parent := Taken(v, full);
    StillThere(v, h, full, v1);
    var w := OpenedFrom(v1, h, parent, name);
    FromParent(v1, h, parent, name);
    Transitive(Take(v, full), v1, w);
    TakenBack(v, full, w);
    var w' := GiveBack(w, parent);
    FewerKeys(w, parent);
    hide WellFormed, Settled, Take, Taken, OpenedFrom, GiveBack;
    assert forall x | x in w'.hKeys && x !in v.hKeys :: x == h || x in v1.hKeys;
  }

  lemma StillThere(v: View, h: Handle, full: string, v1: View)
    requires Settled(v) && WellFormed(full) && h in v.records && h !in v.hKeys && |full| < |v.records[h].path|
    requires Opens(Take(v, full), v1, |full|)
    ensures h in v1.records && Taken(v, full) in v1.records && h !in v1.hKeys
    ensures v1.records[h].path == v.records[h].path
    ensures Take(v, full).hKeys == v.hKeys
  {
    hide WellFormed, HandlesOk, Take, Taken;
    TakeHandles(v, full);
    SameFrame(v, full);
  }

  function Opening(v: View, h: Handle): (w: View)
    requires Settled(v) && h in v.records
    ensures Opens(v, w, |v.records[h].path|)
    decreases |v.records[h].path|
  {
    var path := v.records[h].path;
    if h in v.hKeys then v
    else match TryOpen(v.os, path)
      case Failed => v
      case Found => OpenedKeySettled(v, h); OpenedKey(v, h)
      case NotFound =>
        var parentPath := ParentPath(path);
        if parentPath == "" then v
        else
          ParentWellFormed(path);
          TakeSettled(v, parentPath);
          var v1 := Opening(Take(v, parentPath), Taken(v, parentPath));
          ThroughParentOpens(v, h, parentPath, v1, ValueName(path));
          ThroughParent(v1, h, Taken(v, parentPath), ValueName(path))
  }

  // ---------------------------------------------------------------------------------------------
  // Opening keeps the invariant
  // ---------------------------------------------------------------------------------------------

  /** Between two calls no handle is dying. */
  ghost predicate Good(v: View, held: multiset<Handle>, det: set<Pair>) {
    Inv(v, held, det, {}) && forall e | e in det :: e.1 < v.nextHandle
  }

  lemma GoodSettled(v: View, held: multiset<Handle>, det: set<Pair>)
    requires Good(v, held, det)
    ensures Settled(v)
  {
    forall h | h in v.records
      ensures v.records[h].refCount > 0
    {
      assert CountOk(v.records[h], v.proxies, held, det, {}, h);
    }
  }

  lemma OpenedKeyKeeps(v: View, held: multiset<Handle>, det: set<Pair>, h: Handle)
    requires Good(v, held, det) && h in v.records && h !in v.hKeys
    ensures Good(OpenedKey(v, h), held, det)
  {
    hide HandlesOk, CountsOk, ProxiesOk;
    var w := OpenedKey(v, h);
    assert w.hKeys[h] == v.nextKey;
    forall k | k in w.open
      ensures exists g :: g in w.hKeys && w.hKeys[g] == k
    {
      if k != v.nextKey {
        var g :| g in v.hKeys && v.hKeys[g] == k;
        assert w.hKeys[g] == k;
      }
    }
  }

  lemma SharedKey(hKeys: map<Handle, Key>, live: set<Handle>, open: set<Key>, waits: set<Key>, h: Handle,
      parent: Handle)
    requires KeysOk(hKeys, live, open, waits) && h in live && h !in hKeys && parent in hKeys
    ensures KeysOk(hKeys[h := hKeys[parent]], live, open, waits)
  {
    var more := hKeys[h := hKeys[parent]];
    forall k | k in open
      ensures exists g :: g in more && more[g] == k
    {
      var g :| g in hKeys && hKeys[g] == k;
      assert more[g] == k;
    }
  }

  lemma SameCounts(v: View, w: View, held: multiset<Handle>, det: set<Pair>)
    requires CountsOk(v.records, v.proxies, held, det, {}) && ProxiesOk(v.records, v.proxies) && OnlyOpened(v, w)
    ensures CountsOk(w.records, w.proxies, held, det, {}) && ProxiesOk(w.records, w.proxies)
  {
    forall h | h in w.records
      ensures CountOk(w.records[h], w.proxies, held, det, {}, h)
    {
      assert CountOk(v.records[h], v.proxies, held, det, {}, h);
    }
  }

  lemma OpenedValueKeeps(v: View, held: multiset<Handle>, det: set<Pair>, h: Handle, parent: Handle)
    requires Good(v, held, det) && h in v.records && h !in v.hKeys && parent in v.hKeys
    ensures Good(OpenedValue(v, h, parent), held, det)
  {
    hide HandlesOk, CountsOk, ProxiesOk;
    GoodSettled(v, held, det);
    OpenedValueSettled(v, h, parent);
    SameCounts(v, OpenedValue(v, h, parent), held, det);
    SharedKey(v.hKeys, v.records.Keys, v.open.Keys, v.waits, h, parent);
    assert OpenedValue(v, h, parent).records.Keys == v.records.Keys;
    hide OnlyOpened, KeysOk, KeysOld;
  }

  lemma NoKeys(ps: seq<Pair>, h: Handle)
    requires forall e | e in ps :: e.1 != h
    ensures KeysOf(ps, h) == []
  {
    if ps != [] {
      assert ps[0] in ps;
      NoKeys(ps[1..], h);
    }
  }

  /** Giving back a reference to a handle that no proxy stands for. */
  lemma GiveBackKeeps(v: View, held: multiset<Handle>, det: set<Pair>, dying: set<Handle>, h: Handle)
    requires Inv(v, held, det, dying) && h in v.records && held[h] > Inside(v.proxies, h, det)
    requires v.records[h].refCount > 0
    requires v.records[h].refCount == 1 ==> forall e | e in v.proxies || e in det :: e.1 != h
    ensures Inv(GiveBack(v, h), held - multiset{h}, det, dying)
  {
    hide Inv;
    if v.records[h].refCount > 1 {
      DecrementKeeps(v, held, det, dying, h);
    } else {
      LastReference(v, held, det, dying, h);
      NoKeys(v.proxies, h);
      assert held - multiset{h} + multiset([]) == held - multiset{h};
      assert det + EntriesFor(v.proxies, h) == det;
      DroppedKeeps(Decremented(v, h), held - multiset{h}, det, dying + {h}, h);
      DroppedEither(v, h);
      NotDying(v, held, det, dying, h);
      assert dying + {h} - {h} == dying;
    }
  }

  lemma DroppedEither(v: View, h: Handle)
    requires h in v.records
    ensures Dropped(Decremented(v, h), h) == Dropped(v, h)
  {
    assert Closed(Decremented(v, h), h) == Closed(v, h).(records := Decremented(v, h).records);
    assert Decremented(v, h).records - {h} == v.records - {h};
  }

  lemma NotDying(v: View, held: multiset<Handle>, det: set<Pair>, dying: set<Handle>, h: Handle)
    requires Inv(v, held, det, dying) && h in v.records && v.records[h].refCount > 0
    ensures h !in dying
  {
    assert CountOk(v.records[h], v.proxies, held, det, dying, h);
  }

  lemma FromParentKeeps(v: View, held: multiset<Handle>, det: set<Pair>, h: Handle, parent: Handle, name: string)
    requires Good(v, held, det) && h in v.records && h !in v.hKeys
    ensures var w := OpenedFrom(v, h, parent, name); Good(w, held, det) && OnlyOpened(v, w)
  {
    GoodSettled(v, held, det);
    FromParent(v, h, parent, name);
    if parent in v.hKeys {
      OpenedValueKeeps(v, held, det, h, parent);
    }
    hide ChildNames, Inv, OnlyOpened, Settled;
  }

  /** A handle taken for the time of one call: its reference is the call's own, and no proxy stands for
      it if the handle is new. */
  lemma TakenIsFree(v: View, held: multiset<Handle>, det: set<Pair>, full: string, w: View)
    requires Good(v, held, det) && OnlyOpened(Take(v, full), w)
    ensures var h := Taken(v, full);
      && h in w.records && w.records[h].refCount > 0
      && held[h] >= Inside(w.proxies, h, det)
      && (w.records[h].refCount == 1 ==> forall e | e in w.proxies || e in det :: e.1 != h)
  {
    GoodSettled(v, held, det);
    var h := Taken(v, full);
    assert h in Take(v, full).records;
    if h in v.records {
      assert CountOk(v.records[h], v.proxies, held, det, {}, h);
      hide HandlesOk, CountsOk, ProxiesOk, KeysOk, KeysOld;
    } else {
      NoEntries(v.records, v.proxies, h, det);
    }
  }

  lemma ThroughKeeps(v: View, held: multiset<Handle>, det: set<Pair>, h: Handle, full: string, v1: View, name: string)
    requires Good(v, held, det) && Good(v1, held + multiset{Taken(v, full)}, det)
    requires OnlyOpened(Take(v, full), v1)
    requires h in v1.records && h !in v1.hKeys && Taken(v, full) in v1.records
    ensures Good(ThroughParent(v1, h, Taken(v, full), name), held, det)
  {
    hide Good;
    var parent := Taken(v, full);
    var held' := held + multiset{parent};
    FromParentKeeps(v1, held', det, h, parent, name);
    var w := OpenedFrom(v1, h, parent, name);
    Transitive(Take(v, full), v1, w);
    TakenIsFree(v, held, det, full, w);
    GoodGiveBack(w, held', det, parent);
    assert held' - multiset{parent} == held;
  }

  lemma GoodGiveBack(v: View, held: multiset<Handle>, det: set<Pair>, h: Handle)
    requires Good(v, held, det) && h in v.records && held[h] > Inside(v.proxies, h, det)
    requires v.records[h].refCount == 1 ==> forall e | e in v.proxies || e in det :: e.1 != h
    ensures Good(GiveBack(v, h), held - multiset{h}, det)
  {
    GoodSettled(v, held, det);
    hide Inv;
    GiveBackKeeps(v, held, det, {}, h);
    ClosedKeys(v, h);
    hide Closed;
  }

  lemma GoodTake(v: View, held: multiset<Handle>, det: set<Pair>, full: string)
    requires Good(v, held, det) && WellFormed(full)
    ensures Good(Take(v, full), held + multiset{Taken(v, full)}, det)
  {
    hide WellFormed;
    assert full in v.handles ==> v.handles[full] in v.records;
    hide Inv;
    TakeKeeps(v, held, det, {}, full);
  }

  /** Opening a key keeps the invariant and hands out no references. */
  lemma {:induction false} OpeningKeeps(v: View, held: multiset<Handle>, det: set<Pair>, h: Handle)
    requires Good(v, held, det) && h in v.records
    ensures Settled(v) && Good(Opening(v, h), held, det)
    decreases |v.records[h].path|
  {
    GoodSettled(v, held, det);
    hide Good;
    var path := v.records[h].path;
    if h !in v.hKeys {
      if TryOpen(v.os, path) == Found {
        OpenedKeyKeeps(v, held, det, h);
      } else if TryOpen(v.os, path) == NotFound && ParentPath(path) != "" {
        var parentPath := ParentPath(path);
        ParentWellFormed(path);
        GoodTake(v, held, det, parentPath);
        TakeSettled(v, parentPath);
        var parent := Taken(v, parentPath);
        OpeningKeeps(Take(v, parentPath), held + multiset{parent}, det, parent);
        var v1 := Opening(Take(v, parentPath), parent);
        StillThere(v, h, parentPath, v1);
        ThroughKeeps(v, held, det, h, parentPath, v1, ValueName(path));
      }
    }
    hide Take, Taken, WellFormed, ParentPath, ThroughParent, TryOpen, OnlyOpened, KeysUpTo;
  }

  // ---------------------------------------------------------------------------------------------
  // Opening changes no answer
  // ---------------------------------------------------------------------------------------------

  /** The names below a path as the registry has them. */
  function NamesFresh(os: Registry, path: string): set<string> {
    if TryOpen(os, path) == Found then NamesAt(os, path) else {}
  }

  /** The names a handle of this path would list, whether or not there is one now. */
  function Names(v: View, path: string): set<string> {
    if path in v.handles && v.handles[path] in v.hKeys then ChildNames(v, v.handles[path])
    else if path in v.handles && v.handles[path] in v.records && v.records[v.handles[path]].valueHandle then {}
    else NamesFresh(v.os, path)
  }

  /** The registry has a key of this path, or a value of this name below the parent. */
  predicate OpenableFresh(v: View, path: string) {
    match TryOpen(v.os, path)
    case Found => true
    case Failed => false
    case NotFound =>
      path != "" && path[0] == '/' && ParentPath(path) != "" && ValueName(path) in Names(v, ParentPath(path))
  }

  /** Opening a handle of this path would leave it with a key. */
  predicate Openable(v: View, path: string) {
    (path in v.handles && v.handles[path] in v.hKeys) || OpenableFresh(v, path)
  }

  /** A handle's key and kind are what a new handle of the same path would get. */
  ghost predicate Derived(v: View, h: Handle) {
    h in v.records ==>
      && Names(v, v.records[h].path) == NamesFresh(v.os, v.records[h].path)
      && (h in v.hKeys ==> OpenableFresh(v, v.records[h].path))
  }

  ghost predicate SameNames(v: View, w: View) {
    w.os == v.os && forall p :: Names(w, p) == Names(v, p)
  }

  ghost predicate SameAnswers(v: View, w: View) {
    SameNames(v, w) && forall p :: Openable(w, p) <==> Openable(v, p)
  }

  lemma SameFresh(v: View, w: View, p: string)
    requires SameNames(v, w)
    ensures OpenableFresh(w, p) <==> OpenableFresh(v, p)
  {
    hide Names, ParentPath, ValueName;
  }

  lemma TakeAnswers(v: View, full: string)
    requires Settled(v)
    ensures SameAnswers(v, Take(v, full))
  {
    hide WellFormed, ParentPath, ValueName, NamesAt, TryOpen;
    var w := Take(v, full);
    forall p
      ensures Names(w, p) == Names(v, p)
    {
    }
    forall p
      ensures Openable(w, p) <==> Openable(v, p)
    {
      SameFresh(v, w, p);
      hide OpenableFresh, Names;
    }
  }

  lemma OpenedKeyAnswers(v: View, held: multiset<Handle>, det: set<Pair>, h: Handle)
    requires Good(v, held, det) && h in v.records && h !in v.hKeys && TryOpen(v.os, v.records[h].path) == Found
    ensures SameAnswers(v, OpenedKey(v, h))
  {
    hide WellFormed, ParentPath, ValueName, CountsOk, ProxiesOk, OpenableFresh;
    var w := OpenedKey(v, h);
    var path := v.records[h].path;
    ChoppedTwice(path);
    assert v.handles[path] == h;
    forall p
      ensures Names(w, p) == Names(v, p)
    {
      hide Chopped;
      if p in v.handles && p != path {
        assert v.handles[p] != h;
      }
    }
    forall p
      ensures Openable(w, p) <==> Openable(v, p)
    {
      SameFresh(v, w, p);
      assert p == path ==> OpenableFresh(v, p) by {
        FoundOpenable(v, path);
      }
      hide Names, TryOpen;
      if p in v.handles && p != path {
        assert v.handles[p] != h;
      }
    }
  }

  lemma FoundOpenable(v: View, path: string)
    requires TryOpen(v.os, path) == Found
    ensures OpenableFresh(v, path)
  {
  }

  lemma {:induction false} ChoppedTwice(s: string)
    ensures Chopped(Chopped(s)) == Chopped(s)
  {
    if EndsWithSlash(s) {
      ChoppedTwice(s[..|s| - 1]);
    }
  }

  lemma OpenedValueAnswers(v: View, held: multiset<Handle>, det: set<Pair>, h: Handle, parent: Handle)
    requires Good(v, held, det) && h in v.records && h !in v.hKeys && parent in v.hKeys
    requires TryOpen(v.os, v.records[h].path) == NotFound && OpenableFresh(v, v.records[h].path)
    ensures SameAnswers(v, OpenedValue(v, h, parent))
  {
    hide WellFormed, ParentPath, ValueName, CountsOk, ProxiesOk, OpenableFresh, KeysOk, KeysOld;
    var w := OpenedValue(v, h, parent);
    var path := v.records[h].path;
    assert v.handles[path] == h;
    forall p
      ensures Names(w, p) == Names(v, p)
    {
      if p in v.handles && p != path {
        assert v.handles[p] != h;
      }
    }
    forall p
      ensures Openable(w, p) <==> Openable(v, p)
    {
      SameFresh(v, w, p);
      hide Names, TryOpen;
      if p in v.handles && p != path {
        assert v.handles[p] != h;
      }
    }
  }

  lemma GiveBackAnswers(v: View, held: multiset<Handle>, det: set<Pair>, h: Handle)
    requires Good(v, held, det) && h in v.records
    requires v.records[h].refCount == 1 ==> Derived(v, h)
    requires v.records[h].refCount > 0
    ensures SameAnswers(v, GiveBack(v, h))
  {
    if v.records[h].refCount > 1 {
      DecrementedAnswers(v, h);
    } else {
      DroppedAnswers(v, held, det, h);
    }
  }

  lemma DecrementedAnswers(v: View, h: Handle)
    requires h in v.records
    ensures SameAnswers(v, Decremented(v, h))
  {
    var w := Decremented(v, h);
    forall p
      ensures Names(w, p) == Names(v, p)
    {
    }
    forall p
      ensures Openable(w, p) <==> Openable(v, p)
    {
      SameFresh(v, w, p);
      hide Names, OpenableFresh;
    }
  }

  lemma DroppedAnswers(v: View, held: multiset<Handle>, det: set<Pair>, h: Handle)
    requires Good(v, held, det) && h in v.records && Derived(v, h)
    ensures SameAnswers(v, Dropped(v, h))
  {
    hide WellFormed, ParentPath, ValueName, CountsOk, ProxiesOk, OpenableFresh, KeysOld;
    var w := Dropped(v, h);
    var path := v.records[h].path;
    assert v.handles[path] == h;
    ClosedKeys(v, h);
    forall p
      ensures Names(w, p) == Names(v, p)
    {
      if p in v.handles && p != path {
        var g := v.handles[p];
        assert g != h;
        OtherKey(v, h, g);
        hide Closed;
      }
    }
    hide Closed;
    forall p
      ensures Openable(w, p) <==> Openable(v, p)
    {
      SameFresh(v, w, p);
      hide Names;
      if p in v.handles && p != path {
        assert v.handles[p] != h;
      }
    }
  }

  lemma OtherKey(v: View, h: Handle, g: Handle)
    requires h != g
    ensures g in v.hKeys ==> v.hKeys[g] in v.open ==>
              v.hKeys[g] in Closed(v, h).open && Closed(v, h).open[v.hKeys[g]] == v.open[v.hKeys[g]]
  {
    if h in v.hKeys && g in v.hKeys {
      var hKeys := v.hKeys - {h};
      assert hKeys[g] in hKeys.Values;
    }
  }

  lemma AnswersTransitive(u: View, v: View, w: View)
    requires SameAnswers(u, v) && SameAnswers(v, w)
    ensures SameAnswers(u, w)
  {
    hide Names, Openable;
  }

  /** A handle taken afresh has only what the registry and its parent give it, before and after keys
      are opened. */
  lemma NewHandleDerived(v: View, held: multiset<Handle>, det: set<Pair>, full: string, w: View)
    requires Good(v, held, det) && full !in v.handles
    requires SameAnswers(Take(v, full), w) && OnlyOpened(Take(v, full), w)
    ensures Derived(w, Taken(v, full))
  {
    hide WellFormed, CountsOk, ProxiesOk, KeysOld, ParentPath, ValueName, NamesFresh;
    GoodSettled(v, held, det);
    var u, h := Take(v, full), Taken(v, full);
    assert u.handles[full] == h && h !in u.hKeys && !u.records[h].valueHandle;
    assert w.handles[full] == h && w.records[h].path == full;
    assert Names(w, full) == Names(u, full);
    assert Openable(w, full) <==> Openable(u, full);
    SameFresh(u, w, full);
  }

  /** With its key tried, a parent has a child of a name exactly if the answers say so. */
  lemma ParentNames(v: View, parent: Handle, full: string)
    requires full in v.handles && v.handles[full] == parent && parent in v.records
    requires parent in v.hKeys <==> Openable(v, full)
    ensures Names(v, full) == if parent in v.hKeys then ChildNames(v, parent) else {}
  {
    hide ParentPath, ValueName;
  }

  lemma ParentAnswers(v: View, h: Handle, parent: Handle)
    requires h in v.records && parent in v.records
    requires var path := v.records[h].path;
               path != "" && path[0] == '/' && ParentPath(path) != "" && TryOpen(v.os, path) == NotFound
    requires var full := ParentPath(v.records[h].path);
      full in v.handles && v.handles[full] == parent && (parent in v.hKeys <==> Openable(v, full))
    ensures var path := v.records[h].path;
      OpenableFresh(v, path) <==> parent in v.hKeys && ValueName(path) in ChildNames(v, parent)
  {
    ParentNames(v, parent, ParentPath(v.records[h].path));
    hide ChildNames, Names, ValueName, ParentPath, Openable;
  }

  lemma FromParentAnswers(v: View, held: multiset<Handle>, det: set<Pair>, h: Handle, parent: Handle)
    requires Good(v, held, det) && h in v.records && h !in v.hKeys && parent in v.records
    requires var path := v.records[h].path;
               path != "" && path[0] == '/' && ParentPath(path) != "" && TryOpen(v.os, path) == NotFound
    requires var full := ParentPath(v.records[h].path);
      full in v.handles && v.handles[full] == parent && (parent in v.hKeys <==> Openable(v, full))
    ensures var w := OpenedFrom(v, h, parent, ValueName(v.records[h].path));
      SameAnswers(v, w) && (h in w.hKeys <==> OpenableFresh(v, v.records[h].path))
  {
    ParentAnswers(v, h, parent);
    if OpenableFresh(v, v.records[h].path) {
      OpenedValueAnswers(v, held, det, h, parent);
    }
    hide ChildNames, Names, ValueName, ParentPath, Openable, OpenableFresh, Good;
  }

  /** Giving a handle back that was taken for the time of one call changes no answer. */
  lemma BackAnswers(v: View, held: multiset<Handle>, det: set<Pair>, full: string, w: View)
    requires Good(v, held, det) && WellFormed(full) && Good(w, held + multiset{Taken(v, full)}, det)
    requires OnlyOpened(Take(v, full), w) && SameAnswers(Take(v, full), w)
    ensures Taken(v, full) in w.records
    ensures SameAnswers(v, GiveBack(w, Taken(v, full)))
  {
    GoodSettled(v, held, det);
    var parent := Taken(v, full);
    TakenIsFree(v, held, det, full, w);
    if full !in v.handles {
      NewHandleDerived(v, held, det, full, w);
    } else {
      KnownBack(v, full, w);
    }
    GiveBackAnswers(w, held + multiset{parent}, det, parent);
    TakeAnswers(v, full);
    AnswersTransitive(v, Take(v, full), w);
    AnswersTransitive(v, w, GiveBack(w, parent));
    hide Good, WellFormed, Take, OnlyOpened, SameAnswers, GiveBack, Settled, Derived;
  }

  ghost predicate ParentTried(v: View, h: Handle, v1: View, held: multiset<Handle>, det: set<Pair>, full: string) {
    && Good(v1, held + multiset{Taken(v, full)}, det)
    && OnlyOpened(Take(v, full), v1) && SameAnswers(Take(v, full), v1)
    && h in v1.records && h !in v1.hKeys && h in v.records && v1.records[h].path == v.records[h].path
    && Taken(v, full) in v1.records && v1.records[Taken(v, full)].path == full
    && (Taken(v, full) in v1.hKeys <==> Openable(Take(v, full), full))
  }

  lemma ThroughFrom(v: View, held: multiset<Handle>, det: set<Pair>, h: Handle, v1: View)
    requires Good(v, held, det) && h in v.records && h !in v.hKeys
    requires TryOpen(v.os, v.records[h].path) == NotFound && v.records[h].path != "" && v.records[h].path[0] == '/'
    requires var full := ParentPath(v.records[h].path); full != "" && ParentTried(v, h, v1, held, det, full)
    ensures var path := v.records[h].path; var full := ParentPath(path);
      var w := OpenedFrom(v1, h, Taken(v, full), ValueName(path));
      && OnlyOpened(Take(v, full), w) && SameAnswers(Take(v, full), w)
      && Good(w, held + multiset{Taken(v, full)}, det)
      && (h in w.hKeys <==> OpenableFresh(v, path))
  {
    GoodSettled(v, held, det);
    var path := v.records[h].path;
    var full := ParentPath(path);
    var parent, name, held' := Taken(v, full), ValueName(path), held + multiset{Taken(v, full)};
    var w := OpenedFrom(v1, h, parent, name);
    GoodSettled(v1, held', det);
    assert v1.handles[full] == parent;
    TakeAnswers(v, full);
    AnswersTransitive(v, Take(v, full), v1);
    SameFresh(v, v1, path);
    hide Good, Settled, ParentPath, ValueName, Take, Taken, WellFormed, ChildNames, Names, OpenableFresh, OpenedFrom;
    FromParentKeeps(v1, held', det, h, parent, name);
    FromParentAnswers(v1, held', det, h, parent);
    hide SameNames;
    Transitive(Take(v, full), v1, w);
    AnswersTransitive(Take(v, full), v1, w);
    hide OnlyOpened, SameAnswers;
  }

  lemma ThroughAnswers(v: View, held: multiset<Handle>, det: set<Pair>, h: Handle, v1: View)
    requires Good(v, held, det) && h in v.records && h !in v.hKeys && WellFormed(v.records[h].path)
    requires TryOpen(v.os, v.records[h].path) == NotFound
    requires var full := ParentPath(v.records[h].path); full != "" && ParentTried(v, h, v1, held, det, full)
    ensures var path := v.records[h].path;
      var w := ThroughParent(v1, h, Taken(v, ParentPath(path)), ValueName(path));
      SameAnswers(v, w) && (h in w.hKeys <==> OpenableFresh(v, path))
  {
    var path := v.records[h].path;
    var full := ParentPath(path);
    ParentWellFormed(path);
    hide Good, ParentPath, ValueName, SameAnswers, OpenableFresh;
    ThroughFrom(v, held, det, h, v1);
    var w := OpenedFrom(v1, h, Taken(v, full), ValueName(path));
    BackAnswers(v, held, det, full, w);
    StillMapped(w, Taken(v, full), h);
    hide OnlyOpened, WellFormed, OpenedFrom, GiveBack, Take, Taken;
  }

  lemma StillMapped(v: View, h: Handle, g: Handle)
    requires h in v.records && g != h
    ensures g in GiveBack(v, h).hKeys <==> g in v.hKeys
  {
    ClosedKeys(v, h);
    hide Closed;
  }

  /** Opening a key changes no answer, and succeeds exactly when the answers said it would. */
  lemma {:induction false} OpeningAnswers(v: View, held: multiset<Handle>, det: set<Pair>, h: Handle)
    requires Good(v, held, det) && h in v.records
    ensures Settled(v)
    ensures SameAnswers(v, Opening(v, h))
    ensures h in Opening(v, h).hKeys <==> Openable(v, v.records[h].path)
    decreases |v.records[h].path|
  {
    GoodSettled(v, held, det);
    hide Good;
    var path := v.records[h].path;
    assert path in v.handles && v.handles[path] == h && path != "" && path[0] == '/';
    if h !in v.hKeys {
      if TryOpen(v.os, path) == Found {
        OpenedKeyAnswers(v, held, det, h);
      } else if TryOpen(v.os, path) == NotFound && ParentPath(path) != "" {
        var parentPath := ParentPath(path);
        ParentWellFormed(path);
        GoodTake(v, held, det, parentPath);
        TakeSettled(v, parentPath);
        var parent := Taken(v, parentPath);
        OpeningAnswers(Take(v, parentPath), held + multiset{parent}, det, parent);
        OpeningKeeps(Take(v, parentPath), held + multiset{parent}, det, parent);
        var v1 := Opening(Take(v, parentPath), parent);
        StillThere(v, h, parentPath, v1);
        ThroughAnswers(v, held, det, h, v1);
      }
    }
    hide Take, Taken, WellFormed, ParentPath, ValueName, ThroughParent, OnlyOpened, KeysUpTo, SameAnswers, Names,
      HandlesOk;
  }

  /** A handle of a path that is no key of the registry gets a key exactly if its parent can be opened and lists the
      name behind the last slash: that of the parent, as a value of it. */
  ghost predicate OpensValue(v: View, w: View, h: Handle, parent: string, name: string)
    requires h in w.records
  {
    && (h in w.hKeys <==> Openable(v, parent) && name in Names(v, parent))
    && (parent !in v.handles ==>
          (h in w.hKeys <==> Chopped(parent) in v.os.keys && Chopped(parent) !in v.os.denied
                             && Chopped(parent) in v.os.names && name in v.os.names[Chopped(parent)]))
    && (h in w.hKeys ==> w.records[h].valueHandle && SharedKeyOf(v, w, w.hKeys[h], parent))
  }

  /** The key that the handle of a path has, or if it has none, a new one of that path. */
  ghost predicate SharedKeyOf(v: View, w: View, key: Key, path: string) {
    if path in v.handles && v.handles[path] in v.hKeys then key == v.hKeys[v.handles[path]]
    else key !in v.open && key in w.open && w.open[key] == Chopped(path)
  }

  lemma {:induction false} ParentAndName(parent: string, name: string)
    requires parent != "" && parent[0] == '/' && '/' !in name
    ensures ParentPath(parent + "/" + name) == parent && ValueName(parent + "/" + name) == name
  {
    LastSlashAt(parent, name);
    var p := parent + "/" + name;
    assert p[..|parent|] == parent && p[|parent| + 1..] == name;
  }

  /** Giving back the parent's handle leaves a handle that shares its key as it is. */
  lemma {:induction false} BackShared(v: View, h: Handle, parent: Handle)
    requires h in v.records && parent in v.records && h in v.hKeys && parent in v.hKeys && h != parent
    requires v.hKeys[h] == v.hKeys[parent]
    ensures var w := GiveBack(v, parent);
      && h in w.records && w.records[h].valueHandle == v.records[h].valueHandle
      && h in w.hKeys && w.hKeys[h] == v.hKeys[h] && w.open == v.open
  {
    ClosedKeys(v, parent);
    var hKeys := v.hKeys - {parent};
    assert h in hKeys && hKeys[h] == v.hKeys[parent];
    assert v.hKeys[parent] in hKeys.Values;
  }

  /** How a key of the registry is opened for a handle. */
  lemma {:induction false} KeyOpened(v: View, held: multiset<Handle>, det: set<Pair>, h: Handle)
    requires Good(v, held, det) && h in v.records && h !in v.hKeys && TryOpen(v.os, v.records[h].path) != NotFound
    ensures Settled(v)
    ensures var w := Opening(v, h);
      && w.records == v.records && (h in w.hKeys <==> TryOpen(v.os, v.records[h].path) == Found)
      && (h in w.hKeys ==> w.hKeys[h] !in v.open && w.hKeys[h] in w.open
                           && w.open[w.hKeys[h]] == Chopped(v.records[h].path))
  {
    GoodSettled(v, held, det);
    hide HandlesOk, CountsOk, ProxiesOk, KeysOk;
  }

  /** What opening a handle of a path that is no key comes to, step by step. */
  lemma {:induction false} ThroughNamed(v: View, h: Handle, parent: string, name: string)
    requires Settled(v) && h in v.records && h !in v.hKeys && v.records[h].path == parent + "/" + name
    requires parent != "" && '/' !in name && TryOpen(v.os, v.records[h].path) == NotFound
    ensures WellFormed(parent) && Settled(Take(v, parent)) && Taken(v, parent) in Take(v, parent).records
    ensures var p := Taken(v, parent); var v1 := Opening(Take(v, parent), p);
      && h in v1.records && p in v1.records && h !in v1.hKeys && h != p
      && OnlyOpened(Take(v, parent), v1) && Take(v, parent).hKeys == v.hKeys
      && Opening(v, h) == ThroughParent(v1, h, p, name)
  {
    var path := v.records[h].path;
    assert WellFormed(path) && path[0] == parent[0];
    ParentAndName(parent, name);
    ParentWellFormed(path);
    TakeSettled(v, parent);
    var v1 := Opening(Take(v, parent), Taken(v, parent));
    StillThere(v, h, parent, v1);
    hide WellFormed, HandlesOk, ParentPath, ValueName, ThroughParent;
    assert v1.records[Taken(v, parent)].path == parent;
  }

  /** A handle of `parent/name` that is no key. */
  lemma {:induction false} ValueOpened(v: View, held: multiset<Handle>, det: set<Pair>, h: Handle, parent: string,
      name: string)
    requires Good(v, held, det) && h in v.records && h !in v.hKeys && v.records[h].path == parent + "/" + name
    requires parent != "" && '/' !in name && TryOpen(v.os, v.records[h].path) == NotFound
    ensures Settled(v) && h in Opening(v, h).records && OpensValue(v, Opening(v, h), h, parent, name)
  {
    GoodSettled(v, held, det);
    ValueAnswer(v, held, det, h, parent, name);
    NamesListed(v, parent, name);
    hide Good, Opening, Openable, Names, SharedKeyOf, Settled, TryOpen;
    if h in Opening(v, h).hKeys {
      ValueShared(v, held, det, h, parent, name);
    }
  }

  lemma {:induction false} ValueAnswer(v: View, held: multiset<Handle>, det: set<Pair>, h: Handle, parent: string,
      name: string)
    requires Good(v, held, det) && h in v.records && h !in v.hKeys && v.records[h].path == parent + "/" + name
    requires parent != "" && '/' !in name && TryOpen(v.os, v.records[h].path) == NotFound
    ensures Settled(v) && h in Opening(v, h).records
    ensures h in Opening(v, h).hKeys <==> name in Names(v, parent)
  {
    GoodSettled(v, held, det);
    assert WellFormed(v.records[h].path) && v.records[h].path[0] == parent[0];
    assert v.handles[v.records[h].path] == h;
    OpeningAnswers(v, held, det, h);
    ParentAndName(parent, name);
    OpeningFrames(v, h);
    hide Good, Opening, Names, Settled, WellFormed, SameAnswers, ParentPath, ValueName;
  }

  lemma OpeningFrames(v: View, h: Handle)
    requires Settled(v) && h in v.records
    ensures Opening(v, h).records.Keys == v.records.Keys
  {
    hide Opening, Settled, KeysUpTo;
  }

  lemma {:induction false} NamesListed(v: View, parent: string, name: string)
    requires Settled(v)
    ensures name in Names(v, parent) ==> Openable(v, parent)
    ensures parent !in v.handles ==>
              (name in Names(v, parent) <==>
               Chopped(parent) in v.os.keys && Chopped(parent) !in v.os.denied
               && Chopped(parent) in v.os.names && name in v.os.names[Chopped(parent)])
  {
    hide Settled, Chopped, ChildNames;
  }

  /** If it gets a key, that is its parent's. */
  lemma {:induction false} ValueShared(v: View, held: multiset<Handle>, det: set<Pair>, h: Handle, parent: string,
      name: string)
    requires Good(v, held, det) && h in v.records && h !in v.hKeys && v.records[h].path == parent + "/" + name
    requires parent != "" && '/' !in name && TryOpen(v.os, v.records[h].path) == NotFound
    requires Settled(v) && h in Opening(v, h).hKeys
    ensures var w := Opening(v, h);
      h in w.records && w.records[h].valueHandle && SharedKeyOf(v, w, w.hKeys[h], parent)
    decreases |parent|, 1
  {
    ThroughNamed(v, h, parent, name);
    var u, p := Take(v, parent), Taken(v, parent);
    var v1 := Opening(u, p);
    TakenKey(v, parent, v1);
    hide Good, Opening, Settled, Take, Taken, WellFormed, TryOpen;
    Shared(v1, h, p, name);
    if p !in v.hKeys {
      ParentKey(v, held, det, parent, v1, p);
    }
    hide ThroughParent, OnlyOpened;
  }

  lemma {:induction false} TakenKey(v: View, parent: string, v1: View)
    requires Settled(v) && WellFormed(parent) && OnlyOpened(Take(v, parent), v1) && Take(v, parent).hKeys == v.hKeys
    requires Settled(Take(v, parent)) && Taken(v, parent) in Take(v, parent).records
    requires v1 == Opening(Take(v, parent), Taken(v, parent))
    ensures var p := Taken(v, parent);
      && (p in v.hKeys <==> parent in v.handles && v.handles[parent] in v.hKeys)
      && (p in v.hKeys ==> p == v.handles[parent] && p in v1.hKeys && v1.hKeys[p] == v.hKeys[p])
  {
    hide WellFormed, Opening;
  }

  lemma {:induction false} Shared(v1: View, h: Handle, p: Handle, name: string)
    requires h in v1.records && p in v1.records && h !in v1.hKeys && h != p
    requires h in ThroughParent(v1, h, p, name).hKeys
    ensures var w := ThroughParent(v1, h, p, name);
      && p in v1.hKeys && name in ChildNames(v1, p)
      && h in w.records && w.records[h].valueHandle && w.hKeys[h] == v1.hKeys[p] && w.open == v1.open
  {
    var w0 := OpenedFrom(v1, h, p, name);
    FewerKeys(w0, p);
    hide GiveBack, ChildNames;
    BackShared(w0, h, p);
  }

  /** If the parent got a key only now and lists anything, it is a key of the registry. */
  lemma {:induction false} ParentKey(v: View, held: multiset<Handle>, det: set<Pair>, parent: string, v1: View,
      p: Handle)
    requires Good(v, held, det) && WellFormed(parent) && p == Taken(v, parent) && p !in v.hKeys
    requires Settled(Take(v, parent)) && p in Take(v, parent).records && v1 == Opening(Take(v, parent), p)
    requires p in v1.hKeys && ChildNames(v1, p) != {}
    ensures v1.hKeys[p] !in v.open && v1.hKeys[p] in v1.open && v1.open[v1.hKeys[p]] == Chopped(parent)
    decreases |parent|, 0
  {
    hide Good, Opening, Settled, Take, Taken, SharedKeyOf, WellFormed, TryOpen, LastIndexOf, Chopped, ChildNames;
    var u := Take(v, parent);
    GoodTake(v, held, det, parent);
    TakenRecord(v, parent);
    ValuesListNothing(v1, p);
    if TryOpen(v.os, parent) != NotFound {
      KeyOpened(u, held + multiset{p}, det, p);
    } else {
      var i := LastIndexOf(parent, '/');
      if i > 0 {
        CutAtSlash(parent, i);
        ValueShared(u, held + multiset{p}, det, p, parent[..i], parent[i + 1..]);
      } else {
        TopUnopened(u, p);
      }
    }
  }

  lemma {:induction false} TakenRecord(v: View, parent: string)
    requires Settled(Take(v, parent)) && WellFormed(parent) && Taken(v, parent) in Take(v, parent).records
    ensures var u, p := Take(v, parent), Taken(v, parent);
      u.records[p].path == parent && u.hKeys == v.hKeys && u.os == v.os && u.open == v.open
  {
    hide WellFormed;
  }

  lemma ValuesListNothing(v: View, h: Handle)
    ensures h in v.records && v.records[h].valueHandle ==> ChildNames(v, h) == {}
  {
  }

  lemma CutAtSlash(p: string, i: nat)
    requires i == LastIndexOf(p, '/')
    ensures p == p[..i] + "/" + p[i + 1..] && '/' !in p[i + 1..]
  {
  }

  lemma {:induction false} TopUnopened(v: View, h: Handle)
    requires Settled(v) && h in v.records && h !in v.hKeys && TryOpen(v.os, v.records[h].path) == NotFound
    requires LastIndexOf(v.records[h].path, '/') <= 0
    ensures Opening(v, h) == v
  {
    assert WellFormed(v.records[h].path);
    hide HandlesOk, TryOpen, LastIndexOf;
  }

  /** What opening comes to for a handle without a key: none if the registry denies its key, a new key if the registry
      has it, and otherwise perhaps a value of the parent. */
  ghost predicate OpenedAs(v: View, w: View, h: Handle)
    requires h in v.records && h in w.records
  {
    var path := v.records[h].path;
    if Chopped(path) in v.os.denied then h !in w.hKeys
    else if Chopped(path) in v.os.keys then
      && h in w.hKeys && w.hKeys[h] !in v.open && w.hKeys[h] in w.open && w.open[w.hKeys[h]] == Chopped(path)
      && w.records[h].valueHandle == v.records[h].valueHandle
    else OpenedBelow(v, w, h, path)
  }

  /** The path is cut at its last slash; one directly below the root gets no key. */
  ghost predicate OpenedBelow(v: View, w: View, h: Handle, path: string)
    requires h in w.records
  {
    forall i: nat | IsLastSlash(path, i) ::
      if i == 0 then h !in w.hKeys else OpensValue(v, w, h, path[..i], path[i + 1..])
  }

  ghost predicate IsLastSlash(path: string, i: nat) {
    i < |path| && path[i] == '/' && '/' !in path[i + 1..]
  }

  lemma {:induction false} OpeningOpens(v: View, held: multiset<Handle>, det: set<Pair>, h: Handle)
    requires Good(v, held, det) && h in v.records && h !in v.hKeys
    ensures Settled(v) && h in Opening(v, h).records && OpenedAs(v, Opening(v, h), h)
  {
    hide Good, Settled, Opening, OpenedBelow, Chopped;
    GoodSettled(v, held, det);
    OpeningFrames(v, h);
    if TryOpen(v.os, v.records[h].path) != NotFound {
      KeyOpened(v, held, det, h);
    } else {
      OpeningBelow(v, held, det, h);
    }
  }

  lemma {:induction false} OpeningBelow(v: View, held: multiset<Handle>, det: set<Pair>, h: Handle)
    requires Good(v, held, det) && h in v.records && h !in v.hKeys && TryOpen(v.os, v.records[h].path) == NotFound
    ensures Settled(v) && h in Opening(v, h).records && OpenedBelow(v, Opening(v, h), h, v.records[h].path)
  {
    hide Good, Settled, Opening, OpensValue, TryOpen;
    GoodSettled(v, held, det);
    OpeningFrames(v, h);
    var path := v.records[h].path;
    forall i: nat | IsLastSlash(path, i)
      ensures if i == 0 then h !in Opening(v, h).hKeys else OpensValue(v, Opening(v, h), h, path[..i], path[i + 1..])
    {
      OpeningAt(v, held, det, h, i);
    }
  }

  lemma {:induction false} OpeningAt(v: View, held: multiset<Handle>, det: set<Pair>, h: Handle, i: nat)
    requires Good(v, held, det) && h in v.records && h !in v.hKeys && TryOpen(v.os, v.records[h].path) == NotFound
    requires IsLastSlash(v.records[h].path, i)
    ensures var path := v.records[h].path;
      && Settled(v) && h in Opening(v, h).records
      && if i == 0 then h !in Opening(v, h).hKeys else OpensValue(v, Opening(v, h), h, path[..i], path[i + 1..])
  {
    hide Good, Settled, Opening, OpensValue, TryOpen, LastIndexOf;
    GoodSettled(v, held, det);
    OpeningFrames(v, h);
    var path := v.records[h].path;
    if i > 0 {
      assert path == path[..i] + "/" + path[i + 1..];
      ValueOpened(v, held, det, h, path[..i], path[i + 1..]);
    } else {
      OnlySlash(path);
      TopUnopened(v, h);
    }
  }

  lemma OnlySlash(path: string)
    requires path != "" && '/' !in path[1..]
    ensures LastIndexOf(path, '/') <= 0
  {
    forall k | 0 < k < |path|
      ensures path[k] != '/'
    {
      assert path[1..][k - 1] == path[k];
    }
  }

  /** Enumerating a handle's key finds it deleted. */
  predicate EnumeratesDeleted(v: View, h: Handle) {
    h in v.records && h in v.hKeys && !v.records[h].valueHandle && v.hKeys[h] in v.os.deleted
  }

  /** The notifications that the two enumerations queue. */
  function Queued(v: View, h: Handle): seq<Key> {
    if EnumeratesDeleted(v, h) then [v.hKeys[h], v.hKeys[h]] else []
  }

  /** The notifications that opening a handle queues: those of its parent, and those for the parent's names. */
  function OpeningQueued(v: View, h: Handle): seq<Key>
    requires Settled(v) && h in v.records
    decreases |v.records[h].path|
  {
    var path := v.records[h].path;
    if h in v.hKeys || TryOpen(v.os, path) != NotFound || ParentPath(path) == "" then []
    else
      var parentPath := ParentPath(path);
      ParentWellFormed(path);
      TakeSettled(v, parentPath);
      var u, parent := Take(v, parentPath), Taken(v, parentPath);
      OpeningQueued(u, parent) + Queued(Opening(u, parent), parent)
  }

  /** A handle without a key lists what the registry has for its path. */
  lemma {:induction false} NamesInRegistry(v: View, held: multiset<Handle>, det: set<Pair>, h: Handle)
    requires Good(v, held, det) && h in v.records && h !in v.hKeys && !v.records[h].valueHandle
    ensures var path := Chopped(v.records[h].path);
      Names(v, v.records[h].path) ==
      if path in v.os.keys && path !in v.os.denied && path in v.os.names then v.os.names[path] else {}
  {
    hide CountsOk, ProxiesOk, KeysOk, KeysOld, Chopped;
    assert v.handles[v.records[h].path] == h;
  }

  /** Once a handle was opened, enumerating yields what was said before. */
  lemma {:induction false} ChildrenNames(v: View, held: multiset<Handle>, det: set<Pair>, h: Handle)
    requires Good(v, held, det) && h in v.records
    ensures Settled(v) && ChildNames(Opening(v, h), h) == Names(v, v.records[h].path)
  {
    OpeningAnswers(v, held, det, h);
    OpeningKeeps(v, held, det, h);
    var w := Opening(v, h);
    hide Good, Opening, ParentPath, ValueName;
    assert w.handles[v.records[h].path] == h;
    assert Names(w, v.records[h].path) == Names(v, v.records[h].path);
  }
}
