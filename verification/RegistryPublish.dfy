/** Why watching a path in src/publishsubscribe/registrylayer_win.cpp lands on its nearest ancestor that
  has a key, and keeps the invariant. */
module RegistryPublish {
  import opened Text
  import opened LayerPath
  import opened ProxyMap
  import opened RegistryTables
  import opened RegistryOpening
  import opened RegistryRemoval

  // ---------------------------------------------------------------------------------------------
  // Opening keeps waits
  // ---------------------------------------------------------------------------------------------

  lemma DroppedWaits(v: View, held: multiset<Handle>, det: set<Pair>, w: View, h: Handle)
    requires Good(v, held, det) && h !in v.records && h in w.records
    requires w.waits == v.waits && forall g | g in v.hKeys :: g in w.hKeys && w.hKeys[g] == v.hKeys[g]
    ensures Dropped(w, h).waits == v.waits
  {
    hide HandlesOk, CountsOk, ProxiesOk;
    if h in w.hKeys && w.hKeys[h] in v.waits {
      var g :| g in v.hKeys && v.hKeys[g] == w.hKeys[h];
      var hKeys := w.hKeys - {h};
      assert hKeys[g] in hKeys.Values;
    }
  }

  lemma {:induction false} OpeningWaits(v: View, held: multiset<Handle>, det: set<Pair>, h: Handle)
    requires Good(v, held, det) && h in v.records
    ensures Settled(v) && Opening(v, h).waits == v.waits
    decreases |v.records[h].path|
  {
    GoodSettled(v, held, det);
    hide Good;
    var path := v.records[h].path;
    if h !in v.hKeys && TryOpen(v.os, path) == NotFound && ParentPath(path) != "" {
      var full := ParentPath(path);
      ParentWellFormed(path);
      ParentOpened(v, held, det, h, full);
      OpeningThrough(v, h, full, Taken(v, full));
      GoodTake(v, held, det, full);
      TakeSettled(v, full);
      SameFrame(v, full);
      var v1 := Opening(Take(v, full), Taken(v, full));
      assert Opens(Take(v, full), v1, |full|);
      hide OnlyOpened, Take, Taken, HandlesOk, WellFormed, Opening, ParentPath, ValueName;
      OpeningWaits(Take(v, full), held + multiset{Taken(v, full)}, det, Taken(v, full));
      ThroughWaits(v, held, det, h, full, v1, ValueName(path));
    }
  }

  lemma ThroughWaits(v: View, held: multiset<Handle>, det: set<Pair>, h: Handle, full: string, v1: View, name: string)
    requires Good(v, held, det) && Settled(v) && Settled(v1) && OnlyOpened(Take(v, full), v1)
    requires v1.waits == v.waits && h in v1.records && h !in v1.hKeys && Taken(v, full) in v1.records
    ensures GiveBack(OpenedFrom(v1, h, Taken(v, full), name), Taken(v, full)).waits == v.waits
  {
    hide HandlesOk, WellFormed;
    var parent := Taken(v, full);
    var w := OpenedFrom(v1, h, parent, name);
    FromParent(v1, h, parent, name);
    Transitive(Take(v, full), v1, w);
    FromWaits(v1, h, parent, name);
    SameFrame(v, full);
    KnownHandle(v, held, det, full);
    hide OpenedFrom, CountsOk, ProxiesOk, KeysOld;
    if full in v.handles {
      KnownBack(v, full, w);
    } else {
      FreshHandle(v, held, det);
      hide Settled;
      assert w.records[parent].refCount == 1;
      DroppedWaits(v, held, det, w, parent);
    }
  }

  lemma FreshHandle(v: View, held: multiset<Handle>, det: set<Pair>)
    requires Good(v, held, det)
    ensures v.nextHandle !in v.records
  {
  }

  lemma FromWaits(v: View, h: Handle, parent: Handle, name: string)
    requires h in v.records
    ensures OpenedFrom(v, h, parent, name).waits == v.waits
  {
  }

  // ---------------------------------------------------------------------------------------------
  // Trying a path
  // ---------------------------------------------------------------------------------------------

  /** Nothing that was there went: handles, keys and waits may only have come. */
  ghost predicate Kept(v: View, w: View) {
    && v.records.Keys <= w.records.Keys
    && (forall h | h in v.records :: w.records[h].path == v.records[h].path)
    && (forall h | h in v.hKeys :: h in w.hKeys && w.hKeys[h] == v.hKeys[h])
    && v.waits <= w.waits
    && v.nextHandle <= w.nextHandle
  }

  /** The tables once a path's handle has been taken and its key tried. */
  ghost predicate Tried(v: View, w: View, held: multiset<Handle>, det: set<Pair>, full: string, h: Handle) {
    && h == Taken(v, full)
    && Good(w, held + multiset{h}, det)
    && OnlyOpened(Take(v, full), w)
    && SameAnswers(Take(v, full), w) && SameAnswers(v, w)
    && w.waits == v.waits
    && h in w.records && w.records[h].path == full && w.handles[full] == h
    && held[h] >= Inside(w.proxies, h, det)
    && (h in w.hKeys <==> Openable(v, full))
    && w.proxies == v.proxies && Kept(v, w)
  }

  lemma TakeKept(v: View, held: multiset<Handle>, det: set<Pair>, full: string, w: View)
    requires Good(v, held, det) && WellFormed(full) && OnlyOpened(Take(v, full), w) && w.waits == v.waits
    ensures Kept(v, w) && w.proxies == v.proxies
    ensures var h := Taken(v, full);
              h in w.records && w.records[h].path == full && full in w.handles && w.handles[full] == h
  {
    GoodSettled(v, held, det);
    TakeHandles(v, full);
    SameFrame(v, full);
    KnownHandle(v, held, det, full);
    hide Good, HandlesOk, WellFormed, Settled;
  }

  lemma TryingFacts(v: View, held: multiset<Handle>, det: set<Pair>, full: string)
    requires Good(v, held, det) && WellFormed(full)
    ensures Settled(v) && Settled(Take(v, full)) && Taken(v, full) in Take(v, full).records
    ensures Tried(v, Opening(Take(v, full), Taken(v, full)), held, det, full, Taken(v, full))
  {
    hide WellFormed, HandlesOk, Good;
    GoodSettled(v, held, det);
    TakeSettled(v, full);
    GoodTake(v, held, det, full);
    var u, h := Take(v, full), Taken(v, full);
    var w := Opening(u, h);
    assert OnlyOpened(u, w);
    TakeAnswers(v, full);
    OpeningAnswers(u, held + multiset{h}, det, h);
    OpeningKeeps(u, held + multiset{h}, det, h);
    OpeningWaits(u, held + multiset{h}, det, h);
    AnswersTransitive(v, u, w);
    SameFrame(v, full);
    TakenIsFree(v, held, det, full, w);
    hide Take, Taken, Opening, Settled, OnlyOpened;
    TakeKept(v, held, det, full, w);
    assert Openable(u, full) <==> Openable(v, full);
  }

  /** A path that was tried for nothing: its handle is given back. */
  lemma WithdrawnFacts(v: View, w: View, held: multiset<Handle>, det: set<Pair>, full: string, h: Handle)
    requires Good(v, held, det) && WellFormed(full) && Tried(v, w, held, det, full, h)
    ensures var w' := GiveBack(w, h);
      && Good(w', held, det) && OnlyOpened(v, w') && SameAnswers(v, w') && w'.waits == v.waits && Kept(v, w')
  {
    hide WellFormed, HandlesOk, SameAnswers, Openable, Kept;
    GoodSettled(v, held, det);
    GoodSettled(w, held + multiset{h}, det);
    TakenBack(v, full, w);
    BackAnswers(v, held, det, full, w);
    TakenIsFree(v, held, det, full, w);
    WithdrawnWaits(v, w, held, det, full, h);
    hide Good, Take, Taken;
    GoodGiveBack(w, held + multiset{h}, det, h);
    assert held + multiset{h} - multiset{h} == held;
    hide GiveBack;
    OpenedKept(v, GiveBack(w, h));
  }

  lemma OpenedKept(v: View, w: View)
    requires OnlyOpened(v, w) && w.waits == v.waits
    ensures Kept(v, w)
  {
  }

  lemma WithdrawnWaits(v: View, w: View, held: multiset<Handle>, det: set<Pair>, full: string, h: Handle)
    requires Good(v, held, det) && Tried(v, w, held, det, full, h)
    ensures GiveBack(w, h).waits == v.waits
  {
    hide HandlesOk, WellFormed, SameAnswers, Openable;
    KnownHandle(v, held, det, full);
    GoodSettled(v, held, det);
    GoodSettled(w, held + multiset{h}, det);
    SameFrame(v, full);
    hide CountsOk, ProxiesOk, KeysOld;
    if full in v.handles {
      KnownBack(v, full, w);
    } else {
      FreshHandle(v, held, det);
      hide Settled;
      assert w.records[h].refCount == 1;
      DroppedWaits(v, held, det, w, h);
    }
  }

  // ---------------------------------------------------------------------------------------------
  // Proxies and waits
  // ---------------------------------------------------------------------------------------------

  function WithProxy(v: View, a: Handle, h: Handle): View {
    v.(proxies := [(a, h)] + v.proxies)
  }

  function Waiting(v: View, key: Key): View {
    v.(waits := v.waits + {key})
  }

  lemma WithProxyCounts(records: Records, ps: seq<Pair>, held: multiset<Handle>, det: set<Pair>, a: Handle, h: Handle)
    requires CountsOk(records, ps, held + multiset{a}, det, {}) && held[a] >= Inside(ps, a, det) && (a, h) !in det
    ensures CountsOk(records, [(a, h)] + ps, held, det, {})
  {
    forall x | x in records
      ensures CountOk(records[x], [(a, h)] + ps, held, det, {}, x)
    {
      assert CountOk(records[x], ps, held + multiset{a}, det, {}, x);
      AddPair(ps, (a, h), x, det);
    }
    hide CountOk, Inside, Outside;
  }

  /** The reference taken for the proxy's handle becomes the entry's. */
  lemma WithProxyKeeps(v: View, held: multiset<Handle>, det: set<Pair>, a: Handle, h: Handle)
    requires Good(v, held + multiset{a}, det) && held[a] >= Inside(v.proxies, a, det)
    requires a in v.records && h in v.records && StrictAncestor(v.records[a].path, v.records[h].path)
    requires forall e | e in det :: e.1 != h
    ensures Good(WithProxy(v, a, h), held, det)
  {
    hide StrictAncestor, HandlesOk, KeysOk, KeysOld, CountsOk, Inside;
    WithProxyCounts(v.records, v.proxies, held, det, a, h);
  }

  lemma WaitingKeeps(v: View, held: multiset<Handle>, det: set<Pair>, key: Key)
    requires Good(v, held, det) && key in v.open
    ensures Good(Waiting(v, key), held, det)
  {
    hide HandlesOk, CountsOk, ProxiesOk, KeysOld;
  }

  lemma SameTables(v: View, w: View)
    requires w == v.(proxies := w.proxies, waits := w.waits)
    ensures SameAnswers(v, w)
  {
    forall p
      ensures Names(w, p) == Names(v, p)
    {
    }
    forall p
      ensures Openable(w, p) <==> Openable(v, p)
    {
      SameFresh(v, w, p);
      hide OpenableFresh, Names;
    }
  }

  // ---------------------------------------------------------------------------------------------
  // The nearest ancestor with a key
  // ---------------------------------------------------------------------------------------------

  function Nearest(v: View, path: string): (r: Option<string>)
    requires path != "" && path[0] == '/'
    decreases |path|
  {
    if Openable(v, path) then Some(path)
    else if |path| == 1 then None
    else Nearest(v, Up(path))
  }

  /** `q` is the path or one above it: what is before one of its slashes, or the root. */
  ghost predicate OnTheWayUp(q: string, path: string) {
    || q == path || q == "/"
    || (q != "" && q < path && path[|q|] == '/')
  }

  /** The search upwards ends at the longest of those that can be opened, and fails if none of them can. */
  lemma {:induction false} NearestIsNearest(v: View, path: string)
    requires WellFormed(path)
    ensures match Nearest(v, path)
            case None => forall q | OnTheWayUp(q, path) :: !Openable(v, q)
            case Some(p) =>
              && OnTheWayUp(p, path) && Openable(v, p)
              && forall q | OnTheWayUp(q, path) && Openable(v, q) :: |q| <= |p|
    decreases |path|
  {
    hide Openable, LastIndexOf;
    if !Openable(v, path) && |path| > 1 {
      var up, index := Up(path), LastIndexOf(path, '/');
      UpIsAncestor(path);
      NearestIsNearest(v, up);
      hide Nearest, Up, WellFormed;
      forall q | OnTheWayUp(q, path) && q != path
        ensures OnTheWayUp(q, up)
      {
      }
    }
  }

  lemma KeptTransitive(u: View, v: View, w: View)
    requires Kept(u, v) && Kept(v, w)
    ensures Kept(u, w)
  {
  }

  /** What watching a path does: its nearest ancestor with a key stands for it, and that key is waited
      for if the system allows it. Nothing goes, and no answer changes. */
  ghost predicate Watching(v: View, w: View, h: Handle, watched: bool)
    requires h in v.records && v.records[h].path != "" && v.records[h].path[0] == '/'
  {
    && Kept(v, w) && SameAnswers(v, w)
    && var path := v.records[h].path;
    match Nearest(v, path)
    case None => w.proxies == v.proxies && w.waits == v.waits
    case Some(p) =>
      && p in w.handles && w.handles[p] in w.hKeys
      && w.proxies == (if p == path then [] else [(w.handles[p], h)]) + v.proxies
      && w.waits == v.waits + (if watched then {w.hKeys[w.handles[p]]} else {})
  }

  /** The proxy is the handle of the nearest path with a key, if there is one. */
  ghost predicate Landed(v: View, w: View, h: Handle, found: bool, proxy: Handle)
    requires h in v.records && v.records[h].path != "" && v.records[h].path[0] == '/'
  {
    match Nearest(v, v.records[h].path)
    case None => !found
    case Some(p) => found && p in w.handles && w.handles[p] == proxy && proxy in w.hKeys
  }

  /** Part way up: the path is still to be tried, all those below it were tried for nothing. */
  ghost predicate Climbing(v: View, w: View, h: Handle, path: string, held: multiset<Handle>, det: set<Pair>)
    requires h in v.records && WellFormed(v.records[h].path)
  {
    && Good(w, held, det) && Kept(v, w) && SameAnswers(v, w)
    && w.proxies == v.proxies && w.waits == v.waits
    && WellFormed(path) && (path == v.records[h].path || StrictAncestor(path, v.records[h].path))
    && Nearest(v, path) == Nearest(v, v.records[h].path)
    && !Openable(v, v.records[h].path)
  }

  lemma ClimbStart(v: View, h: Handle, held: multiset<Handle>, det: set<Pair>)
    requires Good(v, held, det) && h in v.records && WellFormed(v.records[h].path) && !Openable(v, v.records[h].path)
    ensures Climbing(v, v, h, v.records[h].path, held, det)
  {
  }

  lemma ClimbingFacts(v: View, w: View, h: Handle, path: string, held: multiset<Handle>, det: set<Pair>)
    requires h in v.records && WellFormed(v.records[h].path) && Climbing(v, w, h, path, held, det)
    ensures Good(w, held, det) && WellFormed(path) && path != "" && path[0] == '/'
    ensures h in w.records
  {
    hide Good, SameAnswers, Openable;
  }

  lemma TriedFacts(v: View, w: View, held: multiset<Handle>, det: set<Pair>, full: string, h: Handle)
    requires Tried(v, w, held, det, full, h)
    ensures h == Taken(v, full) && Good(w, held + multiset{h}, det) && OnlyOpened(Take(v, full), w)
    ensures h in w.records && held[h] >= Inside(w.proxies, h, det)
  {
    hide Good, SameAnswers, Openable, Taken, Take, OnlyOpened, Kept, Inside;
  }

  lemma ClimbOn(v: View, w: View, w1: View, h: Handle, path: string, held: multiset<Handle>, det: set<Pair>, a: Handle)
    requires h in v.records && WellFormed(v.records[h].path) && Climbing(v, w, h, path, held, det)
    requires Tried(w, w1, held, det, path, a) && a !in w1.hKeys && |path| > 1
    ensures Climbing(v, GiveBack(w1, a), h, Up(path), held, det) && |Up(path)| < |path|
  {
    var w' := GiveBack(w1, a);
    WithdrawnFacts(w, w1, held, det, path, a);
    UpIsAncestor(path);
    if path != v.records[h].path {
      AncestorTransitive(Up(path), path, v.records[h].path);
    }
    assert !Openable(v, path);
    hide Openable, Good, OnlyOpened, WellFormed, StrictAncestor, GiveBack, SameNames, Up;
    KeptTransitive(v, w, w');
    AnswersTransitive(v, w, w');
  }

  lemma ClimbEnd(v: View, w: View, w1: View, h: Handle, path: string, held: multiset<Handle>, det: set<Pair>,
      a: Handle, watched: bool)
    requires h in v.records && WellFormed(v.records[h].path) && Climbing(v, w, h, path, held, det)
    requires Tried(w, w1, held, det, path, a) && a !in w1.hKeys && |path| == 1
    ensures Good(GiveBack(w1, a), held, det) && Watching(v, GiveBack(w1, a), h, watched)
    ensures Landed(v, GiveBack(w1, a), h, false, a)
  {
    var w' := GiveBack(w1, a);
    WithdrawnFacts(w, w1, held, det, path, a);
    assert !Openable(v, path);
    hide Openable, Good, WellFormed, StrictAncestor, GiveBack, SameNames, Up;
    KeptTransitive(v, w, w');
    AnswersTransitive(v, w, w');
  }

  lemma ClimbFound(v: View, w: View, w1: View, h: Handle, path: string, held: multiset<Handle>, det: set<Pair>,
      a: Handle)
    requires h in v.records && WellFormed(v.records[h].path) && Climbing(v, w, h, path, held, det)
    requires Tried(w, w1, held, det, path, a) && a in w1.hKeys
    ensures Kept(v, w1) && SameAnswers(v, w1) && w1.waits == v.waits && w1.proxies == v.proxies
    ensures Nearest(v, v.records[h].path) == Some(path) && path != v.records[h].path
    ensures path in w1.handles && w1.handles[path] == a
    ensures h in w1.records && StrictAncestor(w1.records[a].path, w1.records[h].path)
  {
    assert Openable(v, path);
    hide Openable, Good, WellFormed, StrictAncestor, SameNames, Up, OnlyOpened, Take, Taken, Inside;
    KeptTransitive(v, w, w1);
    AnswersTransitive(v, w, w1);
  }

  lemma ClimbDone(v: View, w1: View, h: Handle, path: string, held: multiset<Handle>, det: set<Pair>, a: Handle)
    requires h in v.records && WellFormed(v.records[h].path)
    requires Kept(v, w1) && SameAnswers(v, w1) && w1.waits == v.waits && w1.proxies == v.proxies
    requires Nearest(v, v.records[h].path) == Some(path) && path != v.records[h].path
    requires path in w1.handles && w1.handles[path] == a && a in w1.hKeys
    ensures Watching(v, WithProxy(w1, a, h), h, false) && Landed(v, WithProxy(w1, a, h), h, true, a)
  {
    hide Openable, WellFormed, SameNames, Nearest;
    SameTables(w1, WithProxy(w1, a, h));
    AnswersTransitive(v, w1, WithProxy(w1, a, h));
  }

  function Unwatched(v: View, h: Handle): View {
    if h in v.hKeys then v.(waits := v.waits - {v.hKeys[h]}) else v
  }

  lemma UnwatchedKeeps(v: View, held: multiset<Handle>, det: set<Pair>, h: Handle)
    requires Good(v, held, det)
    ensures Good(Unwatched(v, h), held, det)
  {
    hide HandlesOk, CountsOk, ProxiesOk, KeysOld;
  }

  lemma KeyOpen(v: View, held: multiset<Handle>, det: set<Pair>, h: Handle)
    requires Good(v, held, det) && h in v.hKeys
    ensures v.hKeys[h] in v.open
  {
    hide HandlesOk, CountsOk, ProxiesOk, KeysOld;
  }

  /** The first attempt of setProperty, on the handle itself. */
  lemma OpenFirst(v: View, held: multiset<Handle>, det: set<Pair>, h: Handle)
    requires Good(v, held, det) && h in v.records && WellFormed(v.records[h].path)
    ensures Settled(v)
    ensures var w := Opening(v, h);
      && Good(w, held, det) && Kept(v, w) && SameAnswers(v, w) && w.proxies == v.proxies && w.waits == v.waits
      && h in w.records && w.records[h].path == v.records[h].path
      && (h in w.hKeys <==> Openable(v, v.records[h].path))
      && (h in v.hKeys ==> w == v)
      && (h in w.hKeys ==> Watching(v, w, h, false) && Landed(v, w, h, true, h))
  {
    GoodSettled(v, held, det);
    OpeningKeeps(v, held, det, h);
    OpeningAnswers(v, held, det, h);
    OpeningWaits(v, held, det, h);
    var w := Opening(v, h);
    assert OnlyOpened(v, w);
    assert w.handles[v.records[h].path] == h;
    hide Good, Opening, Settled, HandlesOk, WellFormed, Openable, Nearest, SameAnswers, Watching, Landed;
    OpenedKept(v, w);
    if h in w.hKeys {
      FirstOpened(v, w, h);
    }
  }

  lemma FirstOpened(v: View, w: View, h: Handle)
    requires h in v.records && WellFormed(v.records[h].path) && Openable(v, v.records[h].path)
    requires Kept(v, w) && SameAnswers(v, w) && w.proxies == v.proxies && w.waits == v.waits
    requires var path := v.records[h].path; path in w.handles && w.handles[path] == h && h in w.hKeys
    ensures Watching(v, w, h, false) && Landed(v, w, h, true, h)
  {
    hide Kept, SameAnswers, Openable;
    assert [] + v.proxies == v.proxies;
    assert v.waits + {} == v.waits;
  }

  lemma {:induction false} SameNearest(v: View, w: View, path: string)
    requires SameAnswers(v, w) && path != "" && path[0] == '/'
    ensures Nearest(v, path) == Nearest(w, path)
    decreases |path|
  {
    hide Openable, SameNames;
    if !Openable(v, path) && |path| > 1 {
      SameNearest(v, w, Up(path));
    }
  }

  /** Climbing after the first attempt is climbing from where it started. */
  lemma ClimbFrom(v: View, w: View, u: View, h: Handle, found: bool, proxy: Handle)
    requires h in v.records && h in w.records && w.records[h].path == v.records[h].path && WellFormed(v.records[h].path)
    requires Kept(v, w) && SameAnswers(v, w) && w.proxies == v.proxies && w.waits == v.waits
    requires Watching(w, u, h, false) && Landed(w, u, h, found, proxy)
    ensures Watching(v, u, h, false) && Landed(v, u, h, found, proxy)
  {
    SameNearest(v, w, v.records[h].path);
    KeptTransitive(v, w, u);
    AnswersTransitive(v, w, u);
    hide Kept, SameAnswers, Nearest;
  }

  /** Where nothing was found there is nothing to wait for. */
  lemma NothingFound(v: View, u: View, h: Handle, proxy: Handle, watched: bool)
    requires h in v.records && WellFormed(v.records[h].path) && Watching(v, u, h, false)
    requires Landed(v, u, h, false, proxy)
    ensures Watching(v, u, h, watched)
  {
    hide Kept, SameAnswers, Nearest;
  }

  lemma LandedKey(v: View, w: View, h: Handle, proxy: Handle)
    requires h in v.records && v.records[h].path != "" && v.records[h].path[0] == '/' && Landed(v, w, h, true, proxy)
    ensures proxy in w.hKeys
  {
    hide Nearest;
  }

  /** With its key found, the wait is set up. */
  lemma WatchingNow(v: View, u: View, h: Handle, proxy: Handle, watched: bool)
    requires h in v.records && WellFormed(v.records[h].path) && Watching(v, u, h, false)
    requires Landed(v, u, h, true, proxy)
    ensures Watching(v, if watched then Waiting(u, u.hKeys[proxy]) else u, h, watched)
  {
    var p := Nearest(v, v.records[h].path).value;
    var w := Waiting(u, u.hKeys[u.handles[p]]);
    SameTables(u, w);
    AnswersTransitive(v, u, w);
    hide SameAnswers, Nearest;
    KeptTransitive(v, u, w);
  }
}
