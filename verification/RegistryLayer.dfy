/** The registry layer's tables as src/publishsubscribe/registrylayer_win.cpp keeps them: handles shared by
  path and counted, registry keys shared between handles, waits per key, and the proxies that are
  watched in place of paths that do not exist yet.

  Every method is given, as ghosts, the references that its callers hold and the proxy entries and
  handles that callers further up are in the middle of removing. */
module RegistryLayer {
  import opened Text
  import opened LayerPath
  import opened ProxyMap
  import opened RegistryTables
  import opened RegistryOpening
  import opened RegistryRemoval
  import opened RegistryPublish
  import opened RegistryNotify

  class RegistryLayer {
    var handles: map<string, Handle>
    var records: map<Handle, Record>
    var hKeys: map<Handle, Key>
    var notifyProxies: seq<Pair>
    var waitHandles: set<Key>
    /** The keys this process has open, each with the registry path it was opened for. */
    var open: map<Key, string>
    var os: Registry
    var nextHandle: Handle
    var nextKey: Key

    function View(): View
      reads this
    {
      RegistryTables.View(handles, records, hKeys, notifyProxies, waitHandles, open, os, nextHandle, nextKey)
    }

    constructor (os: Registry)
      requires forall k | k in os.deleted :: k < 1
      ensures Good(View(), multiset{}, {})
      ensures handles == map[] && hKeys == map[] && notifyProxies == [] && open == map[]
    {
      handles, records, hKeys, notifyProxies, waitHandles, open := map[], map[], map[], [], {}, map[];
      this.os := os;
      nextHandle, nextKey := 1, 1;
    }

    /** registryHandle: whether a handle names a live record. */
    method IsLive(handle: Handle) returns (live: bool)
      requires HandlesOk(handles, records, nextHandle)
      ensures live <==> handle in records
    {
      if handle in records {
        assert handles[records[handle].path] == handle;
      }
      live := handle != INVALID_HANDLE && handle in handles.Values;
    }

    /** closeRegistryKey. */
    method CloseRegistryKey(handle: Handle)
      modifies `hKeys, `waitHandles, `open
      ensures View() == Closed(old(View()), handle)
    {
      if handle !in hKeys {
        return;
      }
      var key := hKeys[handle];
      hKeys := hKeys - {handle};
      if key in hKeys.Values {
        return;
      }
      waitHandles := waitHandles - {key};
      open := open - {key};
    }

    /** The end of removeHandle. */
    method Drop(handle: Handle)
      requires handle in records
      modifies `handles, `records, `hKeys, `waitHandles, `open
      ensures View() == Dropped(old(View()), handle)
    {
      ghost var before := View();
      handles := handles - {records[handle].path};
      CloseRegistryKey(handle);
      records := records - {handle};
    }

    /** removeHandle: gives one reference back. */
    method RemoveHandle(handle: Handle, ghost held: multiset<Handle>, ghost det: set<Pair>, ghost dying: set<Handle>)
      requires MayRemove(View(), held, det, dying, handle)
      modifies `handles, `records, `hKeys, `notifyProxies, `waitHandles, `open
      ensures handle !in old(records) ==> View() == old(View())
      ensures Inv(View(), if handle in old(records) then held - multiset{handle} else held, det, dying)
      ensures handle in old(records) ==> GivenBack(old(View()), View(), handle)
      decreases if handle in records then |records[handle].path| else 0, 1
    {
      ghost var before := View();
      Counted(before, held, det, dying, handle);
      hide MayRemove, Inv, Removed, Releasing, Dropped, GivenBack, HandlesOk;
      var live := IsLive(handle);
      if !live {
        return;
      }
      records := records[handle := records[handle].(refCount := records[handle].refCount - 1)];
      assert View() == Decremented(before, handle);
      if records[handle].refCount != 0 {
        CountGivenBack(before, held, det, dying, handle);
        return;
      }
      ReleasingStart(before, held, det, dying, handle);
      ReleaseProxies(handle, before, held, det, dying);
      LastGivenBack(before, View(), handle);
      Drop(handle);
    }

    /** The loop of removeHandle: the proxies of a dying handle lose their entries and references. */
    method ReleaseProxies(handle: Handle, ghost v0: View, ghost held: multiset<Handle>, ghost det: set<Pair>,
        ghost dying: set<Handle>)
      requires handle in v0.records && MayRemove(v0, held, det, dying, handle) && v0.records[handle].refCount == 1
      requires notifyProxies == v0.proxies && handle in records && records[handle].path == v0.records[handle].path
      requires Releasing(v0, View(), held, det, dying, handle, KeysOf(notifyProxies, handle))
      modifies `handles, `records, `hKeys, `notifyProxies, `waitHandles, `open
      ensures handle in records
      ensures Inv(Dropped(View(), handle), held - multiset{handle}, det, dying)
      ensures Removed(v0, Dropped(View(), handle), |v0.records[handle].path|)
      ensures KeysOf(old(notifyProxies), handle) == [] ==> View() == old(View())
      decreases |records[handle].path|, 0
    {
      hide MayRemove, Inv, Removed, Dropped, Underway, EntriesFor;
      var proxies := KeysOf(notifyProxies, handle);
      ghost var first := View();
      while proxies != []
        invariant Releasing(v0, View(), held, det, dying, handle, proxies)
        invariant handle in records && records[handle].path == v0.records[handle].path
        invariant proxies == KeysOf(v0.proxies, handle) ==> View() == first
        decreases |proxies|
      {
        ghost var before := View();
        ReleasingTake(v0, before, held, det, dying, handle, proxies);
        notifyProxies := Without(notifyProxies, (proxies[0], handle));
        assert View() == Unpaired(before, proxies[0], handle);
        RemoveHandle(proxies[0], held - multiset{handle} + multiset(proxies), det + EntriesFor(v0.proxies, handle),
          dying + {handle});
        ReleasingNext(v0, before, View(), held, det, dying, handle, proxies);
        proxies := proxies[1..];
      }
      ReleasingEnd(v0, View(), held, det, dying, handle);
    }

    // -----------------------------------------------------------------------------------------
    // item
    // -----------------------------------------------------------------------------------------

    /** Whether item refuses. */
    predicate Refuses(parent: Handle, path: string)
      reads this
    {
      path == "" || HasDoubleSlash(path) || (parent != INVALID_HANDLE && parent !in records)
    }

    function FullPath(parent: Handle, path: string): string
      requires !Refuses(parent, path)
      reads this
    {
      if parent == INVALID_HANDLE then path else Join(records[parent].path, path)
    }

    /** item: the handle of a path, made on first use, with one more reference for the caller. A path
        without a parent is absolute. */
    method Item(parent: Handle, path: string, ghost held: multiset<Handle>, ghost det: set<Pair>) returns (h: Handle)
      requires Good(View(), held, det)
      requires parent == INVALID_HANDLE && path != "" ==> path[0] == '/'
      modifies `handles, `records, `nextHandle
      ensures h == INVALID_HANDLE <==> old(Refuses(parent, path))
      ensures h == INVALID_HANDLE ==> View() == old(View())
      ensures h != INVALID_HANDLE ==>
                && h == Taken(old(View()), old(FullPath(parent, path)))
                && View() == Take(old(View()), old(FullPath(parent, path)))
                && h in records && records[h].path == old(FullPath(parent, path))
                && Good(View(), held + multiset{h}, det)
    {
      if path == "" || HasDoubleSlash(path) {
        return INVALID_HANDLE;
      }
      var fullPath := path;
      if parent != INVALID_HANDLE {
        var live := IsLive(parent);
        if !live {
          return INVALID_HANDLE;
        }
        JoinWellFormed(records[parent].path, path);
        fullPath := Join(records[parent].path, path);
      }
      h := TakeReference(fullPath, held, det);
    }

    /** The end of item. */
    method TakeReference(fullPath: string, ghost held: multiset<Handle>, ghost det: set<Pair>) returns (h: Handle)
      requires Good(View(), held, det) && WellFormed(fullPath)
      modifies `handles, `records, `nextHandle
      ensures h == Taken(old(View()), fullPath) && h != INVALID_HANDLE
      ensures View() == Take(old(View()), fullPath)
      ensures h in records && records[h].path == fullPath
      ensures Good(View(), held + multiset{h}, det)
    {
      ghost var before := View();
      hide Good, HandlesOk, WellFormed;
      KnownHandle(before, held, det, fullPath);
      if fullPath in handles {
        h := handles[fullPath];
        records := records[h := records[h].(refCount := records[h].refCount + 1)];
      } else {
        h := nextHandle;
        nextHandle := nextHandle + 1;
        records := records[h := Record(fullPath, false, 1)];
        handles := handles[fullPath := h];
      }
      assert View() == Take(before, fullPath);
      hide Take;
      GoodTake(before, held, det, fullPath);
    }

    // -----------------------------------------------------------------------------------------
    // openRegistryKey
    // -----------------------------------------------------------------------------------------

    /** The two enumerations of children, of a handle that has a key: sub-keys and values. Each of them queues
        emitHandleChanged if it finds that the key was deleted. */
    method Enumerate(handle: Handle) returns (names: set<string>, queued: seq<Key>)
      requires handle in records && handle in hKeys && !records[handle].valueHandle
      ensures names == ChildNames(View(), handle)
      ensures queued == Queued(View(), handle)
      ensures if hKeys[handle] in os.deleted then names == {} && queued == [hKeys[handle], hKeys[handle]]
              else queued == []
    {
      var key := hKeys[handle];
      if key in os.deleted {
        return {}, [key, key];
      }
      names, queued := if key in open then NamesAt(os, open[key]) else {}, [];
    }

    /** children: opens the handle's key. The names are those that the handle would list without that. */
    method Children(handle: Handle, ghost held: multiset<Handle>, ghost det: set<Pair>)
        returns (names: set<string>, queued: seq<Key>)
      requires Good(View(), held, det)
      modifies `handles, `records, `hKeys, `notifyProxies, `waitHandles, `open, `nextHandle, `nextKey
      ensures Good(View(), held, det)
      ensures handle in old(records) ==>
                && Settled(old(View())) && View() == Opening(old(View()), handle)
                && names == Names(old(View()), old(records[handle].path))
                && queued == OpeningQueued(old(View()), handle) + Queued(View(), handle)
      ensures handle in old(records) && handle !in old(hKeys) && !old(records)[handle].valueHandle ==>
                var path := Chopped(old(records)[handle].path);
                names == if path in os.keys && path !in os.denied && path in os.names then os.names[path] else {}
      ensures handle !in old(records) ==> View() == old(View()) && names == {} && queued == []
    {
      hide Good, Opening, OpeningQueued, Names, NamesAt, Opens, KeysUpTo, HandlesOk;
      ghost var v := View();
      GoodSettled(v, held, det);
      var live := IsLive(handle);
      if !live {
        return {}, [];
      }
      if handle !in hKeys && !records[handle].valueHandle {
        NamesInRegistry(v, held, det, handle);
      }
      queued := OpenRegistryKey(handle, held, det);
      names := {};
      if handle in hKeys && !records[handle].valueHandle {
        var more;
        names, more := Enumerate(handle);
        queued := queued + more;
      }
      assert names == ChildNames(View(), handle);
      hide ChildNames;
      ChildrenNames(v, held, det, handle);
    }

    /** Gives back a reference that was taken for the time of one call. */
    method GiveBackTemporary(handle: Handle, ghost before: View, ghost full: string, ghost held: multiset<Handle>,
        ghost det: set<Pair>)
      requires Good(before, held, det) && WellFormed(full) && handle == Taken(before, full)
      requires Good(View(), held + multiset{handle}, det) && OnlyOpened(Take(before, full), View())
      modifies `handles, `records, `hKeys, `notifyProxies, `waitHandles, `open
      ensures handle in old(View()).records && View() == GiveBack(old(View()), handle)
    {
      hide WellFormed, Take, Taken, OnlyOpened, Dropped;
      TakenIsFree(before, held, det, full, View());
      TemporaryMayRemove(View(), held + multiset{handle}, det, handle);
      hide Good, MayRemove, Inv;
      RemoveHandle(handle, held + multiset{handle}, det, {});
    }

    /** openRegistryKey: gives a handle a key of its own, or its parent's if the path is a value. */
    method OpenRegistryKey(handle: Handle, ghost held: multiset<Handle>, ghost det: set<Pair>)
        returns (queued: seq<Key>)
      requires Good(View(), held, det) && handle in records
      modifies `handles, `records, `hKeys, `notifyProxies, `waitHandles, `open, `nextHandle, `nextKey
      ensures Settled(old(View())) && View() == Opening(old(View()), handle)
      ensures queued == OpeningQueued(old(View()), handle)
      ensures Good(View(), held, det) && handle in records
      ensures handle !in old(hKeys) ==> OpenedAs(old(View()), View(), handle)
      decreases |records[handle].path|, 1
    {
      queued := [];
      ghost var v, path0 := View(), records[handle].path;
      OpeningKeeps(v, held, det, handle);
      if handle !in hKeys {
        OpeningOpens(v, held, det, handle);
      }
      assert path0 != "" && path0[0] == '/';
      assert handle in Opening(v, handle).records;
      hide OpenedAs, Queued, Good, Opens, Take, Taken, ThroughParent, OpenedKey, WellFormed, HandlesOk, OnlyOpened,
        KeysUpTo, ParentPath, ValueName, TryOpen;
      if handle in hKeys {
        return;
      }
      var path := records[handle].path;
      match TryOpen(os, path)
      case Failed =>
      case Found =>
        StoreKey(handle);
      case NotFound =>
        if ParentPath(path) != "" {
          queued := OpenThroughParent(handle, held, det);
        }
    }

    /** RegOpenKeyEx or RegCreateKeyEx succeeded. */
    method StoreKey(handle: Handle)
      requires handle in records
      modifies `hKeys, `open, `nextKey
      ensures View() == OpenedKey(old(View()), handle)
    {
      hKeys := hKeys[handle := nextKey];
      open := open[nextKey := Chopped(records[handle].path)];
      nextKey := nextKey + 1;
    }

    method OpenThroughParent(handle: Handle, ghost held: multiset<Handle>, ghost det: set<Pair>)
        returns (queued: seq<Key>)
      requires Good(View(), held, det) && Settled(View()) && handle in records && handle !in hKeys
      requires TryOpen(os, records[handle].path) == NotFound && ParentPath(records[handle].path) != ""
      modifies `handles, `records, `hKeys, `notifyProxies, `waitHandles, `open, `nextHandle, `nextKey
      ensures View() == Opening(old(View()), handle) && queued == OpeningQueued(old(View()), handle)
      decreases |records[handle].path|, 0
    {
      ghost var v := View();
      hide Good, Opens, Take, Taken, OnlyOpened, ChildNames, TryOpen, Opening, OpenedFrom, GiveBack;
      var path := records[handle].path;
      var parentPath, valueName := ParentPath(path), ValueName(path);
      ParentWellFormed(path);
      ParentOpened(v, held, det, handle, parentPath);
      OpeningThrough(v, handle, parentPath, Taken(v, parentPath));
      hide ParentPath, ValueName, Settled, WellFormed;
      var parent := TakeReference(parentPath, held, det);
      ghost var u := View();
      queued := OpenRegistryKey(parent, held + multiset{parent}, det);
      ghost var v1 := View();
      var more := UseParentKey(handle, parent, valueName);
      queued := queued + more;
      FromParentKeeps(v1, held + multiset{parent}, det, handle, parent, valueName);
      Transitive(u, v1, View());
      GiveBackTemporary(parent, v, parentPath, held, det);
    }

    method UseParentKey(handle: Handle, parent: Handle, valueName: string) returns (queued: seq<Key>)
      requires handle in records && parent in records
      modifies `records, `hKeys
      ensures View() == OpenedFrom(old(View()), handle, parent, valueName)
      ensures queued == Queued(old(View()), parent)
    {
      queued := [];
      if parent in hKeys && !records[parent].valueHandle {
        var names;
        names, queued := Enumerate(parent);
        if valueName in names {
          records := records[handle := records[handle].(valueHandle := true)];
          hKeys := hKeys[handle := hKeys[parent]];
        }
      }
    }

    // -----------------------------------------------------------------------------------------
    // setProperty
    // -----------------------------------------------------------------------------------------

    /** Takes the handle of an absolute path and tries to give it a key. */
    method Try(path: string, ghost held: multiset<Handle>, ghost det: set<Pair>) returns (rh: Handle)
      requires Good(View(), held, det) && WellFormed(path)
      modifies `handles, `records, `hKeys, `notifyProxies, `waitHandles, `open, `nextHandle, `nextKey
      ensures Tried(old(View()), View(), held, det, path, rh)
    {
      TryingFacts(View(), held, det, path);
      hide Good, WellFormed, Take, Taken, Tried;
      rh := TakeReference(path, held, det);
      var queued := OpenRegistryKey(rh, held + multiset{rh}, det);
    }

    /** The loop of setProperty: climbs from a handle without a key to the nearest path that has one. */
    method Climb(handle: Handle, ghost held: multiset<Handle>, ghost det: set<Pair>)
        returns (found: bool, proxy: Handle)
      requires Good(View(), held, det) && handle in records && WellFormed(records[handle].path)
      requires !Openable(View(), records[handle].path)
      requires forall e | e in det :: e.1 != handle
      modifies `handles, `records, `hKeys, `notifyProxies, `waitHandles, `open, `nextHandle, `nextKey
      ensures Good(View(), held, det)
      ensures Watching(old(View()), View(), handle, false)
      ensures Landed(old(View()), View(), handle, found, proxy)
    {
      ghost var v := View();
      ClimbStart(v, handle, held, det);
      hide Good, Openable, Watching, Climbing, WellFormed, Landed;
      var path := records[handle].path;
      var done := false;
      found, proxy := false, handle;
      while !done
        invariant !done ==> Climbing(v, View(), handle, path, held, det)
        invariant done ==>
                    Good(View(), held, det) && Watching(v, View(), handle, false)
                    && Landed(v, View(), handle, found, proxy)
        decreases !done, |path|
      {
        done, found, proxy, path := ClimbStep(handle, path, v, held, det);
      }
    }

    /** One turn of the loop: tries a path, and ends the climb there or moves up. */
    method ClimbStep(handle: Handle, path: string, ghost v: View, ghost held: multiset<Handle>, ghost det: set<Pair>)
      returns (done: bool, found: bool, proxy: Handle, next: string)
      requires handle in v.records && WellFormed(v.records[handle].path)
      requires Climbing(v, View(), handle, path, held, det)
      requires forall e | e in det :: e.1 != handle
      modifies `handles, `records, `hKeys, `notifyProxies, `waitHandles, `open, `nextHandle, `nextKey
      ensures done ==>
                Good(View(), held, det) && Watching(v, View(), handle, false) && Landed(v, View(), handle, found, proxy)
      ensures !done ==> Climbing(v, View(), handle, next, held, det) && |next| < |path|
    {
      hide Good, Openable, StrictAncestor, Watching, Kept, SameAnswers, Nearest, GiveBack, Climbing, WellFormed, Landed,
        Up, Tried, Take, Taken, OnlyOpened, Inside;
      ghost var w := View();
      ClimbingFacts(v, w, handle, path, held, det);
      proxy := Try(path, held, det);
      ghost var w1 := View();
      TriedFacts(w, w1, held, det, path, proxy);
      found, next := proxy in hKeys, path;
      done := found || |path| == 1;
      if found {
        ClimbFound(v, w, w1, handle, path, held, det, proxy);
        notifyProxies := [(proxy, handle)] + notifyProxies;
        WithProxyKeeps(w1, held, det, proxy, handle);
        ClimbDone(v, w1, handle, path, held, det, proxy);
      } else {
        GiveBackTemporary(proxy, w, path, held, det);
        if done {
          ClimbEnd(v, w, w1, handle, path, held, det, proxy, false);
        } else {
          ClimbOn(v, w, w1, handle, path, held, det, proxy);
          next := Up(path);
        }
      }
    }

    /** The end of setProperty: waits for changes of a key, if the system can set the wait up. */
    method Watch(key: Key, watched: bool, ghost held: multiset<Handle>, ghost det: set<Pair>)
      requires Good(View(), held, det) && key in open
      modifies `waitHandles
      ensures View() == if watched then Waiting(old(View()), key) else old(View())
      ensures Good(View(), held, det)
    {
      ghost var v := View();
      WaitingKeeps(v, held, det, key);
      hide Good;
      if key in waitHandles {
        assert waitHandles + {key} == waitHandles;
        return;
      }
      if watched {
        waitHandles := waitHandles + {key};
      }
    }

    /** setProperty. `watched` is whether the system sets up the event, the notification and the wait. */
    method SetProperty(handle: Handle, publish: bool, watched: bool, ghost held: multiset<Handle>, ghost det: set<Pair>)
      requires Good(View(), held, det)
      requires handle in records && handle !in hKeys ==> forall e | e in det :: e.1 != handle
      modifies `handles, `records, `hKeys, `notifyProxies, `waitHandles, `open, `nextHandle, `nextKey
      ensures Good(View(), held, det)
      ensures handle !in old(records) ==> View() == old(View())
      ensures handle in old(records) && !publish ==> View() == Unwatched(old(View()), handle)
      ensures handle in old(records) && !publish ==>
                && View() == old(View()).(waits := waitHandles)
                && waitHandles == old(waitHandles) - (if handle in hKeys then {hKeys[handle]} else {})
      ensures handle in old(records) && publish ==>
                WellFormed(old(records)[handle].path) && Watching(old(View()), View(), handle, watched)
      ensures handle in old(records) && handle in old(hKeys) ==> View() == old(View()).(waits := waitHandles)
    {
      ghost var v := View();
      GoodSettled(v, held, det);
      hide Good, Watching, WellFormed;
      var live := IsLive(handle);
      if !live {
        return;
      }
      if publish {
        Publish(handle, watched, held, det);
      } else if handle in hKeys {
        UnwatchedKeeps(v, held, det, handle);
        var key := hKeys[handle];
        waitHandles := waitHandles - {key};
      }
    }

    method Publish(handle: Handle, watched: bool, ghost held: multiset<Handle>, ghost det: set<Pair>)
      requires Good(View(), held, det) && handle in records && WellFormed(records[handle].path)
      requires handle !in hKeys ==> forall e | e in det :: e.1 != handle
      modifies `handles, `records, `hKeys, `notifyProxies, `waitHandles, `open, `nextHandle, `nextKey
      ensures Good(View(), held, det)
      ensures Watching(old(View()), View(), handle, watched)
      ensures handle in old(hKeys) ==> View() == old(View()).(waits := waitHandles)
    {
      ghost var v := View();
      OpenFirst(v, held, det, handle);
      assert records[handle].path != "" && records[handle].path[0] == '/';
      hide Good, Watching, WellFormed, Opening, SameAnswers, Openable, Kept, Nearest, Settled, Landed;
      var rh, found := handle, true;
      var queued := OpenRegistryKey(handle, held, det);
      ghost var w := View();
      if handle !in hKeys {
        found, rh := Climb(handle, held, det);
        ClimbFrom(v, w, View(), handle, found, rh);
      }
      ghost var u := View();
      if found {
        LandedKey(v, u, handle, rh);
        KeyOpen(u, held, det, rh);
        Watch(hKeys[rh], watched, held, det);
        WatchingNow(v, u, handle, rh, watched);
      } else {
        NothingFound(v, u, handle, rh, watched);
      }
    }

    // -----------------------------------------------------------------------------------------
    // emitHandleChanged
    // -----------------------------------------------------------------------------------------

    /** The entries of one changed handle: the paths that can be opened by now get their own key and
        watch, and lose their entries; each is signalled. The system never refuses a wait for `granted`; for
        other handles it may. */
    method PassEntries(handle: Handle, granted: set<Handle>, ghost held: multiset<Handle>)
        returns (signals: seq<Handle>)
      requires Good(View(), held, {})
      modifies `handles, `records, `hKeys, `notifyProxies, `waitHandles, `open, `nextHandle, `nextKey
      ensures Good(View(), held, {})
      ensures Freed(old(View()), View(), handle, signals)
      ensures forall p | p in signals && p in granted :: p in hKeys && hKeys[p] in waitHandles
    {
      ghost var v0 := View();
      PassStart(v0, held, handle);
      hide Good, AtEntry, Ripe, Signalled, Freed, Without, Listed, StillWatched;
      var rest := ValuesOf(notifyProxies, handle);
      signals := [];
      while rest != []
        invariant AtEntry(v0, View(), held, handle, rest)
        invariant Signalled(v0, View(), handle, rest, signals) && Untouched(v0, View(), handle)
        invariant Watched(View(), signals, granted) && forall p | p in signals :: p in ValuesOf(v0.proxies, handle)
        decreases |rest|
      {
        ghost var v := View();
        EntryListed(v0, v, held, handle, rest);
        EntryOf(v0, v, handle, rest);
        var changed := PassEntry(handle, rest, granted, v0, held);
        EntryListed(v0, View(), held, handle, rest[1..]);
        WatchedNext(v0, v, View(), handle, rest, signals, changed, granted);
        UntouchedNext(v0, v, View(), handle, rest[0], changed);
        SignalledNext(v0, v, View(), handle, rest, signals, changed);
        signals := signals + (if changed then [rest[0]] else []);
        rest := rest[1..];
      }
      PassEnd(v0, View(), held, handle, signals);
    }

    method PassEntry(handle: Handle, rest: seq<Handle>, granted: set<Handle>, ghost v0: View,
          ghost held: multiset<Handle>)
        returns (changed: bool)
      requires rest != [] && AtEntry(v0, View(), held, handle, rest)
      modifies `handles, `records, `hKeys, `notifyProxies, `waitHandles, `open, `nextHandle, `nextKey
      ensures AtEntry(v0, View(), held, handle, rest[1..])
      ensures rest[0] in Ripe(v0, handle) ==> changed
      ensures handle in records && changed ==> rest[0] in Ripe(v0, handle)
      ensures old(hKeys).Keys * records.Keys <= hKeys.Keys && (changed ==> rest[0] in hKeys)
      ensures handle in records ==>
                handle in old(records) && notifyProxies == if changed
                  then Without(old(notifyProxies), (handle, rest[0])) else old(notifyProxies)
      ensures StillWatched(old(View()), View())
      ensures changed && rest[0] in granted ==> rest[0] in hKeys && hKeys[rest[0]] in waitHandles
    {
      hide AtEntry, Openable, Ripe, Without, StillWatched;
      ghost var v := View();
      changed := TryEntry(handle, rest, v0, held);
      if changed {
        ghost var w := View();
        notifyProxies := Without(notifyProxies, (handle, rest[0]));
        var willing: bool := *;
        PassRipe(handle, rest, willing || rest[0] in granted, v0, w, held);
        StillTransitive(v, w, View());
      }
    }

    method TryEntry(handle: Handle, rest: seq<Handle>, ghost v0: View, ghost held: multiset<Handle>)
        returns (ready: bool)
      requires rest != [] && AtEntry(v0, View(), held, handle, rest)
      modifies `handles, `records, `hKeys, `notifyProxies, `waitHandles, `open, `nextHandle, `nextKey
      ensures rest[0] in Ripe(v0, handle) ==> ready
      ensures notifyProxies == old(notifyProxies) && records.Keys == old(records.Keys)
      ensures ready && handle in records ==> rest[0] in Ripe(v0, handle)
      ensures old(hKeys).Keys <= hKeys.Keys && StillWatched(old(View()), View())
      ensures AtEntry(v0, View(), held, handle, if ready then rest else rest[1..])
      ensures ready ==> rest[0] in records && rest[0] in hKeys && Openable(View(), records[rest[0]].path)
    {
      ghost var v := View();
      hide Good, AtEntry, Openable, Ripe, AndMore, PairsTo, Opening, Settled, Opens, CountIn, OpenedAs, StillWatched;
      EntryGood(v0, v, held, handle, rest);
      OpeningStill(v, AndMore(held, handle, CountIn(rest, Ripe(v0, handle))), PairsTo(handle, Ripe(v0, handle)),
        rest[0]);
      var queued := OpenRegistryKey(rest[0], AndMore(held, handle, CountIn(rest, Ripe(v0, handle))),
        PairsTo(handle, Ripe(v0, handle)));
      EntryTried(v0, v, held, handle, rest);
      OpeningFrame(v, rest[0]);
      ready := rest[0] in hKeys;
      if ready && handle in records {
        EntryRipe(v0, View(), held, handle, rest);
      }
    }

    /** The path of an entry has a key by now: the entry goes, and the path is watched itself. */
    method PassRipe(handle: Handle, rest: seq<Handle>, watched: bool, ghost v0: View, ghost v: View,
        ghost held: multiset<Handle>)
      requires rest != [] && AtEntry(v0, v, held, handle, rest) && View() == Unpaired(v, handle, rest[0])
      requires rest[0] in v.records && rest[0] in v.hKeys && Openable(v, v.records[rest[0]].path)
      modifies `handles, `records, `hKeys, `notifyProxies, `waitHandles, `open, `nextHandle, `nextKey
      ensures AtEntry(v0, View(), held, handle, rest[1..])
      ensures handle in records ==> handle in v.records && notifyProxies == Without(v.proxies, (handle, rest[0]))
      ensures v.hKeys.Keys * records.Keys <= hKeys.Keys && rest[0] in hKeys
      ensures StillWatched(v, View()) && (watched ==> hKeys[rest[0]] in waitHandles)
    {
      hide Good, AtEntry, Inv, MayRemove, GivenBack, Openable, Ripe, AndMore, PairsTo, Watching, WellFormed,
        StillWatched;
      var proxied := rest[0];
      ghost var det := PairsTo(handle, Ripe(v0, handle));
      MayPass(v0, v, held, handle, rest);
      RemoveHandle(handle, AndMore(held, handle, CountIn(rest, Ripe(v0, handle))), det, {});
      ghost var w := View();
      if handle in w.records {
        SurvivorEntries(Unpaired(v, handle, rest[0]), w, AndMore(held, handle, CountIn(rest, Ripe(v0, handle))), det,
          {}, handle);
      }
      RemovedKeys(v, w, handle, proxied);
      EntryPassed(v0, v, w, held, handle, rest);
      RemovedStill(v, w, AndMore(held, handle, CountIn(rest[1..], Ripe(v0, handle))), det, handle, proxied);
      SetProperty(proxied, true, watched, AndMore(held, handle, CountIn(rest[1..], Ripe(v0, handle))), det);
      StillWithKey(w, View(), AndMore(held, handle, CountIn(rest[1..], Ripe(v0, handle))), det, proxied, watched);
      StillTransitive(v, w, View());
      EntryWatched(v0, w, View(), held, handle, rest[1..]);
    }

    /** The handles that map to a key: QMap::keys. */
    method HandlesOf(key: Key) returns (hs: seq<Handle>)
      ensures MapTo(View(), key, hs)
    {
      hs := [];
      var left := hKeys.Keys;
      while left != {}
        invariant left <= hKeys.Keys
        invariant forall h :: h in hs <==> h in hKeys && h !in left && hKeys[h] == key
        decreases left
      {
        var h :| h in left;
        if hKeys[h] == key {
          hs := hs + [h];
        }
        left := left - {h};
      }
    }

    /** emitHandleChanged: a registry key changed. `result` is what asking for the next notification
        says; the system never refuses a wait for the handles in `granted`, for others it may. No handle maps to
        a key only if the key is not waited for either, so the wait of an orphaned key that the source takes
        down first does not exist. */
    method EmitHandleChanged(key: Key, result: NotifyResult, granted: set<Handle>, ghost held: multiset<Handle>)
      returns (signals: seq<Handle>, ghost hs: seq<Handle>, ghost passes: seq<Pass>, ghost passed: View)
      requires Good(View(), held, {})
      modifies `handles, `records, `hKeys, `notifyProxies, `waitHandles, `open, `nextHandle, `nextKey
      ensures Good(View(), held, {})
      ensures MapTo(old(View()), key, hs) && Passes(old(View()), passed, hs, passes, granted)
      ensures signals == Signals(passes)
      ensures if key in passed.waits then Rearming(passed, View(), key, result, granted) else View() == passed
      ensures key !in old(open) ==> signals == [] && View() == old(View())
    {
      hide Good, Passes, Signals, MapTo, Rearming;
      signals, hs, passes := PassAll(key, granted, held);
      passed := View();
      if key in waitHandles {
        Rearm(key, result, granted, held);
      }
    }

    /** The loop over the handles of a key. */
    method PassAll(key: Key, granted: set<Handle>, ghost held: multiset<Handle>)
        returns (signals: seq<Handle>, ghost hs: seq<Handle>, ghost passes: seq<Pass>)
      requires Good(View(), held, {})
      modifies `handles, `records, `hKeys, `notifyProxies, `waitHandles, `open, `nextHandle, `nextKey
      ensures Good(View(), held, {})
      ensures MapTo(old(View()), key, hs) && Passes(old(View()), View(), hs, passes, granted)
      ensures signals == Signals(passes)
      ensures key !in old(open) ==> signals == [] && View() == old(View()) && key !in waitHandles
    {
      hide Good, Freed, Passes, Signals, MapTo;
      var changedHandles := HandlesOf(key);
      KeyHandles(View(), held, key, changedHandles);
      signals, hs, passes := [], [], [];
      ghost var all := changedHandles;
      NoPasses(View(), granted);
      while changedHandles != []
        invariant Good(View(), held, {})
        invariant all == hs + changedHandles
        invariant Passes(old(View()), View(), hs, passes, granted) && signals == Signals(passes)
        invariant all == [] ==> signals == [] && View() == old(View())
        decreases |changedHandles|
      {
        var handle := changedHandles[0];
        ghost var v := View();
        var more := PassEntries(handle, granted, held);
        OnePassMore(old(View()), v, View(), hs, passes, handle, more, granted);
        passes := passes + [Pass(handle, v, View(), more)];
        signals := signals + [handle] + more;
        hs := hs + [handle];
        changedHandles := changedHandles[1..];
      }
      assert hs == all;
    }

    /** The end of emitHandleChanged: the wait is set up again, or the key is given up and its handles are
        watched anew. */
    method Rearm(key: Key, result: NotifyResult, granted: set<Handle>, ghost held: multiset<Handle>)
      requires Good(View(), held, {}) && key in waitHandles
      modifies `handles, `records, `hKeys, `notifyProxies, `waitHandles, `open, `nextHandle, `nextKey
      ensures Good(View(), held, {}) && Rearming(old(View()), View(), key, result, granted)
    {
      ghost var v := View();
      LostKeeps(v, held, key);
      hide Good, Kept, Covered, Forgotten, MapTo;
      if result == Rearmed {
        return;
      }
      waitHandles := waitHandles - {key};
      if result == Lost {
        return;
      }
      var lost := HandlesOf(key);
      LostHandles(View(), held, key, lost);
      ForgottenKeeps(View(), held, {}, key);
      Forget(key);
      ForgottenRecords(v.(waits := v.waits - {key}), key);
      ghost var u := View();
      WatchAnew(lost, granted, held);
      MapsAsBefore(v, v.(waits := v.waits - {key}), key, lost);
      WatchedAnew(v, View(), key, lost, granted);
    }

    /** The loop over the handles that lost their key. */
    method WatchAnew(lost: seq<Handle>, granted: set<Handle>, ghost held: multiset<Handle>)
      requires Good(View(), held, {}) && forall h | h in lost :: h in records
      modifies `handles, `records, `hKeys, `notifyProxies, `waitHandles, `open, `nextHandle, `nextKey
      ensures Good(View(), held, {}) && Kept(old(View()), View()) && AllCovered(View(), lost, granted)
    {
      hide Good, Watching, Kept, AllCovered, WellFormed;
      ghost var u := View();
      NoneCovered(u, granted);
      var i := 0;
      while i < |lost|
        invariant i <= |lost| && Good(View(), held, {})
        invariant Kept(u, View()) && AllCovered(View(), lost[..i], granted)
      {
        ghost var w := View();
        KeptRecords(u, w);
        assert lost[i] in lost;
        var willing: bool := *;
        var watched := willing || lost[i] in granted;
        SetProperty(lost[i], true, watched, held, {});
        PublishedKept(u, w, View(), lost[i], watched);
        CoveredNext(w, View(), held, lost[..i], lost[i], watched, granted);
        assert lost[..i + 1] == lost[..i] + [lost[i]];
        i := i + 1;
      }
      assert lost[..|lost|] == lost;
    }

    /** Every handle of the key is taken off it, and the key is closed. */
    method Forget(key: Key)
      requires key !in waitHandles
      modifies `hKeys, `open
      ensures View() == Forgotten(old(View()), key)
      ensures key !in open && open == old(open) - {key}
      ensures forall h :: h in hKeys <==> h in old(hKeys) && old(hKeys)[h] != key
      ensures forall h | h in hKeys :: hKeys[h] == old(hKeys)[h]
    {
      hKeys := map h | h in hKeys && hKeys[h] != key :: hKeys[h];
      open := open - {key};
      assert waitHandles - {key} == waitHandles;
    }

    // -----------------------------------------------------------------------------------------
    // createRegistryKey
    // -----------------------------------------------------------------------------------------

    /** createRegistryKey. `refused` tells whether RegCreateKeyEx fails; what is returned then is not set. */
    method CreateRegistryKey(handle: Handle, refused: bool, ghost held: multiset<Handle>, ghost det: set<Pair>)
        returns (isNew: bool)
      requires Good(View(), held, det) && handle in records
      modifies `hKeys, `open, `nextKey, `os
      ensures Good(View(), held, det)
      ensures View() == if handle in old(hKeys) || refused then old(View())
                        else OpenedKey(old(View()), handle).(os := WithKey(old(os), Chopped(records[handle].path)))
      ensures handle in old(hKeys) ==> !isNew
      ensures handle !in old(hKeys) && !refused ==> (isNew <==> Chopped(records[handle].path) !in old(os).keys)
    {
      if handle in hKeys {
        return false;
      }
      if refused {
        return *;
      }
      OpenedKeyKeeps(View(), held, det, handle);
      StoreKey(handle);
      var key := Chopped(records[handle].path);
      isNew := key !in os.keys;
      ghost var w := View();
      os := WithKey(os, key);
      assert View() == w.(os := WithKey(w.os, key));
      hide Good, WithKey;
      RegistryMatters(w, held, det, os);
    }
  }

  /** The invariant asks nothing of the registry but that deleted keys were opened once. */
  lemma {:induction false} RegistryMatters(v: View, held: multiset<Handle>, det: set<Pair>, os: Registry)
    requires Good(v, held, det) && os.deleted == v.os.deleted
    ensures Good(v.(os := os), held, det)
  {
    hide HandlesOk, CountsOk, ProxiesOk, KeysOk;
  }
}
