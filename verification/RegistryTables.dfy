/** The tables of the registry layer: src/publishsubscribe/registrylayer_win_p.h, and what each step of
  src/publishsubscribe/registrylayer_win.cpp does to them.

  A RegistryHandle is known by its address, here a number that is never reused (0 is InvalidHandle);
  an HKEY is known by a number too. The Windows registry is a set of keys with named values that does
  not change during one call. */
module RegistryTables {
  import opened Text
  import opened LayerPath
  import opened ProxyMap

  type Key = nat

  const INVALID_HANDLE: Handle := 0

  datatype Record = Record(path: string, valueHandle: bool, refCount: int)

  /** The registry below the layer's base path: the keys there are, those that may not be opened, the
      names that enumerating a key yields, and the open keys whose registry key has been deleted. */
  datatype Registry = Registry(keys: set<string>, denied: set<string>, names: map<string, set<string>>,
    deleted: set<Key>)

  datatype OpenResult = Found | NotFound | Failed

  /** RegOpenKeyEx. qConvertPath chops trailing slashes. */
  function TryOpen(os: Registry, path: string): OpenResult {
    var p := Chopped(path);
    if p in os.denied then Failed else if p in os.keys then Found else NotFound
  }

  /** The names below a registry key, sub-keys and values. */
  function NamesAt(os: Registry, path: string): set<string> {
    NamesIn(os, Chopped(path))
  }

  /** RegCreateKeyEx: the key and all above it are there, and each that is new is listed in the one above it. */
  function WithKey(os: Registry, p: string): (r: Registry)
    ensures r.denied == os.denied && r.deleted == os.deleted && p in r.keys && os.keys <= r.keys
    decreases |p|
  {
    if p in os.keys then os
    else
      var index := LastIndexOf(p, '/');
      if index == -1 then os.(keys := os.keys + {p}, names := os.names[p := {}])
      else KeyListed(WithKey(os, p[..index]), p[..index], p, p[index + 1..])
  }

  /** A new key, listed in another. */
  function KeyListed(os: Registry, up: string, p: string, name: string): Registry {
    os.(keys := os.keys + {p}, names := os.names[p := {}][up := NamesIn(os, up) + {name}])
  }

  function NamesIn(os: Registry, p: string): set<string> {
    if p in os.keys && p in os.names then os.names[p] else {}
  }

  /** No key but `p` and those above it is new or lists more names, and no name is lost. */
  ghost predicate Grown(os: Registry, r: Registry, p: string) {
    && (forall q | q in r.keys :: q in os.keys || q <= p)
    && (forall q | q in os.keys :: NamesIn(os, q) <= NamesIn(r, q))
    && (forall q | q in os.keys && !(q <= p) :: NamesIn(r, q) == NamesIn(os, q))
  }

  lemma {:induction false} KeyListedGrown(os: Registry, r: Registry, up: string, p: string, name: string)
    requires Grown(os, r, up) && up <= p && |up| < |p| && p !in os.keys && up in r.keys && os.keys <= r.keys
    ensures var r' := KeyListed(r, up, p, name); Grown(os, r', p) && name in NamesIn(r', up) && NamesIn(r', p) == {}
  {
    var r' := KeyListed(r, up, p, name);
    forall q | q in r.keys && q <= up
      ensures q <= p
    {
      assert p[..|q|] == up[..|q|];
    }
    forall q | q in os.keys
      ensures NamesIn(os, q) <= NamesIn(r', q) && (!(q <= p) ==> NamesIn(r', q) == NamesIn(os, q))
    {
      assert q != up ==> NamesIn(r', q) == NamesIn(r, q);
    }
  }

  /** Only the key and those above it are new; a new key has no names, and is listed in the one above it. */
  lemma {:induction false} KeyCreated(os: Registry, p: string)
    ensures Grown(os, WithKey(os, p), p)
    ensures p !in os.keys ==> NamesIn(WithKey(os, p), p) == {}
    ensures var index := LastIndexOf(p, '/');
      p !in os.keys && index >= 0 ==> p[index + 1..] in NamesIn(WithKey(os, p), p[..index])
    decreases |p|
  {
    var index := LastIndexOf(p, '/');
    if p !in os.keys && index >= 0 {
      KeyCreated(os, p[..index]);
      hide LastIndexOf, Grown, NamesIn, KeyListed;
      KeyListedGrown(os, WithKey(os, p[..index]), p[..index], p, p[index + 1..]);
    }
  }

  datatype View = View(
    handles: map<string, Handle>,
    records: map<Handle, Record>,
    hKeys: map<Handle, Key>,
    proxies: seq<Pair>,
    waits: set<Key>,
    open: map<Key, string>,
    os: Registry,
    nextHandle: Handle,
    nextKey: Key)

  // ---------------------------------------------------------------------------------------------
  // Paths
  // ---------------------------------------------------------------------------------------------

  predicate WellFormed(p: string) {
    p != "" && p[0] == '/' && !HasDoubleSlash(p)
  }

  /** `a` is a strict ancestor of `b` in the tree. */
  predicate StrictAncestor(a: string, b: string) {
    a != "" && |a| < |b| && b[..|a|] == a && (a[|a| - 1] == '/' || b[|a|] == '/')
  }

  /** The next path up when setProperty climbs. */
  function Up(p: string): string
    requires p != "" && p[0] == '/'
  {
    var index := LastIndexOf(p, '/');
    if index == 0 then p[..1] else p[..index]
  }

  /** The parent in which openRegistryKey looks for a value; empty for a path directly below the root. */
  function ParentPath(p: string): (q: string)
    requires p != "" && p[0] == '/'
    ensures |q| < |p|
  {
    p[..LastIndexOf(p, '/')]
  }

  function ValueName(p: string): string
    requires p != "" && p[0] == '/'
  {
    p[LastIndexOf(p, '/') + 1..]
  }

  lemma PrefixWellFormed(p: string, n: nat)
    requires WellFormed(p) && 0 < n <= |p|
    ensures WellFormed(p[..n])
  {
    var q := p[..n];
    forall i | 0 < i < |q|
      ensures q[i - 1] != '/' || q[i] != '/'
    {
      assert p[i - 1] != '/' || p[i] != '/';
    }
  }

  lemma UpIsAncestor(p: string)
    requires WellFormed(p) && |p| > 1
    ensures WellFormed(Up(p)) && StrictAncestor(Up(p), p)
  {
    hide LastIndexOf;
    var index := LastIndexOf(p, '/');
    PrefixWellFormed(p, if index == 0 then 1 else index);
  }

  lemma AncestorTransitive(a: string, b: string, c: string)
    requires StrictAncestor(a, b) && StrictAncestor(b, c)
    ensures StrictAncestor(a, c)
  {
    assert c[..|a|] == c[..|b|][..|a|];
    assert b[|a|] == c[..|b|][|a|];
  }

  lemma JoinWellFormed(parent: string, sub: string)
    requires WellFormed(parent) && sub != "" && !HasDoubleSlash(sub)
    ensures WellFormed(Join(parent, sub))
  {
    var j := Join(parent, sub);
    var tail := if sub == "/" then "" else if EndsWithSlash(parent) && StartsWithSlash(sub) then sub[1..]
                else if !EndsWithSlash(parent) && !StartsWithSlash(sub) then "/" + sub else sub;
    assert j == parent + tail;
    forall i | 0 < i < |j|
      ensures j[i - 1] != '/' || j[i] != '/'
    {
      if i < |parent| {
        assert j[i - 1] == parent[i - 1] && j[i] == parent[i];
      } else if i > |parent| {
        assert j[i - 1] == tail[i - 1 - |parent|] && j[i] == tail[i - |parent|];
      }
    }
  }

  // ---------------------------------------------------------------------------------------------
  // The invariant
  // ---------------------------------------------------------------------------------------------

  type Handles = map<string, Handle>
  type Records = map<Handle, Record>

  /** `handles` and the live records name each other one to one. */
  ghost predicate HandlesOk(handles: Handles, records: Records, next: Handle) {
    && (forall p | p in handles :: handles[p] in records && records[handles[p]].path == p)
    && (forall h | h in records :: records[h].path in handles && handles[records[h].path] == h)
    && (forall h | h in records :: INVALID_HANDLE < h < next && WellFormed(records[h].path))
    && next > INVALID_HANDLE
  }

  /** Each reference count is the number of references held by callers plus one for each proxy entry
      keyed on the handle. Within a call some entries may be detached: the call itself holds their
      references while it removes them. A dying handle has no references left. */
  ghost predicate CountOk(r: Record, ps: seq<Pair>, held: multiset<Handle>, det: set<Pair>, dying: set<Handle>,
      h: Handle) {
    && r.refCount == held[h] + Outside(ps, h, det)
    && held[h] >= Inside(ps, h, det)
    && (r.refCount == 0 <==> h in dying)
  }

  ghost predicate CountsOk(records: Records, ps: seq<Pair>, held: multiset<Handle>, det: set<Pair>,
      dying: set<Handle>) {
    && (forall h | h in records :: CountOk(records[h], ps, held, det, dying, h))
    && (forall h | h in held :: h in records)
    && dying <= records.Keys
  }

  /** Both ends of every entry are live, and the proxy is a strict ancestor of what it stands for. */
  ghost predicate ProxiesOk(records: Records, ps: seq<Pair>) {
    forall e | e in ps ::
      e.0 in records && e.1 in records && StrictAncestor(records[e.0].path, records[e.1].path)
  }

  /** Only live handles have keys, exactly the keys that some handle maps to are open, and only open
      keys are waited for. */
  ghost predicate KeysOk(hKeys: map<Handle, Key>, live: set<Handle>, open: set<Key>, waits: set<Key>) {
    && hKeys.Keys <= live
    && (forall h | h in hKeys :: hKeys[h] in open)
    && (forall k | k in open :: exists h :: h in hKeys && hKeys[h] == k)
    && waits <= open
  }

  ghost predicate KeysOld(open: set<Key>, deleted: set<Key>, next: Key) {
    forall k | k in open || k in deleted :: k < next
  }

  ghost predicate Inv(v: View, held: multiset<Handle>, det: set<Pair>, dying: set<Handle>) {
    && HandlesOk(v.handles, v.records, v.nextHandle)
    && CountsOk(v.records, v.proxies, held, det, dying)
    && ProxiesOk(v.records, v.proxies)
    && KeysOk(v.hKeys, v.records.Keys, v.open.Keys, v.waits)
    && KeysOld(v.open.Keys, v.os.deleted, v.nextKey)
  }

  // ---------------------------------------------------------------------------------------------
  // The steps
  // ---------------------------------------------------------------------------------------------

  function Taken(v: View, full: string): Handle {
    if full in v.handles then v.handles[full] else v.nextHandle
  }

  /** `item`: one more reference for the handle of a path. */
  function Take(v: View, full: string): View {
    var h := Taken(v, full);
    if full in v.handles && h in v.records
    then v.(records := v.records[h := v.records[h].(refCount := v.records[h].refCount + 1)])
    else v.(handles := v.handles[full := h], records := v.records[h := Record(full, false, 1)], nextHandle := h + 1)
  }

  function Decremented(v: View, h: Handle): View
    requires h in v.records
  {
    v.(records := v.records[h := v.records[h].(refCount := v.records[h].refCount - 1)])
  }

  /** closeRegistryKey. */
  function Closed(v: View, h: Handle): View {
    if h !in v.hKeys then v
    else
      var key := v.hKeys[h];
      var hKeys := v.hKeys - {h};
      if key in hKeys.Values then v.(hKeys := hKeys)
      else v.(hKeys := hKeys, waits := v.waits - {key}, open := v.open - {key})
  }

  /** The end of removeHandle: the handle leaves the tables and its key is closed. */
  function Dropped(v: View, h: Handle): View
    requires h in v.records
  {
    var c := Closed(v, h);
    c.(handles := v.handles - {v.records[h].path}, records := v.records - {h})
  }

  /** A registry key was opened for a handle. */
  function OpenedKey(v: View, h: Handle): View
    requires h in v.records
  {
    v.(hKeys := v.hKeys[h := v.nextKey], open := v.open[v.nextKey := Chopped(v.records[h].path)],
      nextKey := v.nextKey + 1)
  }

  /** A value handle shares the key of its parent. */
  function OpenedValue(v: View, h: Handle, parent: Handle): View
    requires h in v.records && parent in v.hKeys
  {
    v.(records := v.records[h := v.records[h].(valueHandle := true)], hKeys := v.hKeys[h := v.hKeys[parent]])
  }

  /** A handle that is not live occurs in no entry. */
  lemma NoEntries(records: Records, ps: seq<Pair>, h: Handle, det: set<Pair>)
    requires ProxiesOk(records, ps) && h !in records
    ensures Outside(ps, h, det) == 0 && Inside(ps, h, det) == 0
  {
    NoneInside(ps, h, det);
  }

  lemma TakeHandles(v: View, full: string)
    requires HandlesOk(v.handles, v.records, v.nextHandle) && WellFormed(full)
    ensures var w := Take(v, full);
      && HandlesOk(w.handles, w.records, w.nextHandle)
      && Taken(v, full) in w.records && w.records[Taken(v, full)].path == full
      && (forall h | h in v.records :: h in w.records && w.records[h].path == v.records[h].path)
      && w.records.Keys == v.records.Keys + {Taken(v, full)}
  {
    hide WellFormed;
    if full in v.handles {
      SamePaths(v.handles, v.records, Take(v, full).records, v.nextHandle);
    }
  }

  /** `HandlesOk` looks at nothing but the paths. */
  lemma SamePaths(handles: Handles, records: Records, records': Records, next: Handle)
    requires HandlesOk(handles, records, next) && records'.Keys == records.Keys
    requires forall h | h in records :: records'[h].path == records[h].path
    ensures HandlesOk(handles, records', next)
  {
  }

  lemma TakeCounts(v: View, held: multiset<Handle>, det: set<Pair>, dying: set<Handle>, full: string)
    requires HandlesOk(v.handles, v.records, v.nextHandle)
    requires CountsOk(v.records, v.proxies, held, det, dying) && ProxiesOk(v.records, v.proxies)
    requires full in v.handles ==> v.handles[full] !in dying
    ensures CountsOk(Take(v, full).records, v.proxies, held + multiset{Taken(v, full)}, det, dying)
  {
    var w, h := Take(v, full), Taken(v, full);
    if h !in v.records {
      NoEntries(v.records, v.proxies, h, det);
    }
    forall x | x in w.records
      ensures CountOk(w.records[x], v.proxies, held + multiset{h}, det, dying, x)
    {
      assert x in v.records ==> CountOk(v.records[x], v.proxies, held, det, dying, x);
    }
  }

  lemma TakeKeeps(v: View, held: multiset<Handle>, det: set<Pair>, dying: set<Handle>, full: string)
    requires Inv(v, held, det, dying) && WellFormed(full)
    requires full in v.handles ==> v.handles[full] !in dying
    ensures Inv(Take(v, full), held + multiset{Taken(v, full)}, det, dying)
  {
    hide WellFormed, CountsOk, HandlesOk;
    TakeHandles(v, full);
    TakeCounts(v, held, det, dying, full);
    SameFrame(v, full);
    hide Take, Taken;
  }

  lemma SameFrame(v: View, full: string)
    ensures var w := Take(v, full);
      w.hKeys == v.hKeys && w.proxies == v.proxies && w.waits == v.waits && w.open == v.open && w.os == v.os
        && w.nextKey == v.nextKey
  {
  }

  /** Only the reference count of one handle differs. */
  lemma CountOnly(v: View, h: Handle)
    requires h in v.records && HandlesOk(v.handles, v.records, v.nextHandle) && ProxiesOk(v.records, v.proxies)
    ensures var w := Decremented(v, h);
      && HandlesOk(v.handles, w.records, v.nextHandle) && ProxiesOk(w.records, v.proxies)
      && w.records.Keys == v.records.Keys
  {
  }

  /** Giving a reference back that is not the last one. */
  lemma {:induction false} DecrementKeeps(v: View, held: multiset<Handle>, det: set<Pair>, dying: set<Handle>,
      h: Handle)
    requires Inv(v, held, det, dying) && h in v.records && held[h] > Inside(v.proxies, h, det)
    requires v.records[h].refCount > 1
    ensures Inv(Decremented(v, h), held - multiset{h}, det, dying)
  {
    CountOnly(v, h);
    hide HandlesOk, ProxiesOk, KeysOk;
    var w := Decremented(v, h);
    forall x | x in w.records
      ensures CountOk(w.records[x], v.proxies, held - multiset{h}, det, dying, x)
    {
      assert CountOk(v.records[x], v.proxies, held, det, dying, x);
    }
  }

  ghost function EntriesFor(ps: seq<Pair>, h: Handle): set<Pair> {
    set e | e in ps && e.1 == h
  }

  /** The references held once the entries for a dying handle are detached. */
  ghost function HeldAfter(ps: seq<Pair>, held: multiset<Handle>, h: Handle): multiset<Handle> {
    held - multiset{h} + multiset(KeysOf(ps, h))
  }

  lemma DetachCounts(ps: seq<Pair>, det: set<Pair>, h: Handle, x: Handle)
    requires forall e | e in det :: e.1 != h
    ensures var det' := det + EntriesFor(ps, h);
      && Outside(ps, x, det') + multiset(KeysOf(ps, h))[x] == Outside(ps, x, det)
      && Inside(ps, x, det') == Inside(ps, x, det) + multiset(KeysOf(ps, h))[x]
  {
    DetachValue(ps, x, h, det, EntriesFor(ps, h));
    KeysOfCount(ps, x, h);
  }

  /** A handle about to lose its last reference: its one reference is the caller's, and it is no proxy. */
  lemma LastReferenceFacts(records: Records, ps: seq<Pair>, held: multiset<Handle>, det: set<Pair>, dying: set<Handle>,
      h: Handle)
    requires CountsOk(records, ps, held, det, dying) && h in records && held[h] > Inside(ps, h, det)
    requires records[h].refCount == 1
    ensures h !in dying && held[h] == 1 && Outside(ps, h, det) == 0 && Inside(ps, h, det) == 0
    ensures forall e | e in ps :: e.0 != h
  {
    assert CountOk(records[h], ps, held, det, dying, h);
    NoneInside(ps, h, det);
  }

  lemma DyingCounts(records: Records, ps: seq<Pair>, held: multiset<Handle>, det: set<Pair>, dying: set<Handle>,
      h: Handle)
    requires CountsOk(records, ps, held, det, dying) && ProxiesOk(records, ps)
    requires h in records && held[h] > Inside(ps, h, det) && records[h].refCount == 1
    requires forall e | e in det :: e.1 != h
    ensures CountsOk(records[h := records[h].(refCount := 0)], ps, HeldAfter(ps, held, h), det + EntriesFor(ps, h),
              dying + {h})
  {
    LastReferenceFacts(records, ps, held, det, dying, h);
    var det', held' := det + EntriesFor(ps, h), HeldAfter(ps, held, h);
    var records' := records[h := records[h].(refCount := 0)];
    forall x | x in records'
      ensures CountOk(records'[x], ps, held', det', dying + {h}, x)
    {
      assert CountOk(records[x], ps, held, det, dying, x);
      DetachCounts(ps, det, h, x);
    }
    forall x | x in held'
      ensures x in records'
    {
      if x !in records {
        DetachCounts(ps, det, h, x);
        NoEntries(records, ps, x, det);
      }
    }
  }

  /** Giving the last reference back: the handle starts dying, and the entries that stand for it are
      detached, their references now in the hands of removeHandle. */
  lemma LastReference(v: View, held: multiset<Handle>, det: set<Pair>, dying: set<Handle>, h: Handle)
    requires Inv(v, held, det, dying) && h in v.records && held[h] > Inside(v.proxies, h, det)
    requires v.records[h].refCount == 1
    requires forall e | e in det :: e.1 != h
    ensures Inv(Decremented(v, h), HeldAfter(v.proxies, held, h), det + EntriesFor(v.proxies, h), dying + {h})
  {
    CountOnly(v, h);
    DyingCounts(v.records, v.proxies, held, det, dying, h);
    hide HandlesOk, KeysOk, ProxiesOk, CountsOk, EntriesFor, HeldAfter;
  }

  // ---------------------------------------------------------------------------------------------
  // Closing keys and dropping handles
  // ---------------------------------------------------------------------------------------------

  /** Closing one handle's key leaves exactly the keys open that some handle still maps to. */
  lemma ClosedKeeps(v: View, h: Handle)
    requires KeysOk(v.hKeys, v.records.Keys, v.open.Keys, v.waits)
    ensures var w := Closed(v, h);
      && KeysOk(w.hKeys, v.records.Keys, w.open.Keys, w.waits)
      && w.hKeys == v.hKeys - {h} && w.open.Keys <= v.open.Keys
      && w == v.(hKeys := w.hKeys, waits := w.waits, open := w.open)
  {
    var w := Closed(v, h);
    if h in v.hKeys {
      var key := v.hKeys[h];
      var hKeys := v.hKeys - {h};
      forall k | k in w.open
        ensures exists g :: g in w.hKeys && w.hKeys[g] == k
      {
        if k == key {
          assert key in hKeys.Values;
        } else {
          var g :| g in v.hKeys && v.hKeys[g] == k;
          assert g in hKeys;
        }
      }
      forall g | g in w.hKeys
        ensures w.hKeys[g] in w.open
      {
        assert hKeys[g] in hKeys.Values;
      }
    } else {
      assert v.hKeys - {h} == v.hKeys;
    }
  }

  lemma DroppedHandles(handles: Handles, records: Records, next: Handle, h: Handle)
    requires HandlesOk(handles, records, next) && h in records
    ensures HandlesOk(handles - {records[h].path}, records - {h}, next)
  {
  }

  lemma DroppedCounts(records: Records, ps: seq<Pair>, held: multiset<Handle>, det: set<Pair>, dying: set<Handle>,
      h: Handle)
    requires CountsOk(records, ps, held, det, dying) && ProxiesOk(records, ps) && h in dying
    requires forall e | e in ps :: e.1 != h
    ensures CountsOk(records - {h}, ps, held, det, dying - {h}) && ProxiesOk(records - {h}, ps)
  {
    assert CountOk(records[h], ps, held, det, dying, h);
    NoneInside(ps, h, det);
    forall x | x in records - {h}
      ensures CountOk(records[x], ps, held, det, dying - {h}, x)
    {
      assert CountOk(records[x], ps, held, det, dying, x);
    }
  }

  /** A dying handle that no entry stands for can leave the tables. */
  lemma DroppedKeeps(v: View, held: multiset<Handle>, det: set<Pair>, dying: set<Handle>, h: Handle)
    requires Inv(v, held, det, dying) && h in dying && h in v.records
    requires forall e | e in v.proxies :: e.1 != h
    ensures Inv(Dropped(v, h), held, det, dying - {h})
  {
    DroppedHandles(v.handles, v.records, v.nextHandle, h);
    DroppedCounts(v.records, v.proxies, held, det, dying, h);
    ClosedKeeps(v, h);
    var w := Closed(v, h);
    FewerLive(w.hKeys, v.records.Keys, w.records.Keys - {h}, w.open.Keys, w.waits);
    assert Dropped(v, h).records.Keys == v.records.Keys - {h};
    hide HandlesOk, CountsOk, ProxiesOk, Closed, KeysOk;
  }

  lemma FewerLive(hKeys: map<Handle, Key>, live: set<Handle>, live': set<Handle>, open: set<Key>, waits: set<Key>)
    requires KeysOk(hKeys, live, open, waits) && hKeys.Keys <= live'
    ensures KeysOk(hKeys, live', open, waits)
  {
  }
}
