/** The GConf value-space layer: src/publishsubscribe/gconflayer.cpp and gconflayer_p.h.

  A handle is the address of a reference-counted record; here it is a number that is never reused,
  and 0 is InvalidHandle. GConf itself is a map from keys to values. */
module GConfLayer {
  import opened Text
  import opened CanonicalPath
  import opened LayerPath

  type Handle = nat

  const INVALID_HANDLE: Handle := 0

  datatype Record = Record(path: string, refCount: int)

  datatype Value = Invalid | Valid(data: string)

  /** The GConf database, as GConfItem sees it. */
  type Store = map<string, Value>

  function Read(store: Store, key: string): Value {
    if key in store then store[key] else Invalid
  }

  function Write(store: Store, key: string, v: Value): Store {
    if v.Invalid? then store - {key} else store[key := v]
  }

  /** Everything at a key or below it is unset. */
  function Unset(store: Store, key: string): Store {
    map k | k in store && !(Segments(key) <= Segments(k)) :: store[k]
  }

  /** The handle table of the layer; `next` is where the next record will be made. */
  datatype Table = Table(handles: map<string, Handle>, records: map<Handle, Record>, monitoring: set<Handle>,
    next: Handle)

  /** `handles` and the live records name each other one to one, and each reference count is the number
      of grants that have not been given back. */
  ghost predicate TableValid(t: Table, grants: multiset<Handle>) {
    match t
    case Table(handles, records, monitoring, next) =>
      && (forall p | p in handles :: handles[p] in records && records[handles[p]].path == p)
      && (forall h | h in records :: records[h].path in handles && handles[records[h].path] == h)
      && (forall h | h in records :: INVALID_HANDLE < h < next && records[h].refCount == grants[h] > 0)
      && (forall h | h in grants :: h in records)
      && monitoring <= records.Keys
      && next > INVALID_HANDLE
  }

  /** The handle that a path gets: the one it has, or a new one. */
  function Taken(t: Table, full: string): Handle {
    if full in t.handles then t.handles[full] else t.next
  }

  /** The table after one more reference was taken for a path. */
  function Take(t: Table, full: string): Table {
    var h := Taken(t, full);
    if full in t.handles && h in t.records
    then t.(records := t.records[h := Record(full, t.records[h].refCount + 1)])
    else t.(handles := t.handles[full := h], records := t.records[h := Record(full, 1)], next := t.next + 1)
  }

  /** The table after a reference was given back. */
  function Give(t: Table, h: Handle): Table {
    if h !in t.records then t
    else
      var r := t.records[h];
      if r.refCount != 1 then t.(records := t.records[h := r.(refCount := r.refCount - 1)])
      else t.(handles := t.handles - {r.path}, records := t.records - {h}, monitoring := t.monitoring - {h})
  }

  lemma {:induction false} TakeKeepsValid(t: Table, grants: multiset<Handle>, full: string)
    requires TableValid(t, grants)
    ensures TableValid(Take(t, full), grants + multiset{Taken(t, full)})
    ensures var h := Taken(t, full); h in Take(t, full).records && Take(t, full).records[h].path == full
  {
    hide TableValid, Take, Taken;
    if full in t.handles {
      TakeKnown(t, grants, full);
    } else {
      TakeNew(t, grants, full);
    }
  }

  lemma {:induction false} TakeKnown(t: Table, grants: multiset<Handle>, full: string)
    requires TableValid(t, grants) && full in t.handles
    ensures TableValid(Take(t, full), grants + multiset{Taken(t, full)})
    ensures var h := Taken(t, full); h in Take(t, full).records && Take(t, full).records[h].path == full
  {
  }

  lemma {:induction false} TakeNew(t: Table, grants: multiset<Handle>, full: string)
    requires TableValid(t, grants) && full !in t.handles
    ensures TableValid(Take(t, full), grants + multiset{Taken(t, full)})
    ensures var h := Taken(t, full); h in Take(t, full).records && Take(t, full).records[h].path == full
  {
  }

  lemma {:induction false} GiveKeepsValid(t: Table, grants: multiset<Handle>, h: Handle)
    requires TableValid(t, grants)
    ensures TableValid(Give(t, h), grants - multiset{h})
  {
  }

  /** The same table, wherever the next record will be made. */
  ghost predicate SameHandles(t: Table, u: Table) {
    t.handles == u.handles && t.records == u.records && t.monitoring == u.monitoring
  }

  /** Taking a reference and giving it back leaves the handles exactly as they were. */
  lemma TakeThenGive(t: Table, grants: multiset<Handle>, full: string)
    requires TableValid(t, grants)
    ensures SameHandles(Give(Take(t, full), Taken(t, full)), t)
  {
    var h := Taken(t, full);
    var u := Take(t, full);
    if full in t.handles {
      assert Give(u, h).records == t.records;
    } else {
      assert u.handles - {full} == t.handles;
      assert u.records - {h} == t.records;
    }
  }

  lemma PathHasRecord(t: Table, grants: multiset<Handle>, full: string)
    requires TableValid(t, grants)
    ensures t.next != INVALID_HANDLE
    ensures full in t.handles ==>
              t.handles[full] in t.records && t.records[t.handles[full]].path == full
                && t.handles[full] != INVALID_HANDLE
  {
  }

  /** gConfHandle finds exactly the live records. */
  lemma LiveHasRecord(t: Table, grants: multiset<Handle>, h: Handle)
    requires TableValid(t, grants)
    ensures h != INVALID_HANDLE && h in t.handles.Values <==> h in t.records
  {
    if h in t.records {
      assert t.handles[t.records[h].path] == h;
    }
  }

  class GConfLayer {
    var handles: map<string, Handle>
    var records: map<Handle, Record>
    var monitoringHandles: set<Handle>
    var store: Store
    var nextHandle: Handle
    ghost var grants: multiset<Handle>

    ghost function View(): Table
      reads this
    {
      Table(handles, records, monitoringHandles, nextHandle)
    }

    ghost predicate Valid()
      reads this
    {
      TableValid(View(), grants)
    }

    /** A handle that is live and whose path is canonical, as every handle is that a publisher or
        subscriber asks for. */
    ghost predicate OnCanonicalPath(handle: Handle)
      reads this
    {
      handle in records && IsCanonical(records[handle].path)
    }

    constructor (store: Store)
      ensures Valid() && handles == map[] && this.store == store
    {
      handles, records, monitoringHandles := map[], map[], {};
      this.store := store;
      nextHandle := 1;
      grants := multiset{};
    }

    /** gConfHandle: whether a handle names a live record. */
    method IsLive(handle: Handle) returns (live: bool)
      requires Valid()
      ensures live <==> handle in records
      ensures live ==> handle != INVALID_HANDLE
    {
      LiveHasRecord(View(), grants, handle);
      live := handle != INVALID_HANDLE && handle in handles.Values;
    }

    /** Whether getItem refuses. */
    predicate Refuses(parent: Handle, subPath: string)
      reads this
    {
      subPath == "" || HasDoubleSlash(subPath) || (parent != INVALID_HANDLE && parent !in records)
    }

    function FullPath(parent: Handle, subPath: string): string
      requires !Refuses(parent, subPath)
      reads this
    {
      if parent == INVALID_HANDLE then subPath else Join(records[parent].path, subPath)
    }

    /** getItem: the handle of a path, made on first use, with one more reference. */
    method GetItem(parent: Handle, subPath: string) returns (h: Handle)
      requires Valid()
      modifies `handles, `records, `nextHandle, `grants
      ensures Valid()
      ensures h == INVALID_HANDLE <==> old(Refuses(parent, subPath))
      ensures h == INVALID_HANDLE ==> View() == old(View()) && grants == old(grants)
      ensures h != INVALID_HANDLE ==>
                && var full := old(FullPath(parent, subPath));
                && h == Taken(old(View()), full)
                && View() == Take(old(View()), full)
                && h in records && records[h].path == full
                && grants == old(grants) + multiset{h}
      ensures h != INVALID_HANDLE && parent == INVALID_HANDLE ==> records[h].path == subPath
      ensures h != INVALID_HANDLE && parent != INVALID_HANDLE ==>
                Segments(records[h].path) == old(Segments(records[parent].path)) + Segments(subPath)
      ensures h == INVALID_HANDLE <==>
                || subPath == "" || (exists i | 0 < i < |subPath| :: subPath[i - 1] == subPath[i] == '/')
                || (parent != INVALID_HANDLE && parent !in old(records))
    {
      if subPath == "" || HasDoubleSlash(subPath) {
        return INVALID_HANDLE;
      }
      var fullPath;
      if parent == INVALID_HANDLE {
        fullPath := subPath;
      } else {
        var live := IsLive(parent);
        if !live {
          return INVALID_HANDLE;
        }
        fullPath := Join(records[parent].path, subPath);
        JoinSegments(records[parent].path, subPath);
      }
      h := TakeReference(fullPath);
    }

    /** The end of getItem: find or make the record of a full path. */
    method TakeReference(fullPath: string) returns (h: Handle)
      requires Valid()
      modifies `handles, `records, `nextHandle, `grants
      ensures Valid()
      ensures h == Taken(old(View()), fullPath) && h != INVALID_HANDLE
      ensures View() == Take(old(View()), fullPath)
      ensures h in records && records[h].path == fullPath
      ensures grants == old(grants) + multiset{h}
    {
      ghost var before, held := View(), grants;
      PathHasRecord(before, held, fullPath);
      hide TableValid;
      h := FindOrMake(fullPath);
      grants := grants + multiset{h};
      hide Take, Taken;
      TakeKeepsValid(before, held, fullPath);
    }

    method FindOrMake(fullPath: string) returns (h: Handle)
      requires fullPath in handles ==> handles[fullPath] in records && records[handles[fullPath]].path == fullPath
      modifies `handles, `records, `nextHandle
      ensures h == Taken(old(View()), fullPath) && View() == Take(old(View()), fullPath)
    {
      ghost var before := View();
      if fullPath in handles {
        h := handles[fullPath];
        records := records[h := records[h].(refCount := records[h].refCount + 1)];
      } else {
        h := nextHandle;
        nextHandle := nextHandle + 1;
        records := records[h := Record(fullPath, 1)];
        handles := handles[fullPath := h];
      }
      assert View() == Take(before, fullPath);
    }

    /** doRemoveHandle: give a reference back; the last one takes the record with it. */
    method DoRemoveHandle(handle: Handle)
      requires Valid()
      modifies `handles, `records, `monitoringHandles, `grants
      ensures Valid()
      ensures View() == Give(old(View()), handle)
      ensures grants == old(grants) - multiset{handle}
    {
      ghost var before, held := View(), grants;
      hide TableValid;
      var live := IsLive(handle);
      grants := grants - multiset{handle};
      if live {
        if records[handle].refCount != 1 {
          records := records[handle := records[handle].(refCount := records[handle].refCount - 1)];
        } else {
          DropRecord(handle);
        }
      }
      assert View() == Give(before, handle);
      hide Give;
      GiveKeepsValid(before, held, handle);
    }

    method DropRecord(handle: Handle)
      requires handle in records
      modifies `handles, `records, `monitoringHandles
      ensures handles == old(handles) - {old(records[handle].path)}
      ensures records == old(records) - {handle}
      ensures monitoringHandles == old(monitoringHandles) - {handle}
    {
      monitoringHandles := monitoringHandles - {handle};
      handles := handles - {records[handle].path};
      records := records - {handle};
    }

    method SetProperty(handle: Handle, publish: bool)
      requires Valid()
      modifies `monitoringHandles
      ensures Valid()
      ensures monitoringHandles ==
        if handle !in records then old(monitoringHandles)
        else if publish then old(monitoringHandles) + {handle} else old(monitoringHandles) - {handle}
    {
      var live := IsLive(handle);
      if !live {
        return;
      }
      if publish {
        monitoringHandles := monitoringHandles + {handle};
      } else {
        monitoringHandles := monitoringHandles - {handle};
      }
    }

    /** Taking a handle and giving it back leaves the table as it was. */
    twostate predicate TableUnchanged()
      reads this
    {
      SameHandles(View(), old(View())) && grants == old(grants)
    }

    /** The path of the handle that a call is made on, if there is one. */
    function Top(handle: Handle): Option<string>
      requires handle == INVALID_HANDLE || handle in records
      reads this
    {
      if handle == INVALID_HANDLE then None else Some(records[handle].path)
    }

    /** getValue, on a handle or, with InvalidHandle, on an absolute path. */
    method GetValue(handle: Handle, subPath: string, before: Value) returns (ok: bool, data: Value)
      requires Valid()
      modifies `handles, `records, `monitoringHandles, `grants, `nextHandle
      ensures Valid() && TableUnchanged()
      ensures if handle == INVALID_HANDLE || handle in records
                then Looked(store, Top(handle), subPath, before, ok, data)
              else !ok && data == before
      ensures IsCanonical(subPath) && (handle in records ==> OnCanonicalPath(handle)) ==>
                if (handle == INVALID_HANDLE && subPath == "/") || (handle != INVALID_HANDLE && handle !in records)
                then !ok && data == before
                else
                  var key :=
                    if handle == INVALID_HANDLE then subPath else Canonical(records[handle].path + "/" + subPath);
                  ok == data.Valid? && data == if key in store then store[key] else Invalid
    {
      var live := IsLive(handle);
      if handle != INVALID_HANDLE && !live {
        return false, before;
      }
      ghost var top := Top(handle);
      var n := SplitName(subPath, handle != INVALID_HANDLE);
      ok, data := LookUp(handle, n, before);
      hide TableValid, Cut, Key, Canonical, Segments;
      if IsCanonical(subPath) && (top.Some? ==> IsCanonical(top.value)) {
        LookUpKey(top, subPath);
      }
    }

    /** The rest of getValue, once the name has been split. */
    method LookUp(handle: Handle, n: Name, before: Value) returns (ok: bool, data: Value)
      requires Valid() && (handle == INVALID_HANDLE || handle in records) && (n.nested ==> n.path != "")
      modifies `handles, `records, `monitoringHandles, `grants, `nextHandle
      ensures Valid() && TableUnchanged()
      ensures if Missed(Top(handle), n) then !ok && data == before
              else ok == data.Valid? && data == Read(store, Key(Top(handle), n))
    {
      hide Take, Give, TableValid;
      var current := handle;
      if n.nested {
        if !Refuses(handle, n.path) {
          TakeThenGive(View(), grants, FullPath(handle, n.path));
        }
        current := GetItem(handle, n.path);
      }
      var live := IsLive(current);
      if !live {
        return false, before;
      }
      data := Read(store, Append(records[current].path, n.value));
      if n.nested {
        DoRemoveHandle(current);
      }
      ok := data.Valid?;
    }

    /** value of a handle itself. */
    method ValueOf(handle: Handle, before: Value) returns (ok: bool, data: Value)
      requires Valid()
      modifies `handles, `records, `monitoringHandles, `grants, `nextHandle
      ensures Valid() && TableUnchanged()
      ensures if handle in records then Looked(store, None, records[handle].path, before, ok, data)
                else !ok && data == before
      ensures OnCanonicalPath(handle) ==>
                var key := records[handle].path;
                if key == "/" then !ok && data == before
                else ok == data.Valid? && data == if key in store then store[key] else Invalid
    {
      var live := IsLive(handle);
      if !live {
        return false, before;
      }
      ok, data := GetValue(INVALID_HANDLE, records[handle].path, before);
    }

    /** setValue of a name under a handle. If the part before its last slash has two slashes in a row, getItem refuses
        and the source dereferences a null pointer: `aborted`. */
    method SetValue(handle: Handle, subPath: string, data: Value) returns (ok: bool, aborted: bool)
      requires Valid()
      modifies `handles, `records, `monitoringHandles, `grants, `nextHandle, `store
      ensures Valid() && TableUnchanged()
      ensures aborted <==> handle in records && Missed(Top(handle), Cut(subPath, false))
      ensures ok <==> handle in records && !aborted
      ensures store == if ok then Write(old(store), Key(Top(handle), Cut(subPath, false)), data) else old(store)
      ensures IsCanonical(subPath) && OnCanonicalPath(handle) ==>
                var key := Canonical(records[handle].path + "/" + subPath);
                ok && store == if data.Valid? then old(store)[key := data] else old(store) - {key}
    {
      var live := IsLive(handle);
      if !live {
        return false, false;
      }
      var n := SplitName(subPath, false);
      ghost var path := records[handle].path;
      aborted := SetUnder(handle, n, data);
      ok := !aborted;
      hide TableValid, Cut, Key, Canonical, Segments;
      if IsCanonical(subPath) && IsCanonical(path) {
        SetKey(path, subPath);
      }
    }

    /** The rest of setValue, once the name has been split. */
    method SetUnder(handle: Handle, n: Name, data: Value) returns (aborted: bool)
      requires Valid() && handle in records && handle != INVALID_HANDLE && (n.nested ==> n.path != "")
      modifies `handles, `records, `monitoringHandles, `grants, `nextHandle, `store
      ensures Valid() && TableUnchanged() && (aborted <==> Missed(Top(handle), n))
      ensures store == if aborted then old(store) else Write(old(store), Key(Top(handle), n), data)
    {
      hide Take, Give, TableValid;
      var sh := handle;
      if n.nested {
        if !Refuses(handle, n.path) {
          TakeThenGive(View(), grants, FullPath(handle, n.path));
        }
        sh := GetItem(sh, n.path);
        if sh == INVALID_HANDLE {
          return true;
        }
      }
      store := Write(store, Append(records[sh].path, n.value), data);
      if n.nested {
        DoRemoveHandle(sh);
      }
      aborted := false;
    }

    /** removeValue of a name under a handle. */
    method RemoveValue(handle: Handle, subPath: string) returns (ok: bool)
      requires Valid()
      modifies `store
      ensures Valid() && (ok <==> handle in records)
      ensures store == if ok then Unset(old(store), Join(records[handle].path, subPath)) else old(store)
      ensures ok ==>
                var gone := Segments(records[handle].path) + Segments(subPath);
                && Canonical(records[handle].path + "/" + subPath) !in store
                && (forall key :: key in store <==> key in old(store) && !(gone <= Segments(key)))
                && (forall key | key in store :: store[key] == old(store)[key])
    {
      var live := IsLive(handle);
      if !live {
        return false;
      }
      var fullPath := Join(records[handle].path, subPath);
      JoinSegments(records[handle].path, subPath);
      SlashBetween(records[handle].path, subPath);
      CanonicalIdempotent(records[handle].path + "/" + subPath);
      assert records[handle].path + "/" + subPath == records[handle].path + ("/" + subPath);
      hide Join, Segments, Canonical;
      store := Unset(store, fullPath);
      ok := true;
    }
  }

  /** A name cut at its last slash, if there is one. */
  datatype Name = Name(path: string, value: string, nested: bool)

  /** What the start of getValue and setValue makes of a name. Under a handle, values are looked up without the
      leading slashes. */
  function Cut(name: string, strip: bool): (n: Name)
    ensures n.nested ==> n.path != ""
  {
    var p := if strip then Chopped(name)[SlashLength(Chopped(name))..] else Chopped(name);
    CutAt(p, LastIndexOf(p, '/'))
  }

  function CutAt(p: string, index: int): (n: Name)
    requires -1 <= index < |p|
    ensures n.nested ==> n.path != ""
  {
    if index == -1 then Name(p, p, false)
    else Name(if p[..index] == "" then "/" else p[..index], p[index + 1..], true)
  }

  method SplitName(subPath: string, strip: bool) returns (n: Name)
    ensures n == Cut(subPath, strip)
  {
    hide Chopped, SlashLength;
    var path := Chop(subPath);
    if strip {
      path := StripLeading(path);
    }
    var index := LastIndexOf(path, '/');
    if index == -1 {
      return Name(path, path, false);
    }
    var value := path[index + 1..];
    path := path[..index];
    if path == "" {
      path := "/";
    }
    n := Name(path, value, true);
  }

  /** A name does not lead to a record: the part before its last slash is refused, or there is neither such a part
      nor a handle. */
  predicate Missed(top: Option<string>, n: Name) {
    if n.nested then HasDoubleSlash(n.path) else top.None?
  }

  /** What looking up a name under a path, or by itself, yields. */
  ghost predicate Looked(store: Store, top: Option<string>, name: string, before: Value, ok: bool, data: Value) {
    var n := Cut(name, top.Some?);
    if Missed(top, n) then !ok && data == before else ok == data.Valid? && data == Read(store, Key(top, n))
  }

  /** The name of segments `b`: the last segment, and the path before it when there is one. */
  ghost predicate IsSplit(b: seq<string>, strip: bool, n: Name) {
    && ProperSegments(b)
    && (n.nested <==> if strip then |b| > 1 else b != [])
    && n.value == (if b == [] then "" else b[|b| - 1])
    && (n.nested ==> n.path == (if strip then Relative(DropLast(b)) else PathOf(DropLast(b))))
    && (n.nested ==> !HasDoubleSlash(n.path))
  }

  lemma {:induction false} CutCanonical(b: seq<string>, strip: bool)
    requires ProperSegments(b)
    ensures IsSplit(b, strip, Cut(PathOf(b), strip))
  {
    ChoppedCanonical(b);
    StrippedSlashed(b);
    var p := Trimmed(b, strip);
    SplitFacts(b, strip, p, LastIndexOf(p, '/'));
    hide Chopped, SlashLength, LastIndexOf, IsSplit, Relative, CutAt;
  }

  function Trimmed(b: seq<string>, strip: bool): string {
    if !strip then Slashed(b) else if b == [] then "" else Relative(b)
  }

  lemma SplitFacts(b: seq<string>, strip: bool, path: string, index: int)
    requires ProperSegments(b)
    requires path == Trimmed(b, strip) && index == LastIndexOf(path, '/')
    ensures -1 <= index < |path| && IsSplit(b, strip, CutAt(path, index))
  {
    if b != [] {
      CanonicalNoDouble(DropLast(b));
      if strip {
        CutRelative(b);
        if |b| > 1 {
          RelativeEnds(DropLast(b));
        }
      } else {
        CutAtLastSlash(b);
      }
    }
  }

  /** The key that a name leads to under a path, or by itself when there is no handle. */
  function Key(top: Option<string>, n: Name): string {
    match top
    case None => Append(n.path, n.value)
    case Some(p) => Append(if n.nested then Join(p, n.path) else p, n.value)
  }

  lemma {:induction false} SetKey(top: string, name: string)
    requires IsCanonical(top) && IsCanonical(name)
    ensures var n := Cut(name, false);
      !Missed(Some(top), n) && Key(Some(top), n) == Canonical(top + "/" + name)
  {
    CutCanonical(Segments(name), false);
    KeyBelow(top, name);
    KeyParts(Segments(top), Segments(name));
    hide Cut;
  }

  lemma {:induction false} LookUpKey(top: Option<string>, name: string)
    requires IsCanonical(name) && (top.Some? ==> IsCanonical(top.value))
    ensures var n := Cut(name, top.Some?);
      if top.Some? then !Missed(top, n) && Key(top, n) == Canonical(top.value + "/" + name)
      else (Missed(top, n) <==> name == "/") && (n.nested ==> Key(top, n) == name)
  {
    hide Cut, Missed, Key, Canonical, Segments;
    if top.Some? {
      LookUpBelow(top.value, name);
    } else {
      LookUpAlone(name);
    }
  }

  lemma {:induction false} LookUpBelow(top: string, name: string)
    requires IsCanonical(name) && IsCanonical(top)
    ensures var n := Cut(name, true); !Missed(Some(top), n) && Key(Some(top), n) == Canonical(top + "/" + name)
  {
    hide Cut, Segments;
    CutCanonical(Segments(name), true);
    KeyBelow(top, name);
    KeyParts(Segments(top), Segments(name));
    hide Append, Join, Relative;
  }

  lemma {:induction false} LookUpAlone(name: string)
    requires IsCanonical(name)
    ensures var n := Cut(name, false); (Missed(None, n) <==> name == "/") && (n.nested ==> Key(None, n) == name)
  {
    hide Cut, Segments;
    CutCanonical(Segments(name), false);
    KeyParts([], Segments(name));
    SegmentsOfPath([]);
    hide Append, Join, Relative;
  }

  /** The key below a canonical path for a canonical name. */
  lemma KeyBelow(path: string, name: string)
    requires IsCanonical(path) && IsCanonical(name)
    ensures Canonical(path + "/" + name) == PathOf(Segments(path) + Segments(name))
  {
    assert path + "/" + name == path + ("/" + name);
    SegmentsConcat(path, "/" + name);
    assert ("/" + name)[1..] == name;
  }

  lemma StrippedSlashed(b: seq<string>)
    requires ProperSegments(b)
    ensures Slashed(b)[SlashLength(Slashed(b))..] == if b == [] then "" else Relative(b)
  {
    if b != [] {
      RelativeEnds(b);
      assert Slashed(b)[1..] == Relative(b);
      assert SlashLength(Slashed(b)[1..]) == 0;
    }
  }

  /** Cutting a name at its last slash and putting it together again under a handle. */
  lemma KeyParts(a: seq<string>, b: seq<string>)
    requires ProperSegments(a) && ProperSegments(b)
    ensures b == [] ==> Append(PathOf(a), "") == PathOf(a + b)
    ensures b != [] ==> Append(Join(PathOf(a), PathOf(DropLast(b))), b[|b| - 1]) == PathOf(a + b)
    ensures |b| == 1 ==> Append(PathOf(a), b[0]) == PathOf(a + b)
    ensures |b| > 1 ==> Append(Join(PathOf(a), Relative(DropLast(b))), b[|b| - 1]) == PathOf(a + b)
    ensures b != [] ==> Append(PathOf(DropLast(b)), b[|b| - 1]) == PathOf(b)
  {
    if b == [] {
      assert a + b == a;
      AppendLast(a, "x");
    } else {
      var init, last := DropLast(b), b[|b| - 1];
      assert init + [last] == b;
      assert a + init + [last] == a + b;
      JoinCanonical(a, init);
      AppendLast(a + init, last);
      AppendLast(init, last);
      if |b| == 1 {
        assert a + init == a;
      }
    }
  }

  lemma PublishedKey(path: string, name: string)
    ensures Canonical(Canonical(path) + "/" + Canonical(name)) == Canonical(path + "/" + name)
    ensures Canonical(path + "/" + name) == "/" <==> Segments(path) + Segments(name) == []
    ensures IsCanonical(Canonical(path)) && IsCanonical(Canonical(name)) && IsCanonical(Canonical(path + "/" + name))
  {
    var segs := Segments(path) + Segments(name);
    CanonicalIdempotent(path);
    CanonicalIdempotent(name);
    CanonicalIdempotent(path + "/" + name);
    KeyBelow(Canonical(path), Canonical(name));
    SegmentsConcat(path, "/" + name);
    assert path + "/" + name == path + ("/" + name);
    SegmentsOfSlash(name);
    if segs != [] {
      SlashedEnds(segs);
    }
  }

  lemma GiveSame(t: Table, u: Table, h: Handle)
    requires SameHandles(t, u)
    ensures SameHandles(Give(t, h), Give(u, h))
  {
  }

  /** The handle that a publisher or subscriber holds for its canonical path. */
  method Open(layer: GConfLayer, path: string) returns (h: Handle)
    requires layer.Valid() && IsCanonical(path)
    modifies layer`handles, layer`records, layer`nextHandle, layer`grants
    ensures layer.Valid() && layer.OnCanonicalPath(h) && layer.records[h].path == path && h != INVALID_HANDLE
    ensures h == Taken(old(layer.View()), path) && layer.View() == Take(old(layer.View()), path)
    ensures layer.grants == old(layer.grants) + multiset{h}
  {
    CanonicalNoDouble(Segments(path));
    hide Take, Taken, TableValid;
    h := layer.GetItem(INVALID_HANDLE, path);
  }

  /** A subscriber on a path reads it and goes. Only the root has no value of its own to read. */
  method ReadAt(layer: GConfLayer, path: string) returns (value: Value)
    requires layer.Valid() && IsCanonical(path)
    modifies layer`handles, layer`records, layer`monitoringHandles, layer`nextHandle, layer`grants
    ensures layer.Valid() && layer.grants == old(layer.grants) && SameHandles(layer.View(), old(layer.View()))
    ensures value == if path == "/" then Invalid else Read(layer.store, path)
  {
    hide Take, Taken, Give, TableValid, Canonical, Segments, Cut, Key, Missed, Looked;
    ghost var start, held := layer.View(), layer.grants;
    var subscriber := Open(layer, path);
    ghost var atOpen := layer.View();
    var ok;
    ok, value := layer.ValueOf(subscriber, Invalid);
    GiveSame(layer.View(), atOpen, subscriber);
    layer.DoRemoveHandle(subscriber);
    TakeThenGive(start, held, path);
  }

  /** A publisher on one path and a subscriber on the full path of the published name meet at the same
      key, whatever slashes either was given; and both leave the handles as they found them. */
  method PublishThenSubscribe(layer: GConfLayer, path: string, name: string, data: Value)
      returns (fromPublisher: Value, fromSubscriber: Value)
    requires layer.Valid() && data.Valid?
    modifies layer
    ensures layer.Valid() && layer.grants == old(layer.grants)
    ensures SameHandles(layer.View(), old(layer.View()))
    ensures fromPublisher == data
    ensures fromSubscriber == if Segments(path) + Segments(name) == [] then Invalid else data
    ensures layer.store == old(layer.store)[Canonical(path + "/" + name) := data]
  {
    hide Take, Taken, Give, TableValid, Canonical, Segments, Cut, Key, Missed, Looked;
    PublishedKey(path, name);
    ghost var start, held := layer.View(), layer.grants;
    var publisherPath := QCanonicalPath(path);
    var publisher := Open(layer, publisherPath);
    ghost var atOpen := layer.View();
    var canonicalName := QCanonicalPath(name);
    var ok, aborted := layer.SetValue(publisher, canonicalName, data);
    ok, fromPublisher := layer.GetValue(publisher, canonicalName, Invalid);
    var fullPath := QCanonicalPath(path + "/" + name);
    fromSubscriber := ReadAt(layer, fullPath);
    GiveSame(layer.View(), atOpen, publisher);
    layer.DoRemoveHandle(publisher);
    TakeThenGive(start, held, publisherPath);
  }

  /** A name is set and removed through one handle: with it all that is below it is gone, and nothing else. */
  method SetThenRemove(layer: GConfLayer, h: Handle, name: string, data: Value)
    requires layer.Valid() && layer.OnCanonicalPath(h) && IsCanonical(name) && data.Valid?
    modifies layer
    ensures layer.Valid() && layer.grants == old(layer.grants) && SameHandles(layer.View(), old(layer.View()))
    ensures var gone := Segments(layer.records[h].path) + Segments(name);
              forall key :: (key in layer.store <==> key in old(layer.store) && !(gone <= Segments(key)))
                            && (key in layer.store ==> layer.store[key] == old(layer.store)[key])
  {
    hide Take, Taken, Give, TableValid, Canonical, Segments, Cut, Key, Missed, Looked, Join, Unset;
    ghost var before, path := layer.store, layer.records[h].path;
    NameBelow(path, name);
    var ok, aborted := layer.SetValue(h, name, data);
    ok := layer.RemoveValue(h, name);
  }

  /** What was published is removed again: neither end reads it any more, and what was published under another
      name, not below the first, is read as before. */
  method PublishThenRemove(layer: GConfLayer, path: string, name: string, other: string, data: Value)
      returns (fromPublisher: Value, fromSubscriber: Value, kept: Value)
    requires layer.Valid() && data.Valid?
    modifies layer
    ensures layer.Valid() && layer.grants == old(layer.grants)
    ensures SameHandles(layer.View(), old(layer.View()))
    ensures fromPublisher == Invalid && fromSubscriber == Invalid
    ensures !(Segments(name) <= Segments(other)) ==>
              var key := Canonical(path + "/" + other);
              kept == if key in old(layer.store) then old(layer.store)[key] else Invalid
  {
    hide Take, Taken, Give, TableValid, Canonical, Segments, Cut, Key, Missed, Looked, Join, Unset;
    PublishedKey(path, name);
    PublishedKey(path, other);
    KeysApart(path, name, other);
    ghost var start, held := layer.View(), layer.grants;
    var publisherPath := QCanonicalPath(path);
    var publisher := Open(layer, publisherPath);
    ghost var atOpen := layer.View();
    var canonicalName := QCanonicalPath(name);
    var otherName := QCanonicalPath(other);
    SetThenRemove(layer, publisher, canonicalName, data);
    var ok;
    ok, fromPublisher := layer.GetValue(publisher, canonicalName, Invalid);
    ok, kept := layer.GetValue(publisher, otherName, Invalid);
    var fullPath := QCanonicalPath(path + "/" + name);
    fromSubscriber := ReadAt(layer, fullPath);
    GiveSame(layer.View(), atOpen, publisher);
    layer.DoRemoveHandle(publisher);
    TakeThenGive(start, held, publisherPath);
  }

  /** The keys of two names below a path have the segments of the path and of the name. */
  lemma {:induction false} KeysApart(path: string, name: string, other: string)
    ensures var a, b := Canonical(path + "/" + name), Canonical(path + "/" + other);
      && Segments(a) == Segments(path) + Segments(name) && Segments(b) == Segments(path) + Segments(other)
      && (Segments(a) <= Segments(b) <==> Segments(name) <= Segments(other))
    ensures Segments(Canonical(path)) == Segments(path) && Segments(Canonical(name)) == Segments(name)
  {
    hide Canonical, Segments;
    CanonicalIdempotent(path);
    CanonicalIdempotent(name);
    NameBelow(path, name);
    NameBelow(path, other);
    PrefixAfter(Segments(path), Segments(name), Segments(other));
  }

  lemma {:induction false} NameBelow(path: string, name: string)
    ensures Segments(Canonical(path + "/" + name)) == Segments(path) + Segments(name)
  {
    CanonicalIdempotent(path + "/" + name);
    SlashBetween(path, name);
    assert path + "/" + name == path + ("/" + name);
    hide Canonical, Segments;
  }

  lemma {:induction false} PrefixAfter(a: seq<string>, b: seq<string>, c: seq<string>)
    ensures a + b <= a + c <==> b <= c
  {
    if a + b <= a + c {
      forall i | 0 <= i < |b|
        ensures i < |c| && b[i] == c[i]
      {
        assert (a + b)[|a| + i] == (a + c)[|a| + i];
      }
    }
  }
}
