/** What changes to the tables of src/serviceframework/servicedatabase.cpp come to, row by row. */
module ServiceRows {
  import opened Text
  import opened Descriptor
  import opened ServiceTables
  import opened ServiceUpdates

  /** The row of the k-th interface of a service that is registered with this identifier. */
  predicate NewRow(s: Results, next: Id, i: InterfaceRow, k: int) {
    && 0 <= k < |s.interfaces|
    && i == InterfaceRow(Id(next.origin, next.number + k + 1), next, s.interfaces[k].interfaceName,
         s.interfaces[k].major, s.interfaces[k].minor)
  }

  /** It is the default of its name, as the latest of that name. */
  predicate NewDefaultTo(s: Results, next: Id, d: DefaultRow, k: int) {
    && 0 <= k < |s.interfaces| && s.interfaces[k] in s.latest
    && s.interfaces[k].interfaceName == d.interfaceName && d.interfaceId == Id(next.origin, next.number + k + 1)
  }

  /** Registering adds one row for the service and one for each interface, and a default for each name of the service
      that had none: the row of the latest interface of that name. Nothing else is new, and nothing goes. */
  lemma {:induction false} RegisteredTables(t: Tables, s: Results, next: Id)
    requires ServiceOk(s)
    ensures var w := Registered(t, s, next);
      && w.services == t.services + {ServiceRow(next, s.name, StoredLocation(s))}
      && w.serviceProps == t.serviceProps + {Property(next, DESCRIPTION_KEY, s.description)}
      && t.interfaceProps <= w.interfaceProps && t.defaults <= w.defaults
      && (forall i :: i in w.interfaces <==> i in t.interfaces || exists k :: NewRow(s, next, i, k))
      && (forall d | d in w.defaults && d !in t.defaults ::
            && (forall e | e in t.defaults :: !SameName(e.interfaceName, d.interfaceName))
            && exists k :: NewDefaultTo(s, next, d, k))
      && (forall k | 0 <= k < |s.interfaces| ::
            exists d :: d in w.defaults && SameName(d.interfaceName, s.interfaces[k].interfaceName))
  {
    hide ServiceOk, StoredLocation, NewInterfaces, NewProperties, NewDefaults, SameName, AllIn, HasDefault, NewRow,
      NewDefaultTo;
    LatestAreInterfaces(s);
    forall i {
      NewRowAt(s, next, i);
    }
    forall d | d in NewDefaults(s.interfaces, s.latest, next, t.defaults, |s.latest|) {
      NewDefaultMade(t, s, next, d);
    }
    forall k | 0 <= k < |s.interfaces|
      ensures exists d :: d in Registered(t, s, next).defaults
                          && SameName(d.interfaceName, s.interfaces[k].interfaceName)
    {
      var d := DefaultMade(t, s, next, k);
    }
  }

  lemma {:induction false} NewRowAt(s: Results, next: Id, i: InterfaceRow)
    ensures i in NewInterfaces(s.interfaces, next, |s.interfaces|) <==> exists k :: NewRow(s, next, i, k)
  {
    hide NewInterfaces;
    NewInterfaceRow(s.interfaces, next, |s.interfaces|, i);
    assert i in NewInterfaces(s.interfaces, next, |s.interfaces|) ==>
        NewRow(s, next, i, i.id.number - next.number - 1);
  }

  lemma {:induction false} NewDefaultMade(t: Tables, s: Results, next: Id, d: DefaultRow)
    requires ServiceOk(s) && AllIn(s.latest, s.interfaces)
    requires d in NewDefaults(s.interfaces, s.latest, next, t.defaults, |s.latest|)
    ensures forall e | e in t.defaults :: !SameName(e.interfaceName, d.interfaceName)
    ensures exists k :: NewDefaultTo(s, next, d, k)
  {
    hide NewDefaults, SameName, IndexOf, ServiceOk;
    NewDefaultName(s.interfaces, s.latest, next, t.defaults, |s.latest|, d);
    var j :| 0 <= j < |s.latest| && MadeFor(s.interfaces, s.latest[j], next, t.defaults, d);
    assert NewDefaultTo(s, next, d, IndexOf(s.interfaces, s.latest[j]));
  }

  lemma {:induction false} DefaultMade(t: Tables, s: Results, next: Id, k: nat) returns (d: DefaultRow)
    requires ServiceOk(s) && k < |s.interfaces|
    ensures d in Registered(t, s, next).defaults && SameName(d.interfaceName, s.interfaces[k].interfaceName)
  {
    hide NewDefaults, SameDescriptor, IndexOf, NewInterfaces, NewProperties, StoredLocation;
    assert NamedIn(s.interfaces[k].interfaceName, s.latest);
    var j :| 0 <= j < |s.latest| && SameName(s.latest[j].interfaceName, s.interfaces[k].interfaceName);
    if HasDefault(s.latest[j].interfaceName, t.defaults) {
      d :| d in t.defaults && SameName(d.interfaceName, s.latest[j].interfaceName);
    } else {
      d := NewDefault(s, next, t.defaults, |s.latest|, j);
    }
  }

  /** Unregistering takes out the rows of the services of that name and of their interfaces, with all their properties,
      and no others. */
  lemma {:induction false} UnregisteredTables(t: Tables, name: string, chosen: Choice)
    ensures var w := Unregistered(t, name, chosen);
      && (forall r :: r in w.services <==> r in t.services && !SameName(r.name, name))
      && (forall i :: i in w.interfaces <==>
            i in t.interfaces && forall r | r in t.services && r.id == i.serviceId :: !SameName(r.name, name))
      && (forall p :: p in w.serviceProps <==>
            p in t.serviceProps && forall r | r in t.services && r.id == p.owner :: !SameName(r.name, name))
      && (forall p :: p in w.interfaceProps <==>
            p in t.interfaceProps && forall i | i in t.interfaces && i.id == p.owner :: i in w.interfaces)
  {
    hide SameName, Reelected;
    var ids := NamedServices(t, name);
    assert forall id :: id in ids <==> exists r :: r in t.services && SameName(r.name, name) && r.id == id;
    var gone := InterfacesOf(t, ids);
    assert forall id :: id in gone <==> exists i :: i in t.interfaces && i.serviceId in ids && i.id == id;
  }

  /** The interface of a default is not taken out. */
  predicate Stays(t: Tables, d: DefaultRow, left: set<InterfaceRow>) {
    forall i | i in t.interfaces && i.id == d.interfaceId :: i in left
  }

  /** A default's own row, and none of its name is of a higher version. */
  predicate Newest(i: InterfaceRow, d: DefaultRow, left: set<InterfaceRow>) {
    && i in left && i.id == d.interfaceId && SameName(i.name, d.interfaceName)
    && forall j | j in left && SameName(j.name, d.interfaceName) ::
         j.major < i.major || (j.major == i.major && j.minor <= i.minor)
  }

  /** A default whose interface stays is kept. Any other moves to an implementation of its name that is left, of no
      lower version than the others, and goes if none is left. No name has a default that had none. */
  lemma {:induction false} UnregisteredDefaults(t: Tables, next: Id, name: string, chosen: Choice, d: DefaultRow)
    requires Integrity(t, next) && GoodChoice(t, name, chosen) && d in t.defaults
    ensures var w := Unregistered(t, name, chosen);
      if Stays(t, d, w.interfaces) then d in w.defaults
      else if exists i :: i in w.interfaces && SameName(i.name, d.interfaceName)
      then exists e, i :: e in w.defaults && e.interfaceName == d.interfaceName && Newest(i, e, w.interfaces)
      else forall e | e in w.defaults :: !SameName(e.interfaceName, d.interfaceName)
    ensures forall e | e in Unregistered(t, name, chosen).defaults ::
              exists d0 :: d0 in t.defaults && d0.interfaceName == e.interfaceName
  {
    hide Integrity, GoodChoice, Reelected, SameName, Best;
    var w, gone := Unregistered(t, name, chosen), InterfacesOf(t, NamedServices(t, name));
    Reelection(t, next, name, chosen, d);
    assert Stays(t, d, w.interfaces) <==> d.interfaceId !in gone;
    if d.interfaceId in gone && Implemented(d.interfaceName, w.interfaces) {
      var e :| e in w.defaults && e.interfaceName == d.interfaceName
        && Best(e.interfaceId, Lower(d.interfaceName), w.interfaces);
      hide InterfacesOf, NamedServices, WithoutService, Stays;
      var i := BestIsNewest(e, w.interfaces);
    }
  }

  lemma {:induction false} BestIsNewest(d: DefaultRow, left: set<InterfaceRow>) returns (i: InterfaceRow)
    requires Best(d.interfaceId, Lower(d.interfaceName), left)
    ensures Newest(i, d, left)
  {
    hide Lower;
    i :| i in left && i.id == d.interfaceId && Lower(i.name) == Lower(d.interfaceName)
      && forall j | j in left && Lower(j.name) == Lower(d.interfaceName) :: !BelowRow(i, j);
  }

  /** Setting a default: the name has it and no other, other names have theirs, and nothing else changes. */
  lemma {:induction false} DefaultSet(t: Tables, name: string, id: Id)
    ensures var w := WithDefault(t, name, id);
      && w == t.(defaults := w.defaults)
      && (exists d :: d in w.defaults && SameName(d.interfaceName, name))
      && (forall d | d in w.defaults && SameName(d.interfaceName, name) :: d.interfaceId == id)
      && (forall d: DefaultRow | !SameName(d.interfaceName, name) :: d in w.defaults <==> d in t.defaults)
  {
    hide SameName;
    var w := WithDefault(t, name, id);
    SameNameSelf(name);
    if d :| d in t.defaults && SameName(d.interfaceName, name) {
      assert DefaultRow(d.interfaceName, id) in w.defaults;
    } else {
      assert DefaultRow(name, id) in w.defaults;
    }
    forall d | d in t.defaults && !SameName(d.interfaceName, name)
      ensures d in w.defaults
    {
    }
  }

  lemma SameNameSelf(name: string)
    ensures SameName(name, name)
  {
  }
}
