/** What registering, unregistering and choosing defaults keep, and what undoes what, in the tables of
  src/serviceframework/servicedatabase.cpp. */
module ServiceUpdates {
  import opened Text
  import opened Version
  import opened Descriptor
  import opened ServiceFilter
  import opened ServiceTables

  // ---------------------------------------------------------------------------------------------
  // Adding one row at a time keeps integrity
  // ---------------------------------------------------------------------------------------------

  lemma LaterServices(services: set<ServiceRow>, next: Id)
    requires ServicesOk(services, next)
    ensures ServicesOk(services, After(next, 1))
  {
    hide SameName;
  }

  lemma AddServiceRow(services: set<ServiceRow>, interfaces: set<InterfaceRow>, next: Id, row: ServiceRow)
    requires ServicesOk(services, next) && InterfacesOk(services, interfaces, next) && row.id == next
    requires forall r | r in services :: !SameName(r.location, row.location)
    ensures ServicesOk(services + {row}, After(next, 1)) && InterfacesOk(services + {row}, interfaces, After(next, 1))
  {
    AddServiceRowInterfaces(services, interfaces, next, row);
    hide InterfacesOk, Lower;
  }

  lemma AddServiceRowInterfaces(services: set<ServiceRow>, interfaces: set<InterfaceRow>, next: Id, row: ServiceRow)
    requires ServicesOk(services, next) && InterfacesOk(services, interfaces, next) && row.id == next
    ensures InterfacesOk(services + {row}, interfaces, After(next, 1))
  {
    hide SameName, SameInterface;
    var more := services + {row};
    forall i | i in interfaces
      ensures i.serviceId in ServiceIds(more) && i.serviceId != next
    {
      assert i.serviceId in ServiceIds(services);
      var r :| r in services && r.id == i.serviceId;
      assert r in more;
    }
  }

  /** An interface row of a service that has none like it. */
  lemma AddInterfaceRow(services: set<ServiceRow>, interfaces: set<InterfaceRow>, next: Id, row: InterfaceRow,
      owner: ServiceRow)
    requires ServicesOk(services, next) && InterfacesOk(services, interfaces, next)
    requires row.id == next && owner in services && row.serviceId == owner.id
    requires forall i, r | i in interfaces && Implements(r, i, services) && SameName(r.name, owner.name) ::
               !SameInterface(i, row)
    ensures InterfacesOk(services, interfaces + {row}, After(next, 1))
  {
    hide Lower;
    var more := interfaces + {row};
    forall i, j, r, q | i in more && j in more && Implements(r, i, services) && Implements(q, j, services)
                        && SameName(r.name, q.name) && SameInterface(i, j)
      ensures i == j
    {
      assert i == row ==> r == owner;
      assert j == row ==> q == owner;
    }
  }

  lemma LaterDefaults(defaults: set<DefaultRow>, interfaces: set<InterfaceRow>, more: set<InterfaceRow>, next: Id)
    requires DefaultsOk(defaults, interfaces, next) && interfaces <= more
    ensures DefaultsOk(defaults, more, After(next, 1))
  {
    hide SameName;
    forall d | d in defaults && d.interfaceId.origin == next.origin
      ensures ImplementedBy(d.interfaceName, d.interfaceId, more)
    {
      var i :| i in interfaces && i.id == d.interfaceId && SameName(i.name, d.interfaceName);
      assert i in more;
    }
  }

  lemma KeysDistinct(d: Descriptor, id: Id)
    ensures OwnersOk(PropertiesOf(d, id), {id})
  {
    var ps := PropertiesOf(d, id);
    assert forall p | p in ps :: p.owner == id;
    assert CAPABILITIES_KEY[0] == 'C' && DESCRIPTION_KEY[0] == 'D' && CUSTOM_PREFIX[0] == 'c';
    hide PropertiesOf;
    forall p, q | p in ps && q in ps && p.key == q.key
      ensures p == q
    {
      PrefixedKey(d, p);
      PrefixedKey(d, q);
    }
  }

  /** The key tells what a property is. */
  lemma PrefixedKey(d: Descriptor, p: Property)
    ensures p in PropertiesOf(d, p.owner) <==>
            (p.key == CAPABILITIES_KEY && d.attributes.capabilities.Some?
              && p.value == JoinWith(d.attributes.capabilities.value, ','))
            || (p.key == DESCRIPTION_KEY && d.attributes.interfaceDescription == Some(p.value))
            || (StartsWith(p.key, CUSTOM_PREFIX) && p.key[2..] in d.customAttributes
              && p.value == d.customAttributes[p.key[2..]])
  {
    hide JoinWith;
    var customs := CustomProperties(d, p.owner);
    if p in customs {
      var key :| key in d.customAttributes && p == Property(p.owner, CUSTOM_PREFIX + key, d.customAttributes[key]);
      assert (CUSTOM_PREFIX + key)[2..] == key;
      assert (CUSTOM_PREFIX + key)[..2] == CUSTOM_PREFIX;
    }
    if StartsWith(p.key, CUSTOM_PREFIX) && p.key[2..] in d.customAttributes
      && p.value == d.customAttributes[p.key[2..]] {
      assert p.key == CUSTOM_PREFIX + p.key[2..];
      assert p == Property(p.owner, CUSTOM_PREFIX + p.key[2..], d.customAttributes[p.key[2..]]);
    }
  }

  lemma MoreOwners(props: set<Property>, owners: set<Id>, more: set<Property>, id: Id)
    requires OwnersOk(props, owners) && OwnersOk(more, {id}) && id !in owners
    ensures OwnersOk(props + more, owners + {id})
  {
  }

  lemma NewId(services: set<ServiceRow>, interfaces: set<InterfaceRow>, next: Id)
    requires ServicesOk(services, next) && InterfacesOk(services, interfaces, next)
    ensures next !in ServiceIds(services) && next !in InterfaceIds(interfaces)
  {
    hide SameName, SameInterface;
  }

  /** A service's own row. */
  lemma StartService(t: Tables, s: Results, next: Id)
    requires Integrity(t, next) && s.interfaces != [] && !LocationTaken(t, StoredLocation(s))
    ensures Integrity(WithService(t, s, next, 0), After(next, 1))
  {
    var row, prop := ServiceRow(next, s.name, StoredLocation(s)), Property(next, DESCRIPTION_KEY, s.description);
    var t' := WithService(t, s, next, 0);
    NewId(t.services, t.interfaces, next);
    assert forall r | r in t.services :: !SameName(r.location, row.location);
    AddServiceRow(t.services, t.interfaces, next, row);
    LaterDefaults(t.defaults, t.interfaces, t.interfaces, next);
    MoreOwners(t.serviceProps, ServiceIds(t.services), {prop}, next);
    assert ServiceIds(t.services + {row}) == ServiceIds(t.services) + {next};
    hide ServicesOk, InterfacesOk, DefaultsOk, OwnersOk, SameName, StoredLocation;
    assert t'.interfaces == t.interfaces && t'.interfaceProps == t.interfaceProps;
    assert Described(t'.services, t'.serviceProps) by {
      DescribedMore(t.services, t.serviceProps, row, prop);
    }
    hide Described;
  }

  lemma DescribedMore(services: set<ServiceRow>, props: set<Property>, row: ServiceRow, prop: Property)
    requires Described(services, props) && prop.owner == row.id && prop.key == DESCRIPTION_KEY
    ensures Described(services + {row}, props + {prop})
  {
    forall r | r in services + {row}
      ensures HasProperty(r.id, DESCRIPTION_KEY, props + {prop})
    {
      if r in services {
        var p :| p in props && p.owner == r.id && p.key == DESCRIPTION_KEY;
        assert p in props + {prop};
      } else {
        assert prop in props + {prop};
      }
    }
  }

  /** One more interface of the service. */
  lemma StepInterface(t: Tables, s: Results, next: Id, k: nat)
    requires ServiceOk(s) && s.interfaces != [] && k < |s.interfaces|
    requires Integrity(WithService(t, s, next, k), After(next, k + 1))
               && !HasRow(WithService(t, s, next, k), s.interfaces[k])
    ensures Integrity(WithService(t, s, next, k + 1), After(next, k + 2))
  {
    hide HasRow, Integrity, SameName, SameInterface, ServiceOk, WithService, StoredLocation, RowOf;
    var u, d, id := WithService(t, s, next, k), s.interfaces[k], After(next, k + 1);
    var owner, row := ServiceRow(next, s.name, StoredLocation(s)), RowOf(d, id, next);
    OwnRow(t, s, next, k);
    WithOneMore(t, s, next, k);
    NoSuchRow(u, d, row, owner);
    AddInterface(u, id, d, row, owner);
  }

  lemma OwnRow(t: Tables, s: Results, next: Id, k: nat)
    requires ServiceOk(s) && s.interfaces != [] && k < |s.interfaces|
    ensures ServiceRow(next, s.name, StoredLocation(s)) in WithService(t, s, next, k).services
    ensures var d, row := s.interfaces[k], RowOf(s.interfaces[k], After(next, k + 1), next);
      d.serviceName == s.name && row.name == d.interfaceName && row.major == d.major && row.minor == d.minor
      && row == RowOf(d, After(next, k + 1), ServiceRow(next, s.name, StoredLocation(s)).id)
  {
    hide StoredLocation, SameDescriptor, SameName;
  }

  lemma WithOneMore(t: Tables, s: Results, next: Id, k: nat)
    requires s.interfaces != [] && k < |s.interfaces|
    ensures var u, d, id := WithService(t, s, next, k), s.interfaces[k], After(next, k + 1);
      WithService(t, s, next, k + 1) ==
        u.(interfaces := u.interfaces + {RowOf(d, id, next)}, interfaceProps := u.interfaceProps + PropertiesOf(d, id))
  {
    hide StoredLocation, PropertiesOf, RowOf;
    var u, d, id := WithService(t, s, next, k), s.interfaces[k], After(next, k + 1);
    assert t.interfaces + NewInterfaces(s.interfaces, next, k + 1) == u.interfaces + {RowOf(d, id, next)};
    assert t.interfaceProps + NewProperties(s.interfaces, next, k + 1) == u.interfaceProps + PropertiesOf(d, id);
  }

  lemma AddInterface(u: Tables, id: Id, d: Descriptor, row: InterfaceRow, owner: ServiceRow)
    requires Integrity(u, id) && owner in u.services && row == RowOf(d, id, owner.id)
    requires forall i, r | i in u.interfaces && Implements(r, i, u.services) && SameName(r.name, owner.name) ::
               !SameInterface(i, row)
    ensures Integrity(u.(interfaces := u.interfaces + {row}, interfaceProps := u.interfaceProps + PropertiesOf(d, id)),
              After(id, 1))
  {
    NewId(u.services, u.interfaces, id);
    AddInterfaceRow(u.services, u.interfaces, id, row, owner);
    LaterServices(u.services, id);
    LaterDefaults(u.defaults, u.interfaces, u.interfaces + {row}, id);
    KeysDistinct(d, id);
    MoreOwners(u.interfaceProps, InterfaceIds(u.interfaces), PropertiesOf(d, id), id);
    assert InterfaceIds(u.interfaces + {row}) == InterfaceIds(u.interfaces) + {id};
    hide ServicesOk, InterfacesOk, DefaultsOk, OwnersOk, Described, PropertiesOf, ServiceIds, InterfaceIds;
  }

  lemma NoSuchRow(t: Tables, d: Descriptor, row: InterfaceRow, owner: ServiceRow)
    requires !HasRow(t, d) && owner.name == d.serviceName && row.name == d.interfaceName && row.major == d.major
               && row.minor == d.minor
    ensures forall i, r | i in t.interfaces && Implements(r, i, t.services) && SameName(r.name, owner.name) ::
              !SameInterface(i, row)
  {
    hide SameName;
    forall i, r | i in t.interfaces && Implements(r, i, t.services) && SameName(r.name, owner.name)
      ensures !SameInterface(i, row)
    {
      assert !IsRowOf(t, d, i, r);
    }
  }

  /** A default for a name that has none. */
  lemma StepDefault(t: Tables, next: Id, name: string, i: InterfaceRow)
    requires Integrity(t, next) && i in t.interfaces && SameName(i.name, name) && !HasDefault(name, t.defaults)
    ensures Integrity(t.(defaults := t.defaults + {DefaultRow(name, i.id)}), next)
  {
    hide ServicesOk, InterfacesOk, OwnersOk, Described, Lower;
    assert ImplementedBy(name, i.id, t.interfaces);
  }

  // ---------------------------------------------------------------------------------------------
  // A registration as a whole
  // ---------------------------------------------------------------------------------------------

  ghost predicate Registrable(t: Tables, s: Results) {
    && ServiceOk(s)
    && !LocationTaken(t, StoredLocation(s))
    && (forall k | 0 <= k < |s.interfaces| :: !HasRow(t, s.interfaces[k]))
  }

  lemma {:induction false} NewInterfaceRow(ds: seq<Descriptor>, next: Id, n: nat, i: InterfaceRow)
    requires n <= |ds|
    ensures i in NewInterfaces(ds, next, n) <==>
            1 <= i.id.number - next.number <= n
              && i == RowOf(ds[i.id.number - next.number - 1], After(next, i.id.number - next.number), next)
  {
    if n > 0 {
      NewInterfaceRow(ds, next, n - 1, i);
    }
  }

  lemma OlderRow(s: Results, k: nat, j: int)
    requires ServiceOk(s) && k < |s.interfaces|
    ensures 0 <= j < k ==> !SameDescriptor(s.interfaces[j], s.interfaces[k])
  {
  }

  /** While a service is being registered, its own new rows do not make its next interface a duplicate. */
  lemma SameRows(t: Tables, s: Results, next: Id, k: nat)
    requires Integrity(t, next) && ServiceOk(s) && s.interfaces != [] && k < |s.interfaces|
    ensures HasRow(WithService(t, s, next, k), s.interfaces[k]) <==> HasRow(t, s.interfaces[k])
  {
    hide Integrity, ServiceOk, WithService, IsRowOf;
    var u, d := WithService(t, s, next, k), s.interfaces[k];
    if HasRow(t, d) {
      var i, r :| i in t.interfaces && r in t.services && IsRowOf(t, d, i, r);
      OldRow(t, s, next, k, i, r);
    }
    if HasRow(u, d) {
      var i, r :| i in u.interfaces && r in u.services && IsRowOf(u, d, i, r);
      RowIsOld(t, s, next, k, i, r);
    }
  }

  lemma OldRow(t: Tables, s: Results, next: Id, k: nat, i: InterfaceRow, r: ServiceRow)
    requires s.interfaces != [] && k < |s.interfaces| && IsRowOf(t, s.interfaces[k], i, r)
    ensures var u := WithService(t, s, next, k);
              i in u.interfaces && r in u.services && IsRowOf(u, s.interfaces[k], i, r)
  {
    hide StoredLocation, NewProperties, NewInterfaces, Lower;
  }

  lemma NotNewRow(s: Results, next: Id, k: nat, i: InterfaceRow)
    requires ServiceOk(s) && k < |s.interfaces|
    requires SameName(i.name, s.interfaces[k].interfaceName) && i.major == s.interfaces[k].major
               && i.minor == s.interfaces[k].minor
    ensures i !in NewInterfaces(s.interfaces, next, k)
  {
    NewInterfaceRow(s.interfaces, next, k, i);
    OlderRow(s, k, i.id.number - next.number - 1);
    hide NewInterfaces, ServiceOk, Lower;
  }

  lemma RowIsOld(t: Tables, s: Results, next: Id, k: nat, i: InterfaceRow, r: ServiceRow)
    requires Integrity(t, next) && ServiceOk(s) && s.interfaces != [] && k < |s.interfaces|
    requires IsRowOf(WithService(t, s, next, k), s.interfaces[k], i, r)
    ensures i in t.interfaces && r in t.services && IsRowOf(t, s.interfaces[k], i, r)
  {
    hide StoredLocation, NewProperties, NewInterfaces, SameName, SameInterface, OwnersOk, DefaultsOk, Described,
      ServiceOk;
    NotNewRow(s, next, k, i);
    assert i in t.interfaces;
    assert i.serviceId in ServiceIds(t.services);
    var q :| q in t.services && q.id == i.serviceId;
    assert Older(q.id, next);
  }

  lemma RegistrableFacts(t: Tables, s: Results, k: nat)
    requires Registrable(t, s) && k <= |s.interfaces|
    ensures ServiceOk(s) && s.interfaces != [] && !LocationTaken(t, StoredLocation(s))
    ensures k > 0 ==> !HasRow(t, s.interfaces[k - 1])
  {
    hide HasRow, LocationTaken, StoredLocation, SameDescriptor;
  }

  lemma InterfaceKept(t: Tables, s: Results, next: Id, k: nat)
    requires Integrity(t, next) && Registrable(t, s) && s.interfaces != [] && k < |s.interfaces|
    requires Integrity(WithService(t, s, next, k), After(next, k + 1))
    ensures Integrity(WithService(t, s, next, k + 1), After(next, k + 2))
  {
    hide Registrable, Integrity, WithService, HasRow, StoredLocation, ServiceOk, LocationTaken, After;
    RegistrableFacts(t, s, k + 1);
    SameRows(t, s, next, k);
    StepInterface(t, s, next, k);
  }

  lemma {:induction false} InterfacesKeep(t: Tables, s: Results, next: Id, k: nat)
    requires Integrity(t, next) && Registrable(t, s) && s.interfaces != [] && k <= |s.interfaces|
    ensures Integrity(WithService(t, s, next, k), After(next, k + 1))
  {
    hide Registrable, Integrity, WithService, StoredLocation, ServiceOk, LocationTaken, After;
    if k == 0 {
      RegistrableFacts(t, s, 0);
      StartService(t, s, next);
    } else {
      InterfacesKeep(t, s, next, k - 1);
      InterfaceKept(t, s, next, k - 1);
    }
  }

  /** The tables once the first m latest interfaces have their default. */
  function WithDefaults(t: Tables, s: Results, next: Id, m: nat): Tables
    requires ServiceOk(s) && m <= |s.latest|
  {
    var defaults := t.defaults + NewDefaults(s.interfaces, s.latest, next, t.defaults, m);
    WithService(t, s, next, |s.interfaces|).(defaults := defaults)
  }

  /** A default made for a latest interface whose name had none. */
  predicate MadeFor(ds: seq<Descriptor>, l: Descriptor, next: Id, before: set<DefaultRow>, e: DefaultRow) {
    l in ds && !HasDefault(l.interfaceName, before) && e == DefaultRow(l.interfaceName, After(next, IndexOf(ds, l) + 1))
  }

  lemma {:induction false} NewDefaultName(ds: seq<Descriptor>, latest: seq<Descriptor>, next: Id,
      before: set<DefaultRow>, m: nat, e: DefaultRow)
    requires m <= |latest| && AllIn(latest, ds)
    ensures e in NewDefaults(ds, latest, next, before, m) <==>
            exists k :: 0 <= k < m && MadeFor(ds, latest[k], next, before, e)
  {
    hide HasDefault, IndexOf;
    if m > 0 {
      NewDefaultName(ds, latest, next, before, m - 1, e);
    }
  }

  /** Part way through, a name has a default if it had one or was dealt with. */
  lemma DefaultsSoFar(t: Tables, s: Results, next: Id, m: nat, name: string)
    requires ServiceOk(s) && m <= |s.latest|
    ensures HasDefault(name, WithDefaults(t, s, next, m).defaults) <==>
            HasDefault(name, t.defaults) || exists k :: 0 <= k < m && SameName(s.latest[k].interfaceName, name)
  {
    hide Lower, NewDefaults, WithService, SameDescriptor;
    var defaults := WithDefaults(t, s, next, m).defaults;
    if HasDefault(name, defaults) && !HasDefault(name, t.defaults) {
      var e :| e in defaults && SameName(e.interfaceName, name);
      NewDefaultName(s.interfaces, s.latest, next, t.defaults, m, e);
    }
    if HasDefault(name, t.defaults) {
      var e :| e in t.defaults && SameName(e.interfaceName, name);
      assert e in defaults;
    }
    forall k | 0 <= k < m && SameName(s.latest[k].interfaceName, name)
      ensures HasDefault(name, defaults)
    {
      DefaultMade(t, s, next, m, name, k);
    }
  }

  lemma DefaultMade(t: Tables, s: Results, next: Id, m: nat, name: string, k: nat)
    requires ServiceOk(s) && k < m <= |s.latest| && SameName(s.latest[k].interfaceName, name)
    ensures HasDefault(name, WithDefaults(t, s, next, m).defaults)
  {
    LatestAreInterfaces(s);
    hide Lower, NewDefaults, WithService, ServiceOk;
    if HasDefault(s.latest[k].interfaceName, t.defaults) {
      var e :| e in t.defaults && SameName(e.interfaceName, s.latest[k].interfaceName);
      assert e in WithDefaults(t, s, next, m).defaults && SameName(e.interfaceName, name);
    } else {
      var e := NewDefault(s, next, t.defaults, m, k);
      assert e in WithDefaults(t, s, next, m).defaults && SameName(e.interfaceName, name);
    }
  }

  lemma NewDefault(s: Results, next: Id, before: set<DefaultRow>, m: nat, k: nat) returns (e: DefaultRow)
    requires k < m <= |s.latest| && AllIn(s.latest, s.interfaces)
    requires !HasDefault(s.latest[k].interfaceName, before)
    ensures e in NewDefaults(s.interfaces, s.latest, next, before, m) && e.interfaceName == s.latest[k].interfaceName
  {
    hide HasDefault, NewDefaults, IndexOf;
    e := DefaultRow(s.latest[k].interfaceName, After(next, IndexOf(s.interfaces, s.latest[k]) + 1));
    NewDefaultName(s.interfaces, s.latest, next, before, m, e);
  }

  lemma LatestAreInterfaces(s: Results)
    requires ServiceOk(s)
    ensures s.interfaces != [] && AllIn(s.latest, s.interfaces)
  {
    hide SameDescriptor, SameName;
  }

  /** The row of a latest interface of the service. */
  lemma LatestRow(t: Tables, s: Results, next: Id, l: Descriptor)
    requires s.interfaces != [] && l in s.interfaces
    ensures var i := RowOf(l, After(next, IndexOf(s.interfaces, l) + 1), next);
      i in WithService(t, s, next, |s.interfaces|).interfaces
  {
    var i := RowOf(l, After(next, IndexOf(s.interfaces, l) + 1), next);
    NewInterfaceRow(s.interfaces, next, |s.interfaces|, i);
    hide NewInterfaces, IndexOf;
  }

  lemma {:induction false} DefaultsKeep(t: Tables, s: Results, next: Id, m: nat)
    requires Integrity(t, next) && Registrable(t, s) && m <= |s.latest|
    ensures Integrity(WithDefaults(t, s, next, m), After(next, |s.interfaces| + 1))
  {
    hide StoredLocation, HasRow, Integrity, HasDefault, ServiceOk, Lower, LocationTaken, WithDefaults;
    if m == 0 {
      NoDefaultsYet(t, s, next);
      InterfacesKeep(t, s, next, |s.interfaces|);
    } else {
      DefaultsKeep(t, s, next, m - 1);
      DefaultStep(t, s, next, m - 1);
      NextDefault(t, s, next, m - 1);
    }
  }

  lemma NoDefaultsYet(t: Tables, s: Results, next: Id)
    requires ServiceOk(s)
    ensures s.interfaces != [] && WithDefaults(t, s, next, 0) == WithService(t, s, next, |s.interfaces|)
  {
    hide StoredLocation, SameDescriptor, SameName;
    assert t.defaults + {} == t.defaults;
  }

  /** A latest interface whose name has no default yet gets one. */
  lemma NextDefault(t: Tables, s: Results, next: Id, m: nat)
    requires ServiceOk(s) && m < |s.latest| && Integrity(WithDefaults(t, s, next, m), After(next, |s.interfaces| + 1))
    ensures var u, l := WithDefaults(t, s, next, m), s.latest[m];
      !HasDefault(l.interfaceName, t.defaults) ==>
        Integrity(u.(defaults := u.defaults
          + {DefaultRow(l.interfaceName, After(next, IndexOf(s.interfaces, l) + 1))}), After(next, |s.interfaces| + 1))
  {
    hide WithDefaults, ServiceOk, HasDefault, Integrity, SameName, IndexOf;
    var u, l := WithDefaults(t, s, next, m), s.latest[m];
    if !HasDefault(l.interfaceName, t.defaults) {
      NotYet(t, s, next, m);
      LatestInterface(t, s, next, m);
      StepDefault(u, After(next, |s.interfaces| + 1), l.interfaceName,
        RowOf(l, After(next, IndexOf(s.interfaces, l) + 1), next));
    }
  }

  lemma NotYet(t: Tables, s: Results, next: Id, m: nat)
    requires ServiceOk(s) && m < |s.latest| && !HasDefault(s.latest[m].interfaceName, t.defaults)
    ensures !HasDefault(s.latest[m].interfaceName, WithDefaults(t, s, next, m).defaults)
  {
    hide WithDefaults, SameDescriptor, HasDefault, Lower;
    DefaultsSoFar(t, s, next, m, s.latest[m].interfaceName);
  }

  lemma LatestInterface(t: Tables, s: Results, next: Id, m: nat)
    requires ServiceOk(s) && m < |s.latest|
    ensures s.latest[m] in s.interfaces
    ensures var i := RowOf(s.latest[m], After(next, IndexOf(s.interfaces, s.latest[m]) + 1), next);
      i in WithDefaults(t, s, next, m).interfaces && SameName(i.name, s.latest[m].interfaceName)
  {
    hide NewDefaults, WithService, SameDescriptor, Lower, IndexOf;
    LatestRow(t, s, next, s.latest[m]);
  }

  lemma DefaultStep(t: Tables, s: Results, next: Id, m: nat)
    requires ServiceOk(s) && m < |s.latest|
    ensures var u, l := WithDefaults(t, s, next, m), s.latest[m];
      WithDefaults(t, s, next, m + 1) ==
        if HasDefault(l.interfaceName, t.defaults) then u
        else u.(defaults := u.defaults + {DefaultRow(l.interfaceName, After(next, IndexOf(s.interfaces, l) + 1))})
  {
    hide WithService, HasDefault, SameDescriptor, SameName, IndexOf;
    NewDefaultStep(s.interfaces, s.latest, next, t.defaults, m);
    hide NewDefaults;
    var l := s.latest[m];
    var before := NewDefaults(s.interfaces, s.latest, next, t.defaults, m);
    assert t.defaults + (before + {}) == t.defaults + before;
    var new0 := {DefaultRow(l.interfaceName, After(next, IndexOf(s.interfaces, l) + 1))};
    assert t.defaults + (before + new0) == t.defaults + before + new0;
  }

  lemma NewDefaultStep(ds: seq<Descriptor>, latest: seq<Descriptor>, next: Id, before: set<DefaultRow>, m: nat)
    requires m < |latest| && AllIn(latest, ds)
    ensures var l := latest[m];
      NewDefaults(ds, latest, next, before, m + 1) == NewDefaults(ds, latest, next, before, m)
        + if HasDefault(l.interfaceName, before) then {}
          else {DefaultRow(l.interfaceName, After(next, IndexOf(ds, l) + 1))}
  {
  }

  lemma DefaultsExist(t: Tables, s: Results, next: Id)
    requires AllDefaulted(t) && ServiceOk(s)
    ensures AllDefaulted(Registered(t, s, next))
  {
    hide HasDefault, Lower, SameDescriptor, StoredLocation;
    var w, m := Registered(t, s, next), |s.latest|;
    assert w == WithDefaults(t, s, next, m);
    forall i | i in w.interfaces
      ensures HasDefault(i.name, w.defaults)
    {
      DefaultsSoFar(t, s, next, m, i.name);
      if i !in t.interfaces {
        NewInterfaceRow(s.interfaces, next, |s.interfaces|, i);
        assert NamedIn(s.interfaces[i.id.number - next.number - 1].interfaceName, s.latest);
      }
    }
  }

  lemma DefaultsLocal(t: Tables, s: Results, next: Id)
    requires AllLocal(t) && ServiceOk(s)
    ensures AllLocal(Registered(t, s, next))
  {
    LatestAreInterfaces(s);
    hide HasDefault, ServiceOk, StoredLocation, NewDefaults;
    var w := Registered(t, s, next);
    forall e | e in w.defaults
      ensures e.interfaceId in InterfaceIds(w.interfaces)
    {
      if e in t.defaults {
        var i :| i in t.interfaces && i.id == e.interfaceId;
        assert i in w.interfaces;
      } else {
        NewDefaultLocal(t, s, next, e);
      }
    }
  }

  /** A new default refers to one of the new interfaces, of its own name. */
  lemma NewDefaultLocal(t: Tables, s: Results, next: Id, e: DefaultRow)
    requires s.interfaces != [] && AllIn(s.latest, s.interfaces)
    requires e in NewDefaults(s.interfaces, s.latest, next, t.defaults, |s.latest|)
    ensures e.interfaceId in InterfaceIds(NewInterfaces(s.interfaces, next, |s.interfaces|))
    ensures e.interfaceId in InterfaceIds(WithService(t, s, next, |s.interfaces|).interfaces)
    ensures !HasDefault(e.interfaceName, t.defaults)
    ensures OfLatest(s, e.interfaceName)
  {
    hide HasDefault, NewDefaults, WithService, IndexOf, NewInterfaces, AllIn, MadeFor;
    NewDefaultName(s.interfaces, s.latest, next, t.defaults, |s.latest|, e);
    var k :| 0 <= k < |s.latest| && MadeFor(s.interfaces, s.latest[k], next, t.defaults, e);
    MadeLocal(t, s, next, s.latest[k], e);
    assert OfLatest(s, e.interfaceName) by {
      assert s.latest[k].interfaceName == e.interfaceName;
    }
  }

  predicate OfLatest(s: Results, name: string) {
    exists k | 0 <= k < |s.latest| :: s.latest[k].interfaceName == name
  }

  lemma MadeLocal(t: Tables, s: Results, next: Id, l: Descriptor, e: DefaultRow)
    requires s.interfaces != [] && MadeFor(s.interfaces, l, next, t.defaults, e)
    ensures e.interfaceId in InterfaceIds(NewInterfaces(s.interfaces, next, |s.interfaces|))
    ensures e.interfaceId in InterfaceIds(WithService(t, s, next, |s.interfaces|).interfaces)
    ensures !HasDefault(e.interfaceName, t.defaults) && e.interfaceName == l.interfaceName
  {
    hide HasDefault, IndexOf, NewInterfaces;
    var i := RowOf(l, e.interfaceId, next);
    NewInterfaceRow(s.interfaces, next, |s.interfaces|, i);
    LatestRow(t, s, next, l);
    assert i.id == e.interfaceId;
  }

  /** Registering keeps the tables in order: no orphans, unique keys, and for each implemented interface
      exactly one default, which implements it. */
  lemma RegisteredKeeps(t: Tables, s: Results, next: Id)
    requires Integrity(t, next) && Registrable(t, s)
    ensures Integrity(Registered(t, s, next), After(next, |s.interfaces| + 1))
    ensures AllDefaulted(t) ==> AllDefaulted(Registered(t, s, next))
    ensures AllLocal(t) ==> AllLocal(Registered(t, s, next))
  {
    DefaultsKeep(t, s, next, |s.latest|);
    assert Registered(t, s, next) == WithDefaults(t, s, next, |s.latest|);
    hide Integrity, AllDefaulted, AllLocal, Registered, WithDefaults, HasRow, LocationTaken;
    if AllDefaulted(t) {
      DefaultsExist(t, s, next);
    }
    if AllLocal(t) {
      DefaultsLocal(t, s, next);
    }
  }

  // ---------------------------------------------------------------------------------------------
  // Unregistering
  // ---------------------------------------------------------------------------------------------

  lemma FewerServices(t: Tables, next: Id, name: string)
    requires ServicesOk(t.services, next) && InterfacesOk(t.services, t.interfaces, next)
    ensures var w := WithoutService(t, name);
              ServicesOk(w.services, next) && InterfacesOk(w.services, w.interfaces, next)
  {
    hide Lower;
    var w := WithoutService(t, name);
    forall i | i in w.interfaces
      ensures i.serviceId in ServiceIds(w.services)
    {
      var r :| r in t.services && r.id == i.serviceId;
      assert r in w.services;
    }
    hide WithoutService;
    FewerKeys(t, next, name);
  }

  lemma FewerKeys(t: Tables, next: Id, name: string)
    requires InterfacesOk(t.services, t.interfaces, next)
    ensures var w := WithoutService(t, name);
      && w.services <= t.services && w.interfaces <= t.interfaces
      && forall i, j, r, s | i in w.interfaces && j in w.interfaces && Implements(r, i, w.services)
        && Implements(s, j, w.services)
           && SameName(r.name, s.name) && SameInterface(i, j) :: i == j
  {
    hide SameName, SameInterface;
    var w := WithoutService(t, name);
    assert forall i, r :: Implements(r, i, w.services) ==> Implements(r, i, t.services);
  }

  lemma FewerProperties(t: Tables, next: Id, name: string)
    requires Integrity(t, next)
    ensures var w := WithoutService(t, name);
      && OwnersOk(w.serviceProps, ServiceIds(w.services)) && OwnersOk(w.interfaceProps, InterfaceIds(w.interfaces))
      && Described(w.services, w.serviceProps)
  {
    hide Lower, InterfacesOk, DefaultsOk;
    var w := WithoutService(t, name);
    forall p | p in w.serviceProps
      ensures p.owner in ServiceIds(w.services)
    {
      var r :| r in t.services && r.id == p.owner;
      assert r in w.services;
    }
    forall p | p in w.interfaceProps
      ensures p.owner in InterfaceIds(w.interfaces)
    {
      var i :| i in t.interfaces && i.id == p.owner;
      assert i in w.interfaces;
    }
    forall r | r in w.services
      ensures HasProperty(r.id, DESCRIPTION_KEY, w.serviceProps)
    {
      var p :| p in t.serviceProps && p.owner == r.id && p.key == DESCRIPTION_KEY;
      assert p in w.serviceProps;
    }
  }

  /** A default that did not point into the service is still an implementation of its name. */
  lemma KeptDefault(t: Tables, next: Id, name: string, d: DefaultRow)
    requires InterfacesOk(t.services, t.interfaces, next) && DefaultsOk(t.defaults, t.interfaces, next)
    requires d in t.defaults && d.interfaceId !in InterfacesOf(t, NamedServices(t, name))
               && d.interfaceId.origin == next.origin
    ensures ImplementedBy(d.interfaceName, d.interfaceId, WithoutService(t, name).interfaces)
  {
    hide SameName, SameInterface;
    var i :| i in t.interfaces && i.id == d.interfaceId && SameName(i.name, d.interfaceName);
    assert i in WithoutService(t, name).interfaces;
  }

  /** A default row is an old one that did not point into the service, or one that did and was moved. */
  predicate Comes(e: DefaultRow, d: DefaultRow, gone: set<Id>, chosen: Choice) {
    if d.interfaceId in gone
      then Lower(d.interfaceName) in chosen && e == DefaultRow(d.interfaceName, chosen[Lower(d.interfaceName)])
    else e == d
  }

  lemma ReelectedRows(t: Tables, name: string, chosen: Choice)
    ensures var gone := InterfacesOf(t, NamedServices(t, name));
      forall e :: e in Reelected(t, name, chosen) <==> exists d :: d in t.defaults && Comes(e, d, gone, chosen)
  {
    hide InterfacesOf, NamedServices, Lower;
    var gone := InterfacesOf(t, NamedServices(t, name));
    forall e | e in Reelected(t, name, chosen)
      ensures exists d :: d in t.defaults && Comes(e, d, gone, chosen)
    {
      if e in t.defaults && e.interfaceId !in gone {
        assert Comes(e, e, gone, chosen);
      } else {
        var d :| d in t.defaults && d.interfaceId in gone && Lower(d.interfaceName) in chosen
          && e == DefaultRow(d.interfaceName, chosen[Lower(d.interfaceName)]);
        assert Comes(e, d, gone, chosen);
      }
    }
  }

  lemma ReelectedOk(t: Tables, next: Id, name: string, chosen: Choice)
    requires Integrity(t, next) && GoodChoice(t, name, chosen)
    ensures DefaultsOk(Reelected(t, name, chosen), WithoutService(t, name).interfaces, next)
  {
    hide ServicesOk, OwnersOk, Described, WithoutService, Lower, InterfacesOk, InterfacesOf, NamedServices,
      ImplementedBy, Best, Reelected;
    var rest, gone, defaults := WithoutService(t, name).interfaces, InterfacesOf(t, NamedServices(t, name)),
      Reelected(t, name, chosen);
    ReelectedRows(t, name, chosen);
    forall e | e in defaults && e.interfaceId.origin == next.origin
      ensures ImplementedBy(e.interfaceName, e.interfaceId, rest)
    {
      var d :| d in t.defaults && Comes(e, d, gone, chosen);
      if d.interfaceId in gone {
        BestImplements(e.interfaceId, e.interfaceName, rest);
      } else {
        KeptDefault(t, next, name, e);
      }
    }
    forall d, e | d in defaults && e in defaults && SameName(d.interfaceName, e.interfaceName)
      ensures d == e
    {
      var d0 :| d0 in t.defaults && Comes(d, d0, gone, chosen);
      var e0 :| e0 in t.defaults && Comes(e, e0, gone, chosen);
      assert SameName(d0.interfaceName, e0.interfaceName);
    }
  }

  lemma BestImplements(id: Id, name: string, interfaces: set<InterfaceRow>)
    requires Best(id, Lower(name), interfaces)
    ensures ImplementedBy(name, id, interfaces) && Implemented(name, interfaces)
  {
    hide Lower, BelowRow;
  }

  /** Unregistering keeps the tables in order, and leaves each interface that is still implemented its
      default. */
  lemma UnregisteredKeeps(t: Tables, next: Id, name: string, chosen: Choice)
    requires Integrity(t, next) && GoodChoice(t, name, chosen)
    ensures Integrity(Unregistered(t, name, chosen), next)
    ensures AllDefaulted(t) ==> AllDefaulted(Unregistered(t, name, chosen))
    ensures AllLocal(t) ==> AllLocal(Unregistered(t, name, chosen))
  {
    FewerServices(t, next, name);
    FewerProperties(t, next, name);
    ReelectedOk(t, next, name, chosen);
    hide ServicesOk, InterfacesOk, OwnersOk, Described, DefaultsOk, WithoutService, Reelected, GoodChoice, AllDefaulted,
      AllLocal;
    if AllDefaulted(t) {
      StillDefaulted(t, name, chosen);
    }
    if AllLocal(t) {
      StillLocal(t, name, chosen);
    }
  }

  lemma StillDefaulted(t: Tables, name: string, chosen: Choice)
    requires AllDefaulted(t) && GoodChoice(t, name, chosen)
    ensures AllDefaulted(Unregistered(t, name, chosen))
  {
    hide InterfacesOf, NamedServices, Lower, Best, Reelected;
    var w, gone := Unregistered(t, name, chosen), InterfacesOf(t, NamedServices(t, name));
    ReelectedRows(t, name, chosen);
    forall i | i in w.interfaces
      ensures HasDefault(i.name, w.defaults)
    {
      assert i in t.interfaces && Implemented(i.name, w.interfaces);
      var d :| d in t.defaults && SameName(d.interfaceName, i.name);
      SameImplemented(d.interfaceName, i.name, w.interfaces);
      var e := if d.interfaceId in gone then DefaultRow(d.interfaceName, chosen[Lower(d.interfaceName)]) else d;
      assert Comes(e, d, gone, chosen);
      assert e in w.defaults;
    }
  }

  lemma SameImplemented(a: string, b: string, interfaces: set<InterfaceRow>)
    requires SameName(a, b)
    ensures Implemented(a, interfaces) <==> Implemented(b, interfaces)
  {
    hide Lower;
  }

  lemma StillLocal(t: Tables, name: string, chosen: Choice)
    requires AllLocal(t) && GoodChoice(t, name, chosen)
    ensures AllLocal(Unregistered(t, name, chosen))
  {
    hide NamedServices, Lower, Reelected;
    var w, gone := Unregistered(t, name, chosen), InterfacesOf(t, NamedServices(t, name));
    ReelectedRows(t, name, chosen);
    forall e | e in w.defaults
      ensures e.interfaceId in InterfaceIds(w.interfaces)
    {
      var d :| d in t.defaults && Comes(e, d, gone, chosen);
      if d.interfaceId in gone {
        assert Best(e.interfaceId, Lower(d.interfaceName), w.interfaces);
      } else {
        var i :| i in t.interfaces && i.id == d.interfaceId;
        assert i in w.interfaces;
      }
    }
  }

  /** What becomes of each default: one that pointed into the service names an implementation of the
      greatest version left, or is gone if none is left; all others stay as they were, and none is new. */
  lemma Reelection(t: Tables, next: Id, name: string, chosen: Choice, d: DefaultRow)
    requires Integrity(t, next) && GoodChoice(t, name, chosen) && d in t.defaults
    ensures var w, gone := Unregistered(t, name, chosen), InterfacesOf(t, NamedServices(t, name));
      if d.interfaceId !in gone then d in w.defaults
      else if Implemented(d.interfaceName, w.interfaces)
           then exists e ::
             e in w.defaults && e.interfaceName == d.interfaceName
             && Best(e.interfaceId, Lower(d.interfaceName), w.interfaces)
           else !HasDefault(d.interfaceName, w.defaults)
    ensures forall e | e in Unregistered(t, name, chosen).defaults :: exists d0 ::
              d0 in t.defaults && d0.interfaceName == e.interfaceName
  {
    hide InterfacesOf, NamedServices, Lower, Reelected, Best, ServicesOk, InterfacesOk, OwnersOk, Described;
    var w, gone := Unregistered(t, name, chosen), InterfacesOf(t, NamedServices(t, name));
    ReelectedRows(t, name, chosen);
    if d.interfaceId in gone {
      if Implemented(d.interfaceName, w.interfaces) {
        var e := DefaultRow(d.interfaceName, chosen[Lower(d.interfaceName)]);
        assert Comes(e, d, gone, chosen);
        assert e in w.defaults;
      } else if HasDefault(d.interfaceName, w.defaults) {
        var e :| e in w.defaults && SameName(e.interfaceName, d.interfaceName);
        var d0 :| d0 in t.defaults && Comes(e, d0, gone, chosen);
        assert d0 == d;
        BestImplements(chosen[Lower(d.interfaceName)], d.interfaceName, w.interfaces);
        assert false;
      }
    } else {
      assert Comes(d, d, gone, chosen);
    }
  }

  // ---------------------------------------------------------------------------------------------
  // Other changes
  // ---------------------------------------------------------------------------------------------

  /** Identifiers that were drawn and not used do no harm. */
  lemma {:induction false} IntegrityLater(t: Tables, next: Id, later: Id)
    requires Integrity(t, next) && later.origin == next.origin && next.number <= later.number
    ensures Integrity(t, later)
  {
    hide SameName, SameInterface, HasProperty, ImplementedBy;
  }

  /** Setting the default of an interface to one of its implementations here, or to an identifier of
      another database. */
  lemma {:induction false} WithDefaultKeeps(t: Tables, next: Id, name: string, id: Id)
    requires Integrity(t, next) && (id.origin == next.origin ==> ImplementedBy(name, id, t.interfaces))
    ensures Integrity(WithDefault(t, name, id), next)
    ensures AllDefaulted(t) ==> AllDefaulted(WithDefault(t, name, id))
    ensures AllLocal(t) && id.origin == next.origin ==> AllLocal(WithDefault(t, name, id))
    ensures HasDefault(name, WithDefault(t, name, id).defaults)
    ensures forall d | d in WithDefault(t, name, id).defaults :: if SameName(d.interfaceName, name)
              then d.interfaceId == id else d in t.defaults
  {
    hide ServicesOk, InterfacesOk, OwnersOk, Described, HasDefault, SameName, ImplementedBy, Implemented, DefaultsOk,
      AllDefaulted, AllLocal;
    DefaultNames(t, name, id);
    SetRows(t, next, name, id);
    if AllDefaulted(t) {
      SetDefaulted(t, name, id);
    }
    if AllLocal(t) && id.origin == next.origin {
      SetLocal(t, name, id);
    }
  }

  lemma {:induction false} SetRows(t: Tables, next: Id, name: string, id: Id)
    requires DefaultsOk(t.defaults, t.interfaces, next)
               && (id.origin == next.origin ==> ImplementedBy(name, id, t.interfaces))
    ensures DefaultsOk(WithDefault(t, name, id).defaults, t.interfaces, next)
    ensures forall d | d in WithDefault(t, name, id).defaults :: if SameName(d.interfaceName, name)
              then d.interfaceId == id else d in t.defaults
  {
    hide Lower;
    var w := WithDefault(t, name, id);
    forall e | e in w.defaults
      ensures if SameName(e.interfaceName, name) then e.interfaceId == id else e in t.defaults
    {
    }
    forall e | e in w.defaults && e.interfaceId.origin == next.origin
      ensures ImplementedBy(e.interfaceName, e.interfaceId, t.interfaces)
    {
      if SameName(e.interfaceName, name) {
        var i :| i in t.interfaces && i.id == id && SameName(i.name, name);
        assert SameName(i.name, e.interfaceName);
      }
    }
    SetNames(t, next, name, id);
  }

  lemma {:induction false} SetNames(t: Tables, next: Id, name: string, id: Id)
    requires DefaultsOk(t.defaults, t.interfaces, next)
    ensures var w := WithDefault(t, name, id);
      forall d, e | d in w.defaults && e in w.defaults && SameName(d.interfaceName, e.interfaceName) :: d == e
  {
    hide Lower, ImplementedBy;
    var w := WithDefault(t, name, id);
    forall d, e | d in w.defaults && e in w.defaults && SameName(d.interfaceName, e.interfaceName)
      ensures d == e
    {
      if HasDefault(name, t.defaults) {
        var d0 :| d0 in t.defaults
          && d == (if SameName(d0.interfaceName, name) then DefaultRow(d0.interfaceName, id) else d0);
        var e0 :| e0 in t.defaults
          && e == (if SameName(e0.interfaceName, name) then DefaultRow(e0.interfaceName, id) else e0);
        assert d0 == e0;
      }
    }
  }

  lemma {:induction false} SetDefaulted(t: Tables, name: string, id: Id)
    requires AllDefaulted(t)
    ensures AllDefaulted(WithDefault(t, name, id))
  {
    hide Lower;
    var w := WithDefault(t, name, id);
    DefaultNames(t, name, id);
    hide WithDefault;
    forall i | i in t.interfaces
      ensures HasDefault(i.name, w.defaults)
    {
      var d :| d in t.defaults && SameName(d.interfaceName, i.name);
      var e :| e in w.defaults && e.interfaceName == d.interfaceName;
    }
    assert w.interfaces == t.interfaces by {
      SetFrame(t, name, id);
    }
  }

  lemma {:induction false} SetFrame(t: Tables, name: string, id: Id)
    ensures WithDefault(t, name, id) == t.(defaults := WithDefault(t, name, id).defaults)
  {
  }

  lemma {:induction false} SetLocal(t: Tables, name: string, id: Id)
    requires AllLocal(t) && ImplementedBy(name, id, t.interfaces)
    ensures AllLocal(WithDefault(t, name, id))
  {
    hide SameName;
    var i :| i in t.interfaces && i.id == id;
    assert id in InterfaceIds(t.interfaces);
  }

  lemma {:induction false} DefaultNames(t: Tables, name: string, id: Id)
    ensures HasDefault(name, WithDefault(t, name, id).defaults)
    ensures forall d | d in t.defaults :: exists e ::
              e in WithDefault(t, name, id).defaults && e.interfaceName == d.interfaceName
  {
    hide Lower;
    var w := WithDefault(t, name, id);
    forall d | d in t.defaults
      ensures exists e :: e in w.defaults && e.interfaceName == d.interfaceName
    {
      var e := if HasDefault(name, t.defaults) && SameName(d.interfaceName, name) then DefaultRow(d.interfaceName, id)
        else d;
      assert e in w.defaults;
    }
    if !HasDefault(name, t.defaults) {
      assert DefaultRow(name, id) in w.defaults;
    }
  }

  lemma {:induction false} WithoutDefaultsKeeps(t: Tables, next: Id, id: Id)
    requires Integrity(t, next)
    ensures Integrity(WithoutDefaultsTo(t, id), next)
  {
    hide ServicesOk, InterfacesOk, OwnersOk, Described, SameName, ImplementedBy;
  }

  /** Among rows of one name there is one with a greatest version. */
  lemma {:induction false} GreatestExists(rows: set<InterfaceRow>, name: string)
    requires Implemented(name, rows)
    ensures exists i :: i in rows && Best(i.id, Lower(name), rows)
  {
    var named := set j | j in rows && SameName(j.name, name);
    var i0 :| i0 in rows && SameName(i0.name, name);
    assert i0 in named;
    GreatestOf(named);
    var i :| i in named && forall j | j in named :: !BelowRow(i, j);
    hide BelowRow;
    assert forall j | j in rows && Lower(j.name) == Lower(name) :: j in named;
  }

  lemma {:induction false} GreatestOf(rows: set<InterfaceRow>)
    requires rows != {}
    ensures exists i :: i in rows && forall j | j in rows :: !BelowRow(i, j)
  {
    var i :| i in rows;
    if rows == {i} {
      assert !BelowRow(i, i);
    } else {
      GreatestOf(rows - {i});
      var m :| m in rows - {i} && forall j | j in rows - {i} :: !BelowRow(m, j);
      var best := if BelowRow(m, i) then i else m;
      forall j | j in rows
        ensures !BelowRow(best, j)
      {
        assert j == i || j in rows - {i};
      }
    }
  }

  // ---------------------------------------------------------------------------------------------
  // Looking rows up while registering
  // ---------------------------------------------------------------------------------------------

  /** The identifier of a descriptor's row. */
  ghost predicate IsIdOf(t: Tables, d: Descriptor, id: Id) {
    exists i, r :: IsRowOf(t, d, i, r) && i.id == id
  }

  lemma {:induction false} RowFound(t: Tables, d: Descriptor, id: Id)
    requires IsIdOf(t, d, id)
    ensures HasRow(t, d)
  {
    hide SameName;
    var i, r :| IsRowOf(t, d, i, r) && i.id == id;
  }

  lemma {:induction false} RowUnique(t: Tables, next: Id, d: Descriptor, i: InterfaceRow, r: ServiceRow,
      j: InterfaceRow, q: ServiceRow)
    requires Integrity(t, next) && IsRowOf(t, d, i, r) && IsRowOf(t, d, j, q)
    ensures i == j
  {
    hide OwnersOk, DefaultsOk, Described, ServicesOk, Lower;
  }

  /** The row of a latest interface of the service being registered can be found, and is the new one. */
  lemma {:induction false} LatestIsRow(t: Tables, s: Results, next: Id, m: nat)
    requires ServiceOk(s) && m < |s.latest| && s.latest[m] in s.interfaces
    ensures var i := RowOf(s.latest[m], After(next, IndexOf(s.interfaces, s.latest[m]) + 1), next);
      var u := WithDefaults(t, s, next, m);
      IsRowOf(u, s.latest[m], i, ServiceRow(next, s.name, StoredLocation(s))) && HasRow(u, s.latest[m])
  {
    hide NewDefaults, NewInterfaces, NewProperties, SameDescriptor, IndexOf, StoredLocation, Lower;
    LatestRow(t, s, next, s.latest[m]);
    var u, i, r := WithDefaults(t, s, next, m),
      RowOf(s.latest[m], After(next, IndexOf(s.interfaces, s.latest[m]) + 1), next),
      ServiceRow(next, s.name, StoredLocation(s));
    assert s.interfaces[IndexOf(s.interfaces, s.latest[m])].serviceName == s.name;
    assert r in u.services && i in u.interfaces;
  }

  /** An identifier from before the registration, or from another database. */
  ghost predicate NotNew(id: Id, next: Id) {
    id.origin != next.origin || id.number < next.number
  }

  lemma {:induction false} DefaultNotNew(t: Tables, next: Id, d: DefaultRow)
    requires Integrity(t, next) && d in t.defaults
    ensures NotNew(d.interfaceId, next)
  {
    hide OwnersOk, ServicesOk, Described, SameName, SameInterface;
    if d.interfaceId.origin == next.origin {
      assert ImplementedBy(d.interfaceName, d.interfaceId, t.interfaces);
      var i :| i in t.interfaces && i.id == d.interfaceId;
      assert Older(i.id, next);
    }
  }

  lemma {:induction false} OldInterfaceId(t: Tables, s: Results, next: Id, m: nat, id: Id)
    requires ServiceOk(s) && s.interfaces != [] && m <= |s.latest| && NotNew(id, next)
    ensures var u := WithDefaults(t, s, next, m);
      (id in InterfaceIds(u.interfaces) <==> id in InterfaceIds(t.interfaces))
        && (HasProperties(u, id) <==> HasProperties(t, id))
  {
    hide StoredLocation, NewDefaults, NewProperties, NewInterfaces, ServiceOk, PropertiesOf;
    var u, n := WithDefaults(t, s, next, m), |s.interfaces|;
    assert u.interfaces == t.interfaces + NewInterfaces(s.interfaces, next, n);
    assert u.interfaceProps == t.interfaceProps + NewProperties(s.interfaces, next, n);
    hide WithDefaults;
    forall i | i in NewInterfaces(s.interfaces, next, n)
      ensures i.id != id
    {
      NewInterfaceRow(s.interfaces, next, n, i);
    }
    forall p | p in NewProperties(s.interfaces, next, n)
      ensures p.owner != id
    {
      NewOwner(s.interfaces, next, n, p);
    }
    if id in InterfaceIds(t.interfaces) {
      var i :| i in t.interfaces && i.id == id;
      assert i in u.interfaces;
    }
    if HasProperties(t, id) {
      var p :| p in t.interfaceProps && p.owner == id;
      assert p in u.interfaceProps;
    }
  }

  lemma {:induction false} OwnerIs(d: Descriptor, id: Id, p: Property)
    requires p in PropertiesOf(d, id)
    ensures p.owner == id
  {
  }

  /** The properties of the new interfaces belong to new identifiers. */
  lemma {:induction false} NewOwner(ds: seq<Descriptor>, next: Id, n: nat, p: Property)
    requires n <= |ds| && p in NewProperties(ds, next, n)
    ensures p.owner.origin == next.origin && next.number < p.owner.number <= next.number + n
  {
    hide PropertiesOf;
    if p in PropertiesOf(ds[n - 1], After(next, n)) {
      OwnerIs(ds[n - 1], After(next, n), p);
    } else {
      NewOwner(ds, next, n - 1, p);
    }
  }

  /** Registering changes nothing about whether a default that was there can be looked up. */
  lemma {:induction false} SameReadable(t: Tables, s: Results, next: Id, m: nat)
    requires Integrity(t, next) && ServiceOk(s) && s.interfaces != [] && m < |s.latest|
    ensures DefaultReadable(WithDefaults(t, s, next, m), s.latest[m].interfaceName) <==>
              DefaultReadable(t, s.latest[m].interfaceName)
  {
    hide Integrity, ServiceOk, WithDefaults, HasProperties, InterfaceIds, Lower, HasDefault;
    var u, name := WithDefaults(t, s, next, m), s.latest[m].interfaceName;
    forall d | d in t.defaults
      ensures (d.interfaceId in InterfaceIds(u.interfaces) <==> d.interfaceId in InterfaceIds(t.interfaces))
                && (HasProperties(u, d.interfaceId) <==> HasProperties(t, d.interfaceId))
    {
      DefaultNotNew(t, next, d);
      OldInterfaceId(t, s, next, m, d.interfaceId);
    }
    SameDefaults(t, s, next, m);
  }

  /** The next latest interface's name has no default but the one it had. */
  lemma {:induction false} SameDefaults(t: Tables, s: Results, next: Id, m: nat)
    requires ServiceOk(s) && m < |s.latest|
    ensures forall d ::
              d in WithDefaults(t, s, next, m).defaults && SameName(d.interfaceName, s.latest[m].interfaceName) <==>
                        d in t.defaults && SameName(d.interfaceName, s.latest[m].interfaceName)
  {
    LatestAreInterfaces(s);
    var u, name := WithDefaults(t, s, next, m), s.latest[m].interfaceName;
    assert u.defaults == t.defaults + NewDefaults(s.interfaces, s.latest, next, t.defaults, m);
    hide ServiceOk, WithDefaults, Lower, NewDefaults, AllIn;
    forall d | d in NewDefaults(s.interfaces, s.latest, next, t.defaults, m)
      ensures !SameName(d.interfaceName, name)
    {
      OtherName(t, s, next, m, d);
    }
  }

  lemma {:induction false} OtherName(t: Tables, s: Results, next: Id, m: nat, d: DefaultRow)
    requires ServiceOk(s) && AllIn(s.latest, s.interfaces) && m < |s.latest|
               && d in NewDefaults(s.interfaces, s.latest, next, t.defaults, m)
    ensures !SameName(d.interfaceName, s.latest[m].interfaceName)
  {
    hide NewDefaults, Lower, SameDescriptor, AllIn, HasDefault, IndexOf, NamedIn;
    NewDefaultName(s.interfaces, s.latest, next, t.defaults, m, d);
    var k :| 0 <= k < m && MadeFor(s.interfaces, s.latest[k], next, t.defaults, d);
    assert !SameName(s.latest[k].interfaceName, s.latest[m].interfaceName);
  }

  /** The defaults of the service's interfaces that exist already can be looked up. */
  ghost predicate AllReadable(t: Tables, s: Results) {
    forall k | 0 <= k < |s.latest| :: DefaultReadable(t, s.latest[k].interfaceName)
  }

  /** The service's first k interfaces are new. */
  ghost predicate NoneThere(t: Tables, s: Results, k: nat) {
    forall j | 0 <= j < k && j < |s.interfaces| :: !HasRow(t, s.interfaces[j])
  }

  ghost predicate ReadableUpTo(t: Tables, s: Results, m: nat) {
    forall k | 0 <= k < m && k < |s.latest| :: DefaultReadable(t, s.latest[k].interfaceName)
  }

  lemma {:induction false} ReadableNext(t: Tables, s: Results, m: nat)
    requires m < |s.latest|
    ensures ReadableUpTo(t, s, 0)
    ensures ReadableUpTo(t, s, m) && DefaultReadable(t, s.latest[m].interfaceName) ==> ReadableUpTo(t, s, m + 1)
    ensures AllReadable(t, s) ==> DefaultReadable(t, s.latest[m].interfaceName)
  {
    hide DefaultReadable;
  }

  /** What looking up the default and the row of the next latest interface can find. */
  lemma {:induction false} NextLatest(t: Tables, s: Results, next: Id, m: nat)
    requires Integrity(t, next) && Registrable(t, s) && ServiceOk(s) && s.interfaces != [] && m < |s.latest|
    ensures s.latest[m] in s.interfaces
    ensures var u, l := WithDefaults(t, s, next, m), s.latest[m];
      && Integrity(u, After(next, |s.interfaces| + 1))
      && (DefaultReadable(u, l.interfaceName) <==> DefaultReadable(t, l.interfaceName))
      && (HasDefault(l.interfaceName, u.defaults) <==> HasDefault(l.interfaceName, t.defaults))
      && HasRow(u, l)
      && (forall id :: IsIdOf(u, l, id) ==> id == After(next, IndexOf(s.interfaces, l) + 1))
  {
    hide Integrity, Registrable, ServiceOk, WithDefaults, DefaultReadable, HasRow, AllIn, IndexOf;
    LatestIn(s, m);
    var u, l := WithDefaults(t, s, next, m), s.latest[m];
    DefaultsKeep(t, s, next, m);
    SameReadable(t, s, next, m);
    SameDefaults(t, s, next, m);
    SameHas(t, s, next, m);
    LatestIsRow(t, s, next, m);
    forall id | IsIdOf(u, l, id)
      ensures id == After(next, IndexOf(s.interfaces, l) + 1)
    {
      OnlyId(t, s, next, m, id);
    }
  }

  lemma {:induction false} LatestIn(s: Results, m: nat)
    requires ServiceOk(s) && m < |s.latest|
    ensures s.latest[m] in s.interfaces
  {
    hide SameDescriptor, SameName;
  }

  lemma {:induction false} SameHas(t: Tables, s: Results, next: Id, m: nat)
    requires ServiceOk(s) && m < |s.latest|
    ensures HasDefault(s.latest[m].interfaceName, WithDefaults(t, s, next, m).defaults) <==>
              HasDefault(s.latest[m].interfaceName, t.defaults)
  {
    hide ServiceOk, WithDefaults, Lower;
    SameDefaults(t, s, next, m);
  }

  lemma {:induction false} OnlyId(t: Tables, s: Results, next: Id, m: nat, id: Id)
    requires ServiceOk(s) && m < |s.latest| && s.latest[m] in s.interfaces
    requires Integrity(WithDefaults(t, s, next, m), After(next, |s.interfaces| + 1))
               && IsIdOf(WithDefaults(t, s, next, m), s.latest[m], id)
    ensures id == After(next, IndexOf(s.interfaces, s.latest[m]) + 1)
  {
    hide Integrity, ServiceOk, WithDefaults, IsRowOf, IndexOf, StoredLocation;
    var u, l := WithDefaults(t, s, next, m), s.latest[m];
    LatestIsRow(t, s, next, m);
    NotEmpty(s);
    var i, r :| IsRowOf(u, l, i, r) && i.id == id;
    RowUnique(u, After(next, |s.interfaces| + 1), l, i, r,
              RowOf(l, After(next, IndexOf(s.interfaces, l) + 1), next), ServiceRow(next, s.name, StoredLocation(s)));
  }

  lemma {:induction false} NotEmpty(s: Results)
    requires ServiceOk(s)
    ensures s.interfaces != []
  {
  }

  // ---------------------------------------------------------------------------------------------
  // Re-electing one default after the other
  // ---------------------------------------------------------------------------------------------

  ghost predicate UniqueNames(defaults: set<DefaultRow>) {
    forall d, e | d in defaults && e in defaults && SameName(d.interfaceName, e.interfaceName) :: d == e
  }

  /** The defaults while those in `left` are still to be moved. */
  ghost function Partly(defaults: set<DefaultRow>, gone: set<Id>, left: set<DefaultRow>,
      chosen: Choice): set<DefaultRow> {
    (set d | d in defaults && (d.interfaceId !in gone || d in left))
    + (set d | d in defaults && d.interfaceId in gone && d !in left && Lower(d.interfaceName) in chosen ::
      DefaultRow(d.interfaceName, chosen[Lower(d.interfaceName)]))
  }

  predicate ComesPartly(e: DefaultRow, d: DefaultRow, gone: set<Id>, left: set<DefaultRow>, chosen: Choice) {
    if d.interfaceId in gone && d !in left
      then Lower(d.interfaceName) in chosen && e == DefaultRow(d.interfaceName, chosen[Lower(d.interfaceName)])
    else e == d
  }

  lemma {:induction false} PartlyRows(defaults: set<DefaultRow>, gone: set<Id>, left: set<DefaultRow>, chosen: Choice,
      e: DefaultRow)
    ensures e in Partly(defaults, gone, left, chosen) <==>
              exists d :: d in defaults && ComesPartly(e, d, gone, left, chosen)
  {
    hide Lower;
    if e in Partly(defaults, gone, left, chosen) {
      if e in defaults && (e.interfaceId !in gone || e in left) {
        assert ComesPartly(e, e, gone, left, chosen);
      } else {
        var d :| d in defaults && d.interfaceId in gone && d !in left && Lower(d.interfaceName) in chosen
          && e == DefaultRow(d.interfaceName, chosen[Lower(d.interfaceName)]);
        assert ComesPartly(e, d, gone, left, chosen);
      }
    }
  }

  /** An UPDATE by name. */
  function Renamed(defaults: set<DefaultRow>, name: string, id: Id): set<DefaultRow> {
    set e | e in defaults :: if SameName(e.interfaceName, name) then DefaultRow(e.interfaceName, id) else e
  }

  function NotNamed(defaults: set<DefaultRow>, name: string): set<DefaultRow> {
    set e | e in defaults && !SameName(e.interfaceName, name)
  }

  lemma {:induction false} MoveOne(defaults: set<DefaultRow>, gone: set<Id>, left: set<DefaultRow>, chosen: Choice,
      d: DefaultRow, id: Id)
    requires UniqueNames(defaults) && d in left && d in defaults && d.interfaceId in gone
               && Lower(d.interfaceName) !in chosen
    ensures Renamed(Partly(defaults, gone, left, chosen), d.interfaceName, id) ==
              Partly(defaults, gone, left - {d}, chosen[Lower(d.interfaceName) := id])
  {
    hide Lower, Partly;
    var chosen' := chosen[Lower(d.interfaceName) := id];
    var before, after := Partly(defaults, gone, left, chosen), Partly(defaults, gone, left - {d}, chosen');
    forall e
      ensures e in Renamed(before, d.interfaceName, id) <==> e in after
    {
      PartlyRows(defaults, gone, left - {d}, chosen', e);
      if e in after {
        var d0 :| d0 in defaults && ComesPartly(e, d0, gone, left - {d}, chosen');
        var e0 := if d0 == d then d else e;
        PartlyRows(defaults, gone, left, chosen, e0);
        assert ComesPartly(e0, d0, gone, left, chosen);
        assert e0 in before;
      }
      if e in Renamed(before, d.interfaceName, id) {
        var e0 :| e0 in before
          && e == (if SameName(e0.interfaceName, d.interfaceName) then DefaultRow(e0.interfaceName, id) else e0);
        PartlyRows(defaults, gone, left, chosen, e0);
        var d0 :| d0 in defaults && ComesPartly(e0, d0, gone, left, chosen);
        assert ComesPartly(e, d0, gone, left - {d}, chosen');
      }
    }
  }

  lemma {:induction false} DropOne(defaults: set<DefaultRow>, gone: set<Id>, left: set<DefaultRow>, chosen: Choice,
      d: DefaultRow)
    requires UniqueNames(defaults) && d in left && d in defaults && d.interfaceId in gone
               && Lower(d.interfaceName) !in chosen
    ensures NotNamed(Partly(defaults, gone, left, chosen), d.interfaceName) ==
              Partly(defaults, gone, left - {d}, chosen)
  {
    hide Lower, Partly;
    var before, after := Partly(defaults, gone, left, chosen), Partly(defaults, gone, left - {d}, chosen);
    forall e
      ensures e in NotNamed(before, d.interfaceName) <==> e in after
    {
      PartlyRows(defaults, gone, left - {d}, chosen, e);
      PartlyRows(defaults, gone, left, chosen, e);
      if e in after {
        var d0 :| d0 in defaults && ComesPartly(e, d0, gone, left - {d}, chosen);
        assert ComesPartly(e, d0, gone, left, chosen);
      }
      if e in NotNamed(before, d.interfaceName) {
        var d0 :| d0 in defaults && ComesPartly(e, d0, gone, left, chosen);
        assert ComesPartly(e, d0, gone, left - {d}, chosen);
      }
    }
  }

  /** Part way through the re-election. */
  ghost predicate Electing(t: Tables, name: string, left: set<DefaultRow>, chosen: Choice) {
    var rest, gone := WithoutService(t, name).interfaces, InterfacesOf(t, NamedServices(t, name));
    && (forall d | d in left :: d in t.defaults && d.interfaceId in gone)
    && (forall n | n in chosen :: Best(chosen[n], n, rest))
    && (forall n | n in chosen :: exists d :: d in t.defaults && d !in left && Lower(d.interfaceName) == n)
    && (forall d | d in t.defaults && d.interfaceId in gone && d !in left && Implemented(d.interfaceName, rest) ::
      Lower(d.interfaceName) in chosen)
  }

  lemma {:induction false} NotChosenYet(t: Tables, name: string, left: set<DefaultRow>, chosen: Choice, d: DefaultRow)
    requires Electing(t, name, left, chosen) && UniqueNames(t.defaults) && d in left
    ensures d in t.defaults && d.interfaceId in InterfacesOf(t, NamedServices(t, name))
              && Lower(d.interfaceName) !in chosen
  {
    hide Lower, Best, WithoutService, InterfacesOf, NamedServices, Implemented;
    forall e | e in t.defaults && e !in left
      ensures Lower(e.interfaceName) != Lower(d.interfaceName)
    {
      assert SameName(e.interfaceName, d.interfaceName) ==> e == d;
    }
  }

  lemma {:induction false} ElectOne(t: Tables, name: string, left: set<DefaultRow>, chosen: Choice, d: DefaultRow,
      id: Id)
    requires Electing(t, name, left, chosen) && d in left
               && Best(id, Lower(d.interfaceName), WithoutService(t, name).interfaces)
    ensures Electing(t, name, left - {d}, chosen[Lower(d.interfaceName) := id])
  {
    hide Lower, Best, WithoutService, InterfacesOf, NamedServices, Implemented;
    var chosen' := chosen[Lower(d.interfaceName) := id];
    forall n | n in chosen'
      ensures exists d0 :: d0 in t.defaults && d0 !in left - {d} && Lower(d0.interfaceName) == n
    {
      if n == Lower(d.interfaceName) {
        assert d in t.defaults && d !in left - {d};
      } else {
        var d0 :| d0 in t.defaults && d0 !in left && Lower(d0.interfaceName) == n;
      }
    }
  }

  lemma {:induction false} ElectNone(t: Tables, name: string, left: set<DefaultRow>, chosen: Choice, d: DefaultRow)
    requires Electing(t, name, left, chosen) && d in left
               && !Implemented(d.interfaceName, WithoutService(t, name).interfaces)
    ensures Electing(t, name, left - {d}, chosen)
  {
    hide Lower, Best, WithoutService, InterfacesOf, NamedServices, Implemented;
    forall n | n in chosen
      ensures exists d0 :: d0 in t.defaults && d0 !in left - {d} && Lower(d0.interfaceName) == n
    {
      var d0 :| d0 in t.defaults && d0 !in left && Lower(d0.interfaceName) == n;
    }
  }

  /** Before the first and after the last default. */
  lemma {:induction false} ElectionEnds(t: Tables, name: string)
    ensures var gone := InterfacesOf(t, NamedServices(t, name));
      var affected := set d | d in t.defaults && d.interfaceId in gone;
      Electing(t, name, affected, map[]) && Partly(t.defaults, gone, affected, map[]) == t.defaults
    ensures forall chosen :: Electing(t, name, {}, chosen) ==>
              GoodChoice(t, name, chosen)
                && Partly(t.defaults, InterfacesOf(t, NamedServices(t, name)), {}, chosen) == Reelected(t, name, chosen)
  {
    hide Lower, Best, WithoutService, InterfacesOf, NamedServices, Implemented;
  }
}
