/** Descriptors as src/serviceframework/servicedatabase.cpp reads them back from its tables. */
module ServiceStorage {
  import opened Text
  import opened Version
  import opened Descriptor
  import opened ServiceFilter
  import opened ServiceTables
  import opened ServiceUpdates

  /** A property's value, if it is stored. Under integrity there is one at most. */
  ghost function ValueOf(owner: Id, key: string, props: set<Property>): Option<string> {
    if p: Property :| p in props && p.owner == owner && p.key == key then Some(p.value) else None
  }

  /** A stored list of capabilities; an empty text is the empty list. */
  function CapabilityList(text: string): seq<string> {
    var parts := SplitAt(text, ',');
    if |parts| == 1 && parts[0] == "" then [] else parts
  }

  function LocationOf(stored: string): string {
    if StartsWith(stored, IPC_PREFIX) then stored[|IPC_PREFIX|..] else stored
  }

  function TypeOf(stored: string): ServiceType {
    if StartsWith(stored, IPC_PREFIX) then InterProcess else Plugin
  }

  ghost function CustomKeys(owner: Id, props: set<Property>): set<string> {
    set p | p in props && p.owner == owner && StartsWith(p.key, CUSTOM_PREFIX) :: p.key[2..]
  }

  ghost function CustomsOf(owner: Id, props: set<Property>): map<string, string> {
    map key | key in CustomKeys(owner, props) :: ValueOr(ValueOf(owner, CUSTOM_PREFIX + key, props))
  }

  function ValueOr(v: Option<string>): string {
    if v.Some? then v.value else ""
  }

  function Mapped(v: Option<string>): Option<seq<string>> {
    if v.Some? then Some(CapabilityList(v.value)) else None
  }

  /** The descriptor of a row. */
  ghost function DescriptorOf(t: Tables, r: ServiceRow, i: InterfaceRow): Descriptor {
    Descriptor(i.name, r.name, i.major, i.minor,
      Attributes(
        Mapped(ValueOf(i.id, CAPABILITIES_KEY, t.interfaceProps)),
        ValueOf(i.id, DESCRIPTION_KEY, t.interfaceProps),
        Some(LocationOf(r.location)),
        ValueOf(r.id, DESCRIPTION_KEY, t.serviceProps),
        Some(TypeOf(r.location))),
      CustomsOf(i.id, t.interfaceProps),
      UserScope)
  }

  lemma ValueIff(owner: Id, key: string, owners: set<Id>, props: set<Property>, value: string)
    requires OwnersOk(props, owners)
    ensures ValueOf(owner, key, props) == Some(value) <==> Property(owner, key, value) in props
  {
  }

  // ---------------------------------------------------------------------------------------------
  // Storing and loading
  // ---------------------------------------------------------------------------------------------

  /** A descriptor as the metadata parser makes it for a service. */
  ghost predicate Parsed(s: Results, d: Descriptor)
    requires s.interfaces != []
  {
    && d.serviceName == s.name && d.scope == UserScope
    && d.attributes.location == Some(s.location) && d.attributes.serviceDescription == Some(s.description)
    && d.attributes.serviceType == s.interfaces[0].attributes.serviceType
    && (d.attributes.capabilities.Some? ==> ListOfParts(d.attributes.capabilities.value))
    && (d.attributes.serviceType == Some(InterProcess)
      || (d.attributes.serviceType == Some(Plugin) && !StartsWith(s.location, IPC_PREFIX)))
  }

  lemma CapabilityBack(list: seq<string>)
    requires ListOfParts(list)
    ensures CapabilityList(JoinWith(list, ',')) == list
  {
    SplitJoined(list, ',');
    if |list| == 1 {
      assert list[0] in list;
    }
  }

  lemma LocationBack(s: Results, d: Descriptor)
    requires s.interfaces != [] && Parsed(s, d)
    ensures Some(LocationOf(StoredLocation(s))) == d.attributes.location
              && Some(TypeOf(StoredLocation(s))) == d.attributes.serviceType
  {
    if d.attributes.serviceType == Some(InterProcess) {
      assert (IPC_PREFIX + s.location)[..|IPC_PREFIX|] == IPC_PREFIX;
      assert (IPC_PREFIX + s.location)[|IPC_PREFIX|..] == s.location;
    }
  }

  /** The properties of one interface among all. */
  ghost predicate Own(d: Descriptor, id: Id, owners: set<Id>, props: set<Property>) {
    OwnersOk(props, owners) && forall p: Property | p.owner == id :: p in props <==> p in PropertiesOf(d, id)
  }

  lemma NotPrefixed(key: string)
    requires key != "" && key[0] != 'c'
    ensures !StartsWith(key, CUSTOM_PREFIX)
  {
    assert CUSTOM_PREFIX[0] == 'c';
    assert |key| >= 2 ==> key[..2][0] == key[0];
  }

  lemma Keys()
    ensures !StartsWith(CAPABILITIES_KEY, CUSTOM_PREFIX) && !StartsWith(DESCRIPTION_KEY, CUSTOM_PREFIX)
    ensures CAPABILITIES_KEY != DESCRIPTION_KEY
  {
    assert CAPABILITIES_KEY[0] == 'C' && DESCRIPTION_KEY[0] == 'D';
    hide StartsWith;
    NotPrefixed(CAPABILITIES_KEY);
    NotPrefixed(DESCRIPTION_KEY);
  }

  lemma OwnValue(d: Descriptor, id: Id, owners: set<Id>, props: set<Property>, key: string, value: string)
    requires Own(d, id, owners, props)
    ensures ValueOf(id, key, props) == Some(value) <==>
            (key == CAPABILITIES_KEY && d.attributes.capabilities.Some?
              && value == JoinWith(d.attributes.capabilities.value, ','))
            || (key == DESCRIPTION_KEY && d.attributes.interfaceDescription == Some(value))
            || (StartsWith(key, CUSTOM_PREFIX) && key[2..] in d.customAttributes
              && value == d.customAttributes[key[2..]])
  {
    hide PropertiesOf, JoinWith, ValueOf, StartsWith;
    PrefixedKey(d, Property(id, key, value));
    ValueIff(id, key, owners, props, value);
  }

  lemma OwnProperties(d: Descriptor, id: Id, owners: set<Id>, props: set<Property>)
    requires Own(d, id, owners, props)
    ensures ValueOf(id, CAPABILITIES_KEY, props) ==
            if d.attributes.capabilities.Some? then Some(JoinWith(d.attributes.capabilities.value, ',')) else None
    ensures ValueOf(id, DESCRIPTION_KEY, props) == d.attributes.interfaceDescription
  {
    Keys();
    hide ValueOf, JoinWith, Own, StartsWith;
    forall value
      ensures ValueOf(id, CAPABILITIES_KEY, props) == Some(value) <==>
                d.attributes.capabilities.Some? && value == JoinWith(d.attributes.capabilities.value, ',')
      ensures ValueOf(id, DESCRIPTION_KEY, props) == Some(value) <==> d.attributes.interfaceDescription == Some(value)
    {
      OwnValue(d, id, owners, props, CAPABILITIES_KEY, value);
      OwnValue(d, id, owners, props, DESCRIPTION_KEY, value);
    }
    assert ValueOf(id, CAPABILITIES_KEY, props).Some? ==>
      ValueOf(id, CAPABILITIES_KEY, props) == Some(ValueOf(id, CAPABILITIES_KEY, props).value);
    assert ValueOf(id, DESCRIPTION_KEY, props).Some? ==>
      ValueOf(id, DESCRIPTION_KEY, props) == Some(ValueOf(id, DESCRIPTION_KEY, props).value);
  }

  lemma Prefixed(key: string)
    ensures StartsWith(CUSTOM_PREFIX + key, CUSTOM_PREFIX) && (CUSTOM_PREFIX + key)[2..] == key
  {
    assert (CUSTOM_PREFIX + key)[..2] == CUSTOM_PREFIX;
  }

  lemma OwnCustoms(d: Descriptor, id: Id, owners: set<Id>, props: set<Property>)
    requires Own(d, id, owners, props)
    ensures CustomsOf(id, props) == d.customAttributes
  {
    Keys();
    hide ValueOf, PropertiesOf, JoinWith;
    forall key
      ensures key in CustomKeys(id, props) <==> key in d.customAttributes
      ensures key in d.customAttributes ==> ValueOf(id, CUSTOM_PREFIX + key, props) == Some(d.customAttributes[key])
    {
      Prefixed(key);
      if key in d.customAttributes {
        OwnValue(d, id, owners, props, CUSTOM_PREFIX + key, d.customAttributes[key]);
        ValueIff(id, CUSTOM_PREFIX + key, owners, props, d.customAttributes[key]);
        assert Property(id, CUSTOM_PREFIX + key, d.customAttributes[key]) in props;
      }
      if key in CustomKeys(id, props) {
        var p :| p in props && p.owner == id && StartsWith(p.key, CUSTOM_PREFIX) && p.key[2..] == key;
        assert p in PropertiesOf(d, id);
        PrefixedKey(d, p);
      }
    }
    hide CustomKeys;
  }

  /** The properties of the k-th new interface. */
  lemma {:induction false} NewOwnProperties(ds: seq<Descriptor>, next: Id, n: nat, k: nat, p: Property)
    requires k < n <= |ds| && p.owner == After(next, k + 1)
    ensures p in NewProperties(ds, next, n) <==> p in PropertiesOf(ds[k], p.owner)
  {
    hide PropertiesOf, NewInterfaces;
    if k == n - 1 {
      if p in NewProperties(ds, next, n - 1) {
        NewOwner(ds, next, n - 1, p);
      }
    } else {
      NewOwnProperties(ds, next, n - 1, k, p);
      KeysDistinct(ds[n - 1], After(next, n));
    }
  }

  /** Storing a service and loading it gives each of its interfaces back as it was, properties, location,
      type and all. */
  lemma StorageRoundTrip(t: Tables, s: Results, next: Id, k: nat)
    requires Integrity(t, next) && Registrable(t, s) && ServiceOk(s) && s.interfaces != [] && k < |s.interfaces|
               && Parsed(s, s.interfaces[k])
    ensures var u, id := Registered(t, s, next), After(next, k + 1);
      var r, i := ServiceRow(next, s.name, StoredLocation(s)), RowOf(s.interfaces[k], id, next);
      && r in u.services && i in u.interfaces && DescriptorOf(u, r, i) == s.interfaces[k]
  {
    hide Registered, Integrity, Registrable, StoredLocation, NewInterfaces, Own, DescriptorOf, Parsed;
    var d, id, u := s.interfaces[k], After(next, k + 1), Registered(t, s, next);
    RegisteredKeeps(t, s, next);
    RegisteredRows(t, s, next, k);
    StoredOwn(t, s, next, k);
    LoadsBack(u, After(next, |s.interfaces| + 1), s, d, id, next);
  }

  lemma RegisteredRows(t: Tables, s: Results, next: Id, k: nat)
    requires ServiceOk(s) && s.interfaces != [] && k < |s.interfaces|
    ensures var u := Registered(t, s, next);
      && ServiceRow(next, s.name, StoredLocation(s)) in u.services
      && RowOf(s.interfaces[k], After(next, k + 1), next) in u.interfaces
      && Property(next, DESCRIPTION_KEY, s.description) in u.serviceProps
  {
    hide ServiceOk, StoredLocation, NewInterfaces, NewProperties, NewDefaults;
    NewInterfaceRow(s.interfaces, next, |s.interfaces|, RowOf(s.interfaces[k], After(next, k + 1), next));
  }

  lemma LoadsBack(u: Tables, later: Id, s: Results, d: Descriptor, id: Id, next: Id)
    requires Integrity(u, later) && s.interfaces != [] && Parsed(s, d)
               && Own(d, id, InterfaceIds(u.interfaces), u.interfaceProps)
    requires Property(next, DESCRIPTION_KEY, s.description) in u.serviceProps
    ensures DescriptorOf(u, ServiceRow(next, s.name, StoredLocation(s)), RowOf(d, id, next)) == d
  {
    LocationBack(s, d);
    OwnProperties(d, id, InterfaceIds(u.interfaces), u.interfaceProps);
    OwnCustoms(d, id, InterfaceIds(u.interfaces), u.interfaceProps);
    assert OwnersOk(u.serviceProps, ServiceIds(u.services));
    ValueIff(next, DESCRIPTION_KEY, ServiceIds(u.services), u.serviceProps, s.description);
    if d.attributes.capabilities.Some? {
      CapabilityBack(d.attributes.capabilities.value);
    }
    hide Integrity, StoredLocation, LocationOf, TypeOf, ValueOf, CustomsOf, CapabilityList, Own, JoinWith, ListOfParts;
  }

  lemma StoredOwn(t: Tables, s: Results, next: Id, k: nat)
    requires Integrity(t, next) && Registrable(t, s)
               && Integrity(Registered(t, s, next), After(next, |s.interfaces| + 1)) && k < |s.interfaces|
    ensures var u := Registered(t, s, next);
              Own(s.interfaces[k], After(next, k + 1), InterfaceIds(u.interfaces), u.interfaceProps)
  {
    var u, id := Registered(t, s, next), After(next, k + 1);
    hide StoredLocation, NewInterfaces, NewDefaults, PropertiesOf, NewProperties, HasRow, LocationTaken;
    assert u.interfaceProps == t.interfaceProps + NewProperties(s.interfaces, next, |s.interfaces|);
    forall p: Property | p.owner == id
      ensures p in u.interfaceProps <==> p in PropertiesOf(s.interfaces[k], id)
    {
      NewOwnProperties(s.interfaces, next, |s.interfaces|, k, p);
      if p in t.interfaceProps {
        OldOwner(t, next, p);
      }
    }
  }

  lemma OldOwner(t: Tables, next: Id, p: Property)
    requires Integrity(t, next) && p in t.interfaceProps
    ensures Older(p.owner, next)
  {
  }

  // ---------------------------------------------------------------------------------------------
  // Reading properties row by row
  // ---------------------------------------------------------------------------------------------

  function RowsOf(id: Id, props: set<Property>): set<Property> {
    set p | p in props && p.owner == id
  }

  lemma {:induction false} FewerOwners(props: set<Property>, owners: set<Id>, some: set<Property>)
    requires OwnersOk(props, owners) && some <= props
    ensures OwnersOk(some, owners)
  {
  }

  lemma {:induction false} MoreValue(id: Id, owners: set<Id>, done: set<Property>, p: Property, key: string)
    requires OwnersOk(done + {p}, owners) && p.owner == id
    ensures ValueOf(id, key, done + {p}) == if key == p.key then Some(p.value) else ValueOf(id, key, done)
  {
    FewerOwners(done + {p}, owners, done);
    hide OwnersOk;
    forall value
      ensures ValueOf(id, key, done + {p}) == Some(value) <==>
                (if key == p.key then Some(p.value) else ValueOf(id, key, done)) == Some(value)
    {
      ValueIff(id, key, owners, done + {p}, value);
      ValueIff(id, key, owners, done, value);
      assert key == p.key ==> (Property(id, key, value) in done + {p} <==> value == p.value) by {
        if key == p.key {
          ValueIff(id, key, owners, done + {p}, p.value);
        }
      }
    }
    assert ValueOf(id, key, done + {p}).Some? ==>
      ValueOf(id, key, done + {p}) == Some(ValueOf(id, key, done + {p}).value);
    assert ValueOf(id, key, done).Some? ==> ValueOf(id, key, done) == Some(ValueOf(id, key, done).value);
  }

  lemma {:induction false} MoreCustoms(id: Id, owners: set<Id>, done: set<Property>, p: Property)
    requires OwnersOk(done + {p}, owners) && p.owner == id
    ensures CustomsOf(id, done + {p}) ==
            if StartsWith(p.key, CUSTOM_PREFIX) then CustomsOf(id, done)[p.key[2..] := p.value] else CustomsOf(id, done)
  {
    hide OwnersOk, ValueOf;
    var before, after := CustomsOf(id, done), CustomsOf(id, done + {p});
    assert CustomKeys(id, done + {p}) ==
      CustomKeys(id, done) + (if StartsWith(p.key, CUSTOM_PREFIX) then {p.key[2..]} else {});
    forall key | key in after
      ensures after[key] == if StartsWith(p.key, CUSTOM_PREFIX) && key == p.key[2..] then p.value
                else if key in before then before[key] else ""
    {
      MoreValue(id, owners, done, p, CUSTOM_PREFIX + key);
      Prefixed(key);
      assert StartsWith(p.key, CUSTOM_PREFIX) ==> p.key == CUSTOM_PREFIX + p.key[2..];
    }
    hide CustomKeys;
  }

  lemma {:induction false} OnlyRowsOf(id: Id, owners: set<Id>, props: set<Property>)
    requires OwnersOk(props, owners)
    ensures forall key :: ValueOf(id, key, RowsOf(id, props)) == ValueOf(id, key, props)
    ensures CustomsOf(id, RowsOf(id, props)) == CustomsOf(id, props)
  {
    FewerOwners(props, owners, RowsOf(id, props));
    forall key
      ensures ValueOf(id, key, RowsOf(id, props)) == ValueOf(id, key, props)
    {
      hide OwnersOk;
      forall value
        ensures ValueOf(id, key, RowsOf(id, props)) == Some(value) <==> ValueOf(id, key, props) == Some(value)
      {
        ValueIff(id, key, owners, RowsOf(id, props), value);
        ValueIff(id, key, owners, props, value);
      }
      assert ValueOf(id, key, props).Some? ==> ValueOf(id, key, props) == Some(ValueOf(id, key, props).value);
      assert ValueOf(id, key, RowsOf(id, props)).Some? ==>
        ValueOf(id, key, RowsOf(id, props)) == Some(ValueOf(id, key, RowsOf(id, props)).value);
    }
    assert CustomKeys(id, RowsOf(id, props)) == CustomKeys(id, props);
  }

  lemma {:induction false} NothingYet(id: Id)
    ensures forall key :: ValueOf(id, key, {}) == None
    ensures CustomsOf(id, {}) == map[]
  {
  }

  // ---------------------------------------------------------------------------------------------
  // Queries
  // ---------------------------------------------------------------------------------------------

  type JoinedRow = (ServiceRow, InterfaceRow)

  /** The conditions that a filter adds to the query over interfaces and their services. */
  predicate RowMatches(f: Filter, x: JoinedRow) {
    if f.serviceName == "" && f.interfaceName == "" then true
    else
      && (f.serviceName != "" ==> SameName(x.0.name, f.serviceName))
      && (f.interfaceName != "" ==>
            SameName(x.1.name, f.interfaceName)
            && (f.majorVersion >= 0 && f.minorVersion >= 0 ==>
                  match f.matchingRule
                  case ExactVersionMatch => x.1.major == f.majorVersion && x.1.minor == f.minorVersion
                  case MinimumVersionMatch =>
                    x.1.major > f.majorVersion || (x.1.major == f.majorVersion && x.1.minor >= f.minorVersion)))
  }

  /** The interfaces joined with their services. */
  function Joined(t: Tables): set<JoinedRow> {
    set r, i | r in t.services && i in t.interfaces && r.id == i.serviceId :: (r, i)
  }

  function Selected(t: Tables, f: Filter): set<JoinedRow> {
    set x | x in Joined(t) && RowMatches(f, x)
  }

  ghost function Loaded(t: Tables, x: JoinedRow): Descriptor {
    DescriptorOf(t, x.0, x.1)
  }

  /** The query's conditions are the filter's rules for names and versions. */
  lemma {:induction false} RowMatchesNames(t: Tables, f: Filter, x: JoinedRow)
    ensures RowMatches(f, x) <==> NamesMatch(f, Loaded(t, x))
  {
    hide ValueOf, CustomsOf, LocationOf, TypeOf, SameName;
  }

  /** Each interface is joined with exactly one service. */
  lemma {:induction false} JoinedOnce(t: Tables, next: Id, i: InterfaceRow)
    requires Integrity(t, next) && i in t.interfaces
    ensures exists r :: (r, i) in Joined(t)
    ensures forall r, q | (r, i) in Joined(t) && (q, i) in Joined(t) :: r == q
  {
    hide OwnersOk, DefaultsOk, Described, SameName, SameInterface;
    assert i.serviceId in ServiceIds(t.services);
    var r :| r in t.services && r.id == i.serviceId;
    assert (r, i) in Joined(t);
  }

  /** Each of these interfaces has stored a property. */
  ghost predicate AllStored(t: Tables, rows: set<JoinedRow>) {
    forall x | x in rows :: HasProperties(t, x.1.id)
  }

  /** The answer to a query: the descriptors of exactly the interfaces that the filter matches, once each. */
  ghost predicate Answers(t: Tables, f: Filter, result: seq<Descriptor>, rows: seq<JoinedRow>) {
    && |rows| == |result|
    && (forall k | 0 <= k < |rows| :: rows[k] in Joined(t) && result[k] == Loaded(t, rows[k]) && Matches(f, result[k]))
    && (forall j, k | 0 <= j < k < |rows| :: rows[j] != rows[k])
    && (forall x | x in Joined(t) && Matches(f, Loaded(t, x)) :: x in rows)
  }

  ghost predicate DefaultIs(t: Tables, name: string, id: Id) {
    exists d :: d in t.defaults && SameName(d.interfaceName, name) && d.interfaceId == id
  }

  /** The descriptor of a row that is the default of a name, and implements it. */
  ghost predicate DefaultLoads(t: Tables, name: string, d: Descriptor) {
    SameName(d.interfaceName, name) && exists x :: x in Joined(t) && d == Loaded(t, x) && DefaultIs(t, name, x.1.id)
  }

  ghost predicate IdLoads(t: Tables, id: Id, d: Descriptor) {
    exists x :: x in Joined(t) && d == Loaded(t, x) && x.1.id == id
  }
}
