/** Whole runs: what holds of the tables of src/serviceframework/servicedatabase.cpp after any sequence of
  changes, and of the user's and the system's together however their changes interleave. */
module ServiceRuns {
  import opened Text
  import opened Version
  import opened Descriptor
  import opened ServiceFilter
  import opened ServiceTables
  import opened ServiceUpdates
  import opened ServiceStorage
  import opened ServiceScopes

  /** A successful call, or one that failed and changed nothing, having drawn some identifiers. */
  datatype Change =
    | Register(service: Results)
    | Unregister(name: string, chosen: Choice)
    | SetDefault(descriptor: Descriptor, id: Id)
    | Failure(drawn: nat)

  datatype Database = Database(tables: Tables, next: Id)

  ghost predicate Can(d: Database, c: Change) {
    match c
    case Register(service) => Registrable(d.tables, service)
    case Unregister(name, chosen) => GoodChoice(d.tables, name, chosen)
    case SetDefault(descriptor, id) => IsIdOf(d.tables, descriptor, id)
    case Failure(_) => true
  }

  ghost function Changed(d: Database, c: Change): Database
    requires Can(d, c)
  {
    match c
    case Register(service) => Database(Registered(d.tables, service, d.next), After(d.next, |service.interfaces| + 1))
    case Unregister(name, chosen) => d.(tables := Unregistered(d.tables, name, chosen))
    case SetDefault(descriptor, id) => d.(tables := WithDefault(d.tables, descriptor.interfaceName, id))
    case Failure(drawn) => d.(next := After(d.next, drawn))
  }

  ghost predicate Run(states: seq<Database>, changes: seq<Change>) {
    && |states| == |changes| + 1
    && states[0].tables == NO_TABLES
    && forall i | 0 <= i < |changes| :: Can(states[i], changes[i]) && states[i + 1] == Changed(states[i], changes[i])
  }

  // ---------------------------------------------------------------------------------------------
  // One database
  // ---------------------------------------------------------------------------------------------

  /** Each implemented interface has exactly one default, which implements it, and there are no others. */
  ghost predicate ExactDefaults(t: Tables) {
    && (forall name :: HasDefault(name, t.defaults) <==> Implemented(name, t.interfaces))
    && (forall d, e | d in t.defaults && e in t.defaults && SameName(d.interfaceName, e.interfaceName) :: d == e)
    && (forall d | d in t.defaults :: ImplementedBy(d.interfaceName, d.interfaceId, t.interfaces))
  }

  ghost predicate Sound(d: Database) {
    Integrity(d.tables, d.next) && AllDefaulted(d.tables) && AllLocal(d.tables)
  }

  lemma {:induction false} ChangedSound(d: Database, c: Change)
    requires Sound(d) && Can(d, c)
    ensures Sound(Changed(d, c)) && Changed(d, c).next.origin == d.next.origin
              && Changed(d, c).next.number >= d.next.number
  {
    hide Integrity, AllDefaulted, AllLocal, Registrable, GoodChoice, IsIdOf, Registered, Unregistered, WithDefault;
    match c
    case Register(service) => RegisteredKeeps(d.tables, service, d.next);
    case Unregister(name, chosen) => UnregisteredKeeps(d.tables, d.next, name, chosen);
    case SetDefault(descriptor, id) =>
      RowIsOwn(d.tables, d.next, descriptor, id);
      WithDefaultKeeps(d.tables, d.next, descriptor.interfaceName, id);
    case Failure(drawn) => IntegrityLater(d.tables, d.next, After(d.next, drawn));
  }

  lemma {:induction false} RowIsOwn(t: Tables, next: Id, d: Descriptor, id: Id)
    requires Integrity(t, next) && IsIdOf(t, d, id)
    ensures ImplementedBy(d.interfaceName, id, t.interfaces) && id.origin == next.origin
  {
    hide OwnersOk, Described, ServicesOk, DefaultsOk, Lower, SameInterface;
    var i, r :| IsRowOf(t, d, i, r) && i.id == id;
    assert i in t.interfaces;
  }

  lemma {:induction false} EmptySound(next: Id)
    ensures Sound(Database(NO_TABLES, next))
  {
  }

  lemma {:induction false} SoundExact(d: Database)
    requires Sound(d)
    ensures ExactDefaults(d.tables)
  {
    var t := d.tables;
    UniqueDefaultNames(t, d.next);
    hide Integrity, AllDefaulted, AllLocal, ImplementedBy, SameName, HasDefault, Implemented;
    AllImplement(t, d.next);
    forall name
      ensures HasDefault(name, t.defaults) <==> Implemented(name, t.interfaces)
    {
      NameDefaulted(t, name);
    }
  }

  lemma {:induction false} AllImplement(t: Tables, next: Id)
    requires Integrity(t, next) && AllLocal(t)
    ensures forall e | e in t.defaults :: ImplementedBy(e.interfaceName, e.interfaceId, t.interfaces)
  {
    hide Integrity, AllLocal, ImplementedBy;
    forall e | e in t.defaults
      ensures ImplementedBy(e.interfaceName, e.interfaceId, t.interfaces)
    {
      OwnImplements(t, next, e);
    }
  }

  lemma {:induction false} UniqueDefaultNames(t: Tables, next: Id)
    requires Integrity(t, next)
    ensures forall d, e | d in t.defaults && e in t.defaults && SameName(d.interfaceName, e.interfaceName) :: d == e
  {
    hide OwnersOk, Described, ServicesOk, InterfacesOk, Lower, ImplementedBy;
  }

  lemma {:induction false} NameDefaulted(t: Tables, name: string)
    requires AllDefaulted(t) && forall e | e in t.defaults ::
               ImplementedBy(e.interfaceName, e.interfaceId, t.interfaces)
    ensures HasDefault(name, t.defaults) <==> Implemented(name, t.interfaces)
  {
    hide SameName, AllDefaulted, ImplementedBy;
    if HasDefault(name, t.defaults) {
      var e :| e in t.defaults && SameName(e.interfaceName, name);
      Implementation(t.interfaces, e.interfaceName, e.interfaceId, name);
    }
    if Implemented(name, t.interfaces) {
      var i :| i in t.interfaces && SameName(i.name, name);
      Defaulted(t, i, name);
    }
  }

  lemma {:induction false} Implementation(interfaces: set<InterfaceRow>, a: string, id: Id, b: string)
    requires ImplementedBy(a, id, interfaces) && SameName(a, b)
    ensures Implemented(b, interfaces)
  {
    hide Lower;
    var i :| i in interfaces && i.id == id && SameName(i.name, a);
    assert SameName(i.name, b);
  }

  lemma {:induction false} Defaulted(t: Tables, i: InterfaceRow, name: string)
    requires AllDefaulted(t) && i in t.interfaces && SameName(i.name, name)
    ensures HasDefault(name, t.defaults)
  {
    hide Lower;
    var e :| e in t.defaults && SameName(e.interfaceName, i.name);
    assert SameName(e.interfaceName, name);
  }

  lemma {:induction false} OwnImplements(t: Tables, next: Id, e: DefaultRow)
    requires Integrity(t, next) && AllLocal(t) && e in t.defaults
    ensures ImplementedBy(e.interfaceName, e.interfaceId, t.interfaces)
  {
    hide Integrity;
    LocalImplements(t, next, e);
  }

  /** After any sequence of registrations, deregistrations and choices of defaults, whether they succeed or
      fail: no orphans, unique locations and keys, and exactly one default for each implemented interface. */
  lemma {:induction false} RunSound(states: seq<Database>, changes: seq<Change>, i: nat)
    requires Run(states, changes) && i < |states|
    ensures Sound(states[i]) && ExactDefaults(states[i].tables)
  {
    hide Sound, ExactDefaults, Can, Changed;
    if i == 0 {
      EmptySound(states[0].next);
      assert states[0] == Database(NO_TABLES, states[0].next);
    } else {
      RunSound(states, changes, i - 1);
      ChangedSound(states[i - 1], changes[i - 1]);
    }
    SoundExact(states[i]);
  }

  // ---------------------------------------------------------------------------------------------
  // Stored properties
  // ---------------------------------------------------------------------------------------------

  /** Each interface of the service says something that is stored as a property. */
  ghost predicate Telling(s: Results) {
    forall k | 0 <= k < |s.interfaces| :: Tells(s.interfaces[k])
  }

  predicate Tells(d: Descriptor) {
    d.attributes.capabilities.Some? || d.attributes.interfaceDescription.Some? || d.customAttributes != map[]
  }

  lemma {:induction false} TellsStores(d: Descriptor, id: Id)
    requires Tells(d)
    ensures exists p :: p in PropertiesOf(d, id) && p.owner == id
  {
    if d.attributes.capabilities.Some? {
      assert Property(id, CAPABILITIES_KEY, JoinWith(d.attributes.capabilities.value, ',')) in PropertiesOf(d, id);
    } else if d.attributes.interfaceDescription.Some? {
      assert Property(id, DESCRIPTION_KEY, d.attributes.interfaceDescription.value) in PropertiesOf(d, id);
    } else {
      var key :| key in d.customAttributes;
      assert Property(id, CUSTOM_PREFIX + key, d.customAttributes[key]) in PropertiesOf(d, id);
    }
  }

  lemma {:induction false} RegisteredPopulated(t: Tables, s: Results, next: Id)
    requires Populated(t) && ServiceOk(s) && Telling(s)
    ensures Populated(Registered(t, s, next))
  {
    hide StoredLocation, NewInterfaces, NewProperties, NewDefaults, SameDescriptor, SameName, NamedIn, Tells,
      PropertiesOf;
    var u := Registered(t, s, next);
    assert u.interfaceProps == t.interfaceProps + NewProperties(s.interfaces, next, |s.interfaces|);
    forall i | i in u.interfaces
      ensures HasProperties(u, i.id)
    {
      if i in t.interfaces {
        var p :| p in t.interfaceProps && p.owner == i.id;
        assert p in u.interfaceProps;
      } else {
        NewInterfaceRow(s.interfaces, next, |s.interfaces|, i);
        var k := i.id.number - next.number - 1;
        TellsStores(s.interfaces[k], i.id);
        var p :| p in PropertiesOf(s.interfaces[k], i.id) && p.owner == i.id;
        NewOwnProperties(s.interfaces, next, |s.interfaces|, k, p);
        assert p in u.interfaceProps;
      }
    }
  }

  lemma {:induction false} UnregisteredPopulated(t: Tables, next: Id, name: string, chosen: Choice)
    requires Integrity(t, next) && Populated(t)
    ensures Populated(Unregistered(t, name, chosen))
  {
    hide OwnersOk, Described, ServicesOk, DefaultsOk, SameName, SameInterface, Reelected, NamedServices;
    var u := Unregistered(t, name, chosen);
    forall i | i in u.interfaces
      ensures HasProperties(u, i.id)
    {
      var p :| p in t.interfaceProps && p.owner == i.id;
      assert p in u.interfaceProps;
    }
  }

  lemma {:induction false} ChangedPopulated(d: Database, c: Change)
    requires Sound(d) && Can(d, c) && Populated(d.tables) && (c.Register? ==> Telling(c.service))
    ensures Populated(Changed(d, c).tables)
  {
    hide Integrity, AllDefaulted, AllLocal, GoodChoice, IsIdOf, Registered, Unregistered, WithDefault, Populated,
      Telling, HasRow, LocationTaken;
    match c
    case Register(service) => RegisteredPopulated(d.tables, service, d.next);
    case Unregister(name, chosen) => UnregisteredPopulated(d.tables, d.next, name, chosen);
    case SetDefault(descriptor, id) =>
      SetFrame(d.tables, descriptor.interfaceName, id);
      DefaultsAside(d.tables, Changed(d, c).tables);
    case Failure(_) =>
  }

  /** If all services registered told something of each of their interfaces, all that is there can be read. */
  lemma {:induction false} RunPopulated(states: seq<Database>, changes: seq<Change>, i: nat)
    requires Run(states, changes) && i < |states|
    requires forall j | 0 <= j < |changes| && changes[j].Register? :: Telling(changes[j].service)
    ensures InOrder(states[i].tables)
  {
    hide Sound, Can, Changed, Telling, Populated, ExactDefaults;
    RunSound(states, changes, i);
    Ordered(states[i]);
    if i == 0 {
      NothingToPopulate();
    } else {
      RunPopulated(states, changes, i - 1);
      RunSound(states, changes, i - 1);
      OrderPopulated(states[i - 1].tables);
      ChangedPopulated(states[i - 1], changes[i - 1]);
    }
  }

  lemma {:induction false} NothingToPopulate()
    ensures Populated(NO_TABLES)
  {
  }

  lemma {:induction false} Ordered(d: Database)
    requires Sound(d)
    ensures AllDefaulted(d.tables)
  {
  }

  lemma {:induction false} OrderPopulated(t: Tables)
    requires InOrder(t)
    ensures Populated(t)
  {
  }

  // ---------------------------------------------------------------------------------------------
  // Two databases
  // ---------------------------------------------------------------------------------------------

  datatype Databases = Databases(user: Database, system: Database)

  /** A change to one of the databases, or to a default of the user's that is an interface at system scope. */
  datatype Event = UserChange(c: Change)
    | SystemChange(c: Change) | SetExternal(descriptor: Descriptor, id: Id) | DropExternal(id: Id)

  ghost predicate Possible(d: Databases, e: Event) {
    match e
    case UserChange(c) => Can(d.user, c)
    case SystemChange(c) => Can(d.system, c)
    case SetExternal(descriptor, id) => IsIdOf(d.system.tables, descriptor, id)
    case DropExternal(_) => true
  }

  ghost function Happened(d: Databases, e: Event): Databases
    requires Possible(d, e)
  {
    match e
    case UserChange(c) => d.(user := Changed(d.user, c))
    case SystemChange(c) => d.(system := Changed(d.system, c))
    case SetExternal(descriptor, id) =>
      d.(user := d.user.(tables := WithDefault(d.user.tables, descriptor.interfaceName, id)))
    case DropExternal(id) => d.(user := d.user.(tables := WithoutDefaultsTo(d.user.tables, id)))
  }

  ghost predicate Interleaving(states: seq<Databases>, events: seq<Event>) {
    && |states| == |events| + 1
    && states[0].user.tables == NO_TABLES && states[0].system.tables == NO_TABLES
    && states[0].user.next.origin != states[0].system.next.origin
    && forall i | 0 <= i < |events| :: Possible(states[i], events[i]) && states[i + 1] == Happened(states[i], events[i])
  }

  /** What the manager of both relies on. */
  ghost predicate Together(d: Databases) {
    && Integrity(d.user.tables, d.user.next) && Sound(d.system)
    && Linked(d.user.tables.defaults, d.user.next, d.system.tables.interfaces, d.system.next)
  }

  lemma {:induction false} UserChanged(d: Databases, c: Change)
    requires Together(d) && Can(d.user, c)
    ensures Together(d.(user := Changed(d.user, c)))
  {
    hide Integrity, Sound, Linked, Registrable, GoodChoice, IsIdOf, Registered, Unregistered, WithDefault;
    var u, un, s, sn := d.user.tables, d.user.next, d.system.tables, d.system.next;
    match c
    case Register(service) =>
      RegisteredKeeps(u, service, un);
      OkToRegister(u, service);
      LinkedUserRegistered(u, un, s, sn, service, After(un, |service.interfaces| + 1));
    case Unregister(name, chosen) =>
      UnregisteredKeeps(u, un, name, chosen);
      LinkedUserUnregistered(u, un, s, sn, name, chosen);
    case SetDefault(descriptor, id) =>
      RowIsOwn(u, un, descriptor, id);
      WithDefaultKeeps(u, un, descriptor.interfaceName, id);
      SoundIntegrity(d.system);
      LinkedSet(u, un, s, sn, descriptor.interfaceName, id);
    case Failure(drawn) =>
      IntegrityLater(u, un, After(un, drawn));
      LinkedAfter(u.defaults, un, s.interfaces, sn, After(un, drawn));
  }

  lemma {:induction false} SystemChanged(d: Databases, c: Change)
    requires Together(d) && Can(d.system, c)
    ensures Together(d.(system := Changed(d.system, c)))
  {
    hide Integrity, Sound, Linked, Registrable, GoodChoice, IsIdOf, Registered, Unregistered, WithDefault;
    ChangedSound(d.system, c);
    var u, un, s, sn := d.user.tables, d.user.next, d.system.tables, d.system.next;
    match c
    case Register(service) =>
      OkToRegister(s, service);
      LinkedSystemRegistered(u, un, s, sn, service, After(sn, |service.interfaces| + 1));
    case Unregister(name, chosen) => LinkedSystemUnregistered(u, un, s, sn, name, chosen);
    case SetDefault(descriptor, id) => SetFrame(s, descriptor.interfaceName, id);
    case Failure(drawn) => LinksStay(u.defaults, un, s.interfaces, sn, s.interfaces, After(sn, drawn));
  }

  lemma {:induction false} OkToRegister(t: Tables, s: Results)
    requires Registrable(t, s)
    ensures ServiceOk(s)
  {
  }

  lemma {:induction false} SoundIntegrity(d: Database)
    requires Sound(d)
    ensures Integrity(d.tables, d.next)
  {
  }

  lemma {:induction false} LinkedAfter(defaults: set<DefaultRow>, un: Id, interfaces: set<InterfaceRow>, sn: Id,
      later: Id)
    requires Linked(defaults, un, interfaces, sn) && later.origin == un.origin
    ensures Linked(defaults, later, interfaces, sn)
  {
    hide LinkOk;
  }

  lemma {:induction false} ExternalSet(d: Databases, descriptor: Descriptor, id: Id)
    requires Together(d) && IsIdOf(d.system.tables, descriptor, id)
    ensures Together(Happened(d, SetExternal(descriptor, id)))
  {
    hide Integrity, Sound, Linked, IsIdOf, WithDefault;
    var u, un, s, sn := d.user.tables, d.user.next, d.system.tables, d.system.next;
    SoundIntegrity(d.system);
    RowIsOwn(s, sn, descriptor, id);
    LinkedOrigins(u.defaults, un, s.interfaces, sn);
    WithDefaultKeeps(u, un, descriptor.interfaceName, id);
    LinkedSet(u, un, s, sn, descriptor.interfaceName, id);
  }

  lemma {:induction false} ExternalDropped(d: Databases, id: Id)
    requires Together(d)
    ensures Together(Happened(d, DropExternal(id)))
  {
    hide Integrity, Sound, Linked, WithoutDefaultsTo;
    WithoutDefaultsKeeps(d.user.tables, d.user.next, id);
    LinkedWithout(d.user.tables, d.user.next, d.system.tables, d.system.next, id);
  }

  lemma {:induction false} TogetherAtFirst(d: Databases)
    requires d.user.tables == NO_TABLES && d.system.tables == NO_TABLES && d.user.next.origin != d.system.next.origin
    ensures Together(d)
  {
    EmptySound(d.user.next);
    EmptySound(d.system.next);
    assert d.user == Database(NO_TABLES, d.user.next) && d.system == Database(NO_TABLES, d.system.next);
  }

  /** However changes to the two databases interleave: both keep their integrity, and each default of the
      user's that is an interface at system scope implements its name as long as it exists. */
  lemma {:induction false} InterleavingKeeps(states: seq<Databases>, events: seq<Event>, i: nat)
    requires Interleaving(states, events) && i < |states|
    ensures Together(states[i])
  {
    hide Together, Changed;
    if i == 0 {
      TogetherAtFirst(states[0]);
    } else {
      InterleavingKeeps(states, events, i - 1);
      var d, e := states[i - 1], events[i - 1];
      assert states[i] == Happened(d, e) && Possible(d, e);
      match e
      case UserChange(c) => UserChanged(d, c);
      case SystemChange(c) => SystemChanged(d, c);
      case SetExternal(descriptor, id) => ExternalSet(d, descriptor, id);
      case DropExternal(id) => ExternalDropped(d, id);
    }
  }
}
