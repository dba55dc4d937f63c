/** The five tables of src/serviceframework/servicedatabase.cpp, as sets of rows, and what a query or a
  change makes of them. */
module ServiceTables {
  import opened Text
  import opened Version
  import opened Descriptor
  import opened ServiceFilter

  /** An identifier: a new one each time, and never one of another database. */
  datatype Id = Id(origin: nat, number: nat)

  datatype ServiceRow = ServiceRow(id: Id, name: string, location: string)

  datatype InterfaceRow = InterfaceRow(id: Id, serviceId: Id, name: string, major: int, minor: int)

  /** A row of ServiceProperty or InterfaceProperty. */
  datatype Property = Property(owner: Id, key: string, value: string)

  datatype DefaultRow = DefaultRow(interfaceName: string, interfaceId: Id)

  datatype Tables = Tables(
    services: set<ServiceRow>,
    interfaces: set<InterfaceRow>,
    serviceProps: set<Property>,
    interfaceProps: set<Property>,
    defaults: set<DefaultRow>)

  const NO_TABLES := Tables({}, {}, {}, {}, {})

  const DESCRIPTION_KEY: string := "DESCRIPTION"
  const CAPABILITIES_KEY: string := "CAPABILITIES"
  const CUSTOM_PREFIX: string := "c_"

  function ServiceIds(services: set<ServiceRow>): set<Id> {
    set r | r in services :: r.id
  }

  function InterfaceIds(interfaces: set<InterfaceRow>): set<Id> {
    set i | i in interfaces :: i.id
  }

  // ---------------------------------------------------------------------------------------------
  // Integrity
  // ---------------------------------------------------------------------------------------------

  ghost predicate Older(id: Id, next: Id) {
    id.origin == next.origin && id.number < next.number
  }

  ghost predicate ServicesOk(services: set<ServiceRow>, next: Id) {
    && (forall r, s | r in services && s in services && r.id == s.id :: r == s)
    && (forall r, s | r in services && s in services && SameName(r.location, s.location) :: r == s)
    && (forall r | r in services :: Older(r.id, next))
  }

  /** No orphans, and no service implements one version of an interface twice. */
  ghost predicate InterfacesOk(services: set<ServiceRow>, interfaces: set<InterfaceRow>, next: Id) {
    && (forall i, j | i in interfaces && j in interfaces && i.id == j.id :: i == j)
    && (forall i | i in interfaces :: Older(i.id, next) && i.serviceId in ServiceIds(services))
    && (forall i, j, r, s | i in interfaces && j in interfaces && Implements(r, i, services)
      && Implements(s, j, services)
          && SameName(r.name, s.name) && SameInterface(i, j) :: i == j)
  }

  predicate Implements(r: ServiceRow, i: InterfaceRow, services: set<ServiceRow>) {
    r in services && r.id == i.serviceId
  }

  predicate SameInterface(i: InterfaceRow, j: InterfaceRow) {
    SameName(i.name, j.name) && i.major == j.major && i.minor == j.minor
  }

  ghost predicate OwnersOk(props: set<Property>, owners: set<Id>) {
    && (forall p | p in props :: p.owner in owners)
    && (forall p, q | p in props && q in props && p.owner == q.owner && p.key == q.key :: p == q)
  }

  ghost predicate Described(services: set<ServiceRow>, props: set<Property>) {
    forall r | r in services :: HasProperty(r.id, DESCRIPTION_KEY, props)
  }

  predicate HasProperty(owner: Id, key: string, props: set<Property>) {
    exists p | p in props :: p.owner == owner && p.key == key
  }

  /** One default for a name, whatever its case. A default of this database is an implementation of its
      name; any other default is an identifier of another database. */
  ghost predicate DefaultsOk(defaults: set<DefaultRow>, interfaces: set<InterfaceRow>, next: Id) {
    && (forall d, e | d in defaults && e in defaults && SameName(d.interfaceName, e.interfaceName) :: d == e)
    && (forall d | d in defaults ::
      d.interfaceId.origin != next.origin || ImplementedBy(d.interfaceName, d.interfaceId, interfaces))
  }

  predicate ImplementedBy(name: string, id: Id, interfaces: set<InterfaceRow>) {
    exists i | i in interfaces :: i.id == id && SameName(i.name, name)
  }

  ghost predicate Integrity(t: Tables, next: Id) {
    && ServicesOk(t.services, next)
    && InterfacesOk(t.services, t.interfaces, next)
    && OwnersOk(t.serviceProps, ServiceIds(t.services))
    && OwnersOk(t.interfaceProps, InterfaceIds(t.interfaces))
    && Described(t.services, t.serviceProps)
    && DefaultsOk(t.defaults, t.interfaces, next)
  }

  predicate HasDefault(name: string, defaults: set<DefaultRow>) {
    exists d | d in defaults :: SameName(d.interfaceName, name)
  }

  predicate Implemented(name: string, interfaces: set<InterfaceRow>) {
    exists i | i in interfaces :: SameName(i.name, name)
  }

  /** Each implemented interface has a default. */
  ghost predicate AllDefaulted(t: Tables) {
    forall i | i in t.interfaces :: HasDefault(i.name, t.defaults)
  }

  /** No default belongs to another database. */
  ghost predicate AllLocal(t: Tables) {
    forall d | d in t.defaults :: d.interfaceId in InterfaceIds(t.interfaces)
  }

  /** Each interface has stored a property. */
  ghost predicate Populated(t: Tables) {
    forall i | i in t.interfaces :: HasProperties(t, i.id)
  }

  predicate HasProperties(t: Tables, id: Id) {
    exists p | p in t.interfaceProps :: p.owner == id
  }

  // ---------------------------------------------------------------------------------------------
  // Registering
  // ---------------------------------------------------------------------------------------------

  /** ServiceMetaDataResults. */
  datatype Results = Results(name: string, location: string, description: string, interfaces: seq<Descriptor>,
    latest: seq<Descriptor>)

  /** The location as it is stored. */
  function StoredLocation(s: Results): string
    requires s.interfaces != []
  {
    if s.interfaces[0].attributes.serviceType == Some(InterProcess) then IPC_PREFIX + s.location else s.location
  }

  /** The k-th identifier after this one. */
  function After(next: Id, k: nat): Id {
    Id(next.origin, next.number + k)
  }

  function RowOf(d: Descriptor, id: Id, serviceId: Id): InterfaceRow {
    InterfaceRow(id, serviceId, d.interfaceName, d.major, d.minor)
  }

  function CustomProperties(d: Descriptor, id: Id): set<Property> {
    set key | key in d.customAttributes :: Property(id, CUSTOM_PREFIX + key, d.customAttributes[key])
  }

  /** The properties stored for an interface. */
  function PropertiesOf(d: Descriptor, id: Id): set<Property> {
    (match d.attributes.capabilities
     case None => {}
     case Some(list) => {Property(id, CAPABILITIES_KEY, JoinWith(list, ','))})
    + (match d.attributes.interfaceDescription
       case None => {}
       case Some(text) => {Property(id, DESCRIPTION_KEY, text)})
    + CustomProperties(d, id)
  }

  /** The rows of the first n interfaces of a service; the service has the identifier `next`. */
  function NewInterfaces(ds: seq<Descriptor>, next: Id, n: nat): set<InterfaceRow>
    requires n <= |ds|
  {
    if n == 0 then {} else NewInterfaces(ds, next, n - 1) + {RowOf(ds[n - 1], After(next, n), next)}
  }

  function NewProperties(ds: seq<Descriptor>, next: Id, n: nat): set<Property>
    requires n <= |ds|
  {
    if n == 0 then {} else NewProperties(ds, next, n - 1) + PropertiesOf(ds[n - 1], After(next, n))
  }

  /** The place of an interface among those of its service. */
  function IndexOf(ds: seq<Descriptor>, d: Descriptor): (k: nat)
    requires d in ds
    ensures k < |ds| && ds[k] == d
  {
    if ds[0] == d then 0 else 1 + IndexOf(ds[1..], d)
  }

  predicate AllIn(xs: seq<Descriptor>, ys: seq<Descriptor>) {
    forall k | 0 <= k < |xs| :: xs[k] in ys
  }

  /** The defaults made for those of the first n latest interfaces that had none. */
  function NewDefaults(ds: seq<Descriptor>, latest: seq<Descriptor>, next: Id, before: set<DefaultRow>,
      n: nat): set<DefaultRow>
    requires n <= |latest| && AllIn(latest, ds)
  {
    if n == 0 then {}
    else
      var l := latest[n - 1];
      NewDefaults(ds, latest, next, before, n - 1)
      + if HasDefault(l.interfaceName, before) then {}
        else {DefaultRow(l.interfaceName, After(next, IndexOf(ds, l) + 1))}
  }

  /** The tables with a service's own row, and its first n interfaces. */
  function WithService(t: Tables, s: Results, next: Id, n: nat): Tables
    requires s.interfaces != [] && n <= |s.interfaces|
  {
    t.(services := t.services + {ServiceRow(next, s.name, StoredLocation(s))},
       serviceProps := t.serviceProps + {Property(next, DESCRIPTION_KEY, s.description)},
       interfaces := t.interfaces + NewInterfaces(s.interfaces, next, n),
       interfaceProps := t.interfaceProps + NewProperties(s.interfaces, next, n))
  }

  /** A description as the metadata parser gives it: all interfaces carry the service's name, no two are of
      one name and version, and the latest of each name are picked out. */
  predicate ServiceOk(s: Results) {
    && s.interfaces != []
    && (forall k | 0 <= k < |s.interfaces| ::
      s.interfaces[k].serviceName == s.name && s.interfaces[k].interfaceName != "")
    && (forall j, k | 0 <= j < k < |s.interfaces| :: !SameDescriptor(s.interfaces[j], s.interfaces[k]))
    && AllIn(s.latest, s.interfaces)
    && (forall j, k | 0 <= j < k < |s.latest| :: !SameName(s.latest[j].interfaceName, s.latest[k].interfaceName))
    && (forall k | 0 <= k < |s.interfaces| :: NamedIn(s.interfaces[k].interfaceName, s.latest))
  }

  /** The tables after a service was registered. */
  function Registered(t: Tables, s: Results, next: Id): Tables
    requires ServiceOk(s)
  {
    var defaults := t.defaults + NewDefaults(s.interfaces, s.latest, next, t.defaults, |s.latest|);
    WithService(t, s, next, |s.interfaces|).(defaults := defaults)
  }

  predicate SameDescriptor(d: Descriptor, e: Descriptor) {
    SameName(d.interfaceName, e.interfaceName) && d.major == e.major && d.minor == e.minor
  }

  predicate NamedIn(name: string, ds: seq<Descriptor>) {
    exists k | 0 <= k < |ds| :: SameName(ds[k].interfaceName, name)
  }

  predicate LocationTaken(t: Tables, location: string) {
    exists r | r in t.services :: SameName(r.location, location)
  }

  /** The row of a descriptor: getInterfaceID. */
  predicate IsRowOf(t: Tables, d: Descriptor, i: InterfaceRow, r: ServiceRow) {
    && i in t.interfaces && Implements(r, i, t.services)
    && SameName(r.name, d.serviceName) && SameName(i.name, d.interfaceName) && i.major == d.major && i.minor == d.minor
  }

  predicate HasRow(t: Tables, d: Descriptor) {
    exists i, r | i in t.interfaces && r in t.services :: IsRowOf(t, d, i, r)
  }

  /** The default of a name can be looked up: it is not of this database or has stored properties. */
  predicate DefaultReadable(t: Tables, name: string) {
    forall d | d in t.defaults && SameName(d.interfaceName, name) ::
      d.interfaceId in InterfaceIds(t.interfaces) ==> HasProperties(t, d.interfaceId)
  }

  // ---------------------------------------------------------------------------------------------
  // Unregistering and defaults
  // ---------------------------------------------------------------------------------------------

  function NamedServices(t: Tables, name: string): set<Id> {
    set r | r in t.services && SameName(r.name, name) :: r.id
  }

  function InterfacesOf(t: Tables, ids: set<Id>): set<Id> {
    set i | i in t.interfaces && i.serviceId in ids :: i.id
  }

  /** The tables without a service, all of its rows gone; the defaults are as they were. */
  function WithoutService(t: Tables, name: string): Tables {
    var ids := NamedServices(t, name);
    var interfaceIds := InterfacesOf(t, ids);
    t.(services := (set r | r in t.services && !SameName(r.name, name)),
       interfaces := (set i | i in t.interfaces && i.serviceId !in ids),
       serviceProps := (set p | p in t.serviceProps && p.owner !in ids),
       interfaceProps := (set p | p in t.interfaceProps && p.owner !in interfaceIds))
  }

  /** The choice of new defaults: for a name, in lower case, the identifier of an implementation. */
  type Choice = map<string, Id>

  /** The defaults that pointed into the service, moved as chosen, or gone. */
  function Reelected(t: Tables, name: string, chosen: Choice): set<DefaultRow> {
    var gone := InterfacesOf(t, NamedServices(t, name));
    (set d | d in t.defaults && d.interfaceId !in gone)
    + (set d | d in t.defaults && d.interfaceId in gone && Lower(d.interfaceName) in chosen ::
      DefaultRow(d.interfaceName, chosen[Lower(d.interfaceName)]))
  }

  predicate BelowRow(i: InterfaceRow, j: InterfaceRow) {
    i.major < j.major || (i.major == j.major && i.minor < j.minor)
  }

  /** An implementation of the name with the greatest version. */
  predicate Best(id: Id, name: string, interfaces: set<InterfaceRow>) {
    exists i | i in interfaces ::
      i.id == id && Lower(i.name) == name && forall j | j in interfaces && Lower(j.name) == name :: !BelowRow(i, j)
  }

  /** A greatest version is chosen for each name that lost its default and is still implemented. */
  ghost predicate GoodChoice(t: Tables, name: string, chosen: Choice) {
    var rest := WithoutService(t, name).interfaces;
    var gone := InterfacesOf(t, NamedServices(t, name));
    && (forall n | n in chosen :: Best(chosen[n], n, rest))
    && (forall d | d in t.defaults && d.interfaceId in gone && Implemented(d.interfaceName, rest) ::
      Lower(d.interfaceName) in chosen)
  }

  function Unregistered(t: Tables, name: string, chosen: Choice): Tables {
    WithoutService(t, name).(defaults := Reelected(t, name, chosen))
  }

  /** A name's default is set. */
  function WithDefault(t: Tables, name: string, id: Id): Tables {
    t.(defaults :=
      if HasDefault(name, t.defaults)
      then (set d | d in t.defaults :: if SameName(d.interfaceName, name) then DefaultRow(d.interfaceName, id) else d)
      else t.defaults + {DefaultRow(name, id)})
  }

  /** The defaults that are no interface of this database. */
  function ExternalDefaults(t: Tables): set<DefaultRow> {
    set d | d in t.defaults && d.interfaceId !in InterfaceIds(t.interfaces)
  }

  /** The defaults that refer to an identifier are removed. */
  function WithoutDefaultsTo(t: Tables, id: Id): Tables {
    t.(defaults := set d | d in t.defaults && d.interfaceId != id)
  }
}
