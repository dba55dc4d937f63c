/** How a service is added: addService of src/serviceframework/qservicemanager.cpp, from its description in XML
  to the rows of a database. */
module QServiceManager {
  import opened Text
  import opened Version
  import opened Descriptor
  import opened XmlReader
  import opened ServiceTables
  import opened ServiceUpdates
  import opened ServiceStorage
  import opened ServiceUndo
  import X = ServiceXml
  import F = ServiceXmlFacts
  import M = ServiceMetaData
  import R = ServiceXmlRoundTrip
  import E = ServiceXmlEnds
  import opened ServiceScopes
  import B = ServiceDatabase
  import D = DatabaseManager

  // ---------------------------------------------------------------------------------------------
  // From the parser to the database
  // ---------------------------------------------------------------------------------------------

  /** parseResults: what the parser hands on. */
  ghost predicate ResultsOf(m: X.MetaData, s: Results) {
    && s.name == m.serviceName && s.location == m.serviceLocation && s.description == m.serviceDescription
      && s.interfaces == m.interfaces
    && (forall i | 0 <= i < |s.latest| :: s.latest[i] in s.interfaces)
    && (forall i, j | 0 <= i < j < |s.latest| :: !SameName(s.latest[i].interfaceName, s.latest[j].interfaceName))
    && (forall k | 0 <= k < |s.interfaces| :: M.HasLatest(s.latest, s.interfaces[k]))
  }

  /** Whatever the parser accepts is fit to be registered, provided it describes a service at all. */
  lemma {:induction false} ResultsOk(m: X.MetaData, s: Results)
    requires F.Sound(m) && F.Carried(m) && m.interfaces != [] && ResultsOf(m, s)
    ensures ServiceOk(s)
  {
    hide F.Sound, F.Carried, M.HasLatest, SameName, SameDescriptor, NamedIn, Lower;
    KeysDiffer(m);
    Names(m);
    forall k | 0 <= k < |s.interfaces|
      ensures NamedIn(s.interfaces[k].interfaceName, s.latest)
    {
      LatestNamed(s.latest, s.interfaces[k]);
    }
  }

  lemma {:induction false} LatestNamed(latest: seq<Descriptor>, d: Descriptor)
    requires M.HasLatest(latest, d)
    ensures NamedIn(d.interfaceName, latest)
  {
    hide SameName;
  }

  lemma {:induction false} KeysDiffer(m: X.MetaData)
    requires F.Sound(m)
    ensures forall j, k | 0 <= j < k < |m.interfaces| :: !SameDescriptor(m.interfaces[j], m.interfaces[k])
  {
    hide X.Ident, Lower, F.ParsedInterface, F.LatestOk, F.DuplicatesOk;
    forall j, k | 0 <= j < k < |m.interfaces|
      ensures !SameDescriptor(m.interfaces[j], m.interfaces[k])
    {
      if F.SameKey(m.interfaces[j], m.interfaces[k]) {
        F.DistinctKeys(m.interfaces[j], m.interfaces[k]);
      }
    }
  }

  lemma {:induction false} Names(m: X.MetaData)
    requires F.Sound(m) && F.Carried(m)
    ensures forall k | 0 <= k < |m.interfaces| ::
              m.interfaces[k].serviceName == m.serviceName && m.interfaces[k].interfaceName != ""
  {
    hide X.Ident, Lower, F.LatestOk, F.DuplicatesOk, F.Distinct;
    forall k | 0 <= k < |m.interfaces|
      ensures m.interfaces[k].serviceName == m.serviceName && m.interfaces[k].interfaceName != ""
    {
      assert X.OfService(m, m.interfaces[k]) == m.interfaces[k] && F.ParsedInterface(m.interfaces[k]);
    }
  }

  /** What it gives can be stored without loss. */
  lemma {:induction false} ResultsParsed(m: X.MetaData, s: Results, k: nat)
    requires F.Sound(m) && F.Carried(m) && F.Placed(m) && m.interfaces != [] && ResultsOf(m, s) && k < |s.interfaces|
    ensures Parsed(s, s.interfaces[k])
  {
    hide X.Ident, Lower, F.LatestOk, F.DuplicatesOk, F.Distinct, M.HasLatest, StartsWith;
    assert X.OfService(m, m.interfaces[k]) == m.interfaces[k] && F.ParsedInterface(m.interfaces[k]);
    assert X.OfService(m, m.interfaces[0]) == m.interfaces[0];
    assert m.serviceType == Plugin || m.serviceType == InterProcess;
    var d := s.interfaces[k];
    assert d.attributes.serviceType == Some(m.serviceType);
  }

  /** Each interface of a service can be read back as it was described. */
  ghost predicate ReadsBack(t: Tables, s: Results, next: Id) {
    forall k | 0 <= k < |s.interfaces| :: ReadsAs(t, After(next, k + 1), s.interfaces[k])
  }

  ghost predicate ReadsAs(t: Tables, id: Id, d: Descriptor) {
    exists x: JoinedRow :: x in Joined(t) && x.1.id == id && Loaded(t, x) == d
  }

  lemma {:induction false} RegisteredReadsBack(m: X.MetaData, s: Results, t: Tables, next: Id)
    requires F.Sound(m) && F.Carried(m) && F.Placed(m) && m.interfaces != [] && ResultsOf(m, s)
    requires Integrity(t, next) && Registrable(t, s) && ServiceOk(s)
    ensures ReadsBack(Registered(t, s, next), s, next)
  {
    hide F.Sound, F.Carried, F.Placed, ResultsOf, Integrity, Registrable, ServiceOk, Registered, StoredLocation,
      DescriptorOf, Parsed;
    forall k | 0 <= k < |s.interfaces|
      ensures ReadsAs(Registered(t, s, next), After(next, k + 1), s.interfaces[k])
    {
      SameList(m, s);
      ResultsParsed(m, s, k);
      StorageRoundTrip(t, s, next, k);
      var x: JoinedRow := (ServiceRow(next, s.name, StoredLocation(s)),
        RowOf(s.interfaces[k], After(next, k + 1), next));
      assert x in Joined(Registered(t, s, next));
    }
  }

  lemma {:induction false} SameList(m: X.MetaData, s: Results)
    requires ResultsOf(m, s)
    ensures s.interfaces == m.interfaces && s.name == m.serviceName
  {
  }

  /** An interface of a service as it was written. */
  function AsPublished(p: R.Published, d: Descriptor): Descriptor {
    d.(serviceName := p.name,
       attributes := d.attributes.(location := Some(p.location), serviceDescription := Some(p.description),
         serviceType := Some(p.serviceType)))
  }

  /** From document to database and back: a service that is written out as XML, parsed, registered and looked
      up again is the service that was written, in each kind of document that can hold it. */
  lemma {:induction false} PublishedReadsBack(p: R.Published, f: R.Format, s: Results, t: Tables, next: Id)
    requires R.Publishable(p) && F.Distinct(R.Descriptors(p.interfaces))
    requires R.FormatVersion(f) == Some(Version(1, 1))
             || (R.FormatVersion(f) == Some(Version(1, 0)) && p.serviceType == Plugin)
    requires ResultsOf(X.Document(R.DocumentTokens(p, f)).0, s) && Integrity(t, next) && Registrable(t, s)
    ensures X.Document(R.DocumentTokens(p, f)).1 && |s.interfaces| == |p.interfaces|
    ensures forall k | 0 <= k < |p.interfaces| ::
              ReadsAs(Registered(t, s, next), After(next, k + 1), AsPublished(p, p.interfaces[k].d))
  {
    hide X.Document, R.DocumentTokens, R.FormatVersion, F.Distinct, F.Sound, F.Carried, F.Placed, Integrity, Registered,
      R.Descriptors, R.Writable;
    var tokens := R.DocumentTokens(p, f);
    var m := X.Document(tokens).0;
    R.RoundTrip(p, f);
    F.DocumentSound(tokens);
    F.DocumentPlaced(tokens);
    SameList(m, s);
    RegistrableOk(t, s);
    RegisteredReadsBack(m, s, t, next);
  }

  lemma {:induction false} RegistrableOk(t: Tables, s: Results)
    requires Registrable(t, s)
    ensures ServiceOk(s)
  {
  }

  lemma {:induction false} JustRegistered(t: Tables, s: Results, next: Id)
    requires ServiceOk(s)
    ensures NamedServices(Registered(t, s, next), s.name) != {}
  {
    hide StoredLocation, NewInterfaces, NewProperties, NewDefaults, SameDescriptor, NamedIn, Lower;
    var r := ServiceRow(next, s.name, StoredLocation(s));
    assert r in Registered(t, s, next).services;
    assert r.id in NamedServices(Registered(t, s, next), s.name);
  }

  // ---------------------------------------------------------------------------------------------
  // addService
  // ---------------------------------------------------------------------------------------------

  /** QServiceManager::Error. */
  datatype Error =
    | NoError | StorageAccessError | InvalidServiceXml | InvalidServiceInterfaceDescriptor | ServiceAlreadyExists
    | ImplementationAlreadyExists | PluginLoadingFailed | ComponentNotFound | UnknownError

  /** setError: an error of the databases. */
  function ErrorOf(e: B.Error): Error {
    match e
    case NoError => NoError
    case DatabaseNotOpen => StorageAccessError
    case InvalidDatabaseConnection => StorageAccessError
    case CannotCreateDbDir => StorageAccessError
    case CannotOpenServiceDb => StorageAccessError
    case NoWritePermissions => StorageAccessError
    case InvalidDatabaseFile => StorageAccessError
    case LocationAlreadyRegistered => ServiceAlreadyExists
    case IfaceImplAlreadyRegistered => ImplementationAlreadyExists
    case NotFound => ComponentNotFound
    case InvalidDescriptorScope => InvalidServiceInterfaceDescriptor
    case SqlError => UnknownError
    case IfaceIDNotExternal => UnknownError
    case ExternalIfaceIDFound => UnknownError
    case UnknownError => UnknownError
  }

  /** A row that implements this interface, of a service of the same name and in the same version. */
  ghost predicate SameImplementation(t: Tables, d: Descriptor, i: InterfaceRow, r: ServiceRow) {
    && i in t.interfaces && r in t.services && r.id == i.serviceId
    && SameName(r.name, d.serviceName) && SameName(i.name, d.interfaceName) && i.major == d.major && i.minor == d.minor
  }

  /** The error of a plug-in service that cannot be registered: another has its path, or else one of its interfaces is
      implemented. */
  lemma {:induction false} FailuresNamed(t: Tables, s: Results, m: X.MetaData, e: B.Error)
    requires F.Carried(m) && ResultsOf(m, s) && s.interfaces != [] && m.serviceType == Plugin
    ensures B.RightError(t, s, false, e) ==>
              if exists r :: r in t.services && SameName(r.location, s.location)
              then ErrorOf(e) == ServiceAlreadyExists
              else (exists k, i, r :: 0 <= k < |s.interfaces| && SameImplementation(t, s.interfaces[k], i, r)) ==>
                     ErrorOf(e) == ImplementationAlreadyExists
  {
    hide SameName, M.HasLatest;
    assert X.OfService(m, m.interfaces[0]) == m.interfaces[0];
    assert StoredLocation(s) == s.location;
    if k, i, r :| 0 <= k < |s.interfaces| && SameImplementation(t, s.interfaces[k], i, r) {
      assert IsRowOf(t, s.interfaces[k], i, r);
      assert HasRow(t, s.interfaces[k]);
    }
  }

  class QServiceManager {
    const dbManager: D.DatabaseManager
    const scope: Scope
    var error: Error

    /** The tables of the manager's scope. */
    function T(): Tables
      reads dbManager.userDb, dbManager.systemDb
    {
      if scope == SystemScope then dbManager.S() else dbManager.U()
    }

    predicate IsOpen()
      reads dbManager.userDb, dbManager.systemDb
    {
      if scope == SystemScope then dbManager.systemDb.isOpen else dbManager.userDb.isOpen
    }

    function NextId(): Id
      reads dbManager.userDb, dbManager.systemDb
    {
      if scope == SystemScope then dbManager.systemDb.nextId else dbManager.userDb.nextId
    }

    constructor (dbManager: D.DatabaseManager, scope: Scope)
      ensures this.dbManager == dbManager && this.scope == scope && error == NoError
    {
      this.dbManager, this.scope, error := dbManager, scope, NoError;
    }

    /** addService: a service is described, registered, and its plug-in tried out; if that does not load the
        registration is undone. `loads` is whether it does. `data` is the description handed to the database.
        Of a document in which no service starts the source then reads the first of no interfaces: it is `aborted`. */
    method AddService(reader: QXmlStreamReader, opens: bool, loads: bool)
      returns (ok: bool, aborted: bool, ghost m: X.MetaData, ghost parsed: bool, ghost data: Results)
      requires dbManager.Valid() && reader.token == Other
      modifies `error, dbManager, dbManager.userDb, dbManager.systemDb, reader
      ensures dbManager.Valid() && D.Proceeded(old(dbManager.Now()), dbManager.Now())
      ensures if opens then (m, parsed) == X.Document(old(reader.rest)) else !parsed
      ensures parsed ==> ResultsOf(m, data) && (data.interfaces == [] <==> !E.ServiceAhead(old(reader.rest)))
      ensures aborted <==> parsed && !E.ServiceAhead(old(reader.rest)) && IsOpen()
      ensures aborted ==> !ok
      ensures ok ==> parsed && error == NoError && ServiceOk(data) && Registrable(old(T()), data)
      ensures ok ==> T() == Registered(old(T()), data, old(NextId())) && ReadsBack(T(), data, old(NextId()))
      ensures !ok && !aborted ==> (error == NoError <==> parsed && m.serviceType == InterProcess)
      ensures !parsed ==> !ok && error == InvalidServiceXml
      ensures if loads then error != PluginLoadingFailed else ok ==> m.serviceType == InterProcess
      ensures !ok && error != PluginLoadingFailed ==> T() == old(T())
      ensures !ok && !aborted && error !in {NoError, InvalidServiceXml, PluginLoadingFailed} ==>
                error == ErrorOf(dbManager.lastError)
      ensures !ok && parsed && data.interfaces != [] && error != PluginLoadingFailed && IsOpen()
              && dbManager.Faults() == old(dbManager.Faults()) && old(dbManager.Quiet()) ==>
                B.RightError(old(T()), data, false, dbManager.lastError)
      ensures !ok && parsed && data.interfaces != [] && m.serviceType == Plugin && error != PluginLoadingFailed
              && IsOpen() && dbManager.Faults() == old(dbManager.Faults()) && old(dbManager.Quiet()) ==>
                if exists r :: r in old(T()).services && SameName(r.location, data.location)
                then error == ServiceAlreadyExists
                else (exists k, i, r :: 0 <= k < |data.interfaces|
                                         && SameImplementation(old(T()), data.interfaces[k], i, r)) ==>
                       error == ImplementationAlreadyExists
      ensures !ok && error == PluginLoadingFailed && dbManager.Faults() == old(dbManager.Faults())
                && old(dbManager.Quiet()) ==>
                (T() == old(T()) <==> NewName(old(T()), data.name) && NoBareName(old(T()), data))
    {
      hide X.Document, F.Sound, F.Carried, F.Placed, Integrity, Registered, ServiceOk, Registrable, ReadsBack, NewName,
        NoBareName, E.ServiceAhead, ResultsOf, B.RightError;
      error := NoError;
      ok, aborted := false, false;
      var read, results, serviceType;
      read, m, results, serviceType := Parse(reader, opens);
      parsed, data := read, results;
      if read {
        ok, aborted := AddResults(results, serviceType, loads, m);
      } else {
        error := InvalidServiceXml;
      }
    }

    /** The parser and its results. */
    method Parse(reader: QXmlStreamReader, opens: bool)
      returns (parsed: bool, ghost m: X.MetaData, results: Results, serviceType: ServiceType)
      requires reader.token == Other
      modifies reader
      ensures if opens then (m, parsed) == X.Document(old(reader.rest)) else !parsed
      ensures F.Sound(m) && F.Carried(m) && serviceType == m.serviceType
      ensures parsed ==>
                F.Placed(m) && ResultsOf(m, results)
                && (results.interfaces == [] <==> !E.ServiceAhead(old(reader.rest)))
      ensures parsed ==> results.interfaces == m.interfaces
    {
      hide X.Document, F.Sound, F.Carried, F.Placed, E.ServiceAhead, M.HasLatest;
      ghost var tokens := reader.rest;
      var parser := new M.ServiceMetaData();
      parsed := parser.ExtractMetadata(reader, opens);
      m := parser.View();
      F.DocumentPlaced(tokens);
      E.DocumentServices(tokens);
      var latest := parser.LatestInterfaces();
      results := Results(parser.serviceName, parser.serviceLocation, parser.serviceDescription,
        parser.serviceInterfaces, latest);
      serviceType := parser.serviceType;
    }

    /** What follows the parsing. The type of the service decides whether there is a plug-in to be tried. */
    method AddResults(results: Results, serviceType: ServiceType, loads: bool, ghost m: X.MetaData)
        returns (ok: bool, aborted: bool)
      requires dbManager.Valid() && error == NoError && serviceType == m.serviceType
      requires F.Sound(m) && F.Carried(m) && F.Placed(m) && ResultsOf(m, results)
      modifies `error, dbManager, dbManager.userDb, dbManager.systemDb
      ensures dbManager.Valid() && D.Proceeded(old(dbManager.Now()), dbManager.Now())
      ensures aborted <==> results.interfaces == [] && IsOpen()
      ensures aborted ==> !ok
      ensures error != InvalidServiceXml
      ensures if loads then error != PluginLoadingFailed else ok ==> m.serviceType == InterProcess
      ensures ok ==> error == NoError && ServiceOk(results) && Registrable(old(T()), results)
      ensures ok ==> T() == Registered(old(T()), results, old(NextId())) && ReadsBack(T(), results, old(NextId()))
      ensures !ok && !aborted ==> (error == NoError <==> m.serviceType == InterProcess)
      ensures !ok && error != PluginLoadingFailed ==> T() == old(T())
      ensures !ok && !aborted && error !in {NoError, PluginLoadingFailed} ==> error == ErrorOf(dbManager.lastError)
      ensures !ok && results.interfaces != [] && error != PluginLoadingFailed && IsOpen()
              && dbManager.Faults() == old(dbManager.Faults()) && old(dbManager.Quiet()) ==>
                B.RightError(old(T()), results, false, dbManager.lastError)
      ensures !ok && results.interfaces != [] && m.serviceType == Plugin && error != PluginLoadingFailed && IsOpen()
              && dbManager.Faults() == old(dbManager.Faults()) && old(dbManager.Quiet()) ==>
                if exists r :: r in old(T()).services && SameName(r.location, results.location)
                then error == ServiceAlreadyExists
                else (exists k, i, r :: 0 <= k < |results.interfaces|
                                         && SameImplementation(old(T()), results.interfaces[k], i, r)) ==>
                       error == ImplementationAlreadyExists
      ensures !ok && error == PluginLoadingFailed && dbManager.Faults() == old(dbManager.Faults())
                && old(dbManager.Quiet()) ==>
                (T() == old(T()) <==> NewName(old(T()), results.name) && NoBareName(old(T()), results))
    {
      hide F.Sound, F.Carried, F.Placed, Integrity, Registered, ServiceOk, Registrable, ReadsBack, NewName, NoBareName,
        ResultsOf, B.RightError;
      ghost var t, next := T(), NextId();
      aborted := false;
      if results.interfaces == [] {
        aborted := dbManager.OpenDb(scope);
        ok := false;
        if aborted {
          return;
        }
      } else {
        ok := Register(results, m);
      }
      if serviceType == InterProcess {
        return;
      }
      if ok {
        ok := TryPlugin(results, loads, t, next);
      } else {
        error := ErrorOf(dbManager.lastError);
        if results.interfaces != [] {
          FailuresNamed(t, results, m, dbManager.lastError);
        }
      }
    }

    method Register(results: Results, ghost m: X.MetaData) returns (ok: bool)
      requires dbManager.Valid() && F.Sound(m) && F.Carried(m) && F.Placed(m) && ResultsOf(m, results)
                 && results.interfaces != []
      modifies dbManager, dbManager.userDb, dbManager.systemDb
      ensures dbManager.Valid() && D.Proceeded(old(dbManager.Now()), dbManager.Now())
      ensures ServiceOk(results) && (ok <==> dbManager.lastError == B.NoError)
      ensures ok ==> IsOpen() && Registrable(old(T()), results)
      ensures ok ==> T() == Registered(old(T()), results, old(NextId())) && ReadsBack(T(), results, old(NextId()))
      ensures !ok ==> T() == old(T())
      ensures !ok && IsOpen() && dbManager.Faults() == old(dbManager.Faults()) && old(dbManager.Quiet()) ==>
                B.RightError(old(T()), results, false, dbManager.lastError)
    {
      hide F.Sound, F.Carried, F.Placed, Integrity, Registered, ServiceOk, Registrable, ReadsBack, ResultsOf,
        B.RightError;
      ghost var t, next := T(), NextId();
      SameList(m, results);
      ResultsOk(m, results);
      ghost var asked;
      ok, asked := dbManager.RegisterService(results, scope);
      if ok {
        RegisteredReadsBack(m, results, t, next);
      }
    }

    /** The plug-in of a service that was just registered is tried out. */
    method TryPlugin(results: Results, loads: bool, ghost t: Tables, ghost next: Id) returns (ok: bool)
      requires dbManager.Valid() && error == NoError && ServiceOk(results) && IsOpen()
      requires Integrity(t, next) && Registrable(t, results) && T() == Registered(t, results, next)
      modifies `error, dbManager, dbManager.userDb, dbManager.systemDb
      ensures dbManager.Valid() && D.Proceeded(old(dbManager.Now()), dbManager.Now())
      ensures ok == loads
      ensures ok ==> error == NoError && T() == old(T())
      ensures !ok ==> error == PluginLoadingFailed
      ensures !ok && dbManager.Faults() == old(dbManager.Faults()) && old(dbManager.Quiet()) ==>
                (T() == t <==> NewName(t, results.name) && NoBareName(t, results))
    {
      hide Integrity, Registered, Unregistered, ServiceOk, Registrable, GoodChoice, NamedServices, NewName, NoBareName;
      ok := loads;
      if !ok {
        error := PluginLoadingFailed;
        JustRegistered(t, results, next);
        ghost var asked, chosen;
        var gone;
        gone, asked, chosen := dbManager.UnregisterService(results.name, scope);
        if gone {
          UndoExactly(t, results, next, chosen);
        }
      }
    }

    /** interfaceDefault: what the databases find is given back only if they leave no error, whether of this
        call or of an earlier one. */
    method InterfaceDefault(name: string) returns (found: Option<Descriptor>)
      requires dbManager.Valid()
      modifies `error, dbManager, dbManager.userDb, dbManager.systemDb
      ensures dbManager.Valid() && D.Proceeded(old(dbManager.Now()), dbManager.Now())
      ensures found.Some? ==>
                error == NoError && InScope(dbManager.U(), dbManager.S(), found.value)
                && SameName(found.value.interfaceName, name)
      ensures scope == SystemScope && dbManager.Faults() == old(dbManager.Faults()) && old(dbManager.Quiet())
                && IsOpen() ==>
                (found.Some? <==> OwnFound(T(), name) && (old(dbManager.lastError) == B.NoError || !old(Keeps(name))))
      ensures scope == UserScope && dbManager.Faults() == old(dbManager.Faults()) && old(dbManager.Quiet())
                && dbManager.userDb.isOpen && dbManager.systemDb.isOpen ==>
                (found.Some? <==>
                 Findable(old(dbManager.U()), dbManager.S(), name)
                 && (old(dbManager.lastError) == B.NoError || !old(Keeps(name))))
    {
      hide Integrity, InScope, Findable, OwnFound, Missing, LeadsOut, NotStale, D.KeepsError, SameName;
      error := NoError;
      found := dbManager.InterfaceDefault(name, scope);
      if dbManager.lastError != B.NoError {
        error := ErrorOf(dbManager.lastError);
        found := None;
      }
    }

    /** The databases leave their last error as it is when they find the default. */
    ghost predicate Keeps(name: string)
      reads dbManager.userDb, dbManager.systemDb
    {
      D.KeepsError(dbManager.U(), name, scope, dbManager.userDb.isOpen, dbManager.systemDb.isOpen)
    }
  }
}
