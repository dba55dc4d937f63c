/** The service database of src/serviceframework/servicedatabase.cpp: methods that query and change the tables
  in transactions, any step of which the database engine may refuse. */
module ServiceDatabase {
  import opened Text
  import opened Version
  import opened Descriptor
  import opened ServiceFilter
  import opened ServiceTables
  import opened ServiceUpdates
  import opened ServiceStorage

  /** DBError. */
  datatype Error =
    | NoError | DatabaseNotOpen | LocationAlreadyRegistered | IfaceImplAlreadyRegistered | NotFound | SqlError
    | IfaceIDNotExternal | CannotOpenServiceDb | ExternalIfaceIDFound | InvalidDescriptorScope | InvalidDatabaseFile
    | NoWritePermissions | CannotCreateDbDir | InvalidDatabaseConnection | UnknownError

  /** The error of a registration that failed although the engine refused no statement. */
  ghost predicate RightError(t: Tables, s: Results, ok: bool, error: Error)
    requires s.interfaces != []
  {
    && (ok ==> error == NoError)
    && (LocationTaken(t, StoredLocation(s)) ==> error == LocationAlreadyRegistered)
    && (!LocationTaken(t, StoredLocation(s)) && !NoneThere(t, s, |s.interfaces|) ==>
      error == IfaceImplAlreadyRegistered)
  }

  /** What a call does to transactions: it leaves one open exactly if the engine has refused to roll it back,
      and one that was open before stays so. */
  ghost predicate Ended(before: Option<Tables>, after: Option<Tables>, stuckBefore: nat, stuck: nat) {
    if before.None? then stuckBefore <= stuck && (after.None? <==> stuck == stuckBefore)
    else after == before && stuck == stuckBefore
  }

  class ServiceDatabase {
    /** The tables as this connection sees them. */
    var tables: Tables
    /** The tables as they were when the open transaction began. */
    var saved: Option<Tables>
    var nextId: Id
    var isOpen: bool
    var lastError: Error
    /** How often the engine has refused a statement. */
    ghost var faults: nat
    /** How often it has refused to roll a transaction back, which then stays open. */
    ghost var stuck: nat

    /** What the database holds apart from an open transaction. */
    function Disk(): Tables
      reads this
    {
      if saved.Some? then saved.value else tables
    }

    ghost predicate Valid()
      reads this
    {
      Integrity(Disk(), nextId)
    }

    constructor (origin: nat)
      ensures Valid() && saved.None? && !isOpen && tables == NO_TABLES && nextId.origin == origin
    {
      tables, saved, nextId, isOpen, lastError, faults, stuck := NO_TABLES, None, Id(origin, 0), false, NoError, 0, 0;
    }

    /** open: the file system or the engine may refuse. */
    method Open() returns (ok: bool)
      modifies `isOpen, `lastError
      ensures ok == isOpen
      ensures old(isOpen) ==> ok && lastError == old(lastError)
      ensures !ok ==>
                lastError in {CannotCreateDbDir, InvalidDatabaseConnection, SqlError, NoWritePermissions,
                InvalidDatabaseFile}
    {
      if isOpen {
        return true;
      }
      ok := *;
      if !ok {
        var error :| error in {CannotCreateDbDir, InvalidDatabaseConnection, SqlError, NoWritePermissions,
          InvalidDatabaseFile};
        lastError := error;
      }
      isOpen := ok;
    }

    /** A statement the engine may refuse, with an error of its own. */
    method ExecuteQuery() returns (ok: bool)
      modifies `lastError, `faults
      ensures faults >= old(faults)
      ensures ok ==> lastError == NoError && faults == old(faults)
      ensures !ok ==> lastError in {SqlError, NoWritePermissions, InvalidDatabaseFile} && faults == old(faults) + 1
    {
      ok := *;
      lastError := NoError;
      if !ok {
        var error :| error in {SqlError, NoWritePermissions, InvalidDatabaseFile};
        lastError := error;
        faults := faults + 1;
      }
    }

    /** beginTransaction: there can be only one transaction. */
    method BeginTransaction() returns (ok: bool)
      modifies `lastError, `faults, `saved
      ensures faults >= old(faults)
      ensures ok ==> old(saved).None? && saved == Some(tables) && faults == old(faults)
      ensures !ok ==>
                saved == old(saved) && faults > old(faults)
                && lastError in {SqlError, NoWritePermissions, InvalidDatabaseFile}
    {
      ok := ExecuteQuery();
      if ok && saved.Some? {
        lastError := SqlError;
        faults := faults + 1;
        return false;
      }
      if ok {
        saved := Some(tables);
      }
    }

    method CommitTransaction() returns (ok: bool)
      requires saved.Some?
      modifies `lastError, `faults, `saved
      ensures faults >= old(faults)
      ensures ok ==> saved.None? && faults == old(faults) && lastError == NoError
      ensures !ok ==> saved == old(saved) && faults > old(faults) && lastError != NoError
    {
      ok := ExecuteQuery();
      if ok {
        saved := None;
      }
    }

    /** rollbackTransaction: on success the last error stays as it was. */
    method RollbackTransaction() returns (ok: bool)
      requires saved.Some?
      modifies `lastError, `faults, `saved, `tables, `stuck
      ensures faults >= old(faults)
      ensures ok ==>
                saved.None? && tables == old(saved).value && faults == old(faults) && lastError == old(lastError)
                && stuck == old(stuck)
      ensures !ok ==>
                saved == old(saved) && tables == old(tables) && faults > old(faults) && lastError != NoError
                && stuck > old(stuck)
    {
      var before := lastError;
      ok := ExecuteQuery();
      if ok {
        tables := saved.value;
        saved := None;
        lastError := before;
      } else {
        stuck := stuck + 1;
      }
    }

    /** The end of a change: it is committed if all went well, and rolled back otherwise, or if it cannot be
        committed. */
    method EndTransaction(success: bool) returns (ok: bool)
      requires saved.Some?
      modifies `lastError, `faults, `saved, `tables, `stuck
      ensures faults >= old(faults)
      ensures stuck >= old(stuck) && (saved.None? <==> stuck == old(stuck))
      ensures ok ==> success && saved.None? && tables == old(tables) && lastError == NoError && faults == old(faults)
      ensures !ok ==> Disk() == old(saved).value
      ensures !ok && (success || old(lastError) != NoError) ==> lastError != NoError
      ensures faults == old(faults) ==> saved.None? && ok == success && (ok || lastError == old(lastError))
    {
      ok := success;
      if ok {
        ok := CommitTransaction();
      }
      if !ok {
        var restored := RollbackTransaction();
      }
    }

    /** A new identifier. */
    method CreateId() returns (id: Id)
      modifies `nextId
      ensures id == old(nextId) && nextId == After(old(nextId), 1)
    {
      id := nextId;
      nextId := After(nextId, 1);
    }

    // -----------------------------------------------------------------------------------------
    // Rows
    // -----------------------------------------------------------------------------------------

    /** getInterfaceID: the identifier of a descriptor's row. */
    method FindInterfaceId(d: Descriptor) returns (id: Option<Id>)
      modifies `lastError, `faults
      ensures faults >= old(faults)
      ensures lastError == NoError <==> id.Some?
      ensures id.Some? ==> faults == old(faults) && IsIdOf(tables, d, id.value)
      ensures lastError == NotFound ==> faults == old(faults) && !HasRow(tables, d)
      ensures lastError == NoError || lastError == NotFound || faults > old(faults)
    {
      id := None;
      var ok := ExecuteQuery();
      if !ok {
        return;
      }
      if i, r :| i in tables.interfaces && r in tables.services && IsRowOf(tables, d, i, r) {
        id := Some(i.id);
      } else {
        lastError := NotFound;
      }
    }

    /** insertInterfaceData: the row of an interface and its properties. */
    method InsertInterfaceData(d: Descriptor, serviceId: Id) returns (ok: bool)
      modifies `tables, `nextId, `lastError, `faults
      ensures faults >= old(faults)
      ensures !ok ==> lastError != NoError
      ensures ok ==> faults == old(faults) && nextId == After(old(nextId), 1) && lastError == NoError
      ensures ok ==> tables == old(tables).(interfaces := old(tables).interfaces + {RowOf(d, old(nextId), serviceId)},
                                            interfaceProps := old(tables).interfaceProps + PropertiesOf(d, old(nextId)))
      ensures !ok ==> faults > old(faults)
      ensures nextId.origin == old(nextId).origin && nextId.number >= old(nextId).number
    {
      var id := CreateId();
      ok := ExecuteQuery();
      if !ok {
        return;
      }
      ghost var before := tables;
      tables := tables.(interfaces := tables.interfaces + {RowOf(d, id, serviceId)});
      if d.attributes.capabilities.Some? {
        ok := InsertProperty(Property(id, CAPABILITIES_KEY, JoinWith(d.attributes.capabilities.value, ',')));
        if !ok {
          return;
        }
      }
      if d.attributes.interfaceDescription.Some? {
        ok := InsertProperty(Property(id, DESCRIPTION_KEY, d.attributes.interfaceDescription.value));
        if !ok {
          return;
        }
      }
      ok := InsertCustomAttributes(d, id);
    }

    /** Custom attributes have a name space of their own among the properties. */
    method InsertCustomAttributes(d: Descriptor, id: Id) returns (ok: bool)
      modifies `tables, `lastError, `faults
      ensures faults >= old(faults)
      ensures !ok ==> lastError != NoError
      ensures ok ==> faults == old(faults)
      ensures ok && old(lastError) == NoError ==> lastError == NoError
      ensures ok ==> tables == old(tables).(interfaceProps := old(tables).interfaceProps + CustomProperties(d, id))
      ensures !ok ==> faults > old(faults)
    {
      ok := true;
      var left := d.customAttributes.Keys;
      while left != {}
        invariant ok && left <= d.customAttributes.Keys
        invariant faults == old(faults) && (old(lastError) == NoError ==> lastError == NoError)
        invariant tables == old(tables).(interfaceProps := old(tables).interfaceProps
                    + (set key | key in d.customAttributes && key !in left ::
                      Property(id, CUSTOM_PREFIX + key, d.customAttributes[key])))
        decreases left
      {
        var key :| key in left;
        left := left - {key};
        ok := InsertProperty(Property(id, CUSTOM_PREFIX + key, d.customAttributes[key]));
        if !ok {
          return;
        }
      }
    }

    method InsertProperty(p: Property) returns (ok: bool)
      modifies `tables, `lastError, `faults
      ensures faults >= old(faults)
      ensures !ok ==> lastError != NoError
      ensures ok ==>
                faults == old(faults) && lastError == NoError
                && tables == old(tables).(interfaceProps := old(tables).interfaceProps + {p})
      ensures !ok ==> faults > old(faults)
    {
      ok := ExecuteQuery();
      if ok {
        tables := tables.(interfaceProps := tables.interfaceProps + {p});
      }
    }

    // -----------------------------------------------------------------------------------------
    // Descriptors
    // -----------------------------------------------------------------------------------------

    /** populateInterfaceProperties: what is stored for an interface, if anything is. */
    method PopulateInterfaceProperties(id: Id)
      returns (ok: bool, capabilities: Option<seq<string>>, description: Option<string>, customs: map<string, string>)
      requires OwnersOk(tables.interfaceProps, InterfaceIds(tables.interfaces))
      modifies `lastError, `faults
      ensures faults >= old(faults)
      ensures ok ==> HasProperties(tables, id) && lastError == NoError && faults == old(faults)
      ensures ok ==> capabilities == Mapped(ValueOf(id, CAPABILITIES_KEY, tables.interfaceProps))
      ensures ok ==> description == ValueOf(id, DESCRIPTION_KEY, tables.interfaceProps)
      ensures ok ==> customs == CustomsOf(id, tables.interfaceProps)
      ensures !ok ==> lastError in {SqlError, NoWritePermissions, InvalidDatabaseFile}
      ensures !ok ==> faults > old(faults) || !HasProperties(tables, id)
      ensures faults == old(faults) ==> (ok <==> exists p :: p in tables.interfaceProps && p.owner == id)
    {
      capabilities, description, customs := None, None, map[];
      ok := ExecuteQuery();
      if !ok {
        return;
      }
      var rows := RowsOf(id, tables.interfaceProps);
      capabilities, description, customs := ReadProperties(id, rows);
      OnlyRowsOf(id, InterfaceIds(tables.interfaces), tables.interfaceProps);
      if rows == {} {
        NoRows(id, tables.interfaceProps);
        lastError := SqlError;
        return false, None, None, map[];
      }
      assert HasProperties(tables, id) by {
        var p :| p in rows;
      }
    }

    /** The loop over the property rows of an interface. */
    method ReadProperties(id: Id, rows: set<Property>)
      returns (capabilities: Option<seq<string>>, description: Option<string>, customs: map<string, string>)
      requires OwnersOk(tables.interfaceProps, InterfaceIds(tables.interfaces))
                 && rows == RowsOf(id, tables.interfaceProps)
      ensures capabilities == Mapped(ValueOf(id, CAPABILITIES_KEY, rows))
      ensures description == ValueOf(id, DESCRIPTION_KEY, rows)
      ensures customs == CustomsOf(id, rows)
    {
      ghost var owners := InterfaceIds(tables.interfaces);
      FewerOwners(tables.interfaceProps, owners, rows);
      NothingYet(id);
      Keys();
      capabilities, description, customs := None, None, map[];
      var left := rows;
      ghost var done: set<Property> := {};
      hide ValueOf, CustomsOf, OwnersOk, StartsWith;
      while left != {}
        invariant rows == done + left && done !! left
        invariant capabilities == Mapped(ValueOf(id, CAPABILITIES_KEY, done))
        invariant description == ValueOf(id, DESCRIPTION_KEY, done)
        invariant customs == CustomsOf(id, done)
        decreases left
      {
        var p :| p in left;
        left := left - {p};
        FewerOwners(rows, owners, done + {p});
        MoreValue(id, owners, done, p, CAPABILITIES_KEY);
        MoreValue(id, owners, done, p, DESCRIPTION_KEY);
        MoreCustoms(id, owners, done, p);
        done := done + {p};
        if p.key == CAPABILITIES_KEY {
          capabilities := Some(CapabilityList(p.value));
        } else if p.key == DESCRIPTION_KEY {
          description := Some(p.value);
        } else if StartsWith(p.key, CUSTOM_PREFIX) {
          PrefixLength(p.key);
          customs := customs[p.key[2..] := p.value];
        }
      }
      assert done == rows;
    }

    /** populateServiceProperties: the description of a service. Every service has one. */
    method PopulateServiceProperties(id: Id) returns (ok: bool, description: Option<string>)
      requires OwnersOk(tables.serviceProps, ServiceIds(tables.services))
      modifies `lastError, `faults
      ensures faults >= old(faults)
      ensures ok ==>
                lastError == NoError && faults == old(faults)
                && description == ValueOf(id, DESCRIPTION_KEY, tables.serviceProps)
      ensures !ok ==> lastError in {SqlError, NoWritePermissions, InvalidDatabaseFile}
      ensures !ok ==> faults > old(faults) || !HasProperty(id, DESCRIPTION_KEY, tables.serviceProps)
    {
      description := None;
      ok := ExecuteQuery();
      if !ok {
        return;
      }
      var rows := RowsOf(id, tables.serviceProps);
      description := ReadDescription(id, rows);
      OnlyRowsOf(id, ServiceIds(tables.services), tables.serviceProps);
      if rows == {} {
        NoRows(id, tables.serviceProps);
        lastError := SqlError;
        return false, None;
      }
    }

    /** The loop over the property rows of a service. */
    method ReadDescription(id: Id, rows: set<Property>) returns (description: Option<string>)
      requires OwnersOk(tables.serviceProps, ServiceIds(tables.services)) && rows == RowsOf(id, tables.serviceProps)
      ensures description == ValueOf(id, DESCRIPTION_KEY, rows)
    {
      ghost var owners := ServiceIds(tables.services);
      FewerOwners(tables.serviceProps, owners, rows);
      NothingYet(id);
      description := None;
      var left := rows;
      ghost var done: set<Property> := {};
      hide ValueOf, OwnersOk;
      while left != {}
        invariant rows == done + left && done !! left
        invariant description == ValueOf(id, DESCRIPTION_KEY, done)
        decreases left
      {
        var p :| p in left;
        left := left - {p};
        FewerOwners(rows, owners, done + {p});
        MoreValue(id, owners, done, p, DESCRIPTION_KEY);
        done := done + {p};
        if p.key == DESCRIPTION_KEY {
          description := Some(p.value);
        }
      }
      assert done == rows;
    }

    /** The descriptor of a row of a query over interfaces and their services. */
    method LoadDescriptor(r: ServiceRow, i: InterfaceRow) returns (ok: bool, d: Descriptor)
      requires Integrity(tables, nextId) && i in tables.interfaces && Implements(r, i, tables.services)
      modifies `lastError, `faults
      ensures faults >= old(faults)
      ensures ok ==>
                lastError == NoError && faults == old(faults) && d == DescriptorOf(tables, r, i)
                && HasProperties(tables, i.id)
      ensures !ok ==> lastError in {SqlError, NoWritePermissions, InvalidDatabaseFile}
      ensures !ok ==> faults > old(faults) || !HasProperties(tables, i.id)
    {
      LoadFacts(tables, nextId, r);
      hide Integrity, ValueOf, CustomsOf, OwnersOk;
      var location := r.location;
      var serviceType := TypeOf(location);
      location := LocationOf(location);
      d := Descriptor(i.name, r.name, i.major, i.minor, NO_ATTRIBUTES, map[], UserScope);
      var serviceDescription, capabilities, description, customs;
      ok, serviceDescription := PopulateServiceProperties(r.id);
      if !ok {
        return;
      }
      ok, capabilities, description, customs := PopulateInterfaceProperties(i.id);
      d := d.(attributes := Attributes(capabilities, description, Some(location), serviceDescription,
        Some(serviceType)), customAttributes := customs);
    }

    // -----------------------------------------------------------------------------------------
    // Defaults
    // -----------------------------------------------------------------------------------------

    /** interfaceDefault within a transaction: the default implementation of a name, or the identifier that
        its default has in another database. */
    method LookUpDefault(name: string) returns (found: Option<Descriptor>, external: Option<Id>)
      requires Integrity(tables, nextId)
      modifies `lastError, `faults
      ensures faults >= old(faults)
      ensures lastError in {NoError, NotFound, ExternalIfaceIDFound, SqlError, NoWritePermissions, InvalidDatabaseFile}
      ensures lastError == NoError <==> found.Some?
      ensures lastError == ExternalIfaceIDFound <==> external.Some?
      ensures lastError in {NoError, NotFound, ExternalIfaceIDFound} ==> faults == old(faults)
      ensures lastError == NotFound ==> !HasDefault(name, tables.defaults)
      ensures lastError in {NoError, ExternalIfaceIDFound} ==> HasDefault(name, tables.defaults)
      ensures lastError in {NoError, NotFound, ExternalIfaceIDFound} ==> DefaultReadable(tables, name)
      ensures external.Some? ==>
                DefaultIs(tables, name, external.value) && external.value !in InterfaceIds(tables.interfaces)
      ensures found.Some? ==> DefaultLoads(tables, name, found.value)
      ensures lastError in {SqlError, NoWritePermissions, InvalidDatabaseFile} ==>
                faults > old(faults) || !DefaultReadable(tables, name)
    {
      found, external := None, None;
      var ok := ExecuteQuery();
      if !ok {
        return;
      }
      hide Integrity, SameName, DefaultReadable, DefaultLoads;
      if d :| d in tables.defaults && SameName(d.interfaceName, name) {
        OneDefault(tables, nextId, name, d);
        found, external := LoadDefault(name, d);
      } else {
        NoDefault(tables, name);
        lastError := NotFound;
      }
    }

    method LoadDefault(name: string, d: DefaultRow) returns (found: Option<Descriptor>, external: Option<Id>)
      requires Integrity(tables, nextId) && d in tables.defaults && SameName(d.interfaceName, name)
      modifies `lastError, `faults
      ensures faults >= old(faults)
      ensures lastError in {NoError, ExternalIfaceIDFound, SqlError, NoWritePermissions, InvalidDatabaseFile}
      ensures lastError == NoError <==> found.Some?
      ensures lastError == ExternalIfaceIDFound <==> external.Some?
      ensures external.Some? ==>
                external.value == d.interfaceId && faults == old(faults)
                && d.interfaceId !in InterfaceIds(tables.interfaces)
      ensures found.Some? ==>
                faults == old(faults) && HasProperties(tables, d.interfaceId) && DefaultLoads(tables, name, found.value)
      ensures external.None? && found.None? ==>
                faults > old(faults)
                || (d.interfaceId in InterfaceIds(tables.interfaces) && !HasProperties(tables, d.interfaceId))
    {
      found, external := None, None;
      var ok := ExecuteQuery();
      if !ok {
        return;
      }
      var id := d.interfaceId;
      hide Integrity, SameName, HasProperties;
      if i, r :| i in tables.interfaces && r in tables.services && i.id == id && r.id == i.serviceId {
        var loaded;
        DefaultNamed(tables, nextId, name, i);
        ok, loaded := LoadDescriptor(r, i);
        if ok {
          assert (r, i) in Joined(tables) && loaded == Loaded(tables, (r, i));
          found := Some(loaded);
        }
      } else {
        NoService(tables, nextId, id);
        lastError := ExternalIfaceIDFound;
        external := Some(id);
      }
    }

    // -----------------------------------------------------------------------------------------
    // registerService
    // -----------------------------------------------------------------------------------------

    /** Registers a service in a transaction of its own: all of its rows are added, or none. Each way out of
        the source that fails rolls the transaction back; here that is done in one place. */
    method RegisterService(service: Results) returns (ok: bool)
      requires Valid() && ServiceOk(service)
      modifies `tables, `saved, `nextId, `lastError, `faults, `stuck
      ensures Valid() && faults >= old(faults)
      ensures nextId.origin == old(nextId).origin && nextId.number >= old(nextId).number
      ensures ok ==> saved.None? && lastError == NoError && tables == Registered(old(tables), service, old(nextId))
      ensures ok ==> old(saved).None? && Registrable(old(tables), service) && faults == old(faults)
      ensures !ok ==> Disk() == old(Disk())
      ensures faults == old(faults) ==> saved == old(saved)
      ensures Ended(old(saved), saved, old(stuck), stuck)
      ensures !ok && old(saved).None? && stuck == old(stuck) ==> saved.None? && tables == old(tables)
      ensures !ok ==> lastError != NoError
      ensures faults == old(faults) && isOpen ==>
                (ok <==> Registrable(old(tables), service) && AllReadable(old(tables), service))
      ensures faults == old(faults) && isOpen ==> RightError(old(tables), service, ok, lastError)
      ensures faults == old(faults) && !isOpen ==> !ok && lastError == DatabaseNotOpen
    {
      hide Integrity, ServiceOk, Registrable, AllReadable, Registered, RightError;
      NotEmpty(service);
      if !isOpen {
        lastError := DatabaseNotOpen;
        return false;
      }
      ok := BeginTransaction();
      if ok {
        ok := RegisterInTransaction(service);
      }
    }

    method RegisterInTransaction(service: Results) returns (ok: bool)
      requires saved == Some(tables) && Integrity(tables, nextId) && ServiceOk(service)
      modifies `tables, `saved, `nextId, `lastError, `faults, `stuck
      ensures faults >= old(faults)
      ensures Integrity(Disk(), nextId)
      ensures nextId.origin == old(nextId).origin && nextId.number >= old(nextId).number
      ensures ok ==> saved.None? && lastError == NoError && faults == old(faults)
      ensures ok ==> tables == Registered(old(tables), service, old(nextId))
      ensures !ok ==> Disk() == old(tables)
      ensures faults == old(faults) ==> saved.None?
      ensures stuck >= old(stuck) && (saved.None? <==> stuck == old(stuck))
      ensures !ok ==> lastError != NoError
      ensures ok ==> Registrable(old(tables), service) && AllReadable(old(tables), service)
      ensures !ok ==> faults > old(faults) || !Registrable(old(tables), service) || !AllReadable(old(tables), service)
      ensures faults == old(faults) ==> RightError(old(tables), service, ok, lastError)
    {
      ghost var before, next := tables, nextId;
      hide Integrity, ServiceOk, Registrable, AllReadable, Registered, RightError;
      ok := RegisterRows(service);
      IntegrityLater(before, next, nextId);
      if ok {
        RegisteredKeeps(before, service, next);
        RightAccepted(before, service);
      }
      ok := EndTransaction(ok);
    }

    /** The statements of a registration. */
    method RegisterRows(service: Results) returns (ok: bool)
      requires Integrity(tables, nextId) && ServiceOk(service)
      modifies `tables, `nextId, `lastError, `faults
      ensures faults >= old(faults)
      ensures !ok ==> lastError != NoError
      ensures nextId.origin == old(nextId).origin && nextId.number >= old(nextId).number
      ensures ok ==> faults == old(faults) && Registrable(old(tables), service) && AllReadable(old(tables), service)
      ensures ok ==>
                tables == Registered(old(tables), service, old(nextId))
                && nextId == After(old(nextId), |service.interfaces| + 1)
      ensures !ok ==> faults > old(faults) || !Registrable(old(tables), service) || !AllReadable(old(tables), service)
      ensures faults == old(faults) && !ok ==> RightError(old(tables), service, ok, lastError)
    {
      ghost var before, next := tables, nextId;
      NotEmpty(service);
      WhatCanFail(before, service);
      hide Integrity, ServiceOk, AllReadable, StoredLocation, LocationTaken, WithService, Registered, Registrable,
        NoneThere, RightError;
      var location := StoredLocation(service);
      ok := LocationIsFree(location);
      if !ok {
        return;
      }
      ok := InsertRows(service, location);
    }

    method InsertRows(service: Results, location: string) returns (ok: bool)
      requires Integrity(tables, nextId) && ServiceOk(service) && service.interfaces != []
      requires location == StoredLocation(service) && !LocationTaken(tables, location)
      modifies `tables, `nextId, `lastError, `faults
      ensures faults >= old(faults)
      ensures !ok ==> lastError != NoError
      ensures nextId.origin == old(nextId).origin && nextId.number >= old(nextId).number
      ensures ok ==>
                faults == old(faults) && NoneThere(old(tables), service, |service.interfaces|)
                && AllReadable(old(tables), service)
      ensures ok ==>
                tables == Registered(old(tables), service, old(nextId))
                && nextId == After(old(nextId), |service.interfaces| + 1)
      ensures !ok && faults == old(faults) ==>
                if NoneThere(old(tables), service, |service.interfaces|) then !AllReadable(old(tables), service)
                  else lastError == IfaceImplAlreadyRegistered
    {
      ghost var before, next := tables, nextId;
      hide Integrity, ServiceOk, AllReadable, StoredLocation, LocationTaken, WithService, Registered, NoneThere;
      StartService(before, service, next);
      var serviceId;
      ok, serviceId := InsertService(service, location);
      if !ok {
        return;
      }
      ok := InsertInterfaces(service, serviceId, before, next);
      if !ok {
        return;
      }
      WhatCanFail(before, service);
      ok := InsertDefaults(service, before, next);
    }

    method LocationIsFree(location: string) returns (ok: bool)
      modifies `lastError, `faults
      ensures faults >= old(faults)
      ensures !ok ==> lastError != NoError
      ensures ok ==> faults == old(faults) && !LocationTaken(tables, location)
      ensures !ok ==>
                faults > old(faults) || (LocationTaken(tables, location) && lastError == LocationAlreadyRegistered)
    {
      ok := ExecuteQuery();
      if !ok {
        return;
      }
      if r :| r in tables.services && SameName(r.location, location) {
        lastError := LocationAlreadyRegistered;
        return false;
      }
    }

    /** The service's own row and its description. */
    method InsertService(service: Results, location: string) returns (ok: bool, serviceId: Id)
      requires service.interfaces != [] && location == StoredLocation(service)
      modifies `tables, `nextId, `lastError, `faults
      ensures faults >= old(faults)
      ensures !ok ==> lastError != NoError
      ensures serviceId == old(nextId) && nextId == After(old(nextId), 1)
      ensures ok ==> faults == old(faults) && tables == WithService(old(tables), service, old(nextId), 0)
      ensures !ok ==> faults > old(faults)
    {
      ghost var before, next := tables, nextId;
      hide StoredLocation;
      serviceId := CreateId();
      ok := ExecuteQuery();
      if !ok {
        return;
      }
      tables := tables.(services := tables.services + {ServiceRow(serviceId, service.name, location)});
      ok := ExecuteQuery();
      if !ok {
        return;
      }
      tables := tables.(serviceProps := tables.serviceProps
        + {Property(serviceId, DESCRIPTION_KEY, service.description)});
      assert before.interfaces + {} == before.interfaces && before.interfaceProps + {} == before.interfaceProps;
    }

    /** The loop over the interfaces of a service: each must be new, and is added. */
    method InsertInterfaces(service: Results, serviceId: Id, ghost before: Tables, ghost next: Id) returns (ok: bool)
      requires ServiceOk(service) && service.interfaces != [] && Integrity(before, next) && serviceId == next
      requires tables == WithService(before, service, next, 0) && nextId == After(next, 1) && Integrity(tables, nextId)
      modifies `tables, `nextId, `lastError, `faults
      ensures faults >= old(faults)
      ensures !ok ==> lastError != NoError
      ensures nextId.origin == next.origin && nextId.number >= next.number
      ensures ok ==> faults == old(faults) && NoneThere(before, service, |service.interfaces|)
      ensures ok ==>
                tables == WithService(before, service, next, |service.interfaces|)
                && nextId == After(next, |service.interfaces| + 1) && Integrity(tables, nextId)
      ensures !ok ==>
                faults > old(faults)
                || (!NoneThere(before, service, |service.interfaces|) && lastError == IfaceImplAlreadyRegistered)
    {
      hide Integrity, ServiceOk, WithService, HasRow;
      ok := true;
      var k := 0;
      while k < |service.interfaces|
        invariant k <= |service.interfaces| && faults == old(faults) && ok
        invariant NoneThere(before, service, k)
        invariant tables == WithService(before, service, next, k) && nextId == After(next, k + 1)
                    && Integrity(tables, nextId)
      {
        ok := InsertInterface(service, serviceId, before, next, k);
        if !ok {
          return;
        }
        k := k + 1;
      }
    }

    method InsertInterface(service: Results, serviceId: Id, ghost before: Tables, ghost next: Id, k: nat)
        returns (ok: bool)
      requires ServiceOk(service) && service.interfaces != [] && Integrity(before, next) && serviceId == next
                 && k < |service.interfaces|
      requires tables == WithService(before, service, next, k) && nextId == After(next, k + 1)
                 && Integrity(tables, nextId)
      modifies `tables, `nextId, `lastError, `faults
      ensures faults >= old(faults)
      ensures !ok ==> lastError != NoError
      ensures nextId.origin == next.origin && nextId.number >= next.number
      ensures ok ==> faults == old(faults) && !HasRow(before, service.interfaces[k])
      ensures ok ==>
                tables == WithService(before, service, next, k + 1) && nextId == After(next, k + 2)
                && Integrity(tables, nextId)
      ensures !ok ==>
                faults > old(faults)
                || (HasRow(before, service.interfaces[k]) && lastError == IfaceImplAlreadyRegistered)
    {
      hide Integrity, ServiceOk, WithService, RowOf, IsIdOf, HasRow, PropertiesOf;
      SameRows(before, service, next, k);
      WithOneMore(before, service, next, k);
      var d := service.interfaces[k];
      var id := FindInterfaceId(d);
      if lastError == NoError {
        RowFound(tables, d, id.value);
        lastError := IfaceImplAlreadyRegistered;
        return false;
      }
      if lastError != NotFound {
        return false;
      }
      StepInterface(before, service, next, k);
      ok := InsertInterfaceData(d, serviceId);
    }

    /** The loop over the latest interfaces: those whose name has no default become one. */
    method InsertDefaults(service: Results, ghost before: Tables, ghost next: Id) returns (ok: bool)
      requires Integrity(before, next) && ServiceOk(service) && Registrable(before, service) && service.interfaces != []
      requires tables == WithService(before, service, next, |service.interfaces|)
                 && nextId == After(next, |service.interfaces| + 1)
      modifies `tables, `lastError, `faults
      ensures faults >= old(faults)
      ensures !ok ==> lastError != NoError
      ensures ok ==>
                faults == old(faults) && tables == Registered(before, service, next) && AllReadable(before, service)
      ensures !ok ==> faults > old(faults) || !AllReadable(before, service)
    {
      hide Integrity, ServiceOk, Registrable, WithDefaults, DefaultReadable, ReadableUpTo, AllReadable, Registered;
      NoDefaultsYet(before, service, next);
      AllDefaultsMade(before, service, next);
      ok := true;
      var m := 0;
      while m < |service.latest|
        invariant m <= |service.latest| && faults == old(faults) && ok
        invariant ReadableUpTo(before, service, m)
        invariant tables == WithDefaults(before, service, next, m)
      {
        ReadableNext(before, service, m);
        ok := InsertDefault(service, before, next, m);
        if !ok {
          return;
        }
        m := m + 1;
      }
    }

    method InsertDefault(service: Results, ghost before: Tables, ghost next: Id, m: nat) returns (ok: bool)
      requires Integrity(before, next) && Registrable(before, service) && ServiceOk(service)
                 && service.interfaces != [] && m < |service.latest|
      requires tables == WithDefaults(before, service, next, m) && nextId == After(next, |service.interfaces| + 1)
      modifies `tables, `lastError, `faults
      ensures faults >= old(faults)
      ensures !ok ==> lastError != NoError
      ensures ok ==>
                faults == old(faults) && tables == WithDefaults(before, service, next, m + 1)
                && DefaultReadable(before, service.latest[m].interfaceName)
      ensures !ok ==> faults > old(faults) || !DefaultReadable(before, service.latest[m].interfaceName)
    {
      hide Integrity, ServiceOk, Registrable, WithDefaults, DefaultReadable, HasRow, HasDefault, IsIdOf, IndexOf,
        DefaultIs, DefaultLoads;
      NextLatest(before, service, next, m);
      DefaultStep(before, service, next, m);
      var l := service.latest[m];
      var found, external := LookUpDefault(l.interfaceName);
      if lastError == NoError || lastError == ExternalIfaceIDFound {
        return true;
      }
      if lastError != NotFound {
        return false;
      }
      var id := FindInterfaceId(l);
      if lastError != NoError {
        return false;
      }
      ok := ExecuteQuery();
      if ok {
        tables := tables.(defaults := tables.defaults + {DefaultRow(l.interfaceName, id.value)});
      }
    }

    // -----------------------------------------------------------------------------------------
    // unregisterService
    // -----------------------------------------------------------------------------------------

    /** Unregisters a service in a transaction of its own: all of its rows go, and the defaults that pointed
        into it move to other implementations. `chosen` tells which. */
    method UnregisterService(name: string) returns (ok: bool, ghost chosen: Choice)
      requires Valid()
      modifies `tables, `saved, `lastError, `faults, `stuck
      ensures Valid() && faults >= old(faults)
      ensures ok ==> saved.None? && lastError == NoError && faults == old(faults) && old(saved).None?
      ensures ok ==> GoodChoice(old(tables), name, chosen) && tables == Unregistered(old(tables), name, chosen)
      ensures !ok ==> Disk() == old(Disk())
      ensures faults == old(faults) ==> saved == old(saved)
      ensures Ended(old(saved), saved, old(stuck), stuck)
      ensures !ok && old(saved).None? && stuck == old(stuck) ==> saved.None? && tables == old(tables)
      ensures !ok ==> lastError != NoError
      ensures faults == old(faults) && isOpen ==> (ok <==> NamedServices(old(tables), name) != {})
      ensures faults == old(faults) && isOpen && !ok ==> lastError == NotFound
    {
      chosen := map[];
      if !isOpen {
        lastError := DatabaseNotOpen;
        return false, chosen;
      }
      hide Integrity, GoodChoice, Unregistered, NamedServices;
      ok := BeginTransaction();
      if ok {
        ok, chosen := UnregisterInTransaction(name);
      }
    }

    method UnregisterInTransaction(name: string) returns (ok: bool, ghost chosen: Choice)
      requires saved == Some(tables) && Integrity(tables, nextId)
      modifies `tables, `saved, `lastError, `faults, `stuck
      ensures faults >= old(faults) && Integrity(Disk(), nextId)
      ensures ok ==> saved.None? && lastError == NoError && faults == old(faults)
      ensures ok ==> GoodChoice(old(tables), name, chosen) && tables == Unregistered(old(tables), name, chosen)
      ensures !ok ==> Disk() == old(tables)
      ensures faults == old(faults) ==> saved.None?
      ensures stuck >= old(stuck) && (saved.None? <==> stuck == old(stuck))
      ensures !ok ==> lastError != NoError
      ensures faults == old(faults) ==> (ok <==> NamedServices(old(tables), name) != {})
      ensures faults == old(faults) && !ok ==> lastError == NotFound
    {
      ghost var before := tables;
      hide Integrity, GoodChoice, Unregistered, NamedServices;
      ok, chosen := UnregisterRows(name);
      if ok {
        UnregisteredKeeps(before, nextId, name, chosen);
      }
      ok := EndTransaction(ok);
    }

    /** The statements of a deregistration. */
    method UnregisterRows(name: string) returns (ok: bool, ghost chosen: Choice)
      requires Integrity(tables, nextId)
      modifies `tables, `lastError, `faults
      ensures faults >= old(faults)
      ensures !ok ==> lastError != NoError
      ensures ok ==> faults == old(faults) && NamedServices(old(tables), name) != {}
      ensures ok ==> GoodChoice(old(tables), name, chosen) && tables == Unregistered(old(tables), name, chosen)
      ensures !ok ==> faults > old(faults) || (NamedServices(old(tables), name) == {} && lastError == NotFound)
    {
      chosen := map[];
      ghost var before := tables;
      ok := ExecuteQuery();
      if !ok {
        return;
      }
      var serviceIds := NamedServices(tables, name);
      ok := ExecuteQuery();
      if !ok {
        return;
      }
      var interfaceIds := InterfacesOf(tables, serviceIds);
      if serviceIds == {} {
        lastError := NotFound;
        return false, chosen;
      }
      ok := ExecuteQuery();
      if !ok {
        return;
      }
      var affected := set d | d in tables.defaults && d.interfaceId in interfaceIds;
      ok := ExecuteQuery();
      if !ok {
        return;
      }
      tables := tables.(services := set r | r in tables.services && !SameName(r.name, name));
      ok := DeleteRows(serviceIds, interfaceIds);
      if !ok {
        return;
      }
      assert tables == WithoutService(before, name);
      hide WithoutService, InterfacesOf, NamedServices, Reelected, SameName, GoodChoice;
      ok, chosen := ReelectDefaults(affected, name, before);
    }

    /** The loops that delete what belongs to the service, one statement for each identifier. */
    method DeleteRows(serviceIds: set<Id>, interfaceIds: set<Id>) returns (ok: bool)
      modifies `tables, `lastError, `faults
      ensures faults >= old(faults)
      ensures !ok ==> lastError != NoError
      ensures ok ==> faults == old(faults)
      ensures ok ==>
                tables ==
                old(tables).(interfaces := (set i | i in old(tables).interfaces && i.serviceId !in serviceIds),
                                            serviceProps := (set p | p in old(tables).serviceProps
                                              && p.owner !in serviceIds),
                                            interfaceProps := (set p | p in old(tables).interfaceProps
                                              && p.owner !in interfaceIds))
      ensures !ok ==> faults > old(faults)
    {
      ok := true;
      var before := tables;
      var left := serviceIds;
      while left != {}
        invariant ok && faults == old(faults) && left <= serviceIds
        invariant tables ==
                    before.(interfaces := set i | i in before.interfaces
                    && (i.serviceId in left || i.serviceId !in serviceIds))
        decreases left
      {
        var id :| id in left;
        left := left - {id};
        ok := ExecuteQuery();
        if !ok {
          return;
        }
        tables := tables.(interfaces := set i | i in tables.interfaces && i.serviceId != id);
      }
      before := tables;
      left := serviceIds;
      while left != {}
        invariant ok && faults == old(faults) && left <= serviceIds
        invariant tables ==
                    before.(serviceProps := set p | p in before.serviceProps
                    && (p.owner in left || p.owner !in serviceIds))
        decreases left
      {
        var id :| id in left;
        left := left - {id};
        ok := ExecuteQuery();
        if !ok {
          return;
        }
        tables := tables.(serviceProps := set p | p in tables.serviceProps && p.owner != id);
      }
      before := tables;
      left := interfaceIds;
      while left != {}
        invariant ok && faults == old(faults) && left <= interfaceIds
        invariant tables ==
                    before.(interfaceProps := set p | p in before.interfaceProps
                    && (p.owner in left || p.owner !in interfaceIds))
        decreases left
      {
        var id :| id in left;
        left := left - {id};
        ok := ExecuteQuery();
        if !ok {
          return;
        }
        tables := tables.(interfaceProps := set p | p in tables.interfaceProps && p.owner != id);
      }
    }

    /** The loop over the defaults that pointed into the service: each moves to an implementation of the
        greatest version left, or is deleted. */
    method ReelectDefaults(affected: set<DefaultRow>, name: string, ghost before: Tables)
        returns (ok: bool, ghost chosen: Choice)
      requires Integrity(before, nextId) && tables == WithoutService(before, name)
      requires affected == set d | d in before.defaults
                 && d.interfaceId in InterfacesOf(before, NamedServices(before, name))
      modifies `tables, `lastError, `faults
      ensures faults >= old(faults)
      ensures !ok ==> lastError != NoError
      ensures ok ==>
                faults == old(faults) && GoodChoice(before, name, chosen)
                && tables == Unregistered(before, name, chosen)
      ensures !ok ==> faults > old(faults)
    {
      UniqueDefaults(before, nextId);
      ElectionEnds(before, name);
      KeptTables(before, name);
      hide Integrity, WithoutService, InterfacesOf, NamedServices, Reelected, Partly, Electing, GoodChoice, UniqueNames;
      chosen := map[];
      ghost var gone := InterfacesOf(before, NamedServices(before, name));
      ghost var rest := tables;
      ok := true;
      var left := affected;
      while left != {}
        invariant ok && faults == old(faults)
        invariant Electing(before, name, left, chosen)
        invariant tables == rest.(defaults := Partly(before.defaults, gone, left, chosen))
        decreases left
      {
        var d :| d in left;
        ok, chosen := ReelectDefault(d, name, before, left, chosen);
        if !ok {
          return;
        }
        left := left - {d};
      }
    }

    method ReelectDefault(d: DefaultRow, name: string, ghost before: Tables, ghost left: set<DefaultRow>,
        ghost chosen: Choice)
      returns (ok: bool, ghost chosen': Choice)
      requires UniqueNames(before.defaults) && Electing(before, name, left, chosen) && d in left
      requires var gone := InterfacesOf(before, NamedServices(before, name));
               tables == WithoutService(before, name).(defaults := Partly(before.defaults, gone, left, chosen))
      modifies `tables, `lastError, `faults
      ensures faults >= old(faults)
      ensures !ok ==> lastError != NoError
      ensures ok ==> faults == old(faults) && Electing(before, name, left - {d}, chosen')
      ensures var gone := InterfacesOf(before, NamedServices(before, name));
              ok ==>
                tables == WithoutService(before, name).(defaults := Partly(before.defaults, gone, left - {d}, chosen'))
      ensures !ok ==> faults > old(faults)
    {
      NotChosenYet(before, name, left, chosen, d);
      hide WithoutService, InterfacesOf, NamedServices, Partly, Electing, UniqueNames, Best, Implemented, Lower;
      ghost var gone := InterfacesOf(before, NamedServices(before, name));
      chosen' := chosen;
      ok := ExecuteQuery();
      if !ok {
        return;
      }
      if i :| i in tables.interfaces && Best(i.id, Lower(d.interfaceName), tables.interfaces) {
        ok := ExecuteQuery();
        if !ok {
          return;
        }
        ElectOne(before, name, left, chosen, d, i.id);
        MoveOne(before.defaults, gone, left, chosen, d, i.id);
        chosen' := chosen[Lower(d.interfaceName) := i.id];
        tables := tables.(defaults := Renamed(tables.defaults, d.interfaceName, i.id));
      } else {
        ok := ExecuteQuery();
        if !ok {
          return;
        }
        NoBest(tables.interfaces, d.interfaceName);
        ElectNone(before, name, left, chosen, d);
        DropOne(before.defaults, gone, left, chosen, d);
        tables := tables.(defaults := NotNamed(tables.defaults, d.interfaceName));
      }
    }

    // -----------------------------------------------------------------------------------------
    // Choosing defaults
    // -----------------------------------------------------------------------------------------

    /** setInterfaceDefault: the default of an interface's name becomes the row of the descriptor, or an
        identifier of another database. */
    method SetInterfaceDefault(d: Descriptor, external: Option<Id>) returns (ok: bool, ghost id: Id)
      requires Valid() && (external.Some? ==> external.value.origin != nextId.origin)
      modifies `tables, `saved, `lastError, `faults, `stuck
      ensures Valid() && faults >= old(faults)
      ensures ok ==> saved.None? && lastError == NoError && faults == old(faults) && old(saved).None? && isOpen
      ensures ok ==> tables == WithDefault(old(tables), d.interfaceName, id)
      ensures ok ==> if external.Some? then id == external.value else IsIdOf(old(tables), d, id)
      ensures !ok ==> Disk() == old(Disk())
      ensures faults == old(faults) ==> saved == old(saved)
      ensures Ended(old(saved), saved, old(stuck), stuck)
      ensures !ok && old(saved).None? && stuck == old(stuck) ==> saved.None? && tables == old(tables)
      ensures !ok ==> lastError != NoError
      ensures faults == old(faults) && isOpen ==> (ok <==> external.Some? || HasRow(old(tables), d))
      ensures faults == old(faults) && isOpen && !ok ==> lastError == NotFound
    {
      id := nextId;
      if !isOpen {
        lastError := DatabaseNotOpen;
        return false, id;
      }
      hide Integrity, WithDefault, HasRow, IsIdOf;
      ok := BeginTransaction();
      if ok {
        ok, id := SetDefaultInTransaction(d, external);
      }
    }

    method SetDefaultInTransaction(d: Descriptor, external: Option<Id>) returns (ok: bool, ghost id: Id)
      requires saved == Some(tables) && Integrity(tables, nextId)
                 && (external.Some? ==> external.value.origin != nextId.origin)
      modifies `tables, `saved, `lastError, `faults, `stuck
      ensures faults >= old(faults) && Integrity(Disk(), nextId)
      ensures ok ==> saved.None? && lastError == NoError && faults == old(faults)
      ensures ok ==> tables == WithDefault(old(tables), d.interfaceName, id)
      ensures ok ==> if external.Some? then id == external.value else IsIdOf(old(tables), d, id)
      ensures !ok ==> Disk() == old(tables)
      ensures faults == old(faults) ==> saved.None?
      ensures stuck >= old(stuck) && (saved.None? <==> stuck == old(stuck))
      ensures !ok ==> lastError != NoError
      ensures faults == old(faults) ==> (ok <==> external.Some? || HasRow(old(tables), d))
      ensures faults == old(faults) && !ok ==> lastError == NotFound
    {
      ghost var before := tables;
      hide Integrity, WithDefault, HasRow, IsIdOf, ImplementedBy;
      ok, id := SetDefaultRow(d, external);
      if ok {
        if external.None? {
          RowImplements(before, d, id);
          RowFound(before, d, id);
        }
        WithDefaultKeeps(before, nextId, d.interfaceName, id);
      }
      ok := EndTransaction(ok);
    }

    /** The statements that set a default. */
    method SetDefaultRow(d: Descriptor, external: Option<Id>) returns (ok: bool, ghost id: Id)
      modifies `tables, `lastError, `faults
      ensures faults >= old(faults)
      ensures !ok ==> lastError != NoError
      ensures ok ==> faults == old(faults) && tables == WithDefault(old(tables), d.interfaceName, id)
      ensures ok ==> if external.Some? then id == external.value else IsIdOf(old(tables), d, id)
      ensures !ok ==> faults > old(faults) || (external.None? && !HasRow(old(tables), d) && lastError == NotFound)
    {
      hide HasRow, IsIdOf, SameName;
      var interfaceId: Id;
      match external {
        case Some(given) =>
          interfaceId := given;
        case None =>
          var row := FindInterfaceId(d);
          if row.None? {
            return false, Id(0, 0);
          }
          interfaceId := row.value;
      }
      id := interfaceId;
      ok := ExecuteQuery();
      if !ok {
        return;
      }
      var there := HasDefault(d.interfaceName, tables.defaults);
      ok := ExecuteQuery();
      if !ok {
        return;
      }
      if there {
        tables := tables.(defaults := Renamed(tables.defaults, d.interfaceName, interfaceId));
      } else {
        tables := tables.(defaults := tables.defaults + {DefaultRow(d.interfaceName, interfaceId)});
      }
    }

    /** externalDefaultsInfo: the defaults that are identifiers of another database. */
    method ExternalDefaultsInfo() returns (info: seq<DefaultRow>)
      modifies `lastError, `faults
      ensures faults >= old(faults)
      ensures lastError != NoError ==> info == []
      ensures faults == old(faults) && isOpen ==> lastError == NoError
      ensures forall k | 0 <= k < |info| :: info[k] in ExternalDefaults(tables)
      ensures lastError == NoError ==> forall d | d in ExternalDefaults(tables) :: d in info
      ensures forall j, k | 0 <= j < k < |info| :: info[j] != info[k]
    {
      info := [];
      if !isOpen {
        lastError := DatabaseNotOpen;
        return;
      }
      var ok := ExecuteQuery();
      if !ok {
        return;
      }
      hide ExternalDefaults;
      var left := ExternalDefaults(tables);
      while left != {}
        invariant left <= ExternalDefaults(tables)
        invariant forall k | 0 <= k < |info| :: info[k] in ExternalDefaults(tables) && info[k] !in left
        invariant forall d | d in ExternalDefaults(tables) :: d in left || d in info
        invariant forall j, k | 0 <= j < k < |info| :: info[j] != info[k]
        decreases left
      {
        var d :| d in left;
        left := left - {d};
        info := info + [d];
      }
    }

    /** removeExternalDefaultServiceInterface: the defaults that are an identifier of another database go. */
    method RemoveExternalDefault(id: Id) returns (ok: bool)
      requires Valid()
      modifies `tables, `saved, `lastError, `faults, `stuck
      ensures Valid() && faults >= old(faults)
      ensures ok ==> saved.None? && lastError == NoError && faults == old(faults) && old(saved).None? && isOpen
      ensures ok ==> tables == WithoutDefaultsTo(old(tables), id) && id !in InterfaceIds(old(tables).interfaces)
      ensures ok ==>
                && tables == old(tables).(defaults := tables.defaults)
                && forall d :: d in tables.defaults <==> d in old(tables).defaults && d.interfaceId != id
      ensures !ok ==> Disk() == old(Disk())
      ensures faults == old(faults) ==> saved == old(saved)
      ensures Ended(old(saved), saved, old(stuck), stuck)
      ensures !ok && old(saved).None? && stuck == old(stuck) ==> saved.None? && tables == old(tables)
      ensures !ok ==> lastError != NoError
      ensures faults == old(faults) && isOpen ==> (ok <==> id !in InterfaceIds(old(tables).interfaces))
      ensures faults == old(faults) && isOpen && !ok ==> lastError == IfaceIDNotExternal
    {
      if !isOpen {
        lastError := SqlError;
        return false;
      }
      hide Integrity, WithoutDefaultsTo, InterfaceIds;
      ok := BeginTransaction();
      if ok {
        ok := RemoveDefaultInTransaction(id);
      }
    }

    method RemoveDefaultInTransaction(id: Id) returns (ok: bool)
      requires saved == Some(tables) && Integrity(tables, nextId)
      modifies `tables, `saved, `lastError, `faults, `stuck
      ensures faults >= old(faults) && Integrity(Disk(), nextId)
      ensures ok ==> saved.None? && lastError == NoError && faults == old(faults)
      ensures ok ==> tables == WithoutDefaultsTo(old(tables), id) && id !in InterfaceIds(old(tables).interfaces)
      ensures !ok ==> Disk() == old(tables)
      ensures faults == old(faults) ==> saved.None?
      ensures stuck >= old(stuck) && (saved.None? <==> stuck == old(stuck))
      ensures !ok ==> lastError != NoError
      ensures faults == old(faults) ==> (ok <==> id !in InterfaceIds(old(tables).interfaces))
      ensures faults == old(faults) && !ok ==> lastError == IfaceIDNotExternal
    {
      WithoutDefaultsKeeps(tables, nextId, id);
      hide Integrity;
      ok := ExecuteQuery();
      if ok {
        if id in InterfaceIds(tables.interfaces) {
          lastError := IfaceIDNotExternal;
          ok := false;
        } else {
          ok := ExecuteQuery();
          if ok {
            tables := WithoutDefaultsTo(tables, id);
          }
        }
      }
      hide WithoutDefaultsTo, InterfaceIds;
      ok := EndTransaction(ok);
    }

    // -----------------------------------------------------------------------------------------
    // Queries in a transaction of their own
    // -----------------------------------------------------------------------------------------

    /** A transaction that only reads is always rolled back. */
    method EndReading()
      requires saved == Some(tables)
      modifies `lastError, `faults, `saved, `tables, `stuck
      ensures faults >= old(faults) && tables == old(tables) && Disk() == old(tables)
      ensures faults == old(faults) ==> saved.None? && lastError == old(lastError)
      ensures stuck >= old(stuck) && (saved.None? <==> stuck == old(stuck))
    {
      var restored := RollbackTransaction();
    }

    /** interfaceDefault. */
    method InterfaceDefault(name: string) returns (found: Option<Descriptor>, external: Option<Id>)
      requires Valid()
      modifies `lastError, `faults, `saved, `tables, `stuck
      ensures Disk() == old(Disk()) && Valid() && faults >= old(faults)
      ensures lastError == NoError <==> found.Some?
      ensures lastError == ExternalIfaceIDFound <==> external.Some?
      ensures faults == old(faults) ==> saved == old(saved) && tables == old(tables)
      ensures Ended(old(saved), saved, old(stuck), stuck)
      ensures old(saved).None? && stuck == old(stuck) ==> saved.None? && tables == old(tables)
      ensures lastError == NotFound ==> !HasDefault(name, Disk().defaults)
      ensures external.Some? ==>
                DefaultIs(Disk(), name, external.value) && external.value !in InterfaceIds(Disk().interfaces)
      ensures found.Some? ==> DefaultLoads(Disk(), name, found.value)
      ensures lastError in {NoError, NotFound, ExternalIfaceIDFound} ==> DefaultReadable(Disk(), name)
      ensures faults == old(faults) && isOpen && DefaultReadable(Disk(), name) ==>
                lastError in {NoError, NotFound, ExternalIfaceIDFound}
    {
      found, external := None, None;
      if !isOpen {
        lastError := DatabaseNotOpen;
        return;
      }
      hide Integrity, DefaultReadable, HasDefault;
      var ok := BeginTransaction();
      if !ok {
        return;
      }
      found, external := LookUpDefault(name);
      var error := lastError;
      EndReading();
      if error in {NoError, NotFound, ExternalIfaceIDFound} || lastError in {NoError, ExternalIfaceIDFound, NotFound} {
        lastError := error;
      }
    }

    /** getInterface: the descriptor of an identifier. */
    method GetInterface(id: Id) returns (found: Option<Descriptor>)
      requires Valid()
      modifies `lastError, `faults, `saved, `tables, `stuck
      ensures Disk() == old(Disk()) && Valid() && faults >= old(faults)
      ensures lastError == NoError <==> found.Some?
      ensures faults == old(faults) ==> saved == old(saved) && tables == old(tables)
      ensures Ended(old(saved), saved, old(stuck), stuck)
      ensures old(saved).None? && stuck == old(stuck) ==> saved.None? && tables == old(tables)
      ensures lastError == NotFound ==> id !in InterfaceIds(Disk().interfaces)
      ensures found.Some? ==> IdLoads(Disk(), id, found.value) && HasProperties(Disk(), id)
      ensures faults == old(faults) && isOpen && id !in InterfaceIds(Disk().interfaces) ==> lastError == NotFound
      ensures faults == old(faults) && isOpen && HasProperties(Disk(), id) ==> lastError in {NoError, NotFound}
    {
      hide Integrity, IdLoads, HasProperties, InterfaceIds;
      found := None;
      if !isOpen {
        lastError := DatabaseNotOpen;
        return;
      }
      var ok := BeginTransaction();
      if !ok {
        return;
      }
      found := LookUpInterface(id);
      var error := lastError;
      EndReading();
      if error in {NoError, NotFound} || lastError in {NoError, NotFound} {
        lastError := error;
      }
    }

    method LookUpInterface(id: Id) returns (found: Option<Descriptor>)
      requires Integrity(tables, nextId)
      modifies `lastError, `faults
      ensures faults >= old(faults)
      ensures lastError in {NoError, NotFound, SqlError, NoWritePermissions, InvalidDatabaseFile}
      ensures lastError == NoError <==> found.Some?
      ensures lastError == NotFound ==> id !in InterfaceIds(tables.interfaces)
      ensures found.Some? ==> IdLoads(tables, id, found.value) && HasProperties(tables, id)
      ensures faults == old(faults) && id !in InterfaceIds(tables.interfaces) ==> lastError == NotFound
      ensures faults == old(faults) && HasProperties(tables, id) ==> lastError in {NoError, NotFound}
    {
      found := None;
      var ok := ExecuteQuery();
      if !ok {
        return;
      }
      if i, r :| i in tables.interfaces && r in tables.services && i.id == id && r.id == i.serviceId {
        var d;
        ok, d := LoadDescriptor(r, i);
        if ok {
          assert (r, i) in Joined(tables) && d == Loaded(tables, (r, i));
          found := Some(d);
        }
      } else {
        NoService(tables, nextId, id);
        lastError := NotFound;
      }
    }

    /** The public getInterfaceID: a single query, which is a transaction of its own. */
    method GetInterfaceId(d: Descriptor) returns (id: Option<Id>)
      modifies `lastError, `faults
      ensures faults >= old(faults)
      ensures lastError == NoError <==> id.Some?
      ensures id.Some? ==> isOpen && saved.None? && IsIdOf(tables, d, id.value)
      ensures lastError == NotFound ==> !HasRow(tables, d)
      ensures faults == old(faults) && isOpen ==> lastError == if HasRow(tables, d) then NoError else NotFound
    {
      id := None;
      if !isOpen {
        lastError := DatabaseNotOpen;
        return;
      }
      if saved.Some? {
        lastError := SqlError;
        faults := faults + 1;
        return;
      }
      id := FindInterfaceId(d);
      if id.Some? {
        RowFound(tables, d, id.value);
      }
    }

    // -----------------------------------------------------------------------------------------
    // getInterfaces
    // -----------------------------------------------------------------------------------------

    /** getInterfaces: what a filter matches. `rows` are the rows of the result, in the same order. */
    method GetInterfaces(filter: Filter) returns (result: seq<Descriptor>, ghost rows: seq<JoinedRow>)
      requires Valid()
      modifies `lastError, `faults, `saved, `tables, `stuck
      ensures Disk() == old(Disk()) && Valid() && faults >= old(faults)
      ensures faults == old(faults) ==> saved == old(saved) && tables == old(tables)
      ensures Ended(old(saved), saved, old(stuck), stuck)
      ensures old(saved).None? && stuck == old(stuck) ==> saved.None? && tables == old(tables)
      ensures lastError == NoError ==> Answers(Disk(), filter, result, rows)
      ensures lastError == NoError ==>
                var f := filter;
                forall x | x in Joined(Disk()) :: var d := Loaded(Disk(), x);
                  d in result <==>
                  && (f.serviceName == "" || SameName(d.serviceName, f.serviceName))
                  && (f.interfaceName == "" || SameName(d.interfaceName, f.interfaceName))
                  && (f.interfaceName == "" || f.majorVersion < 0 || f.minorVersion < 0
                      || if f.matchingRule == ExactVersionMatch
                         then d.major == f.majorVersion && d.minor == f.minorVersion
                         else !(d.major < f.majorVersion || (d.major == f.majorVersion && d.minor < f.minorVersion)))
                  && (f.capMatchingRule == MatchMinimum ==>
                        forall c | c in f.capabilities ::
                          d.attributes.capabilities.Some? && c in d.attributes.capabilities.value)
                  && (f.capMatchingRule == MatchLoadable && d.attributes.capabilities.Some? ==>
                        forall c | c in d.attributes.capabilities.value :: c in f.capabilities)
                  && (forall key | key in f.customAttributes ::
                        key in d.customAttributes && d.customAttributes[key] == f.customAttributes[key])
      ensures lastError != NoError ==> result == []
      ensures faults == old(faults) && isOpen ==>
                (lastError == NoError <==> AllStored(Disk(), Selected(Disk(), filter)))
    {
      result, rows := [], [];
      if !isOpen {
        lastError := DatabaseNotOpen;
        return;
      }
      hide Integrity, Answers, AllStored, Selected, Joined, Loaded, SameName;
      var ok := BeginTransaction();
      if !ok {
        return;
      }
      ok, result, rows := SelectInterfaces(filter);
      EndReading();
      if ok {
        lastError := NoError;
        AnswersExactly(Disk(), filter, result, rows);
      } else if lastError == NoError {
        lastError := SqlError;
      }
    }

    /** The query and the loop over its rows. */
    method SelectInterfaces(filter: Filter) returns (ok: bool, result: seq<Descriptor>, ghost rows: seq<JoinedRow>)
      requires Integrity(tables, nextId)
      modifies `lastError, `faults
      ensures faults >= old(faults)
      ensures ok ==>
                faults == old(faults) && Answers(tables, filter, result, rows)
                && AllStored(tables, Selected(tables, filter))
      ensures !ok ==> result == [] && lastError != NoError
      ensures !ok ==> faults > old(faults) || !AllStored(tables, Selected(tables, filter))
    {
      hide Integrity, Selected, Partial, Answers, AllStored;
      result, rows := [], [];
      ok := ExecuteQuery();
      if !ok {
        return;
      }
      var selected := Selected(tables, filter);
      var left := selected;
      ghost var done: set<JoinedRow> := {};
      PartialStart(tables, filter);
      while left != {}
        invariant ok && faults == old(faults) && selected == done + left && done !! left
        invariant Partial(tables, filter, done, result, rows) && AllStored(tables, done)
        decreases left
      {
        var x :| x in left;
        StoredSoFar(tables, selected, done, x);
        ok, result, rows := SelectRow(filter, x, done, result, rows);
        if !ok {
          return;
        }
        left, done := left - {x}, done + {x};
      }
      assert done == selected;
      PartialEnd(tables, filter, result, rows);
    }

    method SelectRow(filter: Filter, x: JoinedRow, ghost done: set<JoinedRow>, before: seq<Descriptor>,
        ghost rowsBefore: seq<JoinedRow>)
      returns (ok: bool, result: seq<Descriptor>, ghost rows: seq<JoinedRow>)
      requires Integrity(tables, nextId) && x in Selected(tables, filter) && x !in done
                 && Partial(tables, filter, done, before, rowsBefore)
      modifies `lastError, `faults
      ensures faults >= old(faults)
      ensures ok ==>
                faults == old(faults) && HasProperties(tables, x.1.id)
                && Partial(tables, filter, done + {x}, result, rows)
      ensures !ok ==> result == [] && lastError != NoError
      ensures !ok ==> faults > old(faults) || !HasProperties(tables, x.1.id)
    {
      SelectedRow(tables, filter, x);
      hide Integrity, HasProperties, Partial, Selected, RowMatches, Implements, Matches, CapabilitiesMatch,
        CustomMatches;
      result, rows := before, rowsBefore;
      var d;
      ok, d := LoadDescriptor(x.0, x.1);
      if !ok {
        return false, [], [];
      }
      var matching := CheckDescriptor(filter, d);
      PartialNext(tables, filter, done, before, rowsBefore, x);
      if matching {
        result := result + [d];
        rows := rows + [x];
      }
    }

    /** The checks on a row that the query does not make: capabilities and custom attributes. */
    method CheckDescriptor(filter: Filter, d: Descriptor) returns (matching: bool)
      ensures matching <==> CapabilitiesMatch(filter, d) && CustomMatches(filter, d)
      ensures matching <==>
              && (filter.capMatchingRule == MatchMinimum ==>
                    forall c | c in filter.capabilities ::
                      d.attributes.capabilities.Some? && c in d.attributes.capabilities.value)
              && (filter.capMatchingRule == MatchLoadable && d.attributes.capabilities.Some? ==>
                    forall c | c in d.attributes.capabilities.value :: c in filter.capabilities)
              && (forall key | key in filter.customAttributes ::
                    key in d.customAttributes && d.customAttributes[key] == filter.customAttributes[key])
    {
      CapabilitiesMean(filter, d);
      var filterCaps, ifaceCaps := AsSet(filter.capabilities), CapabilitiesOf(d);
      var difference := if filter.capMatchingRule == MatchMinimum then filterCaps - ifaceCaps
        else ifaceCaps - filterCaps;
      if difference != {} {
        return false;
      }
      if |filter.customAttributes| == 0 {
        assert filter.customAttributes == map[];
        return true;
      }
      var keyDiff := filter.customAttributes.Keys - d.customAttributes.Keys;
      if keyDiff != {} {
        var key :| key in keyDiff;
        return false;
      }
      assert forall key | key in filter.customAttributes :: key in d.customAttributes by {
        forall key | key in filter.customAttributes
          ensures key in d.customAttributes
        {
          assert key !in keyDiff;
        }
      }
      matching := true;
      var left := filter.customAttributes.Keys;
      while left != {}
        invariant left <= filter.customAttributes.Keys && matching
        invariant forall key | key in filter.customAttributes && key !in left ::
                    d.customAttributes[key] == filter.customAttributes[key]
        decreases left
      {
        var key :| key in left;
        left := left - {key};
        if d.customAttributes[key] != filter.customAttributes[key] {
          return false;
        }
      }
    }
  }

  /** An answer holds exactly the descriptors that the filter asks for. */
  lemma {:induction false} AnswersExactly(t: Tables, f: Filter, result: seq<Descriptor>, rows: seq<JoinedRow>)
    requires Answers(t, f, result, rows)
    ensures forall x | x in Joined(t) :: var d := Loaded(t, x);
              d in result <==>
              && (f.serviceName == "" || SameName(d.serviceName, f.serviceName))
              && (f.interfaceName == "" || SameName(d.interfaceName, f.interfaceName))
              && (f.interfaceName == "" || f.majorVersion < 0 || f.minorVersion < 0
                  || if f.matchingRule == ExactVersionMatch
                     then d.major == f.majorVersion && d.minor == f.minorVersion
                     else !(d.major < f.majorVersion || (d.major == f.majorVersion && d.minor < f.minorVersion)))
              && (f.capMatchingRule == MatchMinimum ==>
                    forall c | c in f.capabilities ::
                      d.attributes.capabilities.Some? && c in d.attributes.capabilities.value)
              && (f.capMatchingRule == MatchLoadable && d.attributes.capabilities.Some? ==>
                    forall c | c in d.attributes.capabilities.value :: c in f.capabilities)
              && (forall key | key in f.customAttributes ::
                    key in d.customAttributes && d.customAttributes[key] == f.customAttributes[key])
  {
    hide Joined, Loaded, Matches, SameName;
    forall x | x in Joined(t)
      ensures Loaded(t, x) in result <==> Matches(f, Loaded(t, x))
    {
      if Matches(f, Loaded(t, x)) {
        var k :| 0 <= k < |rows| && rows[k] == x;
        assert result[k] == Loaded(t, x);
      }
    }
    forall x | x in Joined(t) {
      FilterMeans(f, Loaded(t, x));
    }
  }

  /** Part of an answer: of the rows in `done`, those that match, once each. */
  ghost predicate Partial(t: Tables, f: Filter, done: set<JoinedRow>, result: seq<Descriptor>, rows: seq<JoinedRow>) {
    && |rows| == |result|
    && (forall k | 0 <= k < |rows| :: rows[k] in done && result[k] == Loaded(t, rows[k]) && Matches(f, result[k]))
    && (forall j, k | 0 <= j < k < |rows| :: rows[j] != rows[k])
    && (forall x | x in done && Matches(f, Loaded(t, x)) :: x in rows)
  }

  lemma {:induction false} PartialStart(t: Tables, f: Filter)
    ensures Partial(t, f, {}, [], []) && AllStored(t, {})
  {
  }

  lemma {:induction false} StoredSoFar(t: Tables, selected: set<JoinedRow>, done: set<JoinedRow>, x: JoinedRow)
    requires AllStored(t, done) && x in selected
    ensures HasProperties(t, x.1.id) ==> AllStored(t, done + {x})
    ensures !HasProperties(t, x.1.id) ==> !AllStored(t, selected)
  {
    hide HasProperties;
  }

  lemma {:induction false} SelectedRow(t: Tables, f: Filter, x: JoinedRow)
    requires x in Selected(t, f)
    ensures x.1 in t.interfaces && Implements(x.0, x.1, t.services) && RowMatches(f, x)
              && Loaded(t, x) == DescriptorOf(t, x.0, x.1)
  {
    hide RowMatches, DescriptorOf;
  }

  lemma {:induction false} PartialNext(t: Tables, f: Filter, done: set<JoinedRow>, result: seq<Descriptor>,
      rows: seq<JoinedRow>, x: JoinedRow)
    requires Partial(t, f, done, result, rows) && x !in done && RowMatches(f, x)
    ensures var d := Loaded(t, x);
      if CapabilitiesMatch(f, d) && CustomMatches(f, d) then Partial(t, f, done + {x}, result + [d], rows + [x])
      else Partial(t, f, done + {x}, result, rows)
  {
    RowMatchesNames(t, f, x);
    hide RowMatches, NamesMatch, CapabilitiesMatch, CustomMatches, Loaded;
  }

  lemma {:induction false} PartialEnd(t: Tables, f: Filter, result: seq<Descriptor>, rows: seq<JoinedRow>)
    requires Partial(t, f, Selected(t, f), result, rows)
    ensures Answers(t, f, result, rows)
  {
    hide RowMatches, NamesMatch, CapabilitiesMatch, CustomMatches, Loaded;
    forall x | x in Joined(t) && Matches(f, Loaded(t, x))
      ensures x in rows
    {
      RowMatchesNames(t, f, x);
    }
  }

  /** The row of a descriptor implements its interface. */
  lemma {:induction false} RowImplements(t: Tables, d: Descriptor, id: Id)
    requires IsIdOf(t, d, id)
    ensures ImplementedBy(d.interfaceName, id, t.interfaces)
  {
    hide Lower;
    var i, r :| IsRowOf(t, d, i, r) && i.id == id;
  }

  lemma {:induction false} UniqueDefaults(t: Tables, next: Id)
    requires Integrity(t, next)
    ensures UniqueNames(t.defaults)
  {
    hide ServicesOk, InterfacesOk, OwnersOk, Described, Lower, ImplementedBy;
  }

  lemma {:induction false} KeptTables(t: Tables, name: string)
    ensures WithoutService(t, name).defaults == t.defaults
    ensures forall chosen ::
              Unregistered(t, name, chosen) == WithoutService(t, name).(defaults := Reelected(t, name, chosen))
  {
    hide InterfacesOf, NamedServices, Reelected;
  }

  lemma {:induction false} NoBest(rows: set<InterfaceRow>, name: string)
    requires forall i | i in rows :: !Best(i.id, Lower(name), rows)
    ensures !Implemented(name, rows)
  {
    hide Best, Lower;
    if Implemented(name, rows) {
      GreatestExists(rows, name);
    }
  }

  /** What the checks of a registration find, and the error that goes with it. */
  lemma {:induction false} WhatCanFail(t: Tables, s: Results)
    requires ServiceOk(s) && s.interfaces != []
    ensures LocationTaken(t, StoredLocation(s)) ==>
              !Registrable(t, s) && RightError(t, s, false, LocationAlreadyRegistered)
    ensures !LocationTaken(t, StoredLocation(s)) && !NoneThere(t, s, |s.interfaces|) ==>
              !Registrable(t, s) && RightError(t, s, false, IfaceImplAlreadyRegistered)
    ensures !LocationTaken(t, StoredLocation(s)) && NoneThere(t, s, |s.interfaces|) ==>
              Registrable(t, s) && forall e :: RightError(t, s, false, e)
  {
    hide LocationTaken, StoredLocation, HasRow, ServiceOk;
  }

  lemma {:induction false} RightAccepted(t: Tables, s: Results)
    requires Registrable(t, s)
    ensures s.interfaces != [] && RightError(t, s, true, NoError)
  {
    hide LocationTaken, StoredLocation, HasRow, SameDescriptor, SameName;
  }

  lemma {:induction false} AllDefaultsMade(t: Tables, s: Results, next: Id)
    requires ServiceOk(s)
    ensures WithDefaults(t, s, next, |s.latest|) == Registered(t, s, next)
    ensures ReadableUpTo(t, s, |s.latest|) ==> AllReadable(t, s)
    ensures ReadableUpTo(t, s, 0)
  {
    hide NewDefaults, WithService, SameDescriptor, AllIn, DefaultReadable;
  }

  lemma {:induction false} LoadFacts(t: Tables, next: Id, r: ServiceRow)
    requires Integrity(t, next) && r in t.services
    ensures OwnersOk(t.interfaceProps, InterfaceIds(t.interfaces)) && OwnersOk(t.serviceProps, ServiceIds(t.services))
    ensures HasProperty(r.id, DESCRIPTION_KEY, t.serviceProps)
  {
    hide OwnersOk, ServicesOk, InterfacesOk, DefaultsOk, HasProperty;
  }

  /** What it takes to read the only default of a name. */
  lemma {:induction false} OneDefault(t: Tables, next: Id, name: string, d: DefaultRow)
    requires Integrity(t, next) && d in t.defaults && SameName(d.interfaceName, name)
    ensures HasDefault(name, t.defaults) && DefaultIs(t, name, d.interfaceId)
    ensures DefaultReadable(t, name) <==>
              (d.interfaceId in InterfaceIds(t.interfaces) ==> HasProperties(t, d.interfaceId))
  {
    hide OwnersOk, ServicesOk, InterfacesOk, Described, Lower, HasProperties;
  }

  lemma {:induction false} NoDefault(t: Tables, name: string)
    requires forall d | d in t.defaults :: !SameName(d.interfaceName, name)
    ensures !HasDefault(name, t.defaults) && DefaultReadable(t, name)
  {
    hide SameName, HasProperties;
  }

  /** A local default implements its name. */
  lemma {:induction false} DefaultNamed(t: Tables, next: Id, name: string, i: InterfaceRow)
    requires Integrity(t, next) && i in t.interfaces
    requires exists d :: d in t.defaults && SameName(d.interfaceName, name) && d.interfaceId == i.id
    ensures SameName(i.name, name)
  {
    hide OwnersOk, ServicesOk, Described, Lower;
    var d :| d in t.defaults && SameName(d.interfaceName, name) && d.interfaceId == i.id;
    assert ImplementedBy(d.interfaceName, d.interfaceId, t.interfaces);
  }

  /** An interface in the tables belongs to a service. */
  lemma {:induction false} NoService(t: Tables, next: Id, id: Id)
    requires Integrity(t, next)
    requires forall i, r | i in t.interfaces && r in t.services && i.id == id :: r.id != i.serviceId
    ensures id !in InterfaceIds(t.interfaces)
  {
    hide OwnersOk, ServicesOk, Described, DefaultsOk, SameName;
    forall i | i in t.interfaces
      ensures i.id != id
    {
      assert i.serviceId in ServiceIds(t.services);
      var r :| r in t.services && r.id == i.serviceId;
    }
  }

  lemma {:induction false} NoRows(id: Id, props: set<Property>)
    requires RowsOf(id, props) == {}
    ensures forall p | p in props :: p.owner != id
  {
    forall p | p in props
      ensures p.owner != id
    {
      assert p in RowsOf(id, props) <==> p.owner == id;
    }
  }

  lemma {:induction false} PrefixLength(key: string)
    requires StartsWith(key, CUSTOM_PREFIX)
    ensures |key| >= 2
  {
  }
}
